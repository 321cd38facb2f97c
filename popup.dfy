/**
 * The management popup (popup.js): how entries are shown and filtered, and
 * the add, edit, delete and import handlers. The add and delete handlers
 * load the stored object, change it and write it back; the edit handler
 * only reads it, and import replaces it with the parsed object.
 */
module Popup {
  import opened Wrappers
  import opened JsText
  import opened Shortcuts
  import opened HtmlEscape
  import opened KeyOrder

  /** The value and category a list row shows for an entry. */
  datatype Display = Display(value: string, category: string)

  /** A bare string shows itself with no category; an object its `value` and `category`; anything else nothing. */
  function Normalize(e: Entry): (r: Display)
    ensures r.value == Resolve(e)
    ensures e.Obj? ==> r.category == e.category
    ensures !e.Obj? ==> r.category == ""
  {
    match e
    case Str(s) => Display(s, "")
    case Obj(value, category) => Display(value, category)
    case Other(_) => Display("", "")
  }

  /** `category || 'General'`. */
  function CategoryLabel(category: string): (r: string)
    ensures r != ""
    ensures category != "" ==> r == category
  {
    if category == "" then "General" else category
  }

  /** The popup shows the same expansion the engine would insert, and a category label that is never empty. */
  lemma NormalizeAgreesWithEngine(e: Entry)
    ensures Normalize(e).value == Resolve(e)
    ensures CategoryLabel(Normalize(e).category) != ""
    ensures e.Obj? && e.category != "" ==> CategoryLabel(Normalize(e).category) == e.category
    ensures !e.Obj? ==> CategoryLabel(Normalize(e).category) == "General"
  {
  }

  /** One `<li>` of the list. */
  datatype ListItem =
    | NoShortcuts                                                // `<li class="empty">No shortcuts found.</li>`
    | Row(keyHtml: string, categoryHtml: string, valueHtml: string)

  /** The row drawn for a key: key and category escaped, the value inserted as markup. */
  function RowFor(key: string, e: Entry): (r: ListItem)
    ensures r.Row? && Unescape(r.keyHtml) == key && r.valueHtml == Resolve(e)
    ensures Unescape(r.categoryHtml) == CategoryLabel(Normalize(e).category)
  {
    var d := Normalize(e);
    Row(EscapeHtml(Some(key)), EscapeHtml(Some(CategoryLabel(d.category))), d.value)
  }

  /** The key and category cells of a row cannot open or close a tag, and the key cell decodes back to the key. */
  lemma RowCellsAreText(key: string, e: Entry)
    ensures var row := RowFor(key, e);
      && '<' !in row.keyHtml && '>' !in row.keyHtml && '"' !in row.keyHtml
      && '<' !in row.categoryHtml && '>' !in row.categoryHtml
      && Unescape(row.keyHtml) == key
  {
    UnescapeEscape(key);
  }

  /** `k.toLowerCase().includes((filter || '').toLowerCase())`, with ASCII case folding. */
  function Matches(key: string, filter: string): (r: bool)
    ensures filter == "" ==> r
    ensures r ==> |filter| <= |key|
  {
    Includes(ToLowerAscii(key), ToLowerAscii(filter))
  }

  /** `keys.filter(...)`: each key is kept, as often as it occurs, exactly when it matches. */
  function FilterKeys(keys: seq<string>, filter: string): (r: seq<string>)
    ensures forall k :: multiset(r)[k] == if Matches(k, filter) then multiset(keys)[k] else 0
    ensures |r| <= |keys|
  {
    if keys == [] then []
    else
      var rest := FilterKeys(keys[1..], filter);
      assert keys == [keys[0]] + keys[1..];
      if Matches(keys[0], filter) then [keys[0]] + rest else rest
  }

  /** The empty filter lists every key. */
  lemma {:induction false} EmptyFilterKeepsAll(keys: seq<string>)
    ensures FilterKeys(keys, "") == keys
  {
    if keys != [] {
      assert OccursAt(ToLowerAscii(keys[0]), ToLowerAscii(""), 0);
      EmptyFilterKeepsAll(keys[1..]);
    }
  }

  /** The keys of a registry that the filter lets through. */
  function MatchingKeys(shortcuts: Registry, filter: string): set<string> {
    set k | k in shortcuts.Keys && Matches(k, filter)
  }

  /** The rows for a sequence of registered keys, in order. */
  function Rows(shortcuts: Registry, listed: seq<string>): (r: seq<ListItem>)
    requires forall i :: 0 <= i < |listed| ==> listed[i] in shortcuts
  {
    seq(|listed|, i requires 0 <= i < |listed| => RowFor(listed[i], shortcuts[listed[i]]))
  }

  /** Appending a key appends its row. */
  lemma RowsAppend(shortcuts: Registry, listed: seq<string>, key: string)
    requires forall i :: 0 <= i < |listed| ==> listed[i] in shortcuts
    requires key in shortcuts
    ensures Rows(shortcuts, listed + [key]) == Rows(shortcuts, listed) + [RowFor(key, shortcuts[key])]
  {
    var ks := listed + [key];
    assert forall i :: 0 <= i < |listed| ==> ks[i] == listed[i];
  }

  /** The rows of a prefix one key longer end with that key's row. */
  lemma RowsPrefix(shortcuts: Registry, listed: seq<string>, i: nat)
    requires forall j :: 0 <= j < |listed| ==> listed[j] in shortcuts
    requires i < |listed|
    ensures Rows(shortcuts, listed[..i + 1]) == Rows(shortcuts, listed[..i]) + [RowFor(listed[i], shortcuts[listed[i]])]
  {
    var before, after := listed[..i], listed[..i + 1];
    assert after == before + [listed[i]];
    RowsAppend(shortcuts, before, listed[i]);
  }

  /** `listed` names each matching key exactly once, in some order. */
  predicate IsListing(listed: seq<string>, shortcuts: Registry, filter: string) {
    multiset(listed) == multiset(MatchingKeys(shortcuts, filter))
  }

  /** Filtering an enumeration of the registry's keys lists each matching key once. */
  lemma FilterGivesListing(keys: seq<string>, shortcuts: Registry, filter: string)
    requires multiset(keys) == multiset(shortcuts.Keys)
    ensures IsListing(FilterKeys(keys, filter), shortcuts, filter)
  {
    var visible := FilterKeys(keys, filter);
    forall k ensures multiset(visible)[k] == multiset(MatchingKeys(shortcuts, filter))[k] {
      assert k in MatchingKeys(shortcuts, filter) <==> k in shortcuts.Keys && Matches(k, filter);
    }
  }

  /** The keys a list shows are registered keys. */
  lemma ListingRegistered(listed: seq<string>, shortcuts: Registry, filter: string)
    requires IsListing(listed, shortcuts, filter)
    ensures forall i :: 0 <= i < |listed| ==> listed[i] in shortcuts && Matches(listed[i], filter)
  {
    forall i | 0 <= i < |listed| ensures listed[i] in shortcuts && Matches(listed[i], filter) {
      assert listed[i] in multiset(listed);
    }
  }

  /** The `<ul>` of the popup. */
  class ShortcutList {
    var items: seq<ListItem>

    constructor ()
      ensures items == []
    {
      items := [];
    }

    /**
     * `renderShortcuts(filter)` once the registry is loaded: an empty
     * registry shows the "No shortcuts found." item; otherwise one row per
     * key that matches the filter, each key once, in the order of the
     * `localeCompare` sort (left unspecified here).
     */
    method Render(shortcuts: Registry, filter: string)
      modifies this
      ensures |shortcuts| == 0 ==> items == [NoShortcuts]
      ensures |shortcuts| != 0 ==> exists listed ::
        && IsListing(listed, shortcuts, filter)
        && (forall i :: 0 <= i < |listed| ==> listed[i] in shortcuts)
        && items == Rows(shortcuts, listed)
    {
      items := [];
      EnumerationExists(shortcuts.Keys);
      var keys :| Enumerates(keys, shortcuts.Keys);
      EnumerationLength(keys, shortcuts.Keys);
      if |keys| == 0 {
        items := [NoShortcuts];
        return;
      }

      var visible := FilterKeys(keys, filter);
      FilterGivesListing(keys, shortcuts, filter);
      var listed :| multiset(listed) == multiset(visible);
      assert IsListing(listed, shortcuts, filter);
      ListingRegistered(listed, shortcuts, filter);
      AppendRows(shortcuts, listed);
    }

    /** The `forEach` that appends one `<li>` per listed key. */
    method AppendRows(shortcuts: Registry, listed: seq<string>)
      requires forall i :: 0 <= i < |listed| ==> listed[i] in shortcuts
      modifies this
      ensures items == old(items) + Rows(shortcuts, listed)
    {
      ghost var before := items;
      for i := 0 to |listed|
        invariant items == before + Rows(shortcuts, listed[..i])
      {
        RowsPrefix(shortcuts, listed, i);
        items := items + [RowFor(listed[i], shortcuts[listed[i]])];
      }
      assert listed[..|listed|] == listed;
    }
  }

  /** The form fields of the edit button. */
  datatype Form = Form(key: string, value: string, category: string)

  /**
   * The edit button: nothing for a missing or falsy entry; a bare string
   * fills the value with an empty category; anything else its `value` and
   * `category`.
   */
  function EditForm(shortcuts: Registry, key: string): (r: Option<Form>)
    ensures r.None? <==> key !in shortcuts || shortcuts[key] == Str("") || shortcuts[key] == Other(false)
    ensures r.Some? ==> r.value.key == key && r.value.value == Resolve(shortcuts[key])
    ensures r.Some? ==> r.value.category == Normalize(shortcuts[key]).category
  {
    if key !in shortcuts then None
    else match shortcuts[key]
      case Str(s) => if s == "" then None else Some(Form(key, s, ""))
      case Obj(value, category) => Some(Form(key, value, category))
      case Other(truthy) => if truthy then Some(Form(key, "", "")) else None
  }

  /**
   * The add button on the loaded registry: the three fields are trimmed; a
   * blank key or value is rejected; otherwise the key is set to a
   * `{value, category}` object.
   */
  function Added(shortcuts: Registry, keyField: string, valueField: string, categoryField: string): (r: Option<Registry>)
    ensures r.None? <==> Trim(keyField) == "" || Trim(valueField) == ""
    ensures r.Some? ==> r.value.Keys == shortcuts.Keys + {Trim(keyField)}
    ensures r.Some? ==> r.value[Trim(keyField)] == Obj(Trim(valueField), Trim(categoryField))
    ensures r.Some? ==> forall k :: k in shortcuts && k != Trim(keyField) ==> r.value[k] == shortcuts[k]
  {
    var key := Trim(keyField);
    var value := Trim(valueField);
    var category := Trim(categoryField);
    if key == "" || value == "" then None
    else
      SetEntry(shortcuts, key, Obj(value, category));
      Some(shortcuts[key := Obj(value, category)])
  }

  /**
   * The add button as written. Assigning `shortcuts["__proto__"]` on an
   * object with no own "__proto__" entry runs the inherited `__proto__`
   * setter: the object's prototype changes, no entry is stored, and the
   * registry written back is the loaded one. Every other add is `Added`.
   */
  function AddedAsWritten(shortcuts: Registry, keyField: string, valueField: string, categoryField: string): (r: Option<Registry>)
    ensures r.None? <==> Added(shortcuts, keyField, valueField, categoryField).None?
    ensures Trim(keyField) != "__proto__" || "__proto__" in shortcuts ==> r == Added(shortcuts, keyField, valueField, categoryField)
    ensures r.Some? && Trim(keyField) == "__proto__" && "__proto__" !in shortcuts ==> r.value == shortcuts
  {
    if Trim(keyField) == "__proto__" && "__proto__" !in shortcuts && Trim(valueField) != "" then Some(shortcuts)
    else Added(shortcuts, keyField, valueField, categoryField)
  }

  /**
   * A shortcut named "__proto__" cannot be added: the add reports success,
   * but the registry written back lacks the key, where the intended add
   * would hold it.
   */
  lemma ProtoKeyNotStored(shortcuts: Registry, valueField: string, categoryField: string)
    requires "__proto__" !in shortcuts && Trim(valueField) != ""
    ensures Added(shortcuts, "__proto__", valueField, categoryField).Some?
    ensures "__proto__" in Added(shortcuts, "__proto__", valueField, categoryField).value
    ensures AddedAsWritten(shortcuts, "__proto__", valueField, categoryField) == Some(shortcuts)
    ensures "__proto__" !in AddedAsWritten(shortcuts, "__proto__", valueField, categoryField).value
  {
    assert Trim("__proto__") == "__proto__" by {
      TrimKeepsUnpadded("__proto__");
    }
  }

  /** Setting a key adds it and leaves every other key's entry as it was. */
  lemma SetEntry(m: Registry, key: string, e: Entry)
    ensures m[key := e].Keys == m.Keys + {key}
    ensures forall k :: k in m && k != key ==> m[key := e][k] == m[k]
  {
  }

  /** Setting a key to the entry it already has changes nothing. */
  lemma SetAgain(m: Registry, key: string, e: Entry)
    ensures m[key := e][key := e] == m[key := e]
  {
  }

  /** Removing a key just set, that was absent before, restores the map. */
  lemma RemoveAfterSet(m: Registry, key: string, e: Entry)
    requires key !in m
    ensures m[key := e] - {key} == m
  {
    assert (m[key := e] - {key}).Keys == m.Keys;
  }

  /** A successful add is the update of the trimmed key. */
  lemma AddedIsUpdate(shortcuts: Registry, keyField: string, valueField: string, categoryField: string)
    requires Added(shortcuts, keyField, valueField, categoryField).Some?
    ensures Added(shortcuts, keyField, valueField, categoryField).value
         == shortcuts[Trim(keyField) := Obj(Trim(valueField), Trim(categoryField))]
  {
  }

  /** An add is rejected exactly when the key or the value field holds only white space. */
  lemma AddRejectedIffBlank(shortcuts: Registry, keyField: string, valueField: string, categoryField: string)
    ensures Added(shortcuts, keyField, valueField, categoryField).None? <==> IsBlank(keyField) || IsBlank(valueField)
  {
    TrimEmptyIffBlank(keyField);
    TrimEmptyIffBlank(valueField);
  }

  /** Editing an entry just added shows the trimmed fields it was added with. */
  lemma AddThenEdit(shortcuts: Registry, keyField: string, valueField: string, categoryField: string)
    requires Added(shortcuts, keyField, valueField, categoryField).Some?
    ensures EditForm(Added(shortcuts, keyField, valueField, categoryField).value, Trim(keyField))
         == Some(Form(Trim(keyField), Trim(valueField), Trim(categoryField)))
  {
  }

  /** Adding the same fields twice is adding them once. */
  lemma AddIdempotent(shortcuts: Registry, keyField: string, valueField: string, categoryField: string)
    requires Added(shortcuts, keyField, valueField, categoryField).Some?
    ensures var once := Added(shortcuts, keyField, valueField, categoryField).value;
      Added(once, keyField, valueField, categoryField) == Some(once)
  {
    var key, e := Trim(keyField), Obj(Trim(valueField), Trim(categoryField));
    AddedIsUpdate(shortcuts, keyField, valueField, categoryField);
    var once := shortcuts[key := e];
    AddedIsUpdate(once, keyField, valueField, categoryField);
    SetAgain(shortcuts, key, e);
  }

  /**
   * The delete handler on the loaded registry, as evidently intended
   * (`Object.prototype.hasOwnProperty.call(shortcutsInner, key)`): a key the
   * registry has is removed and the rest written back; any other key writes
   * nothing (`None`).
   */
  function Deleted(shortcuts: Registry, key: string): (r: Option<Registry>)
    ensures r.None? <==> key !in shortcuts
    ensures r.Some? ==> r.value.Keys == shortcuts.Keys - {key}
    ensures r.Some? ==> forall k :: k in r.value ==> r.value[k] == shortcuts[k]
  {
    if key in shortcuts then Some(shortcuts - {key}) else None
  }

  /**
   * The delete handler as written: `shortcutsInner.hasOwnProperty(key)`
   * calls whatever the loaded object holds under "hasOwnProperty". When the
   * registry has an entry of that name (a string or an object, never a
   * function) the call throws a `TypeError` and nothing is written.
   */
  function DeletedAsWritten(shortcuts: Registry, key: string): (r: Option<Registry>)
    ensures "hasOwnProperty" !in shortcuts ==> r == Deleted(shortcuts, key)
    ensures "hasOwnProperty" in shortcuts ==> r.None?
  {
    if "hasOwnProperty" in shortcuts then None else Deleted(shortcuts, key)
  }

  /**
   * Once a shortcut named "hasOwnProperty" is registered, no delete button
   * works any more, its own included.
   */
  lemma OwnHasOwnPropertyBlocksDelete(shortcuts: Registry, key: string, e: Entry)
    requires key in shortcuts || key == "hasOwnProperty"
    ensures var blocked := shortcuts["hasOwnProperty" := e];
      && Deleted(blocked, key).Some?
      && DeletedAsWritten(blocked, key).None?
  {
  }

  /** Deleting a key that an add introduced gives back the registry as it was before the add. */
  lemma DeleteUndoesAdd(shortcuts: Registry, keyField: string, valueField: string, categoryField: string)
    requires Added(shortcuts, keyField, valueField, categoryField).Some?
    requires Trim(keyField) !in shortcuts
    ensures Deleted(Added(shortcuts, keyField, valueField, categoryField).value, Trim(keyField)) == Some(shortcuts)
  {
    AddedIsUpdate(shortcuts, keyField, valueField, categoryField);
    RemoveAfterSet(shortcuts, Trim(keyField), Obj(Trim(valueField), Trim(categoryField)));
  }

  /** The value stored under `shortcuts` in `chrome.storage.sync`, as the popup sees it. */
  class SyncStorage {
    var shortcuts: Stored

    constructor (initial: Stored)
      ensures shortcuts == initial
    {
      shortcuts := initial;
    }
  }

  /** The add button's click handler, as written. */
  method AddShortcut(storage: SyncStorage, keyField: string, valueField: string, categoryField: string)
    returns (added: bool)
    modifies storage
    ensures var r := AddedAsWritten(Snapshot(old(storage.shortcuts)), keyField, valueField, categoryField);
      && added == r.Some?
      && storage.shortcuts == (if added then Object(r.value) else old(storage.shortcuts))
  {
    var key := Trim(keyField);
    var value := Trim(valueField);
    var category := Trim(categoryField);
    if key == "" || value == "" {
      return false;
    }
    var shortcuts := Snapshot(storage.shortcuts);
    if key == "__proto__" && "__proto__" !in shortcuts {
      // the inherited `__proto__` setter takes the assignment
    } else {
      shortcuts := shortcuts[key := Obj(value, category)];
    }
    storage.shortcuts := Object(shortcuts);
    added := true;
  }

  /**
   * The delete button's click handler, as written: only a key the loaded
   * registry has is deleted and written back, and nothing at all happens
   * when the registry has an entry named "hasOwnProperty".
   */
  method DeleteShortcut(storage: SyncStorage, key: string) returns (deleted: bool)
    modifies storage
    ensures var r := DeletedAsWritten(Snapshot(old(storage.shortcuts)), key);
      && deleted == r.Some?
      && storage.shortcuts == (if deleted then Object(r.value) else old(storage.shortcuts))
  {
    var shortcuts := Snapshot(storage.shortcuts);
    if "hasOwnProperty" in shortcuts {
      // `shortcutsInner.hasOwnProperty` is an entry, not a function: the call throws
      return false;
    }
    deleted := key in shortcuts;
    if deleted {
      shortcuts := shortcuts - {key};
      storage.shortcuts := Object(shortcuts);
    }
  }

  /**
   * The import handler, given the result of `JSON.parse` (`None` when it
   * throws): anything but an object is rejected with no write; an object
   * replaces the stored registry as a whole.
   */
  method ImportShortcuts(storage: SyncStorage, parsed: Option<Stored>) returns (imported: bool)
    modifies storage
    ensures imported <==> parsed.Some? && parsed.value.Object?
    ensures imported ==> storage.shortcuts == parsed.value && Snapshot(storage.shortcuts) == parsed.value.fields
    ensures !imported ==> storage.shortcuts == old(storage.shortcuts)
  {
    if parsed.None? {
      return false;
    }
    var value := parsed.value;
    if !value.Object? {
      return false;
    }
    storage.shortcuts := value;
    imported := true;
  }
}
