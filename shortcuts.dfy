/**
 * The shortcut registry: the entries stored under the `shortcuts` key of
 * `chrome.storage.sync`, and the content script's in-memory copy of them
 * (the global `SHORTCUTS` of content.js).
 */
module Shortcuts {

  /**
   * One value of the registry object. Legacy entries are bare strings; the
   * management popup writes `{value, category}` objects (a missing field is
   * the empty string); any other JSON value (null, a number, a boolean) is
   * `Other`, with its JavaScript truthiness.
   */
  datatype Entry = Str(s: string) | Obj(value: string, category: string) | Other(truthy: bool)

  type Registry = map<string, Entry>

  /**
   * A value read from storage or produced by `JSON.parse`: absent
   * (`undefined`), `null`, a number or boolean with its truthiness, a string,
   * or an object keyed by shortcut.
   */
  datatype Stored = Absent | Null | Scalar(truthy: bool) | Text(s: string) | Object(fields: Registry)

  /**
   * The expansion of an entry as the engine reads it: the string itself, the
   * object's `value` (or "" when it has none), and "" for anything else.
   */
  function Resolve(e: Entry): (r: string)
    ensures e.Other? ==> r == ""
    ensures r != "" ==> e == Str(r) || (e.Obj? && e.value == r)
  {
    match e
    case Str(s) => s
    case Obj(value, _) => value
    case Other(_) => ""
  }

  /**
   * The registry a stored value stands for: an object is taken as it is,
   * everything else becomes the empty registry.
   */
  function Snapshot(v: Stored): (r: Registry)
    ensures v.Object? ==> r == v.fields
    ensures !v.Object? ==> r == map[]
  {
    if v.Object? then v.fields else map[]
  }

  /** The `shortcuts` member of a `chrome.storage.onChanged` change set. */
  datatype Change = Change(newValue: Stored)

  /** The content script's cached copy of the registry (`SHORTCUTS`). */
  class ShortcutCache {
    var shortcuts: Registry

    /** `let SHORTCUTS = {}`. */
    constructor ()
      ensures shortcuts == map[]
    {
      shortcuts := map[];
    }

    /**
     * The callback of the startup `chrome.storage.sync.get`: the whole
     * snapshot is replaced; a missing or non-object value gives `{}`.
     */
    method Load(stored: Stored)
      modifies this
      ensures shortcuts == Snapshot(stored)
      ensures stored.Object? ==> shortcuts == stored.fields
      ensures !stored.Object? ==> shortcuts == map[]
    {
      if stored.Object? {
        shortcuts := stored.fields;
      } else {
        shortcuts := map[];
      }
    }

    /**
     * The `chrome.storage.onChanged` listener: only a change in area "sync"
     * that touches `shortcuts` replaces the snapshot, wholesale, by the new
     * value or by `{}` when there is none.
     */
    method OnChanged(changes: map<string, Change>, area: string)
      modifies this
      ensures area == "sync" && "shortcuts" in changes ==> shortcuts == Snapshot(changes["shortcuts"].newValue)
      ensures !(area == "sync" && "shortcuts" in changes) ==> shortcuts == old(shortcuts)
    {
      if area == "sync" && "shortcuts" in changes {
        var newValue := changes["shortcuts"].newValue;
        shortcuts := if newValue.Object? then newValue.fields else map[];
      }
    }
  }
}
