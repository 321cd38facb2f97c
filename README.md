# ACT text expander, modelled in Dafny

ACT is a browser extension that expands typed shortcuts. It has two scripts.

- The content script (`content.js`) keeps a copy of the shortcut registry, the
  `shortcuts` object in `chrome.storage.sync`. On every space, Enter or input
  event it looks at the focused element:
  - plain fields are `INPUT` and `TEXTAREA`;
  - rich fields are contenteditable regions.

  If the element's text ends with a registered key, the engine replaces that
  trailing key with the key's expansion. Keys are tried longest first, and
  entries with an empty expansion are skipped. A plain field gets the expansion
  with its tags stripped by `/<[^>]*>/g`. A rich field gets
  `innerText` minus the key, followed by the expansion as markup. After a
  plain-field write the engine dispatches a bubbling `input` event, which
  runs its own `input` listener again, synchronously, on the new value.
- The management popup (`popup.js`) lists the registry with a substring filter,
  escaping each key and category with `escapeHtml`. It also adds, edits,
  deletes and imports entries. The add and delete handlers load the stored
  object, change it and write it back; the edit handler only reads it, and
  import replaces it with the parsed object.

The model has seven modules:

- `JsText`: the JavaScript string primitives the scripts rely on. These are
  `endsWith`, `includes`, `lastIndexOf`, `slice(0, -n)`, `trim` (the exact
  ECMAScript white-space and line-terminator set) and `toLowerCase`.
- `Shortcuts`: the registry entries (a legacy bare string, a
  `{value, category}` object, or any other JSON value). It also holds the
  stored value, and the content script's cache as a class whose
  `shortcuts` field is replaced by the load and `onChanged` callbacks.
- `TagStrip`: the tag-stripping regular expression as a recursive function. It
  has the source's edge case: a `<` with no later `>` is kept.
- `KeyOrder`: the longest-first order of the keys, a permutation of the
  registry's key set sorted by non-increasing length.
- `Expander`:
  - `replaceInPlainText`;
  - one run of `handleReplaceOnElement` (`ReplaceOnce`), as a method over a
    mutable `Element` with a `for` loop, `continue` and `break`;
  - a reference specification `Expected`, which applies the longest key the
    text ends with whose expansion is non-empty;
  - the chain of runs that the dispatched `input` event starts (`Chain`), with
    a `fuel` parameter standing for the room left on the call stack;
  - `handleReplaceOnElement` with that re-entry, and the keydown and input
    listeners, as mutually recursive methods.
- `HtmlEscape`: `escapeHtml` and the entity decoding it is undone by.
- `Popup`:
  - entry normalisation, the filter, and the rendered list (a class whose
    items the render loop appends to);
  - the add, edit, delete and import handlers over a storage cell.

`Array.prototype.sort` is stable and `Object.keys` lists keys in a defined
order (integer-like keys ascending, then the others in insertion order), so
in the browser equally long keys are tried in the order the registry stores
them. The model does not track that order: `ReplaceOnce` picks any
longest-first ordering, and the model proves the outcome does not depend on
that choice, because at most one key is both applicable and longest (every
applicable key is a suffix of the same text). `Render` likewise lists each
matching key exactly once, in an order the model leaves open.

An empty key is modelled as the code behaves. `slice(0, -0)` is `""`, so an
empty key that is registered and is the longest applicable key replaces the
whole text by its expansion (`EmptyKeyReplacesWholeText`). The add handler
cannot create such a key, because it rejects blank keys. An import can,
because it does not look at keys.

Entries hold their expansion in a field named `value`, and the popup sorts
rows with `localeCompare`; the model reads `item.value` throughout.

## Model

| member | source | states |
|---|---|---|
| `JsText.LastIndexOf` | content.js:80 | the result is the greatest start of an occurrence of the key, or -1 exactly when there is none |
| `JsText.EndsWith` | content.js:32 | every text ends with the empty string; a suffix is never longer than the text, and one of equal length is the text itself |
| `JsText.SliceDropLast` | content.js:33 | the result is always a prefix of the text; for 0 < n <= length it is n characters shorter, and dropping 0 (`slice(0, -0)`) gives "" |
| `JsText.Includes` | popup.js:44 | every text includes the empty string and every suffix of itself; an included string is never longer than the text |
| `JsText.ToLowerAscii` | popup.js:44 | the result has the same length, no ASCII capital letter, and every character that is not a capital kept in place |
| `JsText.Trim` | popup.js:107-109 | the result is the input with a white-space prefix and suffix removed, and it neither starts nor ends with white space |
| `JsText.TrimEmptyIffBlank` | popup.js:107-111 | a field trims to "" exactly when it consists only of white space |
| `JsText.TrimIdempotent` | popup.js:107-109 | trimming twice is trimming once |
| `JsText.TrimKeepsUnpadded` | popup.js:107 | a field that neither starts nor ends with white space is stored as typed |
| `KeyOrder.InsertByLength` | content.js:49 | inserting a key into a longest-first sequence keeps it longest-first and adds exactly that key to its multiset |
| `KeyOrder.OrderByLength` | content.js:49 | every key set has a sequence that lists each key once, longest first |
| `KeyOrder.LongestFirstExists` | content.js:49 | the length sort of `Object.keys` always has a result |
| `KeyOrder.EnumerationExists` | popup.js:37 | `Object.keys` of any registry lists each key once |
| `KeyOrder.LongestFirstKeysRegistered` | content.js:49-51 | every key in the order is registered, so `SHORTCUTS[key]` is defined |
| `KeyOrder.LongestFirstCoversRegistry` | content.js:49-50 | every registered key appears in the order |
| `TagStrip.AfterClose` | content.js:61 | the rest of the text after the first `>`, or nothing exactly when there is no `>` |
| `TagStrip.StripTags` | content.js:61 | stripping never lengthens a string and introduces no new character |
| `TagStrip.StripTagsKeepsText` | content.js:61 | text before the first `<` is kept unchanged |
| `TagStrip.StripTagsRemovesTag` | content.js:61 | a complete tag `<...>` is removed entirely |
| `TagStrip.StripTagsIsTagFree` | content.js:61 | the result never has a `<` followed later by a `>` |
| `TagStrip.StripTagsKeepsTagFree` | content.js:61 | a string with no `<` followed later by `>` is unchanged |
| `TagStrip.StripTagsKeepsPlainText` | content.js:61 | a string with no `<` is unchanged |
| `TagStrip.StripTagsIdempotent` | content.js:61 | stripping twice is stripping once |
| `Shortcuts.ShortcutCache.constructor` | content.js:2 | the cache starts as the empty registry |
| `Shortcuts.ShortcutCache.Load` | content.js:4-7 | the cache becomes the stored object, or `{}` when the stored value is missing, null or not an object |
| `Shortcuts.ShortcutCache.OnChanged` | content.js:11-15 | only a change in area "sync" touching `shortcuts` replaces the cache, wholesale, by the new value or `{}`; anything else leaves it as it was |
| `Shortcuts.Resolve` | content.js:51-56 | a non-empty expansion is the bare string itself or the object's `value`; null, numbers and booleans give "" and are skipped |
| `Shortcuts.Snapshot` | content.js:6 | an object is taken as the registry; a missing, null, scalar or string value gives the empty registry |
| `Expander.ReplaceInPlainText` | content.js:31-34 | null exactly when the value does not end with the key; otherwise the value minus its trailing key followed by the replacement, or the replacement alone for an empty key |
| `Expander.ReplaceInPlainTextRoundTrip` | content.js:31-34 | for a non-empty key, the result ends with the replacement, dropping the replacement and re-appending the key gives the value back, and the text before the key is untouched |
| `Expander.Applies` | content.js:51-59 | only a registered key applies, and never one whose expansion is empty or that is longer than the text; a key with a non-empty expansion applies to a text equal to it, and an empty one to every text |
| `Expander.FirstMatch` | content.js:50-72 | the index found is one whose key the text ends with and whose expansion is non-empty, with no such key before it; none means no key applies |
| `Expander.FirstMatchAt` | content.js:50-93 | the first applicable index is the one the loop stops at |
| `Expander.Substitute` | content.js:36-95 | a plain field only ever gets a value and a rich region only markup, an element that is neither is never touched, and something is written exactly when a key of the order applies (the `lastIndexOf` guard never blocks) |
| `Expander.LongestApplicableUnique` | content.js:48-49 | at most one applicable key is longest |
| `Expander.LongestApplicable` | content.js:48-50 | the key to apply is applicable and at least as long as every applicable key; none exactly when there is no such key |
| `Expander.LongestApplicableIs` | content.js:48-50 | any longest applicable key is the one the reference chooses |
| `Expander.LongestApplicableExists` | content.js:48-50 | a key is chosen exactly when some key applies |
| `Expander.Expected` | content.js:39-93 | the reference effect writes a value only into a plain field, markup only into a rich region, and nothing into an element that is neither |
| `Expander.FirstMatchIsLongest` | content.js:49-59 | over a longest-first order, the first applicable key is the longest applicable one, and there is one exactly when some key applies |
| `Expander.ExpectedAppliesLongest` | content.js:59-86 | the reference effect replaces the longest applicable key: stripped expansion for a plain field, markup for a rich one |
| `Expander.RichGuardIffEndsWith` | content.js:72-81 | the `lastIndexOf` guard holds exactly when the text ends with the key |
| `Expander.SubstituteIsExpected` | content.js:36-96 | running the engine over any longest-first order gives the reference effect |
| `Expander.ExpectedAtPlain` | content.js:59-68 | when the loop breaks at index i in a plain field, the reference effect is the value the loop writes there |
| `Expander.ExpectedAtRich` | content.js:72-93 | when the loop breaks at index i in a rich region, the reference effect is the markup the loop writes there |
| `Expander.ExpectedWhenNoneApplies` | content.js:50-95 | when the loop runs out, the reference effect is no change |
| `Expander.TieOrderIrrelevant` | content.js:49 | two longest-first orders of the same registry give the same effect |
| `Expander.LongerKeyWins` | content.js:48-50 | when two keys apply and one is longer, the shorter is never the one applied |
| `Expander.NoChangeIff` | content.js:39-95 | the element is left alone exactly when it is not editable or no key applies to its text |
| `Expander.SameBehaviour` | content.js:51-56 | two registries with the same keys and the same resolved expansions expand identically |
| `Expander.LegacyEntryEquivalent` | content.js:53-55 | a bare string entry and an object entry with the same `value` give the same result |
| `Expander.EmptyExpansionSkipped` | content.js:56 | an entry whose expansion is empty behaves as if it were not registered |
| `Expander.PlainReplacementShape` | content.js:59-64 | a plain field keeps the text before the key, follows it with the stripped expansion, and that tail is tag-free |
| `Expander.RichReplacementShape` | content.js:72-86 | a rich field's markup is the text minus the trailing key followed by the expansion |
| `Expander.EmptyKeyReplacesWholeText` | content.js:31-34 | an empty key that is the only applicable one replaces the whole value by its stripped expansion |
| `Expander.EmptyKeyIsLongest` | content.js:49 | an empty key with a non-empty expansion applies to every text, and is the longest applicable key when no other key applies |
| `Expander.EmptyRegistryChangesNothing` | content.js:49-50 | with no shortcuts nothing is changed |
| `Expander.WholeTextIsKey` | content.js:31-86 | a text consisting of exactly one key becomes its expansion |
| `Expander.Element.constructor` | content.js:36-43 | an element holds its tag name, editability, value, text and markup |
| `Expander.Element.Surface` | content.js:39-46 | an `INPUT` or `TEXTAREA` is a plain field whatever its editability, any other contenteditable element a rich region read through `innerText`, anything else not editable |
| `Expander.ReplaceOnce` | content.js:36-95 | one run goes through a longest-first order of the registry's keys and leaves the element showing `Substitute` over that order on its old text (a new `value`, a new `innerHTML`, or nothing, nothing else changed); it reports a dispatch exactly when it wrote a plain value |
| `Expander.ReplacePlain` | content.js:59-64 | a plain field whose text ends with the key gets the value with the key replaced by the tag-stripped expansion; its markup and text are untouched |
| `Expander.ReplaceRich` | content.js:72-88 | a rich region whose text ends with the key passes the `lastIndexOf` guard and gets the text minus the key followed by the expansion as its markup; its value and text are untouched |
| `Expander.Iterate` | content.js:63-66 | the values start with the first one, each next value is the step of the one before, and the sequence ends only where the step yields nothing or the fuel is spent |
| `Expander.IterateStable` | content.js:66 | once the values stop with fuel to spare, more fuel changes nothing |
| `Expander.IterateExhausts` | content.js:66 | a step that always yields a value uses all the fuel |
| `Expander.Rewrite` | content.js:59-66 | a run rewrites a plain value exactly when some key applies to it, and what it writes is the reference value |
| `Expander.Chain` | content.js:63-66 | the values a plain field takes during one trigger start with the typed value and number at most one more than the room on the stack; with no room the field keeps its value |
| `Expander.Settled` | content.js:110-113 | the field ends on the typed value when the stack has no room or no key applies to it |
| `Expander.ChainFollowsExpected` | content.js:59-113 | each value of the chain after the first is the reference write on the one before, and the chain ends before the stack is full only on a value no key applies to |
| `Expander.ChainStopsWhenNothingApplies` | content.js:110-113 | the re-entered listener leaves a value no key applies to alone, ending the chain |
| `Expander.ChainStep` | content.js:64-66 | with stack left, a write is followed by the chain from the written value |
| `Expander.ChainStable` | content.js:66 | a chain that ended before the stack was full ends the same way on a deeper stack |
| `Expander.EmptyKeyExhaustsStack` | content.js:59-66 | with a registered empty key whose expansion is non-empty, every run writes and re-enters, so the chain uses the whole stack |
| `Expander.ExpansionRetriggers` | content.js:64-66 | with `brb` mapped to "be right back" and `back` to "BACK", the reference run turns "brb" into "be right back", but the chain goes on to "be right BACK" |
| `Expander.HandleReplaceOnElement` | content.js:36-96 | with stack left, a plain field ends on the last value of the chain and a rich region gets the markup of one run; with none left nothing changes; the text is never changed |
| `Expander.OnKeyDown` | content.js:99-107 | only a space or Enter runs the engine, with its re-entry; any other key leaves the element unchanged |
| `Expander.OnInput` | content.js:110-114 | every input event, the engine's own included, runs the engine with its re-entry |
| `HtmlEscape.Entity` | popup.js:31 | no replacement holds `<`, `>`, `"` or `'`; an ordinary character stands for itself; a special character becomes an entity from `&` to `;` |
| `HtmlEscape.Escape` | popup.js:31 | no raw `<`, `>`, `"` or `'` remains, a string without special characters is unchanged, and nothing gets shorter |
| `HtmlEscape.EscapeHtml` | popup.js:29-32 | a non-string gives ""; a string is escaped so that decoding gives it back and no tag delimiter remains |
| `HtmlEscape.EscapeConcat` | popup.js:31 | escaping works character by character (it distributes over concatenation) |
| `HtmlEscape.UnescapeEntity` | popup.js:31 | each character's replacement decodes to that character |
| `HtmlEscape.UnescapeEscape` | popup.js:29-32 | decoding an escaped string gives it back: every character is kept, in order |
| `HtmlEscape.EscapeInjective` | popup.js:29-32 | distinct strings escape to distinct strings |
| `Popup.Normalize` | popup.js:47-54 | the row shows the expansion the engine inserts; an object entry shows its category, anything else none |
| `Popup.CategoryLabel` | popup.js:60 | the label is never empty, and a non-empty category is shown as it is |
| `Popup.NormalizeAgreesWithEngine` | popup.js:47-60 | the row shows the expansion the engine would insert; the category label is the object's category or "General", never empty |
| `Popup.RowFor` | popup.js:56-67 | a row's key cell decodes to the key and its category cell to the category label, and its value cell is the expansion as markup |
| `Popup.RowCellsAreText` | popup.js:58-67 | the key and category cells cannot open or close a tag, and the key cell decodes to the key |
| `Popup.Matches` | popup.js:44 | the empty filter matches every key, and a filter longer than the key matches none |
| `Popup.FilterKeys` | popup.js:43-44 | each key is kept, as often as it occurs, exactly when its lower-case form contains the lower-case filter |
| `Popup.EmptyFilterKeepsAll` | popup.js:44 | an empty filter keeps every key in order |
| `Popup.RowsAppend` | popup.js:46-69 | appending a key's row extends the list by exactly that row |
| `Popup.FilterGivesListing` | popup.js:37-44 | filtering the registry's keys lists each matching key exactly once |
| `Popup.ListingRegistered` | popup.js:43-47 | every listed key is registered and matches the filter |
| `Popup.ShortcutList.constructor` | popup.js:36 | the list starts empty |
| `Popup.ShortcutList.AppendRows` | popup.js:46-69 | the list grows by one row per listed key, in the listed order |
| `Popup.ShortcutList.Render` | popup.js:34-69 | an empty registry shows only the "No shortcuts found." item; otherwise one row per matching key, each exactly once |
| `Popup.Added` | popup.js:106-118 | rejected exactly when the trimmed key or value is empty; otherwise the trimmed key maps to the trimmed `{value, category}` and every other entry is unchanged |
| `Popup.AddedAsWritten` | popup.js:116-119 | as written, an add of the key `__proto__` to a registry without that own entry succeeds but writes the registry back unchanged; every other add is `Added` |
| `Popup.ProtoKeyNotStored` | popup.js:118 | an add of `__proto__` reports success, yet the registry written back has no `__proto__` entry, where the intended add stores one |
| `Popup.AddRejectedIffBlank` | popup.js:107-114 | an add is rejected exactly when the key or value field is all white space |
| `Popup.EditForm` | popup.js:75-86 | the form is filled exactly when the key is registered with a truthy entry, and it shows the key, the expansion the engine uses and the category the list shows |
| `Popup.AddThenEdit` | popup.js:75-86 | editing an entry just added fills the form with the trimmed fields it was added with |
| `Popup.AddIdempotent` | popup.js:116-118 | adding the same fields twice equals adding them once |
| `Popup.Deleted` | popup.js:96-98 | a delete writes exactly when the key is registered, and then removes that key and keeps every other entry |
| `Popup.DeletedAsWritten` | popup.js:95-99 | as written, a registry with an entry named `hasOwnProperty` makes every delete throw and write nothing; otherwise it is `Deleted` |
| `Popup.OwnHasOwnPropertyBlocksDelete` | popup.js:96 | once `hasOwnProperty` is registered, a delete of a registered key that the intended handler performs is never performed |
| `Popup.DeleteUndoesAdd` | popup.js:96-97 | deleting a newly added key writes back the registry as it was |
| `Popup.SyncStorage.constructor` | popup.js:14 | the storage cell holds the given stored value |
| `Popup.AddShortcut` | popup.js:106-119 | a blank key or value writes nothing; otherwise the loaded registry, with the entry set (or unchanged for `__proto__`), is written back |
| `Popup.DeleteShortcut` | popup.js:92-99 | a write happens exactly when the loaded registry has the key and no `hasOwnProperty` entry, and it removes exactly that key |
| `Popup.ImportShortcuts` | popup.js:149-159 | a parse failure, null or non-object root is rejected with no write; an object replaces the stored registry wholesale |

## Left out

- `chrome.storage` reads, writes and change events are asynchronous. The model replaces them by the snapshot each callback receives or writes. The race between the content script's initial load and change notifications is not modelled.
- `setCaretToEnd`, focus handling and `console.error` are not modelled. They move the caret or log, and change nothing the model holds. The `try`/`catch` around the rich-field write is not modelled either, because nothing in the modelled write can throw.
- The synthetic `input` event is modelled as reaching the extension's own document listener only. Listeners of the page run too and may change the field; that is outside the model.
- The call-stack limit is the `fuel` parameter of `Expander.HandleReplaceOnElement`. The browser's limit depends on frame sizes. A nested run that overflows is modelled as failing before it reads the field, and the error is reported without undoing earlier writes.
- A `document.activeElement` of `null` is not modelled. The keydown listener catches the resulting `TypeError`, and the element of the model is always present.
- `Popup.EditForm`: a key that is no longer registered but names an `Object.prototype` member (`toString`, `constructor`, ...) would fill the form with the key and empty fields. The model treats every unregistered key as missing, because the key comes from a row drawn from the registry.
- `Popup.Added` states the add as intended. For the key `__proto__` the handler as written stores nothing; `Popup.AddedAsWritten` models that, and `Popup.AddShortcut` follows it.
- `Popup.Deleted` states the delete as intended. With an entry named `hasOwnProperty` the handler as written deletes nothing; `Popup.DeletedAsWritten` models that, and `Popup.DeleteShortcut` follows it.
- The browser's `innerText` projection and `innerHTML` parsing are not modelled. The rich text is an input string and the markup an output string. `innerText` is not re-derived after `innerHTML` is written.
- `Popup.ShortcutList.Render`: the `localeCompare` order of the rows is not modelled. The contract fixes which rows appear, each once, but not their order, because collation is locale behaviour.
- `Popup.FilterKeys`: `toLowerCase` is modelled on ASCII letters only. Unicode case mapping is library behaviour.
- String lengths are counted in characters, not UTF-16 code units. This matters only for keys outside the Basic Multilingual Plane.
- JSON arrays as stored or imported roots are not modelled. They are objects to `typeof`, and their indices would act as keys.
- `Shortcuts.ShortcutCache.OnChanged`: an `onChanged` event whose new value is a truthy string would make `SHORTCUTS` that string, whose characters `Object.keys` enumerates. The model gives `{}` for every non-object new value.
- Object entries whose `value` or `category` is a non-string are not modelled. An object entry is modelled with string fields, and a missing field is "".
- `updatePreview`, export (`Blob`, `JSON.stringify`, the download link), `FileReader`, `JSON.parse` itself (its outcome is an input), `alert`, the reset of the form fields after an add, and the wiring of listeners are not modelled. They are UI and I/O glue.
- The re-render that follows each write is not modelled as a call. `Popup.ShortcutList.Render` models rendering on its own.

## Findings

| source | as written | input that shows it | evidently intended | confidence | as-written member | corrected member |
|---|---|---|---|---|---|---|
| content.js:63-66 | after a plain-field write the handler dispatches a bubbling `input` event; `dispatchEvent` runs the document's own `input` listener synchronously, so the engine runs again on the new value, and again, until no key applies or the stack overflows | registry `{"brb": "be right back", "back": "BACK"}`, field holding `brb`, then a space: the field ends as `be right BACK`; a registered empty key with a non-empty expansion recurses until the stack overflows | one substitution per trigger; the event is there so that the page notices the change | not executed | `Expander.HandleReplaceOnElement` (shown by `Expander.ExpansionRetriggers` and `Expander.EmptyKeyExhaustsStack`) | `Expander.ReplaceOnce` |
| popup.js:96 | `shortcutsInner.hasOwnProperty(key)` calls the registry's own entry when one is named `hasOwnProperty` | add a shortcut named `hasOwnProperty`, then press any delete button: the call throws a `TypeError` and nothing is deleted | `Object.prototype.hasOwnProperty.call(shortcutsInner, key)` | not executed | `Popup.DeletedAsWritten` (shown by `Popup.OwnHasOwnPropertyBlocksDelete`) | `Popup.Deleted` |
| popup.js:118 | `shortcuts[key] = {...}` with the key `__proto__` runs the inherited `__proto__` setter instead of storing an entry | add the key `__proto__` with any value: success is reported, but the stored registry is unchanged | an own entry named `__proto__`, as `Object.defineProperty` would create | not executed | `Popup.AddedAsWritten` (shown by `Popup.ProtoKeyNotStored`) | `Popup.Added` |
