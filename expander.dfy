/**
 * The substitution engine of content.js: on a trigger, if the focused
 * editable element's text ends with a registered key, replace that key by
 * its expansion (tags stripped in plain fields, as markup in rich ones).
 */
module Expander {
  import opened Wrappers
  import opened JsText
  import opened Shortcuts
  import opened TagStrip
  import opened KeyOrder

  /** What the engine sees of the focused element. */
  datatype Surface =
    | Plain(value: string)   // an INPUT or TEXTAREA: its `value`
    | Rich(text: string)     // a contenteditable region: its `innerText`
    | NotEditable

  /** What the engine writes back. */
  datatype Effect = NoChange | SetValue(value: string) | SetMarkup(markup: string)

  /**
   * `replaceInPlainText`: null unless `value` ends with `key`; otherwise
   * `value.slice(0, -key.length) + replacement`.
   */
  function ReplaceInPlainText(value: string, key: string, replacement: string): (r: Option<string>)
    ensures r.None? <==> !EndsWith(value, key)
    ensures r.Some? && key != "" ==> r.value == value[..|value| - |key|] + replacement
    ensures r.Some? && key == "" ==> r.value == replacement
  {
    if !EndsWith(value, key) then None else Some(SliceDropLast(value, |key|) + replacement)
  }

  /**
   * Undoing a substitution: the text before the replacement, followed by the
   * key, is the original value, and that text is kept unchanged.
   */
  lemma ReplaceInPlainTextRoundTrip(value: string, key: string, replacement: string)
    requires key != "" && EndsWith(value, key)
    ensures var w := ReplaceInPlainText(value, key, replacement).value;
      && EndsWith(w, replacement)
      && w[..|w| - |replacement|] + key == value
      && w[..|value| - |key|] == value[..|value| - |key|]
  {
    var w := ReplaceInPlainText(value, key, replacement).value;
    assert w[..|w| - |replacement|] == value[..|value| - |key|];
    assert value == value[..|value| - |key|] + value[|value| - |key|..];
  }

  /** `key` is tried and wins at `text`: it is registered, its expansion is not empty, and `text` ends with it. */
  function Applies(text: string, shortcuts: Registry, key: string): (r: bool)
    ensures r ==> key in shortcuts && |key| <= |text|
    ensures key in shortcuts && Resolve(shortcuts[key]) == "" ==> !r
    ensures key in shortcuts && Resolve(shortcuts[key]) != "" && (key == [] || key == text) ==> r
  {
    key in shortcuts && Resolve(shortcuts[key]) != "" && EndsWith(text, key)
  }

  /**
   * The index of the first key, in the order tried, that applies: the loop
   * of `handleReplaceOnElement` skips empty expansions and stops at the
   * first key the text ends with.
   */
  function FirstMatch(text: string, shortcuts: Registry, keys: seq<string>): (r: Option<nat>)
    ensures r.Some? ==> r.value < |keys| && Applies(text, shortcuts, keys[r.value])
    ensures r.Some? ==> forall j :: 0 <= j < r.value ==> !Applies(text, shortcuts, keys[j])
    ensures r.None? ==> forall j :: 0 <= j < |keys| ==> !Applies(text, shortcuts, keys[j])
  {
    if keys == [] then None
    else if Applies(text, shortcuts, keys[0]) then Some(0)
    else
      match FirstMatch(text, shortcuts, keys[1..])
      case None => None
      case Some(i) => Some(i + 1)
  }

  /** The first applicable key is found wherever it sits. */
  lemma FirstMatchAt(text: string, shortcuts: Registry, keys: seq<string>, i: nat)
    requires i < |keys| && Applies(text, shortcuts, keys[i])
    requires forall j :: 0 <= j < i ==> !Applies(text, shortcuts, keys[j])
    ensures FirstMatch(text, shortcuts, keys) == Some(i)
  {
    var r := FirstMatch(text, shortcuts, keys);
    assert r.Some?;
  }

  /**
   * `handleReplaceOnElement` on a given key order, as a function of the
   * surface: the first applicable key is replaced; in a rich region only
   * once `lastIndexOf` confirms the key sits at the very end.
   */
  function Substitute(surface: Surface, shortcuts: Registry, keys: seq<string>): (r: Effect)
    ensures surface.NotEditable? ==> r == NoChange
    ensures r.SetValue? ==> surface.Plain?
    ensures r.SetMarkup? ==> surface.Rich?
    ensures surface.Plain? ==> (r == NoChange <==> FirstMatch(surface.value, shortcuts, keys).None?)
    ensures surface.Rich? ==> (r == NoChange <==> FirstMatch(surface.text, shortcuts, keys).None?)
  {
    match surface
    case NotEditable => NoChange
    case Plain(v) =>
      (match FirstMatch(v, shortcuts, keys)
       case None => NoChange
       case Some(i) =>
         var key := keys[i];
         SetValue(ReplaceInPlainText(v, key, StripTags(Resolve(shortcuts[key]))).value))
    case Rich(t) =>
      (match FirstMatch(t, shortcuts, keys)
       case None => NoChange
       case Some(i) =>
         var key := keys[i];
         RichGuardIffEndsWith(t, key);
         var idx := LastIndexOf(t, key);
         if idx >= 0 && idx + |key| == |t| then SetMarkup(SliceDropLast(t, |key|) + Resolve(shortcuts[key]))
         else NoChange)
  }

  /** The key the engine should apply: one that applies and that no applicable key outgrows. */
  ghost predicate IsLongestApplicable(text: string, shortcuts: Registry, key: string) {
    Applies(text, shortcuts, key) && forall k :: Applies(text, shortcuts, k) ==> |k| <= |key|
  }

  /** There is at most one longest applicable key: all of them are suffixes of the same text. */
  lemma LongestApplicableUnique(text: string, shortcuts: Registry, a: string, b: string)
    requires IsLongestApplicable(text, shortcuts, a) && IsLongestApplicable(text, shortcuts, b)
    ensures a == b
  {
    assert |a| == |b|;
  }

  /** The longest applicable key, if any key applies. */
  ghost function LongestApplicable(text: string, shortcuts: Registry): (r: Option<string>)
    ensures r.Some? ==> IsLongestApplicable(text, shortcuts, r.value)
    ensures r.None? ==> forall k :: !IsLongestApplicable(text, shortcuts, k)
  {
    if exists k :: IsLongestApplicable(text, shortcuts, k) then
      Some(var k :| IsLongestApplicable(text, shortcuts, k); k)
    else None
  }

  /** A longest applicable key is the one `LongestApplicable` picks. */
  lemma LongestApplicableIs(text: string, shortcuts: Registry, key: string)
    requires IsLongestApplicable(text, shortcuts, key)
    ensures LongestApplicable(text, shortcuts) == Some(key)
  {
    var longest := LongestApplicable(text, shortcuts);
    assert longest.Some?;
    LongestApplicableUnique(text, shortcuts, key, longest.value);
  }

  /**
   * The reference behaviour, independent of any key order: replace the
   * longest applicable key of the surface's text.
   */
  ghost function Expected(surface: Surface, shortcuts: Registry): (r: Effect)
    ensures surface.NotEditable? ==> r == NoChange
    ensures r.SetValue? ==> surface.Plain?
    ensures r.SetMarkup? ==> surface.Rich?
  {
    match surface
    case NotEditable => NoChange
    case Plain(v) =>
      (match LongestApplicable(v, shortcuts)
       case None => NoChange
       case Some(key) => SetValue(SliceDropLast(v, |key|) + StripTags(Resolve(shortcuts[key]))))
    case Rich(t) =>
      (match LongestApplicable(t, shortcuts)
       case None => NoChange
       case Some(key) => SetMarkup(SliceDropLast(t, |key|) + Resolve(shortcuts[key])))
  }

  /** Once the longest applicable key is known, the reference effect is its replacement. */
  lemma ExpectedAppliesLongest(surface: Surface, shortcuts: Registry, key: string)
    requires surface.Plain? ==> IsLongestApplicable(surface.value, shortcuts, key)
    requires surface.Rich? ==> IsLongestApplicable(surface.text, shortcuts, key)
    ensures surface.Plain? ==>
      Expected(surface, shortcuts) == SetValue(SliceDropLast(surface.value, |key|) + StripTags(Resolve(shortcuts[key])))
    ensures surface.Rich? ==>
      Expected(surface, shortcuts) == SetMarkup(SliceDropLast(surface.text, |key|) + Resolve(shortcuts[key]))
  {
    if surface.Plain? {
      LongestApplicableIs(surface.value, shortcuts, key);
    } else if surface.Rich? {
      LongestApplicableIs(surface.text, shortcuts, key);
    }
  }

  /** Trying keys longest first finds a key exactly when one applies, and the one it finds is the longest. */
  lemma FirstMatchIsLongest(text: string, shortcuts: Registry, keys: seq<string>)
    requires LongestFirst(keys, shortcuts.Keys)
    ensures FirstMatch(text, shortcuts, keys).None? <==> forall k :: !Applies(text, shortcuts, k)
    ensures FirstMatch(text, shortcuts, keys).Some? ==>
      IsLongestApplicable(text, shortcuts, keys[FirstMatch(text, shortcuts, keys).value])
  {
    LongestFirstCoversRegistry(keys, shortcuts.Keys);
    var r := FirstMatch(text, shortcuts, keys);
    forall k | Applies(text, shortcuts, k) ensures r.Some? && |k| <= |keys[r.value]| {
      var j :| 0 <= j < |keys| && keys[j] == k;
      assert r.Some?;
      assert j >= r.value;
    }
  }

  /** The longest applicable key exists exactly when some key applies. */
  lemma LongestApplicableExists(text: string, shortcuts: Registry)
    ensures LongestApplicable(text, shortcuts).None? <==> forall k :: !Applies(text, shortcuts, k)
  {
    LongestFirstExists(shortcuts.Keys);
    var keys :| LongestFirst(keys, shortcuts.Keys);
    FirstMatchIsLongest(text, shortcuts, keys);
  }

  /** When the text ends with the key, the rich-region guard `idx + key.length === text.length` holds, and conversely. */
  lemma RichGuardIffEndsWith(text: string, key: string)
    ensures EndsWith(text, key) <==>
      (LastIndexOf(text, key) >= 0 && LastIndexOf(text, key) + |key| == |text|)
  {
    if EndsWith(text, key) {
      assert OccursAt(text, key, |text| - |key|);
    }
  }

  /**
   * Trying the keys in any longest-first order gives the reference
   * behaviour: the guard never blocks, and the key applied is the longest.
   */
  lemma SubstituteIsExpected(surface: Surface, shortcuts: Registry, keys: seq<string>)
    requires LongestFirst(keys, shortcuts.Keys)
    ensures Substitute(surface, shortcuts, keys) == Expected(surface, shortcuts)
  {
    match surface
    case NotEditable =>
    case Plain(v) =>
      var r := FirstMatch(v, shortcuts, keys);
      if r.Some? {
        ExpectedAtPlain(v, shortcuts, keys, r.value);
      } else {
        ExpectedWhenNoneApplies(surface, shortcuts, keys);
      }
    case Rich(t) =>
      var r := FirstMatch(t, shortcuts, keys);
      if r.Some? {
        ExpectedAtRich(t, shortcuts, keys, r.value);
        RichGuardIffEndsWith(t, keys[r.value]);
      } else {
        ExpectedWhenNoneApplies(surface, shortcuts, keys);
      }
  }

  /** In a plain field, the reference effect when the key at index `i` is the first of a longest-first order that applies. */
  lemma ExpectedAtPlain(v: string, shortcuts: Registry, keys: seq<string>, i: nat)
    requires LongestFirst(keys, shortcuts.Keys) && i < |keys|
    requires Applies(v, shortcuts, keys[i]) && forall j :: 0 <= j < i ==> !Applies(v, shortcuts, keys[j])
    ensures Expected(Plain(v), shortcuts) == SetValue(ReplaceInPlainText(v, keys[i], StripTags(Resolve(shortcuts[keys[i]]))).value)
  {
    FirstMatchAt(v, shortcuts, keys, i);
    FirstMatchIsLongest(v, shortcuts, keys);
    ExpectedAppliesLongest(Plain(v), shortcuts, keys[i]);
  }

  /** In a rich region, the reference effect when the key at index `i` is the first of a longest-first order that applies. */
  lemma ExpectedAtRich(t: string, shortcuts: Registry, keys: seq<string>, i: nat)
    requires LongestFirst(keys, shortcuts.Keys) && i < |keys|
    requires Applies(t, shortcuts, keys[i]) && forall j :: 0 <= j < i ==> !Applies(t, shortcuts, keys[j])
    ensures Expected(Rich(t), shortcuts) == SetMarkup(SliceDropLast(t, |keys[i]|) + Resolve(shortcuts[keys[i]]))
  {
    FirstMatchAt(t, shortcuts, keys, i);
    FirstMatchIsLongest(t, shortcuts, keys);
    ExpectedAppliesLongest(Rich(t), shortcuts, keys[i]);
  }

  /** The reference effect when no key of a longest-first order applies. */
  lemma ExpectedWhenNoneApplies(surface: Surface, shortcuts: Registry, keys: seq<string>)
    requires LongestFirst(keys, shortcuts.Keys)
    requires surface.Plain? || surface.Rich?
    requires var text := if surface.Plain? then surface.value else surface.text;
      forall j :: 0 <= j < |keys| ==> !Applies(text, shortcuts, keys[j])
    ensures Expected(surface, shortcuts) == NoChange
  {
    var text := if surface.Plain? then surface.value else surface.text;
    FirstMatchIsLongest(text, shortcuts, keys);
    NoChangeIff(surface, shortcuts);
  }

  /** How the sort breaks ties between keys of equal length does not matter. */
  lemma TieOrderIrrelevant(surface: Surface, shortcuts: Registry, keys1: seq<string>, keys2: seq<string>)
    requires LongestFirst(keys1, shortcuts.Keys) && LongestFirst(keys2, shortcuts.Keys)
    ensures Substitute(surface, shortcuts, keys1) == Substitute(surface, shortcuts, keys2)
  {
    SubstituteIsExpected(surface, shortcuts, keys1);
    SubstituteIsExpected(surface, shortcuts, keys2);
  }

  /** If two registered keys both end the text, the longer one is the one applied. */
  lemma LongerKeyWins(text: string, shortcuts: Registry, keys: seq<string>, k1: string, k2: string)
    requires LongestFirst(keys, shortcuts.Keys)
    requires Applies(text, shortcuts, k1) && Applies(text, shortcuts, k2) && |k1| > |k2|
    ensures FirstMatch(text, shortcuts, keys).Some?
    ensures var key := keys[FirstMatch(text, shortcuts, keys).value]; key != k2 && |key| >= |k1|
  {
    FirstMatchIsLongest(text, shortcuts, keys);
  }

  /** Nothing changes exactly when the element is not editable or no key applies to its text. */
  lemma NoChangeIff(surface: Surface, shortcuts: Registry)
    ensures Expected(surface, shortcuts) == NoChange <==>
      (surface.NotEditable? ||
       (surface.Plain? && forall k :: !Applies(surface.value, shortcuts, k)) ||
       (surface.Rich? && forall k :: !Applies(surface.text, shortcuts, k)))
  {
    if surface.Plain? {
      LongestApplicableExists(surface.value, shortcuts);
    } else if surface.Rich? {
      LongestApplicableExists(surface.text, shortcuts);
    }
  }

  /** Two registries that agree on which keys apply and on their expansions behave alike. */
  lemma SameBehaviour(surface: Surface, m1: Registry, m2: Registry)
    requires forall k :: k in m1 <==> k in m2
    requires forall k :: k in m1 ==> Resolve(m1[k]) == Resolve(m2[k])
    ensures Expected(surface, m1) == Expected(surface, m2)
  {
    if !surface.NotEditable? {
      var text := if surface.Plain? then surface.value else surface.text;
      assert forall k :: Applies(text, m1, k) <==> Applies(text, m2, k);
      LongestApplicableExists(text, m1);
      LongestApplicableExists(text, m2);
      if LongestApplicable(text, m1).Some? {
        LongestApplicableUnique(text, m1, LongestApplicable(text, m1).value, LongestApplicable(text, m2).value);
      }
    }
  }

  /** A legacy bare-string entry and a `{value, category}` entry with the same value give identical output. */
  lemma LegacyEntryEquivalent(surface: Surface, shortcuts: Registry, key: string, s: string, category: string)
    ensures Expected(surface, shortcuts[key := Str(s)]) == Expected(surface, shortcuts[key := Obj(s, category)])
  {
    SameBehaviour(surface, shortcuts[key := Str(s)], shortcuts[key := Obj(s, category)]);
  }

  /** An entry whose expansion is empty is skipped: removing it changes nothing. */
  lemma EmptyExpansionSkipped(surface: Surface, shortcuts: Registry, key: string)
    requires key in shortcuts && Resolve(shortcuts[key]) == ""
    ensures Expected(surface, shortcuts) == Expected(surface, shortcuts - {key})
  {
    var m2 := shortcuts - {key};
    if !surface.NotEditable? {
      var text := if surface.Plain? then surface.value else surface.text;
      assert forall k :: Applies(text, shortcuts, k) <==> Applies(text, m2, k);
      LongestApplicableExists(text, shortcuts);
      LongestApplicableExists(text, m2);
      if LongestApplicable(text, shortcuts).Some? {
        LongestApplicableUnique(text, shortcuts, LongestApplicable(text, shortcuts).value, LongestApplicable(text, m2).value);
      }
    }
  }

  /**
   * In a plain field the text before the replaced key is kept as it is, and
   * what follows it is the expansion stripped of every tag.
   */
  lemma PlainReplacementShape(v: string, shortcuts: Registry)
    requires Expected(Plain(v), shortcuts).SetValue?
    ensures var key := LongestApplicable(v, shortcuts).value;
      var w := Expected(Plain(v), shortcuts).value;
      && EndsWith(v, key)
      && (key != "" ==> |v| - |key| <= |w| && w[..|v| - |key|] == v[..|v| - |key|])
      && (key != "" ==> w[|v| - |key|..] == StripTags(Resolve(shortcuts[key])))
      && TagFree(w[|w| - |StripTags(Resolve(shortcuts[key]))|..])
  {
    var key := LongestApplicable(v, shortcuts).value;
    var stripped := StripTags(Resolve(shortcuts[key]));
    var w := Expected(Plain(v), shortcuts).value;
    StripTagsIsTagFree(Resolve(shortcuts[key]));
    assert w[|w| - |stripped|..] == stripped;
  }

  /** In a rich region the key is replaced by the expansion as markup, after the text that preceded it. */
  lemma RichReplacementShape(t: string, shortcuts: Registry)
    requires Expected(Rich(t), shortcuts).SetMarkup?
    ensures var key := LongestApplicable(t, shortcuts).value;
      var w := Expected(Rich(t), shortcuts).markup;
      && EndsWith(t, key)
      && (key != "" ==> w == t[..|t| - |key|] + Resolve(shortcuts[key]))
      && (key == "" ==> w == Resolve(shortcuts[key]))
  {
  }

  /**
   * A registered empty key (only an import can store one) ends every text;
   * when no other key applies, `slice(0, -0)` discards the whole text and
   * the field becomes the bare expansion.
   */
  lemma EmptyKeyReplacesWholeText(v: string, shortcuts: Registry)
    requires "" in shortcuts && Resolve(shortcuts[""]) != ""
    requires forall k :: k != "" ==> !Applies(v, shortcuts, k)
    ensures Expected(Plain(v), shortcuts) == SetValue(StripTags(Resolve(shortcuts[""])))
  {
    var x := StripTags(Resolve(shortcuts[""]));
    EmptyKeyIsLongest(v, shortcuts);
    ExpectedAppliesLongest(Plain(v), shortcuts, "");
    assert SliceDropLast(v, 0) + x == x;
  }

  lemma EmptyKeyIsLongest(v: string, shortcuts: Registry)
    requires "" in shortcuts && Resolve(shortcuts[""]) != ""
    requires forall k :: k != "" ==> !Applies(v, shortcuts, k)
    ensures IsLongestApplicable(v, shortcuts, "")
  {
    forall k | Applies(v, shortcuts, k) ensures |k| <= 0 {
      assert k == "";
    }
  }

  /** With an empty registry no substitution ever fires. */
  lemma EmptyRegistryChangesNothing(surface: Surface)
    ensures Expected(surface, map[]) == NoChange
  {
    NoChangeIff(surface, map[]);
  }

  /**
   * A text that is exactly a registered key becomes the key's expansion:
   * stripped of tags in a plain field, as markup in a rich region.
   */
  lemma WholeTextIsKey(key: string, shortcuts: Registry)
    requires key in shortcuts && Resolve(shortcuts[key]) != ""
    ensures Expected(Plain(key), shortcuts) == SetValue(StripTags(Resolve(shortcuts[key])))
    ensures Expected(Rich(key), shortcuts) == SetMarkup(Resolve(shortcuts[key]))
  {
    var x := Resolve(shortcuts[key]);
    WholeTextKeyIsLongest(key, shortcuts);
    ExpectedAppliesLongest(Plain(key), shortcuts, key);
    ExpectedAppliesLongest(Rich(key), shortcuts, key);
    assert SliceDropLast(key, |key|) + StripTags(x) == StripTags(x);
    assert SliceDropLast(key, |key|) + x == x;
  }

  lemma WholeTextKeyIsLongest(key: string, shortcuts: Registry)
    requires key in shortcuts && Resolve(shortcuts[key]) != ""
    ensures IsLongestApplicable(key, shortcuts, key)
  {
    forall k | Applies(key, shortcuts, k) ensures |k| <= |key| {
      assert EndsWith(key, k);
    }
  }

  /** The focused element, as far as the engine reads and writes it. */
  class Element {
    const tagName: string
    const isContentEditable: bool
    var value: string
    var innerText: string
    var innerHTML: string

    constructor (tagName: string, isContentEditable: bool, value: string, innerText: string, innerHTML: string)
      ensures this.tagName == tagName && this.isContentEditable == isContentEditable
      ensures this.value == value && this.innerText == innerText && this.innerHTML == innerHTML
    {
      this.tagName := tagName;
      this.isContentEditable := isContentEditable;
      this.value := value;
      this.innerText := innerText;
      this.innerHTML := innerHTML;
    }

    /** INPUT and TEXTAREA are plain fields, other contenteditable elements rich regions. */
    function Surface(): (r: Surface)
      reads this
      ensures tagName == "INPUT" || tagName == "TEXTAREA" ==> r == Plain(value)
      ensures r.Rich? <==> isContentEditable && tagName != "INPUT" && tagName != "TEXTAREA"
      ensures r.Rich? ==> r.text == innerText
      ensures r.NotEditable? <==> tagName != "INPUT" && tagName != "TEXTAREA" && !isContentEditable
    {
      if tagName == "INPUT" || tagName == "TEXTAREA" then Plain(value)
      else if isContentEditable then Rich(innerText)
      else NotEditable
    }
  }

  /** The element shows effect `e`: the value or markup it writes, and nothing else changed. */
  twostate predicate Shows(active: Element, e: Effect)
    reads active
  {
    && active.value == (if e.SetValue? then e.value else old(active.value))
    && active.innerHTML == (if e.SetMarkup? then e.markup else old(active.innerHTML))
    && active.innerText == old(active.innerText)
  }

  /**
   * One run of `handleReplaceOnElement`, up to the `input` event it
   * dispatches: classify the element, try the keys longest first, skip empty
   * expansions, apply the first key the text ends with and stop. The result
   * says whether the plain-field branch wrote a value, which is when the
   * event is dispatched. `tried` is the longest-first order the loop went
   * through, and the run's effect is `Substitute` over it, which
   * `SubstituteIsExpected` equates with the reference effect.
   */
  method ReplaceOnce(active: Element, shortcuts: Registry) returns (dispatched: bool, ghost tried: seq<string>)
    modifies active
    ensures LongestFirst(tried, shortcuts.Keys)
    ensures Shows(active, Substitute(old(active.Surface()), shortcuts, tried))
    ensures dispatched <==> Substitute(old(active.Surface()), shortcuts, tried).SetValue?
  {
    dispatched := false;
    LongestFirstExists(shortcuts.Keys);
    var plain := active.tagName == "INPUT" || active.tagName == "TEXTAREA";
    var textValue: string;
    if plain {
      textValue := active.value;
    } else if active.isContentEditable {
      textValue := active.innerText;
    } else {
      tried :| LongestFirst(tried, shortcuts.Keys);
      return;
    }
    var keys :| LongestFirst(keys, shortcuts.Keys);
    tried := keys;
    LongestFirstKeysRegistered(keys, shortcuts.Keys);

    for i := 0 to |keys|
      invariant forall j :: 0 <= j < i ==> !Applies(textValue, shortcuts, keys[j])
      invariant unchanged(active) && !dispatched
    {
      var key := keys[i];
      var item := shortcuts[key];
      var replacement := "";
      if item.Str? {
        replacement := item.s;
      } else if item.Obj? {
        replacement := item.value;
      }
      assert replacement == Resolve(item);
      if replacement == "" {
        continue;
      }

      if plain && EndsWith(textValue, key) {
        FirstMatchAt(textValue, shortcuts, keys, i);
        ReplacePlain(active, textValue, key, replacement);
        dispatched := true;
        break;
      }

      if active.isContentEditable && EndsWith(textValue, key) {
        FirstMatchAt(textValue, shortcuts, keys, i);
        ReplaceRich(active, key, replacement);
        break;
      }
    }
  }

  /** The plain-field branch: strip the tags and write the new value. */
  method ReplacePlain(active: Element, textValue: string, key: string, replacement: string)
    requires EndsWith(textValue, key)
    modifies active
    ensures active.value == ReplaceInPlainText(textValue, key, StripTags(replacement)).value
    ensures active.innerHTML == old(active.innerHTML) && active.innerText == old(active.innerText)
  {
    var stripped := StripTags(replacement);
    var newVal := ReplaceInPlainText(textValue, key, stripped);
    if newVal.Some? {
      active.value := newVal.value;
    }
  }

  /** The contenteditable branch: the `lastIndexOf` guard, then the new markup. */
  method ReplaceRich(active: Element, key: string, replacement: string)
    requires EndsWith(active.innerText, key)
    modifies active
    ensures active.innerHTML == SliceDropLast(old(active.innerText), |key|) + replacement
    ensures active.value == old(active.value) && active.innerText == old(active.innerText)
  {
    RichGuardIffEndsWith(active.innerText, key);
    var text := active.innerText;
    var idx := LastIndexOf(text, key);
    if idx >= 0 && idx + |key| == |text| {
      var newPlain := SliceDropLast(text, |key|);
      active.innerHTML := newPlain + replacement;
    }
  }

  /**
   * The values `v` passes through when `step` is applied while it yields a
   * new value, at most `fuel` times: the first is `v`, each next one is the
   * step of the one before, and the sequence ends only where the step
   * yields nothing or the fuel is spent.
   */
  ghost function Iterate(step: string -> Option<string>, v: string, fuel: nat): (r: seq<string>)
    ensures 1 <= |r| <= fuel + 1 && r[0] == v
    ensures forall i :: 0 <= i < |r| - 1 ==> step(r[i]) == Some(r[i + 1])
    ensures |r| == fuel + 1 || step(r[|r| - 1]) == None
    decreases fuel
  {
    if fuel == 0 then [v]
    else
      match step(v)
      case Some(w) => [v] + Iterate(step, w, fuel - 1)
      case None => [v]
  }

  /** An iteration that ended with fuel to spare is the same with any larger fuel. */
  lemma {:induction false} IterateStable(step: string -> Option<string>, v: string, fuel: nat, more: nat)
    requires |Iterate(step, v, fuel)| <= fuel && fuel <= more
    ensures Iterate(step, v, more) == Iterate(step, v, fuel)
    decreases fuel
  {
    if step(v).Some? {
      var w := step(v).value;
      assert 0 < fuel <= more;
      IterateStep(step, v, w, fuel);
      IterateStep(step, v, w, more);
      assert |Iterate(step, w, fuel - 1)| == |Iterate(step, v, fuel)| - 1;
      IterateStable(step, w, fuel - 1, more - 1);
    } else {
      IterateEnd(step, v, fuel);
      IterateEnd(step, v, more);
    }
  }

  /** A step that always yields a value uses up all the fuel. */
  lemma {:induction false} IterateExhausts(step: string -> Option<string>, v: string, fuel: nat)
    requires forall x :: step(x).Some?
    ensures |Iterate(step, v, fuel)| == fuel + 1
    decreases fuel
  {
    if fuel > 0 {
      IterateExhausts(step, step(v).value, fuel - 1);
    }
  }

  /** A value the step yields nothing for is the whole iteration. */
  lemma IterateEnd(step: string -> Option<string>, v: string, fuel: nat)
    requires step(v).None?
    ensures Iterate(step, v, fuel) == [v]
  {
  }

  /** One step of an iteration that has fuel left. */
  lemma IterateStep(step: string -> Option<string>, v: string, w: string, fuel: nat)
    requires fuel > 0 && step(v) == Some(w)
    ensures Iterate(step, v, fuel) == [v] + Iterate(step, w, fuel - 1)
  {
  }

  /**
   * The value one run of the engine writes into a plain field holding `v`,
   * which is when it dispatches an `input` event; nothing exactly when no
   * key applies.
   */
  ghost function Rewrite(v: string, shortcuts: Registry): (r: Option<string>)
    ensures r.None? <==> forall k :: !Applies(v, shortcuts, k)
    ensures r.Some? ==> Expected(Plain(v), shortcuts) == SetValue(r.value)
  {
    NoChangeIff(Plain(v), shortcuts);
    var e := Expected(Plain(v), shortcuts);
    if e.SetValue? then Some(e.value) else None
  }

  /**
   * The values a plain field takes during one trigger, first to last. A run
   * that writes a value dispatches an `input` event, and the document's
   * `input` listener runs the engine again on the new value before the
   * write returns. `fuel` is the number of nested runs the call stack has
   * room for; the run that finds none left overflows before it reads the
   * field, and the error ends that listener only, so earlier writes stay.
   */
  ghost function Chain(v: string, shortcuts: Registry, fuel: nat): (r: seq<string>)
    ensures 1 <= |r| <= fuel + 1 && r[0] == v
    ensures fuel == 0 ==> r == [v]
  {
    Iterate(x => Rewrite(x, shortcuts), v, fuel)
  }

  /**
   * The value a plain field is left with at the end of the chain: the value
   * typed when the stack has no room, or when no key applies to it.
   */
  ghost function Settled(v: string, shortcuts: Registry, fuel: nat): (r: string)
    ensures fuel == 0 ==> r == v
    ensures (forall k :: !Applies(v, shortcuts, k)) ==> r == v
  {
    var c := Chain(v, shortcuts, fuel);
    if Rewrite(v, shortcuts).None? then ChainEnd(v, shortcuts, fuel); c[|c| - 1] else c[|c| - 1]
  }

  /**
   * Each value of the chain after the first is the reference effect on the
   * one before, and the chain ends before the stack is full only on a value
   * no key applies to.
   */
  lemma ChainFollowsExpected(v: string, shortcuts: Registry, fuel: nat)
    ensures var c := Chain(v, shortcuts, fuel);
      && c[0] == v && |c| <= fuel + 1
      && (forall i :: 0 <= i < |c| - 1 ==> Expected(Plain(c[i]), shortcuts) == SetValue(c[i + 1]))
      && (|c| == fuel + 1 || forall k :: !Applies(Settled(v, shortcuts, fuel), shortcuts, k))
  {
    var c := Chain(v, shortcuts, fuel);
    var step := x => Rewrite(x, shortcuts);
    assert forall i :: 0 <= i < |c| - 1 ==> step(c[i]) == Some(c[i + 1]);
  }

  /** A value no key applies to ends the chain at once: the field keeps it. */
  lemma ChainStopsWhenNothingApplies(v: string, shortcuts: Registry, fuel: nat)
    requires forall k :: !Applies(v, shortcuts, k)
    ensures Chain(v, shortcuts, fuel) == [v]
  {
    ChainEnd(v, shortcuts, fuel);
  }

  /** A value the engine does not rewrite is the whole chain. */
  lemma ChainEnd(v: string, shortcuts: Registry, fuel: nat)
    requires Rewrite(v, shortcuts).None?
    ensures Chain(v, shortcuts, fuel) == [v]
  {
    var step := x => Rewrite(x, shortcuts);
    assert step(v).None?;
  }

  /** The first link of the chain, with stack left: the reference write, then the chain from there. */
  lemma ChainStep(v: string, w: string, shortcuts: Registry, fuel: nat)
    requires fuel > 0 && Expected(Plain(v), shortcuts) == SetValue(w)
    ensures Chain(v, shortcuts, fuel) == [v] + Chain(w, shortcuts, fuel - 1)
  {
    IterateStep(x => Rewrite(x, shortcuts), v, w, fuel);
  }

  /** A chain that ended before the stack was full ends the same way with a larger stack. */
  lemma ChainStable(v: string, shortcuts: Registry, fuel: nat, more: nat)
    requires |Chain(v, shortcuts, fuel)| <= fuel && fuel <= more
    ensures Chain(v, shortcuts, more) == Chain(v, shortcuts, fuel)
  {
    IterateStable(x => Rewrite(x, shortcuts), v, fuel, more);
  }

  /**
   * A registered empty key with a non-empty expansion applies to every
   * value, so the chain never ends on its own: every unit of stack is used.
   */
  lemma EmptyKeyExhaustsStack(v: string, shortcuts: Registry, fuel: nat)
    requires "" in shortcuts && Resolve(shortcuts[""]) != ""
    ensures |Chain(v, shortcuts, fuel)| == fuel + 1
  {
    var step := x => Rewrite(x, shortcuts);
    forall x ensures step(x).Some? {
      assert Applies(x, shortcuts, "");
    }
    IterateExhausts(step, v, fuel);
  }

  /**
   * An expansion that itself ends with another key is expanded again by the
   * re-entered listener: "brb" becomes "be right back", whose trailing
   * "back" then becomes "BACK", although one substitution was intended.
   */
  lemma ExpansionRetriggers(fuel: nat)
    requires fuel >= 2
    ensures var shortcuts := map["brb" := Str("be right back"), "back" := Str("BACK")];
      && Expected(Plain("brb"), shortcuts) == SetValue("be right back")
      && Chain("brb", shortcuts, fuel) == ["brb", "be right back", "be right BACK"]
  {
    var shortcuts := map["brb" := Str("be right back"), "back" := Str("BACK")];
    var first, second, third := "brb", "be right back", "be right BACK";
    RetriggerFirst(shortcuts);
    RetriggerSecond(shortcuts);
    RetriggerLast(shortcuts);
    ChainOfThree(first, second, third, shortcuts, fuel);
  }

  /** Two writes, the second to a value no key applies to, make a chain of three values. */
  lemma ChainOfThree(u: string, v: string, w: string, shortcuts: Registry, fuel: nat)
    requires fuel >= 2
    requires Expected(Plain(u), shortcuts) == SetValue(v) && Expected(Plain(v), shortcuts) == SetValue(w)
    requires forall k :: !Applies(w, shortcuts, k)
    ensures Chain(u, shortcuts, fuel) == [u, v, w]
  {
    var step := x => Rewrite(x, shortcuts);
    assert step(u) == Some(v) && step(v) == Some(w) && step(w).None?;
    IterateOfThree(step, u, v, w, fuel);
  }

  /** Two steps and a stop, with fuel for both steps. */
  lemma IterateOfThree(step: string -> Option<string>, u: string, v: string, w: string, fuel: nat)
    requires fuel >= 2 && step(u) == Some(v) && step(v) == Some(w) && step(w).None?
    ensures Iterate(step, u, fuel) == [u, v, w]
  {
    IterateEnd(step, w, fuel - 2);
    IterateStep(step, v, w, fuel - 1);
    IterateStep(step, u, v, fuel);
  }

  lemma RetriggerFirst(shortcuts: Registry)
    requires shortcuts == map["brb" := Str("be right back"), "back" := Str("BACK")]
    ensures Expected(Plain("brb"), shortcuts) == SetValue("be right back")
  {
    StripTagsKeepsPlainText("be right back");
    WholeTextIsKey("brb", shortcuts);
  }

  lemma RetriggerSecond(shortcuts: Registry)
    requires shortcuts == map["brb" := Str("be right back"), "back" := Str("BACK")]
    ensures Expected(Plain("be right back"), shortcuts) == SetValue("be right BACK")
  {
    BackIsLongest(shortcuts);
    BackReplaced(shortcuts);
    ExpectedPlainIs("be right back", shortcuts, "back", "be right BACK");
  }

  lemma BackReplaced(shortcuts: Registry)
    requires shortcuts == map["brb" := Str("be right back"), "back" := Str("BACK")]
    ensures "be right BACK" == SliceDropLast("be right back", |"back"|) + StripTags(Resolve(shortcuts["back"]))
  {
    StripTagsKeepsPlainText("BACK");
    assert SliceDropLast("be right back", 4) + "BACK" == "be right BACK";
  }

  lemma ExpectedPlainIs(v: string, shortcuts: Registry, key: string, w: string)
    requires IsLongestApplicable(v, shortcuts, key)
    requires w == SliceDropLast(v, |key|) + StripTags(Resolve(shortcuts[key]))
    ensures Expected(Plain(v), shortcuts) == SetValue(w)
  {
    ExpectedAppliesLongest(Plain(v), shortcuts, key);
  }

  lemma BackIsLongest(shortcuts: Registry)
    requires shortcuts == map["brb" := Str("be right back"), "back" := Str("BACK")]
    ensures IsLongestApplicable("be right back", shortcuts, "back")
  {
    assert "be right back"[9..] == "back";
    forall k | Applies("be right back", shortcuts, k) ensures |k| <= 4 {
      assert k == "brb" || k == "back";
    }
  }

  lemma RetriggerLast(shortcuts: Registry)
    requires shortcuts == map["brb" := Str("be right back"), "back" := Str("BACK")]
    ensures forall k :: !Applies("be right BACK", shortcuts, k)
  {
    var third := "be right BACK";
    forall k ensures !Applies(third, shortcuts, k) {
      if k in shortcuts {
        assert k == "brb" || k == "back";
        assert third[|third| - 3..] == "ACK";
      }
    }
  }

  /**
   * After a trigger the field holds the end of the chain, a rich region the
   * markup of one run (writing `innerHTML` fires no `input` event), and
   * nothing else changed; with no stack left nothing changes at all.
   */
  twostate predicate Expanded(active: Element, shortcuts: Registry, fuel: nat)
    reads active
  {
    var s := old(active.Surface());
    var e := Expected(s, shortcuts);
    && active.value == (if s.Plain? then Settled(s.value, shortcuts, fuel) else old(active.value))
    && active.innerHTML == (if fuel > 0 && e.SetMarkup? then e.markup else old(active.innerHTML))
    && active.innerText == old(active.innerText)
  }

  /**
   * `handleReplaceOnElement` as written: one run, and when it wrote a plain
   * value the synchronous `input` event re-enters through `OnInput` on the
   * same focused element, with one unit of stack less.
   */
  method HandleReplaceOnElement(active: Element, cache: ShortcutCache, fuel: nat)
    modifies active
    ensures Expanded(active, cache.shortcuts, fuel)
    decreases fuel, 0
  {
    if fuel == 0 {
      return;
    }
    ghost var surface := active.Surface();
    var dispatched, tried := ReplaceOnce(active, cache.shortcuts);
    SubstituteIsExpected(surface, cache.shortcuts, tried);
    if dispatched {
      SettledAfterWrite(surface.value, active.value, cache.shortcuts, fuel);
      OnInput(active, cache, fuel - 1);
    } else if surface.Plain? {
      SettledWithoutWrite(surface.value, cache.shortcuts, fuel);
    }
  }

  /** A run that writes `w` leaves the rest of the chain to the re-entered run on `w`. */
  lemma SettledAfterWrite(v: string, w: string, shortcuts: Registry, fuel: nat)
    requires fuel > 0 && Expected(Plain(v), shortcuts) == SetValue(w)
    ensures Settled(v, shortcuts, fuel) == Settled(w, shortcuts, fuel - 1)
  {
    ChainStep(v, w, shortcuts, fuel);
  }

  /** A run that writes nothing ends the chain where it started. */
  lemma SettledWithoutWrite(v: string, shortcuts: Registry, fuel: nat)
    requires !Expected(Plain(v), shortcuts).SetValue?
    ensures Settled(v, shortcuts, fuel) == v
  {
    ChainEnd(v, shortcuts, fuel);
  }

  /** The `keydown` listener: only a space or Enter triggers the engine. */
  method OnKeyDown(pressed: string, active: Element, cache: ShortcutCache, fuel: nat)
    modifies active
    ensures pressed == " " || pressed == "Enter" ==> Expanded(active, cache.shortcuts, fuel)
    ensures !(pressed == " " || pressed == "Enter") ==> unchanged(active)
  {
    if pressed != " " && pressed != "Enter" {
      return;
    }
    HandleReplaceOnElement(active, cache, fuel);
  }

  /** The `input` listener: every input event, the engine's own included, triggers the engine. */
  method OnInput(active: Element, cache: ShortcutCache, fuel: nat)
    modifies active
    ensures Expanded(active, cache.shortcuts, fuel)
    decreases fuel, 1
  {
    HandleReplaceOnElement(active, cache, fuel);
  }
}
