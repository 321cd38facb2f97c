/**
 * Removing markup from an expansion before it goes into a plain text field:
 * `replacement.replace(/<[^>]*>/g, '')`.
 */
module TagStrip {
  import opened Wrappers

  /**
   * What follows the first `>` of `s`, if `s` has one. `[^>]*>` matches
   * exactly up to and including that first `>`.
   */
  function AfterClose(s: string): (r: Option<string>)
    ensures r.None? <==> '>' !in s
    ensures r.Some? ==> |r.value| < |s| && r.value == s[|s| - |r.value|..]
    ensures r.Some? ==> s[|s| - |r.value| - 1] == '>' && '>' !in s[..|s| - |r.value| - 1]
  {
    if s == [] then None
    else if s[0] == '>' then Some(s[1..])
    else
      var r := AfterClose(s[1..]);
      if r.Some? then
        assert s[..|s| - |r.value| - 1] == [s[0]] + s[1..][..|s| - 1 - |r.value| - 1];
        r
      else r
  }

  /**
   * The global replacement of `<[^>]*>` by "": scanning left to right, a `<`
   * that has a `>` somewhere after it starts a tag, which is removed up to
   * and including the first such `>`; every other character is kept.
   */
  function StripTags(s: string): (r: string)
    ensures |r| <= |s|
    ensures forall c :: c in r ==> c in s
    decreases |s|
  {
    if s == [] then []
    else if s[0] == '<' && AfterClose(s[1..]).Some? then StripTags(AfterClose(s[1..]).value)
    else [s[0]] + StripTags(s[1..])
  }

  /** Text before the first `<` is kept, in order. */
  lemma {:induction false} StripTagsKeepsText(p: string, s: string)
    requires '<' !in p
    ensures StripTags(p + s) == p + StripTags(s)
    decreases |p|
  {
    if p != [] {
      assert (p + s)[0] == p[0] && (p + s)[1..] == p[1..] + s;
      assert '<' !in p[1..];
      StripTagsKeepsText(p[1..], s);
      assert p == [p[0]] + p[1..];
    } else {
      assert p + s == s;
    }
  }

  /** A complete tag `<...>` is removed, whatever follows it. */
  lemma StripTagsRemovesTag(t: string, s: string)
    requires '>' !in t
    ensures StripTags("<" + t + ">" + s) == StripTags(s)
  {
    var x := t + ">" + s;
    assert ("<" + t + ">" + s)[1..] == x;
    var r := AfterClose(x);
    assert x[|t|] == '>';
    assert r.Some?;
    assert r.value == s;
  }

  /** No `<` in `s` is followed, anywhere later, by a `>`: the regex finds no tag. */
  predicate TagFree(s: string) {
    forall i, j :: 0 <= i < j < |s| && s[i] == '<' ==> s[j] != '>'
  }

  /** The stripped text contains no tag. */
  lemma {:induction false} StripTagsIsTagFree(s: string)
    ensures TagFree(StripTags(s))
    decreases |s|
  {
    if s == [] {
    } else if s[0] == '<' && AfterClose(s[1..]).Some? {
      StripTagsIsTagFree(AfterClose(s[1..]).value);
    } else {
      var t := StripTags(s[1..]);
      StripTagsIsTagFree(s[1..]);
      var r := [s[0]] + t;
      assert StripTags(s) == r;
      if s[0] == '<' {
        assert '>' !in t;
      }
      forall i, j | 0 <= i < j < |r| && r[i] == '<' ensures r[j] != '>' {
        if i == 0 {
          assert r[j] == t[j - 1];
        } else {
          assert r[i] == t[i - 1] && r[j] == t[j - 1];
        }
      }
    }
  }

  /** Text without tags is left as it is. */
  lemma {:induction false} StripTagsKeepsTagFree(s: string)
    requires TagFree(s)
    ensures StripTags(s) == s
    decreases |s|
  {
    if s != [] {
      if s[0] == '<' {
        assert forall j :: 0 <= j < |s| - 1 ==> s[1..][j] == s[j + 1];
        assert '>' !in s[1..];
      }
      assert TagFree(s[1..]) by {
        forall i, j | 0 <= i < j < |s| - 1 && s[1..][i] == '<' ensures s[1..][j] != '>' {
          assert s[1..][i] == s[i + 1] && s[1..][j] == s[j + 1];
        }
      }
      StripTagsKeepsTagFree(s[1..]);
    }
  }

  /** In particular, a string without any `<` is unchanged. */
  lemma StripTagsKeepsPlainText(s: string)
    requires '<' !in s
    ensures StripTags(s) == s
  {
    StripTagsKeepsTagFree(s);
  }

  /** Stripping is idempotent. */
  lemma StripTagsIdempotent(s: string)
    ensures StripTags(StripTags(s)) == StripTags(s)
  {
    StripTagsIsTagFree(s);
    StripTagsKeepsTagFree(StripTags(s));
  }
}
