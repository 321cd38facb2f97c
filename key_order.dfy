/**
 * The order in which the engine tries the shortcut keys:
 * `Object.keys(SHORTCUTS).sort((a, b) => b.length - a.length)`, that is, a
 * permutation of the registry's keys by non-increasing length. Ties keep
 * `Object.keys` order in the browser; the model allows any tie order and
 * proves that the outcome does not depend on it.
 */
module KeyOrder {

  predicate ByLength(keys: seq<string>) {
    forall i, j :: 0 <= i < j < |keys| ==> |keys[i]| >= |keys[j]|
  }

  /** `keys` lists every key of `dom` exactly once, as `Object.keys` does. */
  predicate Enumerates(keys: seq<string>, dom: set<string>) {
    multiset(keys) == multiset(dom)
  }

  /** `keys` is a longest-first ordering of the key set `dom`. */
  predicate LongestFirst(keys: seq<string>, dom: set<string>) {
    Enumerates(keys, dom) && ByLength(keys)
  }

  /** Inserts `k` before the first key shorter than it. */
  function InsertByLength(k: string, s: seq<string>): (r: seq<string>)
    requires ByLength(s)
    ensures ByLength(r)
    ensures multiset(r) == multiset(s) + multiset{k}
  {
    if s == [] || |k| >= |s[0]| then [k] + s
    else
      var t := InsertByLength(k, s[1..]);
      assert s == [s[0]] + s[1..];
      AllAtMost(t, s[1..], k, |s[0]|);
      ByLengthCons(s[0], t);
      [s[0]] + t
  }

  /** A key at least as long as every key of a longest-first sequence may go in front of it. */
  lemma ByLengthCons(x: string, t: seq<string>)
    requires ByLength(t) && forall j :: 0 <= j < |t| ==> |t[j]| <= |x|
    ensures ByLength([x] + t)
  {
    var r := [x] + t;
    forall i, j | 0 <= i < j < |r| ensures |r[i]| >= |r[j]| {
      assert r[j] == t[j - 1];
      if i > 0 {
        assert r[i] == t[i - 1];
      }
    }
  }

  /** A permutation of `s` plus `k` has no key longer than the longest of them. */
  lemma AllAtMost(t: seq<string>, s: seq<string>, k: string, n: int)
    requires multiset(t) == multiset(s) + multiset{k}
    requires |k| <= n && forall i :: 0 <= i < |s| ==> |s[i]| <= n
    ensures forall j :: 0 <= j < |t| ==> |t[j]| <= n
  {
    forall j | 0 <= j < |t| ensures |t[j]| <= n {
      assert t[j] in multiset(t);
      if t[j] != k {
        assert t[j] in multiset(s);
        var m :| 0 <= m < |s| && s[m] == t[j];
      }
    }
  }

  /** One longest-first ordering of a finite key set. */
  ghost function OrderByLength(dom: set<string>): (keys: seq<string>)
    ensures LongestFirst(keys, dom)
    decreases |dom|
  {
    if dom == {} then []
    else
      var k :| k in dom;
      var rest := OrderByLength(dom - {k});
      assert dom == (dom - {k}) + {k};
      assert multiset(dom) == multiset(dom - {k}) + multiset{k};
      InsertByLength(k, rest)
  }

  /** Every registry, however its keys were entered, has a longest-first ordering. */
  lemma LongestFirstExists(dom: set<string>)
    ensures exists keys :: LongestFirst(keys, dom)
  {
    var keys := OrderByLength(dom);
    assert LongestFirst(keys, dom);
  }

  /** Every registry can be enumerated. */
  lemma EnumerationExists(dom: set<string>)
    ensures exists keys :: Enumerates(keys, dom)
  {
    var keys := OrderByLength(dom);
    assert Enumerates(keys, dom);
  }

  /** An enumeration has as many entries as the registry has keys. */
  lemma EnumerationLength(keys: seq<string>, dom: set<string>)
    requires Enumerates(keys, dom)
    ensures |keys| == |dom|
  {
    assert |multiset(keys)| == |keys|;
    assert |multiset(dom)| == |dom|;
  }

  /** Every key of the ordering is a key of the registry. */
  lemma LongestFirstKeysRegistered(keys: seq<string>, dom: set<string>)
    requires LongestFirst(keys, dom)
    ensures forall i :: 0 <= i < |keys| ==> keys[i] in dom
  {
    forall i | 0 <= i < |keys| ensures keys[i] in dom {
      assert keys[i] in multiset(keys);
    }
  }

  /** Every key of the registry appears in the ordering. */
  lemma LongestFirstCoversRegistry(keys: seq<string>, dom: set<string>)
    requires LongestFirst(keys, dom)
    ensures forall k :: k in dom ==> k in keys
  {
    forall k | k in dom ensures k in keys {
      assert k in multiset(dom);
    }
  }
}
