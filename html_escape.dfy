/**
 * `escapeHtml` of popup.js: every `&`, `<`, `>`, `"` and `'` becomes its
 * character entity; other characters are copied; a non-string gives "".
 */
module HtmlEscape {
  import opened Wrappers

  predicate IsSpecial(c: char) {
    c == '&' || c == '<' || c == '>' || c == '"' || c == '\''
  }

  /** The replacement the lookup table gives each matched character. */
  function Entity(c: char): (r: string)
    ensures '<' !in r && '>' !in r && '"' !in r && '\'' !in r
    ensures !IsSpecial(c) ==> r == [c]
    ensures IsSpecial(c) ==> |r| >= 4 && r[0] == '&' && r[|r| - 1] == ';'
  {
    if c == '&' then "&amp;"
    else if c == '<' then "&lt;"
    else if c == '>' then "&gt;"
    else if c == '"' then "&quot;"
    else if c == '\'' then "&#39;"
    else [c]
  }

  /** `str.replace(/[&<>"']/g, ...)` on a string. */
  function Escape(s: string): (r: string)
    ensures '<' !in r && '>' !in r && '"' !in r && '\'' !in r
    ensures (forall i :: 0 <= i < |s| ==> !IsSpecial(s[i])) ==> r == s
    ensures |r| >= |s|
  {
    if s == [] then []
    else
      Entity(s[0]) + Escape(s[1..])
  }

  /** `escapeHtml(str)`: `None` stands for an argument that is not a string. */
  function EscapeHtml(str: Option<string>): (r: string)
    ensures str.None? ==> r == ""
    ensures str.Some? ==> Unescape(r) == str.value && '<' !in r && '>' !in r
  {
    match str
    case None => ""
    case Some(s) => UnescapeEscape(s); Escape(s)
  }

  /** Escaping works character by character: it distributes over concatenation. */
  lemma {:induction false} EscapeConcat(a: string, b: string)
    ensures Escape(a + b) == Escape(a) + Escape(b)
    decreases |a|
  {
    if a != [] {
      assert (a + b)[0] == a[0] && (a + b)[1..] == a[1..] + b;
      EscapeConcat(a[1..], b);
    } else {
      assert a + b == b;
    }
  }

  /**
   * The entity decoding an HTML parser applies to text and attribute values,
   * restricted to the five entities `Escape` produces.
   */
  function Unescape(s: string): string {
    if s == [] then []
    else if s[0] == '&' && "amp;" <= s[1..] then "&" + Unescape(s[5..])
    else if s[0] == '&' && "lt;" <= s[1..] then "<" + Unescape(s[4..])
    else if s[0] == '&' && "gt;" <= s[1..] then ">" + Unescape(s[4..])
    else if s[0] == '&' && "quot;" <= s[1..] then "\"" + Unescape(s[6..])
    else if s[0] == '&' && "#39;" <= s[1..] then "'" + Unescape(s[5..])
    else [s[0]] + Unescape(s[1..])
  }

  /** Decoding reads one entity back as the character it stands for. */
  lemma UnescapeEntity(c: char, t: string)
    ensures Unescape(Entity(c) + t) == [c] + Unescape(t)
  {
    if c == '&' {
      UnescapeAmp(t);
    } else if c == '<' {
      UnescapeLt(t);
    } else if c == '>' {
      UnescapeGt(t);
    } else if c == '"' {
      UnescapeQuot(t);
    } else if c == '\'' {
      UnescapeApos(t);
    } else {
      var x := [c] + t;
      assert x[0] == c && x[1..] == t;
    }
  }

  lemma UnescapeAmp(t: string)
    ensures Unescape("&amp;" + t) == "&" + Unescape(t)
  {
    var x := "&amp;" + t;
    assert x[0] == '&' && x[1..] == "amp;" + t && x[5..] == t;
  }

  lemma UnescapeLt(t: string)
    ensures Unescape("&lt;" + t) == "<" + Unescape(t)
  {
    var x := "&lt;" + t;
    assert x[0] == '&' && x[1] == 'l' && x[1..] == "lt;" + t && x[4..] == t;
  }

  lemma UnescapeGt(t: string)
    ensures Unescape("&gt;" + t) == ">" + Unescape(t)
  {
    var x := "&gt;" + t;
    assert x[0] == '&' && x[1] == 'g' && x[1..] == "gt;" + t && x[4..] == t;
  }

  lemma UnescapeQuot(t: string)
    ensures Unescape("&quot;" + t) == "\"" + Unescape(t)
  {
    var x := "&quot;" + t;
    assert x[0] == '&' && x[1] == 'q' && x[1..] == "quot;" + t && x[6..] == t;
  }

  lemma UnescapeApos(t: string)
    ensures Unescape("&#39;" + t) == "'" + Unescape(t)
  {
    var x := "&#39;" + t;
    assert x[0] == '&' && x[1] == '#' && x[1..] == "#39;" + t && x[5..] == t;
  }

  /**
   * What the popup writes into `data-key` reads back as the key itself, so
   * the edit and delete buttons find the entry they were drawn for.
   */
  lemma {:induction false} UnescapeEscape(s: string)
    ensures Unescape(Escape(s)) == s
    decreases |s|
  {
    if s != [] {
      UnescapeEntity(s[0], Escape(s[1..]));
      UnescapeEscape(s[1..]);
      assert s == [s[0]] + s[1..];
    }
  }

  /** Two strings with the same escaped form are equal. */
  lemma EscapeInjective(a: string, b: string)
    requires Escape(a) == Escape(b)
    ensures a == b
  {
    UnescapeEscape(a);
    UnescapeEscape(b);
  }
}
