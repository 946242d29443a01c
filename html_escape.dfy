/** Python's `html.escape(s, quote=True)`, and the decoder for the five
    entities it produces, which is its inverse. */
module HtmlEscape {
  import opened Strings

  /** The characters `html.escape` rewrites, other than `&`. */
  predicate Markup(c: char) {
    c == '<' || c == '>' || c == '"' || c == '\''
  }

  /** No character that could open a tag or close an attribute value. */
  predicate HtmlSafe(s: string) {
    forall i | 0 <= i < |s| :: !Markup(s[i])
  }

  function EscapeChar(c: char): (r: string)
    ensures |r| > 0 && HtmlSafe(r)
    ensures r[0] == '&' <==> (c == '&' || Markup(c))
    ensures !(c == '&' || Markup(c)) ==> r == [c]
  {
    match c
    case '&' => "&amp;"
    case '<' => "&lt;"
    case '>' => "&gt;"
    case '"' => "&quot;"
    case '\'' => "&#x27;"
    case _ => [c]
  }

  /** `html.escape(s)`: `&` first, then `<`, `>`, `"` and `'`. Replacing
      `&` first is the same as escaping each character on its own. */
  function Escape(s: string): (r: string)
    ensures HtmlSafe(r)
    ensures |r| >= |s|
    decreases |s|
  {
    if s == [] then [] else EscapeChar(s[0]) + Escape(s[1..])
  }

  /** Decodes exactly the entities Escape emits; everything else is copied. */
  function Unescape(s: string): string
    decreases |s|
  {
    if s == [] then []
    else if StartsWith(s, "&amp;") then "&" + Unescape(s[5..])
    else if StartsWith(s, "&lt;") then "<" + Unescape(s[4..])
    else if StartsWith(s, "&gt;") then ">" + Unescape(s[4..])
    else if StartsWith(s, "&quot;") then "\"" + Unescape(s[6..])
    else if StartsWith(s, "&#x27;") then "'" + Unescape(s[6..])
    else [s[0]] + Unescape(s[1..])
  }

  /** A string not starting with `&` starts with none of the entities. */
  lemma NoEntityAt(s: string)
    requires |s| > 0 && s[0] != '&'
    ensures Unescape(s) == [s[0]] + Unescape(s[1..])
  {
    assert !StartsWith(s, "&amp;") && !StartsWith(s, "&lt;") && !StartsWith(s, "&gt;");
    assert !StartsWith(s, "&quot;") && !StartsWith(s, "&#x27;");
  }

  /** Decoding the escape of one character and then some rest. */
  lemma UnescapeEscapeChar(c: char, rest: string)
    ensures Unescape(EscapeChar(c) + rest) == [c] + Unescape(rest)
  {
    var e := EscapeChar(c);
    var s := e + rest;
    assert s[..|e|] == e && s[|e|..] == rest;
    if c == '&' || Markup(c) {
      assert s[1] == e[1];
      if c != '&' { Differs(s, "&amp;", 1); }
      if c != '&' && c != '<' { Differs(s, "&lt;", 1); }
      if c == '"' || c == '\'' { Differs(s, "&gt;", 1); }
      if c == '\'' { Differs(s, "&quot;", 1); }
    } else {
      assert s[1..] == rest;
      NoEntityAt(s);
    }
  }

  lemma Differs(s: string, prefix: string, k: nat)
    requires k < |s| && k < |prefix| && s[k] != prefix[k]
    ensures !StartsWith(s, prefix)
  {
  }

  /** Escaping loses nothing: the original text can be recovered. */
  lemma {:induction false} UnescapeEscape(s: string)
    ensures Unescape(Escape(s)) == s
    decreases |s|
  {
    if s != [] {
      UnescapeEscapeChar(s[0], Escape(s[1..]));
      UnescapeEscape(s[1..]);
    }
  }

  /** Escaping distributes over concatenation, so escaping an accumulated
      header equals accumulating escaped pieces. */
  lemma {:induction false} EscapeAppend(a: string, b: string)
    ensures Escape(a + b) == Escape(a) + Escape(b)
    decreases |a|
  {
    if a != [] {
      assert a + b != [] && (a + b)[0] == a[0] && (a + b)[1..] == a[1..] + b;
      EscapeAppend(a[1..], b);
      calc {
        Escape(a + b);
        EscapeChar(a[0]) + Escape(a[1..] + b);
        EscapeChar(a[0]) + (Escape(a[1..]) + Escape(b));
        (EscapeChar(a[0]) + Escape(a[1..])) + Escape(b);
        Escape(a) + Escape(b);
      }
    } else {
      assert a + b == b;
    }
  }

  /** Text without `&`, `<`, `>`, `"` or `'` is left as it is. */
  lemma {:induction false} EscapePlain(s: string)
    requires forall i | 0 <= i < |s| :: s[i] != '&' && !Markup(s[i])
    ensures Escape(s) == s
    decreases |s|
  {
    if s != [] {
      EscapePlain(s[1..]);
    }
  }
}
