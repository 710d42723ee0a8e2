/** `escapeHtml`: character-by-character replacement of the five
    HTML-special characters by entity references. */
module Html {
  import opened Strings

  /** The characters `escapeHtml` rewrites. */
  predicate IsSpecial(c: char) {
    c == '&' || c == '<' || c == '>' || c == '"' || c == '\''
  }

  /** The characters that may not appear in escaped text. */
  predicate IsMarkup(c: char) {
    c == '<' || c == '>' || c == '"' || c == '\''
  }

  /** The replacement of one character. */
  function EscapeChar(c: char): string {
    if c == '&' then "&amp;"
    else if c == '<' then "&lt;"
    else if c == '>' then "&gt;"
    else if c == '"' then "&quot;"
    else if c == '\'' then "&#39;"
    else [c]
  }

  /** `escapeHtml(s)`: each character replaced on its own, left to right,
      without rescanning; the result is never shorter than the input.
      `EscapeSafe` and `UnescapeEscape` below say what it contains. */
  function Escape(s: string): (r: string)
    ensures |r| >= |s|
  {
    if s == [] then [] else EscapeChar(s[0]) + Escape(s[1..])
  }

  /** No angle bracket or quote survives escaping. */
  lemma {:induction false} EscapeSafe(s: string)
    ensures forall k :: 0 <= k < |Escape(s)| ==> !IsMarkup(Escape(s)[k])
  {
    if s != [] {
      EscapeSafe(s[1..]);
      var e, rest := EscapeChar(s[0]), Escape(s[1..]);
      assert forall k :: 0 <= k < |e| ==> !IsMarkup(e[k]);
      assert forall k :: |e| <= k < |e + rest| ==> (e + rest)[k] == rest[k - |e|];
    }
  }

  /** Escaping distributes over concatenation. */
  lemma {:induction false} EscapeAppend(a: string, b: string)
    ensures Escape(a + b) == Escape(a) + Escape(b)
  {
    if a == [] {
      assert a + b == b;
    } else {
      assert (a + b)[0] == a[0] && (a + b)[1..] == a[1..] + b;
      EscapeAppend(a[1..], b);
    }
  }

  /** Text without special characters is left as it is. */
  lemma {:induction false} EscapePlain(s: string)
    requires forall k :: 0 <= k < |s| ==> !IsSpecial(s[k])
    ensures Escape(s) == s
  {
    if s != [] {
      EscapePlain(s[1..]);
    }
  }

  /** Escaping introduces no line break: a line stays one line. */
  lemma {:induction false} EscapeNoNewline(s: string)
    requires '\n' !in s
    ensures '\n' !in Escape(s)
  {
    if s != [] {
      assert s[0] in s;
      EscapeCharNoNewline(s[0]);
      EscapeNoNewline(s[1..]);
    }
  }

  lemma EscapeCharNoNewline(c: char)
    requires c != '\n'
    ensures '\n' !in EscapeChar(c)
  {
  }

  /** Decodes the five entity references `Escape` produces, and leaves
      every other character alone. */
  function Unescape(s: string): string
    decreases |s|
  {
    if s == [] then []
    else if StartsWith(s, "&amp;") then "&" + Unescape(s[5..])
    else if StartsWith(s, "&lt;") then "<" + Unescape(s[4..])
    else if StartsWith(s, "&gt;") then ">" + Unescape(s[4..])
    else if StartsWith(s, "&quot;") then "\"" + Unescape(s[6..])
    else if StartsWith(s, "&#39;") then "'" + Unescape(s[5..])
    else [s[0]] + Unescape(s[1..])
  }

  /** Decoding undoes the replacement of one character. */
  lemma UnescapeOne(c: char, rest: string)
    ensures Unescape(EscapeChar(c) + rest) == [c] + Unescape(rest)
  {
    if IsSpecial(c) {
      UnescapeEntity(c, rest);
    } else {
      var s := [c] + rest;
      assert s[0] == c && s[1..] == rest;
      assert !StartsWith(s, "&amp;") && !StartsWith(s, "&lt;") && !StartsWith(s, "&gt;");
      assert !StartsWith(s, "&quot;") && !StartsWith(s, "&#39;");
    }
  }

  lemma UnescapeEntity(c: char, rest: string)
    requires IsSpecial(c)
    ensures Unescape(EscapeChar(c) + rest) == [c] + Unescape(rest)
  {
    var e := EscapeChar(c);
    var s := e + rest;
    assert s[..|e|] == e && s[|e|..] == rest;
    assert s[0] == '&';
    if c == '&' {
      assert StartsWith(s, "&amp;");
    } else {
      assert !StartsWith(s, "&amp;") by { assert s[1] != 'a'; }
      if c == '<' {
        assert StartsWith(s, "&lt;");
      } else {
        assert !StartsWith(s, "&lt;") by { assert s[1] != 'l'; }
        if c == '>' {
          assert StartsWith(s, "&gt;");
        } else {
          assert !StartsWith(s, "&gt;") by { assert s[1] != 'g'; }
          if c == '"' {
            assert StartsWith(s, "&quot;");
          } else {
            assert !StartsWith(s, "&quot;") by { assert s[1] != 'q'; }
            assert StartsWith(s, "&#39;");
          }
        }
      }
    }
  }

  /** Escaping is applied exactly once and loses nothing: decoding the
      escaped text gives the original back. */
  lemma {:induction false} UnescapeEscape(s: string)
    ensures Unescape(Escape(s)) == s
  {
    if s != [] {
      UnescapeEscape(s[1..]);
      UnescapeOne(s[0], Escape(s[1..]));
    }
  }
}
