/** `isUrl`: the test `/^https?:\/\/\S+$/i` on the trimmed line, written
    out as a character-level matcher. */
module Url {
  import opened Strings

  /** `\S+$`: one or more non-whitespace characters and then the end. */
  predicate NonSpaceRun(w: string) {
    w != [] && !IsSpace(w[0]) && (|w| == 1 || NonSpaceRun(w[1..]))
  }

  /** `:\/\/\S+$`. */
  predicate MatchSep(u: string) {
    StartsWith(u, "://") && NonSpaceRun(u[3..])
  }

  /** `s?:\/\/\S+$`: first with the optional `s` taken, then without it,
      as a backtracking matcher tries them; `s` matches either case. */
  predicate MatchAfterHttp(u: string) {
    (|u| >= 1 && LowerChar(u[0]) == 's' && MatchSep(u[1..])) || MatchSep(u)
  }

  /** The whole pattern, anchored at both ends, case-insensitive. */
  predicate MatchUrl(t: string) {
    |t| >= 4 && Lower(t[..4]) == "http" && MatchAfterHttp(t[4..])
  }

  /** `isUrl(line)`. */
  predicate IsUrl(line: string) {
    MatchUrl(Trim(line))
  }

  /** No character of `w` is whitespace. */
  predicate NoSpace(w: string) {
    forall k :: 0 <= k < |w| ==> !IsSpace(w[k])
  }

  /** `t` starts with the lower-case `p`, compared case-insensitively. */
  predicate HasScheme(t: string, p: string) {
    |p| <= |t| && Lower(t[..|p|]) == p
  }

  lemma {:induction false} NonSpaceRunIff(w: string)
    ensures NonSpaceRun(w) <==> |w| > 0 && NoSpace(w)
  {
    if |w| > 1 {
      NonSpaceRunIff(w[1..]);
      assert NoSpace(w) <==> !IsSpace(w[0]) && NoSpace(w[1..]) by {
        assert forall k :: 1 <= k < |w| ==> w[k] == w[1..][k - 1];
      }
    }
  }

  /** Case-insensitive `http` followed by `://` is case-insensitive
      `http://` (and likewise with `s`). */
  lemma SchemeSplit(t: string, n: nat)
    requires n == 4 || n == 5
    requires |t| >= n
    ensures (Lower(t[..4]) == "http" && (n == 5 ==> LowerChar(t[4]) == 's') && StartsWith(t[n..], "://"))
        <==> HasScheme(t, if n == 4 then "http://" else "https://")
  {
    var p := if n == 4 then "http://" else "https://";
    if HasScheme(t, p) {
      assert forall k :: 0 <= k < 4 ==> Lower(t[..4])[k] == Lower(t[..|p|])[k];
      assert forall k :: 0 <= k < 3 ==> t[n + k] == t[n..][k] && LowerChar(t[n + k]) == p[n + k];
    }
    if Lower(t[..4]) == "http" && (n == 5 ==> LowerChar(t[4]) == 's') && StartsWith(t[n..], "://") {
      assert forall k :: 0 <= k < 3 ==> t[n + k] == t[n..][k];
      assert forall k :: 0 <= k < 4 ==> LowerChar(t[k]) == Lower(t[..4])[k];
      assert Lower(t[..|p|]) == p;
    }
  }

  /** `isUrl(line)` holds exactly when the trimmed line is `http://` or
      `https://`, in any case, followed by at least one character and no
      whitespace. */
  lemma IsUrlIff(line: string)
    ensures IsUrl(line) <==>
      var t := Trim(line);
      (HasScheme(t, "http://") && |t| > 7 && NoSpace(t[7..])) ||
      (HasScheme(t, "https://") && |t| > 8 && NoSpace(t[8..]))
  {
    var t := Trim(line);
    if |t| >= 4 {
      var u := t[4..];
      if |u| >= 1 {
        assert u[1..] == t[5..];
        if |t| >= 8 {
          assert u[1..][3..] == t[8..];
          NonSpaceRunIff(t[8..]);
        }
        SchemeSplit(t, 5);
      }
      if |t| >= 7 {
        assert u[3..] == t[7..];
        NonSpaceRunIff(t[7..]);
      }
      SchemeSplit(t, 4);
    }
  }

  /** A URL line holds no whitespace at all once trimmed; so a URL
      followed by a further word is not a URL line. */
  lemma UrlHasNoSpace(line: string)
    ensures IsUrl(line) ==> NoSpace(Trim(line))
  {
    IsUrlIff(line);
    var t := Trim(line);
    SchemesNoSpace();
    if HasScheme(t, "http://") && |t| > 7 && NoSpace(t[7..]) {
      SchemeNoSpace(t, "http://");
    } else if HasScheme(t, "https://") && |t| > 8 && NoSpace(t[8..]) {
      SchemeNoSpace(t, "https://");
    }
  }

  lemma SchemesNoSpace()
    ensures NoSpace("http://") && NoSpace("https://")
  {
  }

  /** A scheme without whitespace, matched case-insensitively, followed by
      text without whitespace has no whitespace. */
  lemma SchemeNoSpace(t: string, p: string)
    requires HasScheme(t, p) && NoSpace(p) && NoSpace(t[|p|..])
    ensures NoSpace(t)
  {
    forall k | 0 <= k < |t|
      ensures !IsSpace(t[k])
    {
      if k < |p| {
        assert Lower(t[..|p|])[k] == LowerChar(t[k]);
      } else {
        assert t[|p|..][k - |p|] == t[k];
      }
    }
  }
}
