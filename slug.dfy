/** `slugify`: the anchor id derived from a heading title. */
module Slug {
  import opened Strings

  /** The characters `[a-z0-9]` that survive slugification as they are. */
  predicate IsSlugChar(c: char) {
    'a' <= c <= 'z' || '0' <= c <= '9'
  }

  /** A well-formed slug: only `a-z`, `0-9` and `-`, no leading or trailing
      hyphen, no two hyphens in a row. */
  ghost predicate IsSlug(r: string) {
    SlugChars(r) && (r == [] || (r[0] != '-' && r[|r| - 1] != '-')) && NoDoubleHyphen(r)
  }

  /** Only `a-z`, `0-9` and `-`. */
  predicate SlugChars(r: string) {
    forall k :: 0 <= k < |r| ==> IsSlugChar(r[k]) || r[k] == '-'
  }

  /** No `--` anywhere. */
  ghost predicate NoDoubleHyphen(r: string) {
    forall i, j :: 0 <= i < j < |r| && j == i + 1 ==> r[i] != '-' || r[j] != '-'
  }

  /** A word of lower-case letters and digits is a slug. */
  lemma WordIsSlug(w: string)
    requires forall k :: 0 <= k < |w| ==> 'a' <= w[k] <= 'z' || '0' <= w[k] <= '9'
    ensures IsSlug(w)
  {
  }

  /** Drops the leading run of characters outside `[a-z0-9]`. */
  function SkipRun(s: string): (r: string)
    ensures |r| <= |s| && r == s[|s| - |r|..]
    ensures forall k :: 0 <= k < |s| - |r| ==> !IsSlugChar(s[k])
    ensures r == [] || IsSlugChar(r[0])
  {
    if |s| > 0 && !IsSlugChar(s[0]) then
      var r := SkipRun(s[1..]);
      assert s[1..][|s| - 1 - |r|..] == s[|s| - |r|..];
      assert forall k :: 1 <= k < |s| - |r| ==> s[k] == s[1..][k - 1];
      r
    else s
  }

  /** The global replacement of `/[^a-z0-9]+/` by `-`: every maximal run of
      other characters becomes one hyphen. */
  function Collapse(s: string): string {
    if s == [] then []
    else if IsSlugChar(s[0]) then [s[0]] + Collapse(s[1..])
    else "-" + Collapse(SkipRun(s[1..]))
  }

  /** What `Collapse` leaves: only `a-z`, `0-9` and `-`, never two hyphens
      in a row, and a leading hyphen exactly when the input starts with a
      separator. */
  lemma {:induction false} CollapseShape(s: string)
    ensures SlugChars(Collapse(s)) && NoDoubleHyphen(Collapse(s))
    ensures s == [] <==> Collapse(s) == []
    ensures s != [] ==> (Collapse(s)[0] == '-' <==> !IsSlugChar(s[0]))
    decreases |s|
  {
    if s != [] {
      var rest := if IsSlugChar(s[0]) then s[1..] else SkipRun(s[1..]);
      var head := if IsSlugChar(s[0]) then [s[0]] else "-";
      CollapseShape(rest);
      assert Collapse(s) == head + Collapse(rest);
      ShapeCons(head, Collapse(rest));
    }
  }

  /** Putting a letter, a digit, or a hyphen in front of a string that does
      not start with one, keeps the slug characters and the absence of
      `--`. */
  lemma ShapeCons(head: string, t: string)
    requires SlugChars(t) && NoDoubleHyphen(t)
    requires |head| == 1 && (IsSlugChar(head[0]) || (head[0] == '-' && (t == [] || t[0] != '-')))
    ensures SlugChars(head + t) && NoDoubleHyphen(head + t)
  {
    var r := head + t;
    forall k | 0 < k < |r|
      ensures r[k] == t[k - 1]
    {
    }
    forall i, j | 0 <= i < j < |r| && j == i + 1
      ensures r[i] != '-' || r[j] != '-'
    {
      if i > 0 {
        assert r[i] == t[i - 1] && r[j] == t[j - 1];
      }
    }
  }

  /** The replacement of `/(^-|-$)/g` by the empty string: one leading and
      one trailing hyphen go. Applied to the output of `Collapse`, whose
      hyphens are never adjacent, this leaves a well-formed slug. */
  function StripHyphens(t: string): (r: string)
    ensures SlugChars(t) && NoDoubleHyphen(t) ==> IsSlug(r)
  {
    var u := if |t| > 0 && t[0] == '-' then t[1..] else t;
    if |u| > 0 && u[|u| - 1] == '-' then u[..|u| - 1] else u
  }

  /** `slugify(s)`: lower-case, collapse, strip. */
  function Slugify(s: string): string {
    StripHyphens(Collapse(Lower(s)))
  }

  /** The output of `slugify` contains only `a-z`, `0-9` and `-`, never
      starts or ends with `-` and never contains `--`. */
  lemma SlugifyIsSlug(s: string)
    ensures IsSlug(Slugify(s))
  {
    CollapseShape(Lower(s));
  }

  /** The letters and digits of `s`, in order. */
  function Alnums(s: string): string {
    if s == [] then [] else (if IsSlugChar(s[0]) then [s[0]] else []) + Alnums(s[1..])
  }

  lemma {:induction false} AlnumsAppend(a: string, b: string)
    ensures Alnums(a + b) == Alnums(a) + Alnums(b)
  {
    if a == [] {
      assert a + b == b;
    } else {
      var h := if IsSlugChar(a[0]) then [a[0]] else [];
      assert (a + b)[0] == a[0] && (a + b)[1..] == a[1..] + b;
      AlnumsAppend(a[1..], b);
      assert h + (Alnums(a[1..]) + Alnums(b)) == (h + Alnums(a[1..])) + Alnums(b);
    }
  }

  lemma {:induction false} AlnumsSkipRun(s: string)
    ensures Alnums(SkipRun(s)) == Alnums(s)
  {
    if |s| > 0 && !IsSlugChar(s[0]) {
      AlnumsSkipRun(s[1..]);
    }
  }

  lemma {:induction false} AlnumsCollapse(s: string)
    ensures Alnums(Collapse(s)) == Alnums(s)
  {
    if s != [] {
      var rest := if IsSlugChar(s[0]) then s[1..] else SkipRun(s[1..]);
      var head := if IsSlugChar(s[0]) then [s[0]] else "-";
      assert Collapse(s) == head + Collapse(rest);
      assert Alnums(s) == Alnums([s[0]]) + Alnums(s[1..]) by {
        AlnumsAppend([s[0]], s[1..]);
        assert [s[0]] + s[1..] == s;
      }
      if !IsSlugChar(s[0]) {
        AlnumsSkipRun(s[1..]);
      }
      AlnumsCollapse(rest);
      AlnumsAppend(head, Collapse(rest));
    }
  }

  lemma StripHyphensAlnums(t: string)
    ensures Alnums(StripHyphens(t)) == Alnums(t)
  {
    var u := if |t| > 0 && t[0] == '-' then t[1..] else t;
    assert Alnums(u) == Alnums(t) by {
      if |t| > 0 && t[0] == '-' {
        assert t == "-" + u;
        AlnumsAppend("-", u);
      }
    }
    if |u| > 0 && u[|u| - 1] == '-' {
      assert u == u[..|u| - 1] + "-";
      AlnumsAppend(u[..|u| - 1], "-");
    }
  }

  /** Slugification keeps exactly the letters and digits of the
      lower-cased title, in order: only separators are rewritten. */
  lemma SlugifyKeepsAlnums(s: string)
    ensures Alnums(Slugify(s)) == Alnums(Lower(s))
  {
    AlnumsCollapse(Lower(s));
    StripHyphensAlnums(Collapse(Lower(s)));
  }

  /** A well-formed slug is left alone by `Collapse`. */
  lemma {:induction false} CollapseSlug(r: string)
    requires SlugChars(r) && NoDoubleHyphen(r)
    ensures Collapse(r) == r
  {
    if r != [] {
      CollapseSlug(r[1..]);
      if !IsSlugChar(r[0]) {
        assert SkipRun(r[1..]) == r[1..];
      }
    }
  }

  /** Every well-formed slug is its own slug, so `Slugify` is idempotent. */
  lemma SlugifyFixes(r: string)
    requires IsSlug(r)
    ensures Slugify(r) == r
  {
    assert Lower(r) == r;
    CollapseSlug(r);
  }

  lemma SlugifyIdempotent(s: string)
    ensures Slugify(Slugify(s)) == Slugify(s)
  {
    SlugifyIsSlug(s);
    SlugifyFixes(Slugify(s));
  }

  /** A letter or digit in front passes through `Collapse`. */
  lemma CollapseCons(c: char, t: string)
    requires IsSlugChar(c)
    ensures Collapse([c] + t) == [c] + Collapse(t)
  {
    assert ([c] + t)[1..] == t;
  }

  /** A word of letters and digits passes through `Collapse` unchanged. */
  lemma {:induction false} CollapseWord(w: string, t: string)
    requires forall k :: 0 <= k < |w| ==> IsSlugChar(w[k])
    ensures Collapse(w + t) == w + Collapse(t)
  {
    if w == [] {
      assert w + t == t;
    } else {
      var rest := w[1..];
      assert w + t == [w[0]] + (rest + t);
      CollapseCons(w[0], rest + t);
      CollapseWord(rest, t);
      assert w == [w[0]] + rest;
    }
  }

  /** A non-empty run of other characters in front of a letter or digit
      (or at the end) becomes a single hyphen. */
  lemma {:induction false} CollapseRun(x: string, t: string)
    requires |x| > 0 && forall k :: 0 <= k < |x| ==> !IsSlugChar(x[k])
    requires t == [] || IsSlugChar(t[0])
    ensures Collapse(x + t) == "-" + Collapse(t)
  {
    assert (x + t)[0] == x[0] && (x + t)[1..] == x[1..] + t;
    SkipRunPast(x[1..], t);
  }

  lemma {:induction false} SkipRunPast(x: string, t: string)
    requires forall k :: 0 <= k < |x| ==> !IsSlugChar(x[k])
    requires t == [] || IsSlugChar(t[0])
    ensures SkipRun(x + t) == t
  {
    if x == [] {
      assert x + t == t;
    } else {
      assert (x + t)[0] == x[0] && (x + t)[1..] == x[1..] + t;
      SkipRunPast(x[1..], t);
    }
  }

  /** Two words of letters and digits with a run of other characters
      between them collapse to the words joined by one hyphen. */
  lemma CollapseWords(a: string, x: string, b: string)
    requires forall k :: 0 <= k < |a| ==> IsSlugChar(a[k])
    requires |x| > 0 && forall k :: 0 <= k < |x| ==> !IsSlugChar(x[k])
    requires |b| > 0 && forall k :: 0 <= k < |b| ==> IsSlugChar(b[k])
    ensures Collapse(a + (x + b)) == a + ("-" + b)
  {
    var xb := x + b;
    CollapseWord(b, []);
    assert b + [] == b;
    CollapseRun(x, b);
    assert Collapse(xb) == "-" + b;
    CollapseWord(a, xb);
  }

  /** A title made of two lower-case words with a run of punctuation or
      spaces between them becomes the two words joined by `-` (so
      `foo, bar` becomes `foo-bar`). */
  lemma SlugifyWords(a: string, x: string, b: string)
    requires |a| > 0 && forall k :: 0 <= k < |a| ==> IsSlugChar(a[k])
    requires |x| > 0 && forall k :: 0 <= k < |x| ==> !IsSlugChar(x[k]) && !('A' <= x[k] <= 'Z')
    requires |b| > 0 && forall k :: 0 <= k < |b| ==> IsSlugChar(b[k])
    ensures Slugify(a + (x + b)) == a + ("-" + b)
  {
    var s := a + (x + b);
    assert Lower(s) == s;
    CollapseWords(a, x, b);
    var r := a + ("-" + b);
    assert r[0] == a[0] && r[|r| - 1] == b[|b| - 1];
  }
}
