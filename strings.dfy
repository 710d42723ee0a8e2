/** String primitives the viewer relies on: the whitespace class shared by
    `trim` and the regular-expression class `\s`, ASCII lower-casing,
    prefix and substring tests, and `split`/`join` on a separator. */
module Strings {

  /** ECMAScript WhiteSpace and LineTerminator code points: the set that
      `String.prototype.trim` strips and that `\s` matches (so `\S` is its
      complement): U+0009 to U+000D, U+0020, U+00A0, U+1680,
      U+2000 to U+200A, U+2028, U+2029, U+202F, U+205F, U+3000 and U+FEFF,
      tested by code-point range. */
  predicate IsSpace(c: char) {
    var n := c as int;
    if n < 0x100 then (0x09 <= n <= 0x0D) || n == 0x20 || n == 0xA0
    else if n < 0x2000 then n == 0x1680
    else if n < 0x3000 then n <= 0x200A || n == 0x2028 || n == 0x2029 || n == 0x202F || n == 0x205F
    else n == 0x3000 || n == 0xFEFF
  }

  /** Drops the leading run of whitespace: what is left is a suffix that
      does not start with whitespace. */
  function TrimStart(s: string): (r: string)
    ensures |r| <= |s| && r == s[|s| - |r|..]
    ensures r == [] || !IsSpace(r[0])
  {
    if |s| > 0 && IsSpace(s[0]) then TrimStart(s[1..]) else s
  }

  /** What `TrimStart` drops is whitespace. */
  lemma {:induction false} TrimStartSpace(s: string, k: nat)
    requires k < |s| - |TrimStart(s)|
    ensures IsSpace(s[k])
  {
    if k > 0 {
      TrimStartSpace(s[1..], k - 1);
    }
  }

  /** Drops the trailing run of whitespace: what is left is a prefix that
      does not end with whitespace. */
  function TrimEnd(s: string): (r: string)
    ensures |r| <= |s| && r == s[..|r|]
    ensures r == [] || !IsSpace(r[|r| - 1])
  {
    if |s| > 0 && IsSpace(s[|s| - 1]) then TrimEnd(s[..|s| - 1]) else s
  }

  /** What `TrimEnd` drops is whitespace. */
  lemma {:induction false} TrimEndSpace(s: string, k: nat)
    requires |TrimEnd(s)| <= k < |s|
    ensures IsSpace(s[k])
  {
    if k < |s| - 1 {
      TrimEndSpace(s[..|s| - 1], k);
    }
  }

  /** `s.trim()`: it neither starts nor ends with whitespace;
      it is a prefix of a suffix of `s`, and `TrimSkipped` says that what it
      drops is whitespace. */
  function Trim(s: string): (r: string)
    ensures |r| <= |s|
    ensures r == [] || (!IsSpace(r[0]) && !IsSpace(r[|r| - 1]))
  {
    TrimEnd(TrimStart(s))
  }

  /** The characters `trim` drops, before and after what it keeps, are
      whitespace. */
  lemma TrimSkipped(s: string, k: nat)
    requires k < |s|
    ensures var i, r := |s| - |TrimStart(s)|, Trim(s);
      k < i || i + |r| <= k ==> IsSpace(s[k])
  {
    var t := TrimStart(s);
    var r := TrimEnd(t);
    var i := |s| - |t|;
    if k < i {
      TrimStartSpace(s, k);
    } else if i + |r| <= k {
      TrimEndSpace(t, k - i);
      assert t[k - i] == s[k];
    }
  }

  /** Trimming a trimmed string changes nothing. */
  lemma TrimIdempotent(s: string)
    ensures Trim(Trim(s)) == Trim(s)
  {
    var t := Trim(s);
    assert TrimStart(t) == t;
    assert TrimEnd(t) == t;
  }

  /** A character that occurs in `Trim(s)` occurs in `s`. */
  lemma TrimChars(s: string, c: char)
    requires c in Trim(s)
    ensures c in s
  {
    var t := TrimStart(s);
    var r := TrimEnd(t);
    var k :| 0 <= k < |r| && r[k] == c;
    assert t[k] == c;
    assert s[|s| - |t| + k] == c;
  }

  /** A character missing from `s` is missing from its trimmed form. */
  lemma TrimNoChar(s: string, c: char)
    requires c !in s
    ensures c !in Trim(s)
  {
    if c in Trim(s) {
      TrimChars(s, c);
    }
  }

  /** A character missing from `s` is missing from every suffix of it. */
  lemma SuffixNoChar(s: string, c: char, i: nat)
    requires c !in s && i <= |s|
    ensures c !in s[i..]
  {
  }

  /** ASCII `toLowerCase` of one character. */
  function LowerChar(c: char): char {
    if 'A' <= c <= 'Z' then (c as int + 32) as char else c
  }

  /** ASCII `toLowerCase`: same length, each character lowered on its own. */
  function Lower(s: string): (r: string)
    ensures |r| == |s|
    ensures forall k :: 0 <= k < |s| ==> r[k] == LowerChar(s[k])
  {
    seq(|s|, k requires 0 <= k < |s| => LowerChar(s[k]))
  }

  /** `s.startsWith(p)`. */
  predicate StartsWith(s: string, p: string) {
    |p| <= |s| && s[..|p|] == p
  }

  /** `s.includes(t)`: `t` occurs in `s` at some offset. */
  predicate Contains(s: string, t: string) {
    exists i | 0 <= i <= |s| - |t| :: OccursAt(s, t, i)
  }

  /** `t` occurs in `s` starting at offset `i`. */
  predicate OccursAt(s: string, t: string, i: int) {
    0 <= i && i + |t| <= |s| && s[i..i + |t|] == t
  }

  /** Substring containment is transitive. */
  lemma ContainsTransitive(s: string, t: string, u: string)
    requires Contains(s, t) && Contains(t, u)
    ensures Contains(s, u)
  {
    var i :| OccursAt(s, t, i);
    assert OccursAt(s, t, i);
    var j :| OccursAt(t, u, j);
    assert OccursAt(t, u, j);
    var n := |u|;
    assert forall k :: 0 <= k < n ==> s[i + j + k] == t[j + k] == u[k];
    assert s[i + j..i + j + n] == u;
    assert OccursAt(s, u, i + j);
  }

  /** Lower-casing commutes with taking a slice. */
  lemma LowerSlice(s: string, i: nat, j: nat)
    requires i <= j <= |s|
    ensures Lower(s)[i..j] == Lower(s[i..j])
  {
    assert forall k :: 0 <= k < j - i ==> Lower(s)[i..j][k] == LowerChar(s[i + k]) == Lower(s[i..j])[k];
  }

  /** `s.includes(t)` survives lower-casing both strings. */
  lemma LowerContains(s: string, t: string)
    requires Contains(s, t)
    ensures Contains(Lower(s), Lower(t))
  {
    var i :| 0 <= i <= |s| - |t| && OccursAt(s, t, i);
    LowerSlice(s, i, i + |t|);
    assert OccursAt(Lower(s), Lower(t), i);
  }

  /** A string contains its trimmed form. */
  lemma ContainsTrim(s: string)
    ensures Contains(s, Trim(s))
  {
    var t := TrimStart(s);
    var r := TrimEnd(t);
    assert OccursAt(s, t, |s| - |t|);
    assert OccursAt(t, r, 0);
    ContainsTransitive(s, t, r);
  }

  /** An occurrence of a string that starts with non-whitespace survives
      dropping the leading whitespace. */
  lemma {:induction false} ContainsTrimStart(s: string, u: string)
    requires Contains(s, u) && u != [] && !IsSpace(u[0])
    ensures Contains(TrimStart(s), u)
    decreases |s|
  {
    if |s| > 0 && IsSpace(s[0]) {
      var i :| 0 <= i <= |s| - |u| && OccursAt(s, u, i);
      assert s[i] == u[0] by {
        assert s[i..i + |u|][0] == s[i];
      }
      assert OccursAt(s[1..], u, i - 1) by {
        assert s[1..][i - 1..i - 1 + |u|] == s[i..i + |u|];
      }
      ContainsTrimStart(s[1..], u);
    }
  }

  /** An occurrence of a string that ends with non-whitespace survives
      dropping the trailing whitespace. */
  lemma {:induction false} ContainsTrimEnd(s: string, u: string)
    requires Contains(s, u) && u != [] && !IsSpace(u[|u| - 1])
    ensures Contains(TrimEnd(s), u)
    decreases |s|
  {
    if |s| > 0 && IsSpace(s[|s| - 1]) {
      var i :| 0 <= i <= |s| - |u| && OccursAt(s, u, i);
      assert s[i + |u| - 1] == u[|u| - 1] by {
        assert s[i..i + |u|][|u| - 1] == s[i + |u| - 1];
      }
      var init := s[..|s| - 1];
      assert OccursAt(init, u, i) by {
        assert init[i..i + |u|] == s[i..i + |u|];
      }
      ContainsTrimEnd(init, u);
    }
  }

  /** `s.includes(t)` survives trimming both strings: the trimmed `t`
      starts and ends with a non-whitespace character of `s`, so it lies
      inside the trimmed `s`. */
  lemma ContainsTrimmed(s: string, t: string)
    requires Contains(s, t)
    ensures Contains(Trim(s), Trim(t))
  {
    var u := Trim(t);
    if u == [] {
      assert OccursAt(Trim(s), u, 0);
    } else {
      ContainsTrim(t);
      ContainsTransitive(s, t, u);
      ContainsTrimStart(s, u);
      ContainsTrimEnd(TrimStart(s), u);
    }
  }

  /** Number of occurrences of the character `c` in `s`. */
  function Count(s: string, c: char): nat {
    if s == [] then 0 else (if s[0] == c then 1 else 0) + Count(s[1..], c)
  }

  lemma {:induction false} CountAppend(a: string, b: string, c: char)
    ensures Count(a + b, c) == Count(a, c) + Count(b, c)
  {
    if a != [] {
      assert (a + b)[1..] == a[1..] + b;
      assert (a + b)[0] == a[0];
      CountAppend(a[1..], b, c);
    } else {
      assert a + b == b;
    }
  }

  /** `s.split(c)` for a one-character separator: one piece more than there
      are separators, no piece containing the separator. */
  function Split(s: string, c: char): (r: seq<string>)
    ensures |r| == Count(s, c) + 1
    ensures forall k :: 0 <= k < |r| ==> c !in r[k]
  {
    if s == [] then [""]
    else
      var rest := Split(s[1..], c);
      if s[0] == c then [""] + rest else [[s[0]] + rest[0]] + rest[1..]
  }

  /** `xs.join(sep)`. */
  function Join(xs: seq<string>, sep: string): string {
    if |xs| == 0 then "" else if |xs| == 1 then xs[0] else xs[0] + sep + Join(xs[1..], sep)
  }

  /** Joining the pieces of a split with the separator gives back the
      original string. */
  lemma {:induction false} JoinSplit(s: string, c: char)
    ensures Join(Split(s, c), [c]) == s
  {
    if s != [] {
      var rest := Split(s[1..], c);
      JoinSplit(s[1..], c);
      if s[0] == c {
        assert Split(s, c) == [""] + rest;
        assert ([""] + rest)[1..] == rest;
      } else {
        var r := Split(s, c);
        assert r == [[s[0]] + rest[0]] + rest[1..];
        if |rest| == 1 {
          assert Join(r, [c]) == [s[0]] + rest[0];
        } else {
          assert r[1..] == rest[1..];
          assert Join(r, [c]) == [s[0]] + rest[0] + [c] + Join(rest[1..], [c]);
        }
      }
    }
  }

  /** Splitting a string that starts with a separator-free prefix `a`: the
      first piece is extended by `a`, the others are unchanged. */
  lemma {:induction false} SplitPrefix(a: string, b: string, c: char)
    requires c !in a
    ensures Split(a + b, c) == [a + Split(b, c)[0]] + Split(b, c)[1..]
  {
    if a != [] {
      assert (a + b)[1..] == a[1..] + b;
      assert (a + b)[0] == a[0] && a[0] != c;
      SplitPrefix(a[1..], b, c);
      var sb := Split(b, c);
      assert a == [a[0]] + a[1..];
      assert [a[0]] + (a[1..] + sb[0]) == a + sb[0];
    } else {
      assert a + b == b;
      var sb := Split(b, c);
      assert a + sb[0] == sb[0];
      assert [sb[0]] + sb[1..] == sb;
    }
  }

  /** Splitting the join of separator-free pieces gives the pieces back
      (there must be at least one, since splitting never yields none). */
  lemma {:induction false} SplitJoin(xs: seq<string>, c: char)
    requires |xs| > 0
    requires forall k :: 0 <= k < |xs| ==> c !in xs[k]
    ensures Split(Join(xs, [c]), c) == xs
  {
    if |xs| == 1 {
      SplitPrefix(xs[0], "", c);
      assert xs[0] + "" == xs[0];
    } else {
      var j := Join(xs[1..], [c]);
      SplitJoin(xs[1..], c);
      assert ([c] + j)[1..] == j;
      assert Split([c] + j, c) == [""] + xs[1..];
      assert xs[0] + [c] + j == xs[0] + ([c] + j);
      SplitPrefix(xs[0], [c] + j, c);
      assert xs[0] + "" == xs[0];
    }
  }

  /** Joining two non-empty lists is joining each and gluing them with the
      separator. */
  lemma {:induction false} JoinAppend(xs: seq<string>, ys: seq<string>, sep: string)
    requires |xs| > 0 && |ys| > 0
    ensures Join(xs + ys, sep) == Join(xs, sep) + sep + Join(ys, sep)
  {
    if |xs| > 1 {
      assert (xs + ys)[1..] == xs[1..] + ys;
      JoinAppend(xs[1..], ys, sep);
    } else {
      assert (xs + ys)[1..] == ys;
    }
  }
}
