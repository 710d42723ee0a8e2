/** `applyFilter`: the listing shown for a search query, as the string it
    assigns to the listing element. */
module Filter {
  import opened Strings

  /** `(q || "").toLowerCase().trim()`. */
  function NormalizeQuery(q: string): string {
    Trim(Lower(q))
  }

  /** The lines a non-empty query keeps: those containing the query once
      lower-cased, and every separator and anchor-marker line. */
  predicate Keep(line: string, query: string) {
    Contains(Lower(line), query) || StartsWith(line, "== ") || StartsWith(line, "[#")
  }

  /** `lines.filter(l => Keep(l, query))`. */
  function Kept(lines: seq<string>, query: string): seq<string> {
    if lines == [] then []
    else (if Keep(lines[0], query) then [lines[0]] else []) + Kept(lines[1..], query)
  }

  /** `applyFilter(q)` on the stored rendering: everything for a blank
      query, otherwise the kept lines joined back with LF. */
  function ApplyFilter(rendered: string, q: string): string {
    var query := NormalizeQuery(q);
    if query == "" then rendered
    else Join(Kept(Split(rendered, '\n'), query), "\n")
  }

  /** `a` is `b` with some elements left out, the rest in their order. */
  predicate Subseq<T(==)>(a: seq<T>, b: seq<T>)
    decreases |b|
  {
    a == [] || (b != [] && ((a[0] == b[0] && Subseq(a[1..], b[1..])) || Subseq(a, b[1..])))
  }

  lemma {:induction false} SubseqRefl<T>(a: seq<T>)
    ensures Subseq(a, a)
  {
    if a != [] {
      SubseqRefl(a[1..]);
    }
  }

  /** A blank query (after lower-casing and trimming) shows the whole
      rendering. */
  lemma FilterBlank(rendered: string, q: string)
    requires NormalizeQuery(q) == ""
    ensures ApplyFilter(rendered, q) == rendered
  {
  }

  /** The kept lines are an order-preserving subsequence of the lines. */
  lemma {:induction false} KeptSubseq(lines: seq<string>, query: string)
    ensures Subseq(Kept(lines, query), lines)
  {
    if lines != [] {
      KeptSubseq(lines[1..], query);
      var rest := Kept(lines[1..], query);
      if Keep(lines[0], query) {
        assert Kept(lines, query) == [lines[0]] + rest;
        assert ([lines[0]] + rest)[1..] == rest;
      } else {
        assert Kept(lines, query) == rest;
      }
    }
  }

  /** Exactly the lines satisfying `Keep` are kept, each as often as it
      occurs: with `KeptSubseq` this pins the kept lines down to the
      filter of the lines, in order. */
  lemma {:induction false} KeptCount(lines: seq<string>, query: string, x: string)
    ensures multiset(Kept(lines, query))[x] == if Keep(x, query) then multiset(lines)[x] else 0
  {
    if lines != [] {
      KeptCount(lines[1..], query, x);
      assert lines == [lines[0]] + lines[1..];
      assert multiset(lines) == multiset([lines[0]]) + multiset(lines[1..]);
      var head := if Keep(lines[0], query) then [lines[0]] else [];
      assert multiset(Kept(lines, query)) == multiset(head) + multiset(Kept(lines[1..], query));
    }
  }

  /** A line is kept exactly when it is one of the lines and satisfies
      `Keep`. */
  lemma KeptIff(lines: seq<string>, query: string, x: string)
    ensures x in Kept(lines, query) <==> x in lines && Keep(x, query)
  {
    KeptCount(lines, query, x);
  }

  /** No line of the split holds the separator, so neither does any kept
      line, and splitting the joined result gives the kept lines back. */
  lemma {:induction false} KeptNoSep(lines: seq<string>, query: string)
    requires forall k :: 0 <= k < |lines| ==> '\n' !in lines[k]
    ensures forall k :: 0 <= k < |Kept(lines, query)| ==> '\n' !in Kept(lines, query)[k]
  {
    if lines != [] {
      KeptNoSep(lines[1..], query);
    }
  }

  /** For a non-blank query the listing's lines are exactly the kept lines
      of the rendering (or a single empty line when nothing is kept, since
      joining no lines gives the empty text). */
  lemma FilterLines(rendered: string, q: string)
    requires NormalizeQuery(q) != ""
    ensures var kept := Kept(Split(rendered, '\n'), NormalizeQuery(q));
      Split(ApplyFilter(rendered, q), '\n') == if kept == [] then [""] else kept
  {
    var kept := Kept(Split(rendered, '\n'), NormalizeQuery(q));
    if kept != [] {
      KeptNoSep(Split(rendered, '\n'), NormalizeQuery(q));
      SplitJoin(kept, '\n');
    }
  }

  /** A kept line stays in the listing's lines. */
  lemma FilterShows(rendered: string, q: string, line: string)
    requires line in Split(rendered, '\n')
    requires NormalizeQuery(q) == "" || Keep(line, NormalizeQuery(q))
    ensures line in Split(ApplyFilter(rendered, q), '\n')
  {
    var query := NormalizeQuery(q);
    if query == "" {
      assert ApplyFilter(rendered, q) == rendered;
    } else {
      KeptIff(Split(rendered, '\n'), query, line);
      FilterLines(rendered, q);
    }
  }

  /** Separator and anchor-marker lines survive every query. */
  lemma FilterKeepsMarkers(rendered: string, q: string, line: string)
    requires line in Split(rendered, '\n')
    requires StartsWith(line, "== ") || StartsWith(line, "[#")
    ensures line in Split(ApplyFilter(rendered, q), '\n')
  {
    FilterShows(rendered, q, line);
  }

  /** Whatever the query, the listing shows lines of the rendering in
      their order, or is empty when a non-blank query keeps nothing. */
  lemma FilterSubseq(rendered: string, q: string)
    ensures ApplyFilter(rendered, q) == "" || Subseq(Split(ApplyFilter(rendered, q), '\n'), Split(rendered, '\n'))
  {
    var lines := Split(rendered, '\n');
    if NormalizeQuery(q) == "" {
      SubseqRefl(lines);
    } else {
      FilterLines(rendered, q);
      KeptSubseq(lines, NormalizeQuery(q));
    }
  }

  /** Each line of the listing for a non-blank query was a line of the
      rendering that satisfies `Keep`, or is the empty line that stands for
      an empty result. */
  lemma FilterOnlyKept(rendered: string, q: string, line: string)
    requires NormalizeQuery(q) != ""
    requires line in Split(ApplyFilter(rendered, q), '\n')
    ensures (line in Split(rendered, '\n') && Keep(line, NormalizeQuery(q))) || ApplyFilter(rendered, q) == ""
  {
    var query := NormalizeQuery(q);
    FilterLines(rendered, q);
    KeptIff(Split(rendered, '\n'), query, line);
  }

  /** A line containing a longer query contains a query it contains, so
      a longer query keeps a subsequence of what the shorter one keeps. */
  lemma {:induction false} KeptMonotone(lines: seq<string>, q1: string, q2: string)
    requires Contains(q2, q1)
    ensures Subseq(Kept(lines, q2), Kept(lines, q1))
  {
    if lines != [] {
      var x, rest := lines[0], lines[1..];
      KeptMonotone(rest, q1, q2);
      var k1, k2 := Kept(rest, q1), Kept(rest, q2);
      if Contains(Lower(x), q2) {
        ContainsTransitive(Lower(x), q2, q1);
      }
      if Keep(x, q2) {
        assert Kept(lines, q2) == [x] + k2 && Kept(lines, q1) == [x] + k1;
        assert ([x] + k2)[1..] == k2 && ([x] + k1)[1..] == k1;
      } else if Keep(x, q1) {
        assert Kept(lines, q2) == k2 && Kept(lines, q1) == [x] + k1;
        assert ([x] + k1)[1..] == k1;
        SubseqCons(k2, k1, x);
      } else {
        assert Kept(lines, q2) == k2 && Kept(lines, q1) == k1;
      }
    }
  }

  lemma SubseqCons<T>(a: seq<T>, b: seq<T>, x: T)
    requires Subseq(a, b)
    ensures Subseq(a, [x] + b)
  {
    assert ([x] + b)[1..] == b;
  }

  /** A query that contains another still contains it once both are
      lower-cased and trimmed. */
  lemma NormalizeContains(q1: string, q2: string)
    requires Contains(q2, q1)
    ensures Contains(NormalizeQuery(q2), NormalizeQuery(q1))
  {
    LowerContains(q2, q1);
    ContainsTrimmed(Lower(q2), Lower(q1));
  }

  /** Typing more of a query only hides lines: every line kept for a query
      `q2` is also kept, in the same order, for any query `q1` that `q2`
      contains. */
  lemma FilterMonotone(rendered: string, q1: string, q2: string)
    requires Contains(q2, q1)
    ensures Subseq(Kept(Split(rendered, '\n'), NormalizeQuery(q2)), Kept(Split(rendered, '\n'), NormalizeQuery(q1)))
  {
    NormalizeContains(q1, q2);
    KeptMonotone(Split(rendered, '\n'), NormalizeQuery(q1), NormalizeQuery(q2));
  }

  /** Filtering the kept lines again keeps them all. */
  lemma {:induction false} KeptKept(lines: seq<string>, query: string)
    ensures Kept(Kept(lines, query), query) == Kept(lines, query)
  {
    if lines != [] {
      KeptKept(lines[1..], query);
      var rest := Kept(lines[1..], query);
      if Keep(lines[0], query) {
        assert Kept(lines, query) == [lines[0]] + rest;
        assert ([lines[0]] + rest)[1..] == rest;
      } else {
        assert Kept(lines, query) == rest;
      }
    }
  }

  /** A non-empty query drops the lone empty line. */
  lemma KeptBlankLine(query: string)
    requires query != ""
    ensures Kept([""], query) == []
  {
    assert !StartsWith("", "== ") && !StartsWith("", "[#");
    assert !Contains(Lower(""), query);
  }

  /** Applying the same query to its own listing changes nothing. */
  lemma FilterIdempotent(rendered: string, q: string)
    ensures ApplyFilter(ApplyFilter(rendered, q), q) == ApplyFilter(rendered, q)
  {
    var query := NormalizeQuery(q);
    if query != "" {
      var kept := Kept(Split(rendered, '\n'), query);
      FilterLines(rendered, q);
      if kept == [] {
        KeptBlankLine(query);
      } else {
        KeptKept(Split(rendered, '\n'), query);
      }
    }
  }
}
