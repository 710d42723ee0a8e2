/** `render`: the table of contents and the body text built from the
    parsed sections. */
module Render {
  import opened Strings
  import opened Slug
  import opened Html
  import opened Parser

  /** The body line `render` emits for one item. The URL goes into both
      the `href` attribute and the link text as it is, unescaped. */
  function ItemHtml(it: Item): string {
    match it
    case Blank => ""
    case Text(raw) => Escape(raw)
    case Link(u) => LinkOpen + u + LinkMid + u + LinkClose
  }

  /** The fixed parts of the anchor a link item becomes. */
  const LinkOpen := "<a href=\""
  const LinkMid := "\" rel=\"noreferrer noopener\" target=\"_blank\">"
  const LinkClose := "</a>"

  function ItemsHtml(items: seq<Item>): (r: seq<string>)
    ensures |r| == |items|
    ensures forall k :: 0 <= k < |items| ==> r[k] == ItemHtml(items[k])
  {
    seq(|items|, k requires 0 <= k < |items| => ItemHtml(items[k]))
  }

  /** The body lines of two runs of items are those of each run, one
      after the other. */
  lemma ItemsHtmlAppend(a: seq<Item>, b: seq<Item>)
    ensures ItemsHtml(a + b) == ItemsHtml(a) + ItemsHtml(b)
  {
    forall k | 0 <= k < |a| + |b|
      ensures ItemsHtml(a + b)[k] == (ItemsHtml(a) + ItemsHtml(b))[k]
    {
      if k < |a| {
        assert (a + b)[k] == a[k];
      } else {
        assert (a + b)[k] == b[k - |a|];
      }
    }
  }

  /** The two entries pushed for a section before its items: the
      separator (with a line break in front) and the anchor marker (with
      one behind). The title is not escaped. */
  function Header(s: Section): seq<string> {
    ["\n== " + s.title + " ==", "[#" + s.id + "]\n"]
  }

  /** Everything pushed onto `out` for one section. */
  function SectionOut(s: Section): seq<string> {
    Header(s) + ItemsHtml(s.items)
  }

  /** The array `out` after the loop over the given sections. */
  function Out(ss: seq<Section>): (r: seq<string>)
    ensures |r| == 2 * |ss| + TotalItems(ss)
  {
    if ss == [] then [] else Out(ss[..|ss| - 1]) + SectionOut(ss[|ss| - 1])
  }

  /** `out.join("\n")`. */
  function Body(ss: seq<Section>): string {
    Join(Out(ss), "\n")
  }

  /** A section with some non-blank item, the ones the table of contents
      lists. */
  predicate HasContent(s: Section) {
    exists k | 0 <= k < |s.items| :: !s.items[k].Blank?
  }

  /** The sections with content, in order. */
  function Listed(ss: seq<Section>): (r: seq<Section>)
    ensures forall s :: s in r <==> s in ss && HasContent(s)
  {
    if ss == [] then []
    else Listed(ss[..|ss| - 1]) + if HasContent(ss[|ss| - 1]) then [ss[|ss| - 1]] else []
  }

  /** The table-of-contents link of one section; the title is escaped. */
  function TocEntry(s: Section): string {
    "<a href=\"#" + s.id + "\">" + Escape(s.title) + "</a>"
  }

  function TocEntries(ss: seq<Section>): (r: seq<string>)
    ensures |r| == |ss|
    ensures forall k :: 0 <= k < |ss| ==> r[k] == TocEntry(ss[k])
  {
    seq(|ss|, k requires 0 <= k < |ss| => TocEntry(ss[k]))
  }

  /** The table of contents: filter, map, then join with no separator. */
  function Toc(ss: seq<Section>): string {
    Join(TocEntries(Listed(ss)), "")
  }

  /** `render(sections)`: the table of contents, then the body, pushed line
      by line in a loop over the sections and their items. */
  method Render(sections: seq<Section>) returns (toc: string, body: string)
    ensures toc == Toc(sections)
    ensures body == Body(sections)
  {
    toc := Join(TocEntries(Listed(sections)), "");
    var out: seq<string> := [];
    for i := 0 to |sections|
      invariant out == Out(sections[..i])
    {
      assert sections[..i + 1][..i] == sections[..i];
      out := PushSection(out, sections[i]);
    }
    assert sections[..|sections|] == sections;
    body := Join(out, "\n");
  }

  /** One turn of the outer loop of `render`: the separator, the anchor
      marker, then the inner loop over the section's items. */
  method PushSection(out0: seq<string>, s: Section) returns (out: seq<string>)
    ensures out == out0 + SectionOut(s)
  {
    out := out0;
    out := out + ["\n== " + s.title + " =="];
    out := out + ["[#" + s.id + "]\n"];
    for j := 0 to |s.items|
      invariant out == out0 + Header(s) + ItemsHtml(s.items[..j])
    {
      var it := s.items[j];
      assert s.items[..j + 1] == s.items[..j] + [it];
      ItemsHtmlAppend(s.items[..j], [it]);
      if it.Blank? {
        out := out + [""];
      } else if it.Text? {
        out := out + [Escape(it.raw)];
      } else {
        var u := it.url;
        out := out + [LinkOpen + u + LinkMid + u + LinkClose];
      }
    }
    assert s.items[..|s.items|] == s.items;
  }

  /** Joining with the empty separator after one more element appends it. */
  lemma JoinSnoc(xs: seq<string>, x: string)
    ensures Join(xs + [x], "") == Join(xs, "") + x
  {
    if xs == [] {
      assert xs + [x] == [x];
    } else {
      JoinAppend(xs, [x], "");
    }
  }

  /** The links of two runs of sections are those of each run, one after
      the other. */
  lemma TocEntriesAppend(a: seq<Section>, b: seq<Section>)
    ensures TocEntries(a + b) == TocEntries(a) + TocEntries(b)
  {
    forall k | 0 <= k < |a| + |b|
      ensures TocEntries(a + b)[k] == (TocEntries(a) + TocEntries(b))[k]
    {
      if k < |a| {
        assert (a + b)[k] == a[k];
      } else {
        assert (a + b)[k] == b[k - |a|];
      }
    }
  }

  /** The table of contents built one section at a time: each section adds
      its link exactly when it has a non-blank item. */
  lemma TocSnoc(ss: seq<Section>, s: Section)
    ensures Toc(ss + [s]) == Toc(ss) + if HasContent(s) then TocEntry(s) else ""
  {
    var r := ss + [s];
    assert r[..|r| - 1] == ss;
    if HasContent(s) {
      TocEntriesAppend(Listed(ss), [s]);
      assert TocEntries([s]) == [TocEntry(s)];
      JoinSnoc(TocEntries(Listed(ss)), TocEntry(s));
    } else {
      assert Listed(ss) + [] == Listed(ss);
    }
  }

  /** Without any non-blank item there is no table of contents. */
  lemma {:induction false} TocEmpty(ss: seq<Section>)
    requires forall k :: 0 <= k < |ss| ==> !HasContent(ss[k])
    ensures Toc(ss) == ""
  {
    if ss != [] {
      var init, s := ss[..|ss| - 1], ss[|ss| - 1];
      TocEmpty(init);
      assert init + [s] == ss;
      TocSnoc(init, s);
    }
  }

  /** One section's lines of the body once it has been split on LF: an
      empty line, the separator, the anchor marker, an empty line, then
      one line per item. */
  function SectionLines(s: Section): seq<string> {
    ["", "== " + s.title + " ==", "[#" + s.id + "]", ""] + ItemsHtml(s.items)
  }

  /** The lines of the body, section after section. */
  function Layout(ss: seq<Section>): (r: seq<string>)
    ensures |ss| > 0 ==> |r| >= 4
  {
    if ss == [] then [] else Layout(ss[..|ss| - 1]) + SectionLines(ss[|ss| - 1])
  }

  /** A line break in front of the first entry and one behind the second
      are the same as two empty lines around the pair. */
  lemma HeaderJoin(a: string, b: string, items: seq<string>)
    ensures Join(["\n" + a, b + "\n"] + items, "\n") == Join(["", a, b, ""] + items, "\n")
  {
    JoinPrefix(["\n" + a, b + "\n"], items);
    JoinPrefix(["", a, b, ""], items);
    var xs, ys := ["\n" + a, b + "\n"], ["", a, b, ""];
    assert Join(xs, "\n") == ("\n" + a) + "\n" + (b + "\n") by {
      assert xs[1..] == [b + "\n"];
    }
    var y1, y2 := [a, b, ""], [b, ""];
    assert Join(y2, "\n") == b + "\n" + "" by {
      assert y2[1..] == [""];
    }
    assert Join(y1, "\n") == a + "\n" + Join(y2, "\n") by {
      assert y1[1..] == y2;
    }
    assert Join(ys, "\n") == "" + "\n" + Join(y1, "\n") by {
      assert ys[1..] == y1;
    }
  }

  /** A join of a literal prefix and a list: the prefix joined, then the
      rest behind a separator if there is any. */
  lemma JoinPrefix(xs: seq<string>, items: seq<string>)
    requires |xs| > 0
    ensures Join(xs + items, "\n") == Join(xs, "\n") + if items == [] then "" else "\n" + Join(items, "\n")
  {
    if items == [] {
      assert xs + items == xs;
    } else {
      JoinAppend(xs, items, "\n");
    }
  }

  /** A section's entries and its lines join to the same text. */
  lemma SectionJoin(s: Section)
    ensures Join(SectionOut(s), "\n") == Join(SectionLines(s), "\n")
  {
    var a, b := "== " + s.title + " ==", "[#" + s.id + "]";
    assert "\n" + a == "\n== " + s.title + " ==" by {
      assert "\n" + "== " == "\n== ";
    }
    assert b + "\n" == "[#" + s.id + "]\n" by {
      assert "]" + "\n" == "]\n";
    }
    assert Header(s) == ["\n" + a, b + "\n"];
    HeaderJoin(a, b, ItemsHtml(s.items));
  }

  /** The body is the join of its layout lines. */
  lemma {:induction false} BodyJoin(ss: seq<Section>)
    ensures Body(ss) == Join(Layout(ss), "\n")
  {
    if ss != [] {
      var init, s := ss[..|ss| - 1], ss[|ss| - 1];
      BodyJoin(init);
      SectionJoin(s);
      if init != [] {
        JoinAppend(Out(init), SectionOut(s), "\n");
        JoinAppend(Layout(init), SectionLines(s), "\n");
      } else {
        assert Out(ss) == SectionOut(s);
        assert Layout(ss) == SectionLines(s);
      }
    }
  }

  /** A slug has no line break in it. */
  lemma SlugOneLine(id: string)
    requires IsSlug(id)
    ensures '\n' !in id
  {
  }

  /** No line of `xs` holds a line break. */
  predicate OneLine(xs: seq<string>) {
    forall k :: 0 <= k < |xs| ==> '\n' !in xs[k]
  }

  lemma OneLineAppend(xs: seq<string>, ys: seq<string>)
    requires OneLine(xs) && OneLine(ys)
    ensures OneLine(xs + ys)
  {
    assert forall k :: |xs| <= k < |xs| + |ys| ==> (xs + ys)[k] == ys[k - |xs|];
  }

  /** The body line of a one-line item is one line. */
  lemma ItemHtmlOneLine(it: Item)
    requires ItemOneLine(it)
    ensures '\n' !in ItemHtml(it)
  {
    match it
    case Blank =>
    case Text(raw) => EscapeNoNewline(raw);
    case Link(u) => LinkPartsOneLine();
  }

  lemma LinkPartsOneLine()
    ensures '\n' !in LinkOpen && '\n' !in LinkMid && '\n' !in LinkClose
  {
  }

  /** The body lines of a well-formed section hold no line break. */
  lemma SectionLinesOneLine(s: Section)
    requires SectionWellFormed(s)
    ensures OneLine(SectionLines(s))
  {
    SlugOneLine(s.id);
    var items := ItemsHtml(s.items);
    forall k | 0 <= k < |items|
      ensures '\n' !in items[k]
    {
      ItemHtmlOneLine(s.items[k]);
    }
    var head := ["", "== " + s.title + " ==", "[#" + s.id + "]", ""];
    assert OneLine(head);
    OneLineAppend(head, items);
  }

  lemma {:induction false} LayoutOneLine(ss: seq<Section>)
    requires WellFormed(ss)
    ensures OneLine(Layout(ss))
  {
    if ss != [] {
      var init, s := ss[..|ss| - 1], ss[|ss| - 1];
      forall i | 0 <= i < |init|
        ensures SectionWellFormed(init[i])
      {
        assert init[i] == ss[i];
      }
      LayoutOneLine(init);
      assert SectionWellFormed(s);
      SectionLinesOneLine(s);
      OneLineAppend(Layout(init), SectionLines(s));
    }
  }

  /** Splitting the body of well-formed sections on LF gives exactly the
      layout: per section `""`, `== title ==`, `[#id]`, `""` and one line
      per item. */
  lemma BodyLayout(ss: seq<Section>)
    requires |ss| > 0 && WellFormed(ss)
    ensures Split(Body(ss), '\n') == Layout(ss)
  {
    BodyJoin(ss);
    LayoutOneLine(ss);
    SplitJoin(Layout(ss), '\n');
  }

  /** The same for whatever `parse` returns; the body has four lines per
      section plus one per item. */
  lemma ParsedLayout(text: string)
    ensures Split(Body(Parsed(text)), '\n') == Layout(Parsed(text))
    ensures |Layout(Parsed(text))| == 4 * |Parsed(text)| + TotalItems(Parsed(text))
  {
    ParsedWellFormed(text);
    BodyLayout(Parsed(text));
    LayoutLength(Parsed(text));
  }

  lemma {:induction false} LayoutLength(ss: seq<Section>)
    ensures |Layout(ss)| == 4 * |ss| + TotalItems(ss)
  {
    if ss != [] {
      LayoutLength(ss[..|ss| - 1]);
    }
  }

  /** Every section's anchor marker is a line of the layout, so each link
      of the table of contents has its target in the body. */
  lemma {:induction false} AnchorsInLayout(ss: seq<Section>, i: nat)
    requires i < |ss|
    ensures "[#" + ss[i].id + "]" in Layout(ss)
  {
    var init, s := ss[..|ss| - 1], ss[|ss| - 1];
    if i < |ss| - 1 {
      AnchorsInLayout(init, i);
    } else {
      assert SectionLines(s)[2] == "[#" + s.id + "]";
    }
  }

  /** A section listed in the table of contents has its marker in the
      body lines. */
  lemma ListedTargets(ss: seq<Section>, s: Section)
    requires |ss| > 0 && WellFormed(ss) && s in Listed(ss)
    ensures "[#" + s.id + "]" in Split(Body(ss), '\n')
  {
    assert s in ss;
    var i :| 0 <= i < |ss| && ss[i] == s;
    AnchorsInLayout(ss, i);
    BodyLayout(ss);
  }

  /** For the sections `parse` returns: every table-of-contents link
      points at a marker line of the body. */
  lemma TocTargets(text: string, s: Section)
    requires s in Listed(Parsed(text))
    ensures "[#" + s.id + "]" in Split(Body(Parsed(text)), '\n')
  {
    ParsedWellFormed(text);
    ListedTargets(Parsed(text), s);
  }
}
