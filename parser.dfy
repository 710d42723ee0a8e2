/** `parse`: from the text of the file to a sequence of titled sections of
    items. */
module Parser {
  import opened Strings
  import opened Slug
  import opened Url

  /** A parsed line inside a section. */
  datatype Item = Blank | Text(raw: string) | Link(url: string)

  /** A heading with its anchor id and the items under it. */
  datatype Section = Section(title: string, id: string, items: seq<Item>)

  /** The implicit first section that collects the lines before the first
      heading. */
  const Unsorted := Section("Unsorted", "unsorted", [])

  /** What one input line turns into. */
  datatype Line = BlankLine | HeadingLine(title: string, id: string) | LinkLine(url: string) | TextLine(raw: string)

  /** `text.replace(/\r\n/g, "\n")`: each CR LF pair, read left to right,
      becomes a single LF. The number of LFs is unchanged. */
  function NormalizeNewlines(s: string): (r: string)
    ensures Count(r, '\n') == Count(s, '\n')
    ensures |r| <= |s|
  {
    if |s| >= 2 && s[0] == '\r' && s[1] == '\n' then
      assert Count(s, '\n') == Count(s[1..], '\n') && s[1..][1..] == s[2..];
      "\n" + NormalizeNewlines(s[2..])
    else if s == [] then []
    else
      CountAppend([s[0]], NormalizeNewlines(s[1..]), '\n');
      [s[0]] + NormalizeNewlines(s[1..])
  }

  /** Text with no carriage return is not changed by normalisation. */
  lemma {:induction false} NormalizeNoCR(s: string)
    requires '\r' !in s
    ensures NormalizeNewlines(s) == s
  {
    if s != [] {
      assert s[0] in s;
      assert forall c :: c in s[1..] ==> c in s;
      NormalizeNoCR(s[1..]);
    }
  }

  /** The lines of the text: normalised, then split on LF. */
  function Lines(text: string): (r: seq<string>)
    ensures |r| == Count(text, '\n') + 1
    ensures forall k :: 0 <= k < |r| ==> '\n' !in r[k]
  {
    Split(NormalizeNewlines(text), '\n')
  }

  /** `slugify(title) || "section"`. */
  function HeadingId(title: string): string {
    var slug := Slugify(title);
    if slug == "" then "section" else slug
  }

  /** Every heading id is a non-empty well-formed slug. */
  lemma HeadingIdIsSlug(title: string)
    ensures HeadingId(title) != "" && IsSlug(HeadingId(title))
  {
    SlugifyIsSlug(title);
    WordIsSlug("section");
  }

  /** A line that starts with `# ` and does not end with whitespace, as a
      trimmed line does not, has a non-empty title after the `# `. */
  lemma HeadingTitle(line: string)
    requires StartsWith(line, "# ") && !IsSpace(line[|line| - 1])
    ensures Trim(line[2..]) != ""
  {
    assert line[1] == ' ';
    var u := line[2..];
    assert line[|line| - 1] == u[|u| - 1];
    TrimSkipped(u, |u| - 1);
  }

  /** The classification one iteration of the loop in `parse` makes. */
  function Classify(raw: string): Line {
    var line := Trim(raw);
    if line == "" then BlankLine
    else if StartsWith(line, "# ") then
      var title := Trim(line[2..]);
      HeadingLine(title, HeadingId(title))
    else if IsUrl(line) then LinkLine(line)
    else TextLine(raw)
  }

  /** Which kind a line is: blank lines are the ones empty after trimming,
      headings the trimmed lines starting with `# `, links the other lines
      whose trimmed form is a URL, and text all the rest. */
  lemma ClassifyKinds(raw: string)
    ensures Classify(raw).BlankLine? <==> Trim(raw) == ""
    ensures Classify(raw).HeadingLine? <==> Trim(raw) != "" && StartsWith(Trim(raw), "# ")
    ensures Classify(raw).LinkLine? <==> Trim(raw) != "" && !StartsWith(Trim(raw), "# ") && IsUrl(raw)
    ensures Classify(raw).TextLine? <==> Trim(raw) != "" && !StartsWith(Trim(raw), "# ") && !IsUrl(raw)
  {
    var line := Trim(raw);
    assert IsUrl(line) == IsUrl(raw) by {
      TrimIdempotent(raw);
    }
    if line == "" {
      assert Classify(raw) == BlankLine;
    } else if StartsWith(line, "# ") {
      assert Classify(raw).HeadingLine?;
    } else if IsUrl(line) {
      assert Classify(raw) == LinkLine(line);
    } else {
      assert Classify(raw) == TextLine(raw);
    }
  }

  /** What each kind of line holds: a heading's title is the non-empty
      trimmed rest after `# ` and its id the slug of that title (or
      `section`); a link holds the trimmed line, which has no whitespace in
      it; a text item holds the line as it came. */
  lemma ClassifyPayload(raw: string)
    ensures Classify(raw).HeadingLine? ==>
      var r := Classify(raw); r.title != "" && r.title == Trim(Trim(raw)[2..]) && r.id == HeadingId(r.title)
    ensures Classify(raw).LinkLine? ==> Classify(raw).url == Trim(raw) && NoSpace(Classify(raw).url)
    ensures Classify(raw).TextLine? ==> Classify(raw).raw == raw
  {
    var line := Trim(raw);
    if line != "" && StartsWith(line, "# ") {
      HeadingTitle(line);
    } else {
      UrlHasNoSpace(line);
    }
  }

  /** `current.items.push(it)`: `current` is always the last section, so
      pushing onto it through the alias changes the last element. */
  function AddItem(ss: seq<Section>, it: Item): (r: seq<Section>)
    requires |ss| > 0
    ensures |r| == |ss| && r[..|ss| - 1] == ss[..|ss| - 1]
    ensures r[|ss| - 1] == ss[|ss| - 1].(items := ss[|ss| - 1].items + [it])
    ensures r[0].title == ss[0].title && r[0].id == ss[0].id
  {
    ss[|ss| - 1 := ss[|ss| - 1].(items := ss[|ss| - 1].items + [it])]
  }

  /** The effect of one line on the sections built so far: no section is
      removed, and all but the last stay as they are. */
  function Step(ss: seq<Section>, raw: string): (r: seq<Section>)
    requires |ss| > 0
    ensures |r| >= |ss| && r[..|ss| - 1] == ss[..|ss| - 1]
    ensures |r| > 0 && r[0].title == ss[0].title && r[0].id == ss[0].id
  {
    match Classify(raw)
    case BlankLine => AddItem(ss, Blank)
    case HeadingLine(title, id) => ss + [Section(title, id, [])]
    case LinkLine(url) => AddItem(ss, Link(url))
    case TextLine(raw) => AddItem(ss, Text(raw))
  }

  /** The sections the loop of `parse` has built after the given lines:
      always at least the implicit `Unsorted` section, first. */
  function ParseLines(lines: seq<string>): (r: seq<Section>)
    ensures |r| > 0 && r[0].title == "Unsorted" && r[0].id == "unsorted"
  {
    if lines == [] then [Unsorted]
    else Step(ParseLines(lines[..|lines| - 1]), lines[|lines| - 1])
  }

  /** `parse(text)` as a function of the text. */
  function Parsed(text: string): seq<Section> {
    ParseLines(Lines(text))
  }

  /** A line that is not a heading adds its item to the last section. */
  lemma StepItem(ss: seq<Section>, raw: string, it: Item)
    requires |ss| > 0
    requires var line := Trim(raw);
      if line == "" then it == Blank
      else !StartsWith(line, "# ") && if IsUrl(line) then it == Link(line) else it == Text(raw)
    ensures Step(ss, raw) == AddItem(ss, it)
  {
  }

  /** A heading line opens a new, empty section. */
  lemma StepHeading(ss: seq<Section>, raw: string)
    requires |ss| > 0
    requires var line := Trim(raw); line != "" && StartsWith(line, "# ")
    ensures var title := Trim(Trim(raw)[2..]);
      Step(ss, raw) == ss + [Section(title, if Slugify(title) == "" then "section" else Slugify(title), [])]
  {
  }

  /** `parse(text)`: one pass over the lines with the current section
      kept as the last element of `sections`. */
  method Parse(text: string) returns (sections: seq<Section>)
    ensures sections == Parsed(text)
  {
    var lines := Split(NormalizeNewlines(text), '\n');
    sections := [Unsorted];
    for i := 0 to |lines|
      invariant sections == ParseLines(lines[..i])
    {
      ParseLinesSnoc(lines, i);
      sections := ParseLine(sections, lines[i]);
    }
    assert lines[..|lines|] == lines;
  }

  /** One more line is one more step. */
  lemma ParseLinesSnoc(lines: seq<string>, i: nat)
    requires i < |lines|
    ensures ParseLines(lines[..i + 1]) == Step(ParseLines(lines[..i]), lines[i])
  {
    assert lines[..i + 1][..i] == lines[..i];
  }

  /** The body of the loop in `parse`: one line, classified in order as
      blank, heading, link or text. */
  method ParseLine(sections: seq<Section>, raw: string) returns (r: seq<Section>)
    requires |sections| > 0
    ensures r == Step(sections, raw)
  {
    var line := Trim(raw);
    var last := |sections| - 1;
    var current := sections[last];
    if line == "" {
      r := sections[last := current.(items := current.items + [Blank])];
      StepItem(sections, raw, Blank);
    } else if StartsWith(line, "# ") {
      var title := Trim(line[2..]);
      var id := Slugify(title);
      if id == "" {
        id := "section";
      }
      r := sections + [Section(title, id, [])];
      StepHeading(sections, raw);
    } else if IsUrl(line) {
      r := sections[last := current.(items := current.items + [Link(line)])];
      StepItem(sections, raw, Link(line));
    } else {
      r := sections[last := current.(items := current.items + [Text(raw)])];
      StepItem(sections, raw, Text(raw));
    }
  }

  /** The line an item was read from, as `Classify` saw it. */
  function ItemLine(it: Item): Line {
    match it
    case Blank => BlankLine
    case Text(raw) => TextLine(raw)
    case Link(url) => LinkLine(url)
  }

  function ItemLines(items: seq<Item>): (r: seq<Line>)
    ensures |r| == |items|
  {
    seq(|items|, k requires 0 <= k < |items| => ItemLine(items[k]))
  }

  /** The sections after the first read back as lines: each heading
      followed by its items. */
  function Tail(ts: seq<Section>): seq<Line> {
    if ts == [] then []
    else
      var t := ts[|ts| - 1];
      Tail(ts[..|ts| - 1]) + [HeadingLine(t.title, t.id)] + ItemLines(t.items)
  }

  /** All sections read back as the sequence of classified lines they were
      built from: the items of the implicit first section, then each later
      section's heading and items. */
  function Entries(ss: seq<Section>): seq<Line>
    requires |ss| > 0
  {
    ItemLines(ss[0].items) + Tail(ss[1..])
  }

  lemma ItemLinesAppend(items: seq<Item>, it: Item)
    ensures ItemLines(items + [it]) == ItemLines(items) + [ItemLine(it)]
  {
  }

  /** Pushing an item onto the last section adds its line at the end. */
  lemma AddItemEntries(ss: seq<Section>, it: Item)
    requires |ss| > 0
    ensures Entries(AddItem(ss, it)) == Entries(ss) + [ItemLine(it)]
  {
    var r := AddItem(ss, it);
    var n := |ss|;
    if n == 1 {
      ItemLinesAppend(ss[0].items, it);
      assert ss[1..] == [] && r[1..] == [];
    } else {
      var ts, us := ss[1..], r[1..];
      assert us[..|us| - 1] == ts[..|ts| - 1];
      assert us[|us| - 1] == ts[|ts| - 1].(items := ts[|ts| - 1].items + [it]);
      ItemLinesAppend(ts[|ts| - 1].items, it);
      assert r[0] == ss[0];
    }
  }

  /** Opening a section adds its heading line at the end. */
  lemma OpenSectionEntries(ss: seq<Section>, title: string, id: string)
    requires |ss| > 0
    ensures Entries(ss + [Section(title, id, [])]) == Entries(ss) + [HeadingLine(title, id)]
  {
    var r := ss + [Section(title, id, [])];
    assert r[1..] == ss[1..] + [Section(title, id, [])];
    assert r[1..][..|r| - 2] == ss[1..];
    assert r[0] == ss[0];
  }

  /** One line adds exactly its classification to the sections' lines. */
  lemma StepEntries(ss: seq<Section>, raw: string)
    requires |ss| > 0
    ensures Entries(Step(ss, raw)) == Entries(ss) + [Classify(raw)]
  {
    match Classify(raw)
    case BlankLine => AddItemEntries(ss, Blank);
    case HeadingLine(title, id) => OpenSectionEntries(ss, title, id);
    case LinkLine(url) => AddItemEntries(ss, Link(url));
    case TextLine(r) => AddItemEntries(ss, Text(r));
  }

  /** The classification of each line, in order. */
  function Classified(lines: seq<string>): (r: seq<Line>)
    ensures |r| == |lines|
  {
    if lines == [] then [] else Classified(lines[..|lines| - 1]) + [Classify(lines[|lines| - 1])]
  }

  lemma {:induction false} ClassifiedAt(lines: seq<string>, k: nat)
    requires k < |lines|
    ensures Classified(lines)[k] == Classify(lines[k])
  {
    var init, last := lines[..|lines| - 1], lines[|lines| - 1];
    var c := Classified(init);
    assert Classified(lines) == c + [Classify(last)];
    if k < |lines| - 1 {
      ClassifiedAt(init, k);
      assert init[k] == lines[k];
    }
  }

  /** Line accounting: reading the parsed sections back, in order, gives
      exactly one classified line per input line, in input order. */
  lemma {:induction false} ParseEntries(lines: seq<string>)
    ensures Entries(ParseLines(lines)) == Classified(lines)
  {
    if lines == [] {
      assert Entries([Unsorted]) == [];
    } else {
      var init := lines[..|lines| - 1];
      ParseEntries(init);
      StepEntries(ParseLines(init), lines[|lines| - 1]);
    }
  }

  /** Number of items over all sections. */
  function TotalItems(ss: seq<Section>): nat {
    if ss == [] then 0 else TotalItems(ss[..|ss| - 1]) + |ss[|ss| - 1].items|
  }

  lemma {:induction false} TailLength(ts: seq<Section>)
    ensures |Tail(ts)| == TotalItems(ts) + |ts|
  {
    if ts != [] {
      TailLength(ts[..|ts| - 1]);
    }
  }

  lemma {:induction false} TotalItemsFirst(ss: seq<Section>)
    requires |ss| > 0
    ensures TotalItems(ss) == |ss[0].items| + TotalItems(ss[1..])
  {
    if |ss| > 1 {
      TotalItemsFirst(ss[..|ss| - 1]);
      assert ss[..|ss| - 1][1..] == ss[1..][..|ss| - 2];
      assert ss[..|ss| - 1][0] == ss[0];
    } else {
      assert ss[..0] == [] && ss[1..] == [];
    }
  }

  /** Every line of the normalised split contributes exactly one item or
      one new section: items plus the sections after the first equal the
      number of lines. */
  lemma ParseAccounting(lines: seq<string>)
    ensures TotalItems(ParseLines(lines)) + |ParseLines(lines)| - 1 == |lines|
  {
    var ss := ParseLines(lines);
    ParseEntries(lines);
    TailLength(ss[1..]);
    TotalItemsFirst(ss);
  }

  /** The number of lines that `parse` treats as headings. */
  function CountHeadings(lines: seq<string>): nat {
    if lines == [] then 0
    else
      var line := Trim(lines[|lines| - 1]);
      CountHeadings(lines[..|lines| - 1]) + if line != "" && StartsWith(line, "# ") then 1 else 0
  }

  /** There is one section per heading line plus the implicit first one. */
  lemma {:induction false} SectionCount(lines: seq<string>)
    ensures |ParseLines(lines)| == 1 + CountHeadings(lines)
  {
    if lines != [] {
      var init, raw := lines[..|lines| - 1], lines[|lines| - 1];
      SectionCount(init);
      ClassifyKinds(raw);
    }
  }

  /** For a whole text: one line more than there are LFs, and each line is
      accounted for by exactly one item or section. */
  lemma ParsedAccounting(text: string)
    ensures |Parsed(text)| == 1 + CountHeadings(Lines(text))
    ensures TotalItems(Parsed(text)) + |Parsed(text)| - 1 == Count(text, '\n') + 1
  {
    SectionCount(Lines(text));
    ParseAccounting(Lines(text));
  }

  /** An item whose text holds no line break. */
  predicate ItemOneLine(it: Item) {
    match it
    case Blank => true
    case Text(raw) => '\n' !in raw
    case Link(url) => '\n' !in url
  }

  /** The shape `parse` gives every section: a title without line breaks,
      an id that is a non-empty well-formed slug, items without line
      breaks. */
  ghost predicate SectionWellFormed(s: Section) {
    '\n' !in s.title && s.id != "" && IsSlug(s.id) &&
    forall k :: 0 <= k < |s.items| ==> ItemOneLine(s.items[k])
  }

  ghost predicate WellFormed(ss: seq<Section>) {
    forall i :: 0 <= i < |ss| ==> SectionWellFormed(ss[i])
  }

  lemma AddItemWellFormed(ss: seq<Section>, it: Item)
    requires |ss| > 0 && WellFormed(ss) && ItemOneLine(it)
    ensures WellFormed(AddItem(ss, it))
  {
    var r := AddItem(ss, it);
    assert SectionWellFormed(r[|ss| - 1]);
    assert forall i :: 0 <= i < |ss| - 1 ==> r[i] == ss[i];
  }

  lemma OpenSectionWellFormed(ss: seq<Section>, title: string, id: string)
    requires WellFormed(ss) && SectionWellFormed(Section(title, id, []))
    ensures WellFormed(ss + [Section(title, id, [])])
  {
  }

  /** What a classified line holds is well formed. */
  ghost predicate LineWellFormed(l: Line) {
    match l
    case BlankLine => true
    case HeadingLine(title, id) => SectionWellFormed(Section(title, id, []))
    case LinkLine(url) => '\n' !in url
    case TextLine(raw) => '\n' !in raw
  }

  /** A line without line breaks classifies into a well-formed line: the
      title and URL are parts of it, and the id is a slug. */
  lemma ClassifyWellFormed(raw: string)
    requires '\n' !in raw
    ensures LineWellFormed(Classify(raw))
  {
    var l := Classify(raw);
    ClassifyKinds(raw);
    ClassifyPayload(raw);
    TrimNoChar(raw, '\n');
    if l.HeadingLine? {
      var line := Trim(raw);
      SuffixNoChar(line, '\n', 2);
      TrimNoChar(line[2..], '\n');
      HeadingIdIsSlug(l.title);
    }
  }

  /** One line without line breaks keeps the sections well formed. */
  lemma StepWellFormed(ss: seq<Section>, raw: string)
    requires |ss| > 0 && WellFormed(ss) && '\n' !in raw
    ensures WellFormed(Step(ss, raw))
  {
    ClassifyWellFormed(raw);
    match Classify(raw)
    case BlankLine => AddItemWellFormed(ss, Blank);
    case HeadingLine(title, id) => OpenSectionWellFormed(ss, title, id);
    case LinkLine(url) => AddItemWellFormed(ss, Link(url));
    case TextLine(t) => AddItemWellFormed(ss, Text(t));
  }

  lemma {:induction false} ParseLinesWellFormed(lines: seq<string>)
    requires forall k :: 0 <= k < |lines| ==> '\n' !in lines[k]
    ensures WellFormed(ParseLines(lines))
  {
    if lines == [] {
      WordIsSlug("unsorted");
      assert SectionWellFormed(Unsorted);
    } else {
      ParseLinesWellFormed(lines[..|lines| - 1]);
      StepWellFormed(ParseLines(lines[..|lines| - 1]), lines[|lines| - 1]);
    }
  }

  /** Every section `parse` returns is well formed; in particular every id
      is a non-empty slug. */
  lemma ParsedWellFormed(text: string)
    ensures WellFormed(Parsed(text))
  {
    ParseLinesWellFormed(Lines(text));
  }
}
