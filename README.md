# A verified model of the `dir.txt` viewer

`dir/dir.js` turns a plain-text directory file into a browsable page. It
reads the text, splits it into lines and groups the lines into sections
under `# ` headings. Each line becomes a blank, a link or a text item. The
sections are rendered into a table of contents and one pre-formatted body.
A search box then hides the body lines that do not contain the query.

This project models that pipeline in Dafny and proves what each stage
guarantees:

- `strings.dfy` holds the string primitives the script relies on:
  `trim`, with the exact ECMAScript whitespace set that `\s` also uses;
  `toLowerCase`; `startsWith`; `includes`; `split`; and `join`.
- `slug.dfy` models `slugify`, with its two regular-expression
  replacements written out character by character.
- `html.dfy` models `escapeHtml`, with a decoder as its left inverse.
- `url.dfy` models `isUrl`: the pattern `/^https?:\/\/\S+$/i` as a
  matcher on the trimmed line.
- `parser.dfy` covers `parse`:
  - the data model (`Item`, `Section`);
  - the classification of one line;
  - a specification function over the lines;
  - the method `Parse`, whose loop keeps the current section as the last
    element of the sequence.
- `render.dfy` covers `render`:
  - the method `Render`, which pushes the body lines in a nested loop and
    returns the table of contents and the body as a pair;
  - the specification functions `Toc` and `Body`;
  - `Layout`, the exact lines of the body once it is split on LF.
- `filter.dfy` models `applyFilter` as a function from the stored
  rendering and the query to the listing text.
- `viewer.dfy` holds:
  - the page state as a class: the stored `rendered` string, the table of
    contents, the listing shown and the search box's value;
  - `main`'s sequence "parse, render, store";
  - the effects of the search and clear handlers.

## Model

| member | source | states |
|---|---|---|
| Strings.Trim | dir/dir.js:32 | The trimmed line is no longer than the line and neither starts nor ends with whitespace |
| Strings.TrimSkipped | dir/dir.js:32 | Every character `trim` drops, in front of or behind the kept part, is whitespace |
| Strings.TrimNoChar | dir/dir.js:32 | Trimming adds no character, so a line without LF stays without LF |
| Strings.TrimIdempotent | dir/dir.js:22 | Trimming an already trimmed line changes nothing |
| Strings.TrimChars | dir/dir.js:32 | Every character of the trimmed line occurs in the line |
| Strings.LowerContains | dir/dir.js:88 | If `s` contains `t`, the lower-cased `s` contains the lower-cased `t` |
| Strings.ContainsTrim | dir/dir.js:88 | A string contains its trimmed form |
| Strings.ContainsTrimStart | dir/dir.js:88 | An occurrence of a string that starts with non-whitespace survives dropping the leading whitespace |
| Strings.ContainsTrimEnd | dir/dir.js:88 | An occurrence of a string that ends with non-whitespace survives dropping the trailing whitespace |
| Strings.ContainsTrimmed | dir/dir.js:88 | If `s` contains `t`, the trimmed `s` contains the trimmed `t` |
| Strings.ContainsTransitive | dir/dir.js:96 | If `s` contains `t` and `t` contains `u`, then `s` contains `u` |
| Strings.Split | dir/dir.js:26 | `split` on one character gives one piece more than there are separators, and no piece contains the separator |
| Strings.JoinSplit | dir/dir.js:95 | Joining the pieces of a split with the separator gives back the text |
| Strings.SplitJoin | dir/dir.js:97 | Splitting a join of a non-empty list of separator-free pieces gives the pieces back |
| Strings.JoinAppend | dir/dir.js:84 | A join of two non-empty lists is the two joins glued with the separator |
| Slug.Collapse | dir/dir.js:12 | Defines the first replacement: each maximal run of characters outside `[a-z0-9]` becomes one `-`. `CollapseShape` and `CollapseWords` specify it |
| Slug.CollapseShape | dir/dir.js:12 | Replacing each run of characters outside `[a-z0-9]` with `-` leaves only `a-z`, `0-9` and `-`, and never `--`. The result is empty only for empty input, and starts with `-` exactly when the input starts with a separator |
| Slug.StripHyphens | dir/dir.js:12 | Dropping one leading and one trailing `-` from such a string gives a well-formed slug |
| Slug.Slugify | dir/dir.js:11-13 | Defines `slugify` as lower-casing, `Collapse`, then `StripHyphens`. `SlugifyIsSlug`, `SlugifyKeepsAlnums` and `SlugifyIdempotent` specify it |
| Slug.SlugifyIsSlug | dir/dir.js:11-13 | The output of `slugify` contains only `a-z`, `0-9` and `-`. It never starts or ends with `-` and never contains `--` |
| Slug.SlugifyKeepsAlnums | dir/dir.js:11-13 | `slugify` keeps exactly the letters and digits of the lower-cased title, in order |
| Slug.SlugifyFixes | dir/dir.js:11-13 | A well-formed slug is its own slug |
| Slug.SlugifyIdempotent | dir/dir.js:11-13 | Slugifying a slug changes nothing |
| Slug.CollapseWord | dir/dir.js:12 | A run of letters and digits passes through the first replacement unchanged |
| Slug.CollapseRun | dir/dir.js:12 | A non-empty run of other characters in front of a letter, a digit or the end becomes a single `-` |
| Slug.CollapseWords | dir/dir.js:12 | Two words with a run of other characters between them become the words joined by one `-` |
| Slug.SlugifyWords | dir/dir.js:11-13 | A title of two lower-case words with punctuation or spaces between them becomes the two words joined by `-`, so `foo, bar` becomes `foo-bar` |
| Html.Escape | dir/dir.js:15-19 | Escaping never shortens the text |
| Html.EscapeSafe | dir/dir.js:15-19 | No `<`, `>`, `"` or `'` is left after escaping |
| Html.EscapePlain | dir/dir.js:15-19 | Text without `&<>"'` is unchanged |
| Html.EscapeAppend | dir/dir.js:15-19 | Escaping works character by character, so it distributes over concatenation |
| Html.EscapeNoNewline | dir/dir.js:15-19 | Escaping introduces no line break |
| Html.UnescapeEscape | dir/dir.js:16-18 | Decoding the five entity references undoes escaping (a left inverse), so no two texts escape alike |
| Url.MatchUrl | dir/dir.js:22 | Defines the anchored, case-insensitive pattern `https?://\S+` as a matcher that tries `s` before no `s`. `IsUrlIff` specifies it |
| Url.IsUrl | dir/dir.js:21-23 | Defines `isUrl` as the match on the trimmed line. `IsUrlIff` and `UrlHasNoSpace` specify it |
| Url.NonSpaceRunIff | dir/dir.js:22 | `\S+$` matches exactly the non-empty runs of non-whitespace |
| Url.IsUrlIff | dir/dir.js:21-23 | `isUrl(line)` holds exactly when the trimmed line is `http://` or `https://`, in any case, followed by at least one character and no whitespace |
| Url.UrlHasNoSpace | dir/dir.js:21-23 | A line accepted as a URL holds no whitespace once trimmed |
| Parser.NormalizeNewlines | dir/dir.js:26 | Replacing CR LF by LF keeps the number of LFs and never lengthens the text |
| Parser.NormalizeNoCR | dir/dir.js:26 | Text without CR is unchanged by the replacement |
| Parser.Lines | dir/dir.js:26 | The text has one line more than it has LFs, and no line contains an LF |
| Parser.HeadingId | dir/dir.js:41 | Defines the id as `slugify(title)`, or `section` when that is empty. `HeadingIdIsSlug` specifies it |
| Parser.HeadingIdIsSlug | dir/dir.js:41 | Every heading id, `slugify(title)` or else `section`, is a non-empty well-formed slug |
| Parser.HeadingTitle | dir/dir.js:39-40 | A trimmed line starting with `# ` leaves a non-empty title after trimming the rest |
| Parser.Classify | dir/dir.js:31-53 | Defines the branch chain of the loop body on one raw line: blank, heading, link, then text. `ClassifyKinds` and `ClassifyPayload` specify it |
| Parser.ClassifyKinds | dir/dir.js:32-53 | A line is blank exactly when it is empty once trimmed. It is a heading exactly when it is non-empty trimmed and starts with `# `. Otherwise it is a link exactly when it passes `isUrl`, and text in all other cases |
| Parser.ClassifyPayload | dir/dir.js:39-53 | A heading holds the trimmed rest after `# ` and its slug id. A link holds the trimmed line, which has no whitespace. A text item holds the untrimmed line |
| Parser.AddItem | dir/dir.js:35-53 | Pushing onto `current` appends the item to the last section and leaves the others unchanged |
| Parser.Step | dir/dir.js:31-54 | A step never removes a section and leaves every section but the last unchanged. It never changes the first section's title or id |
| Parser.ParseLines | dir/dir.js:28-29 | There is always at least one section, and the first is `Unsorted`/`unsorted` |
| Parser.StepItem | dir/dir.js:34-53 | A blank, link or text line appends its item to the last section |
| Parser.StepHeading | dir/dir.js:39-44 | A heading line appends a new empty section with the trimmed title and its id |
| Parser.Parsed | dir/dir.js:25-57 | Defines `parse(text)` as the steps over the lines. `ParseEntries`, `ParsedAccounting` and `ParsedWellFormed` specify it |
| Parser.Parse | dir/dir.js:25-57 | The loop computes `Parsed(text)` |
| Parser.ParseLine | dir/dir.js:31-54 | One iteration of the loop body is one `Step` |
| Parser.ParseLinesSnoc | dir/dir.js:31-54 | Reading one more line is one more `Step` on the sections so far |
| Parser.ClassifiedAt | dir/dir.js:31-54 | The k-th classified entry is the classification of the k-th line |
| Parser.StepEntries | dir/dir.js:31-54 | Each line adds exactly its own classification to the sections read back in order |
| Parser.ParseEntries | dir/dir.js:26-54 | Reading the sections back gives exactly one classified entry per input line, in input order |
| Parser.ParseAccounting | dir/dir.js:31-54 | Items plus sections after the first equals the number of lines |
| Parser.SectionCount | dir/dir.js:28-44 | The number of sections is one plus the number of heading lines |
| Parser.ParsedAccounting | dir/dir.js:25-57 | For a whole text the section count above holds. Items plus sections minus one equals the number of LFs plus one |
| Parser.ClassifyWellFormed | dir/dir.js:32-53 | A line without LF classifies as a blank, a heading with a one-line title and a non-empty slug id, a link without LF, or a text without LF |
| Parser.StepWellFormed | dir/dir.js:31-54 | A line without LF keeps every section well formed: a title without LF, a non-empty slug id, and one-line items |
| Parser.ParsedWellFormed | dir/dir.js:25-57 | Every section `parse` returns is well formed |
| Render.ItemHtml | dir/dir.js:73-81 | Defines the body line of one item: empty for a blank, the escaped text, or the fixed anchor form with the URL. `ItemHtmlOneLine` specifies it |
| Render.ItemsHtmlAppend | dir/dir.js:72-82 | The body lines of two runs of items are those of each run, one after the other |
| Render.Out | dir/dir.js:68-83 | `out` holds exactly two entries per section plus one per item |
| Render.Body | dir/dir.js:84 | Defines the body as `out.join("\n")`. `BodyJoin`, `BodyLayout` and `ParsedLayout` specify it |
| Render.Listed | dir/dir.js:62 | A section is listed exactly when it is one of the sections and has a non-blank item |
| Render.TocEntriesAppend | dir/dir.js:63 | The table-of-contents links of two runs of sections are those of each run, one after the other |
| Render.Toc | dir/dir.js:61-64 | Defines the table of contents as filter, map to `<a href="#id">escaped title</a>`, and join with no separator. `TocSnoc`, `TocEmpty` and `TocTargets` specify it |
| Render.Render | dir/dir.js:59-85 | The nested loop and the `join` compute `Toc(sections)` and `Body(sections)` |
| Render.PushSection | dir/dir.js:70-82 | One pass of the outer loop appends the section's two header entries and one entry per item |
| Render.TocSnoc | dir/dir.js:61-64 | Section by section, the table of contents grows by the section's link exactly when the section has a non-blank item |
| Render.TocEmpty | dir/dir.js:61-64 | If no section has a non-blank item, the table of contents is empty |
| Render.SectionJoin | dir/dir.js:70-82 | A section's entries, joined with LF, equal its layout lines joined with LF |
| Render.BodyJoin | dir/dir.js:68-84 | The body is the join of the layout lines |
| Render.ItemHtmlOneLine | dir/dir.js:72-82 | The body line of a one-line item holds no LF |
| Render.LayoutOneLine | dir/dir.js:68-84 | No layout line of well-formed sections holds an LF |
| Render.BodyLayout | dir/dir.js:68-84 | Splitting the body on LF gives, per section, `""`, `== title ==`, `[#id]`, `""`, then one line per item |
| Render.LayoutLength | dir/dir.js:68-83 | The layout has four lines per section plus one per item |
| Render.ParsedLayout | dir/dir.js:59-85 | For the output of `parse`, the body's lines are exactly its layout, four per section plus one per item |
| Render.AnchorsInLayout | dir/dir.js:71 | Every section's `[#id]` marker is a line of the layout |
| Render.TocTargets | dir/dir.js:61-71 | Every link of the table of contents has its `[#id]` marker among the body lines |
| Filter.NormalizeQuery | dir/dir.js:88 | Defines the query as lower-cased, then trimmed. `NormalizeContains` specifies it |
| Filter.Keep | dir/dir.js:96 | Defines the keep test: the lower-cased line contains the query, or it starts with `== ` or `[#` |
| Filter.Kept | dir/dir.js:96 | Defines the filter of the lines by the keep test. `KeptSubseq`, `KeptCount` and `KeptIff` specify it |
| Filter.ApplyFilter | dir/dir.js:87-98 | Defines `applyFilter` as the listing text it writes: the stored rendering for a blank query, otherwise the kept lines joined with LF. `FilterBlank`, `FilterLines` and `FilterSubseq` specify it |
| Filter.FilterBlank | dir/dir.js:88-92 | A query that is empty after lower-casing and trimming shows the stored rendering unchanged |
| Filter.KeptSubseq | dir/dir.js:96 | The kept lines are an order-preserving subsequence of the lines |
| Filter.KeptCount | dir/dir.js:96 | Each line is kept as often as it occurs if it satisfies the keep test, and otherwise never |
| Filter.KeptIff | dir/dir.js:96 | A line is kept exactly when it is one of the lines and contains the query lower-cased, or starts with `== ` or `[#` |
| Filter.FilterLines | dir/dir.js:95-97 | For a non-blank query, the listing's lines are the kept lines, or one empty line when none is kept |
| Filter.FilterShows | dir/dir.js:87-97 | Every line passing the keep test appears in the listing |
| Filter.FilterKeepsMarkers | dir/dir.js:96 | Separator and anchor-marker lines survive every query |
| Filter.FilterSubseq | dir/dir.js:87-97 | For every query the listing's lines are an order-preserving subsequence of the rendering's lines, unless the listing is empty |
| Filter.FilterOnlyKept | dir/dir.js:95-97 | Every line of a non-empty listing is a line of the rendering that passes the keep test |
| Filter.KeptMonotone | dir/dir.js:96 | If query `q2` contains `q1`, the lines kept for `q2` are a subsequence of those kept for `q1` |
| Filter.NormalizeContains | dir/dir.js:88 | If query `q2` contains `q1`, the normalised `q2` contains the normalised `q1` |
| Filter.FilterMonotone | dir/dir.js:87-96 | If the typed query `q2` contains the typed query `q1`, the lines of the rendering kept for `q2` are a subsequence of those kept for `q1` |
| Filter.KeptKept | dir/dir.js:96 | Filtering kept lines again keeps all of them |
| Filter.FilterIdempotent | dir/dir.js:87-97 | Applying a query to its own listing changes nothing |
| Viewer.Viewer.constructor | dir/dir.js:9 | Before loading, the stored rendering is empty |
| Viewer.Viewer.Load | dir/dir.js:105-108 | After loading, the stored rendering and the table of contents are those of the parsed text, the full rendering is shown, and the search box is untouched |
| Viewer.Viewer.Show | dir/dir.js:106-108 | `render` is stored and shown |
| Viewer.Viewer.Search | dir/dir.js:110 | With the search box holding `q`, the input handler shows `applyFilter(q)` of the stored rendering and changes nothing else |
| Viewer.Viewer.Clear | dir/dir.js:111-115 | The clear handler empties the search box and shows the whole stored rendering again |
| Viewer.MarkersShown | dir/dir.js:105-110 | After loading, and whatever the query, every parsed section's `[#id]` marker is a line of the listing |
| Viewer.MarkerKept | dir/dir.js:71 | For any sections whose body splits into their layout, each `[#id]` marker survives every query |

## Left out

- Lower-casing is ASCII only. JavaScript's `toLowerCase` also lowers non-ASCII letters, and can change the length of a string (for example U+0130). `applyFilter` lower-cases every body line as well as the query, so for titles, body lines or queries holding non-ASCII letters the model's `slugify` and `applyFilter` can differ from a browser (a browser lowers U+212A KELVIN SIGN to `k`, so the query `k` keeps a line holding it, which the model drops).
- Strings are sequences of Unicode scalar values, not UTF-16 code units. A character outside the Basic Multilingual Plane counts as one character here, but as two code units in JavaScript. Nothing in the script indexes by position except `slice(2)` after the ASCII `# `, so none of the modelled results depend on this.
- The whitespace class is the exact ECMAScript WhiteSpace and LineTerminator set, and `trim` and `\S` share it.
- The `q || ""` fallback for a missing query is not modelled: the query is always a string.
- `main`'s `fetch`, the response check, the `async` control flow and the final `catch` are not modelled. These are network I/O and error plumbing. The text is an input of `Viewer.Load`.
- DOM writes are modelled as results or class fields, not as a DOM:
  - `render` returns its table of contents instead of writing it to the element;
  - `applyFilter` returns the listing text;
  - the listing element is the class field `listing`.
- Event-listener wiring is not modelled. `Search` and `Clear` model what the `input` and `click` handlers do to the page state. The search box's value is the field `query`: `Search` models the input handler once the box holds `q`, and `Clear` empties it as the click handler does. The `focus()` call and the empty `hashchange` handler are left out.
- The unused module variable `model` is not modelled.
- The section that `current` aliases inside `sections` is modelled as the last element, updated in place in the sequence. That is the element the alias always refers to.
- The title in the `== title ==` line and the URL, both in `href` and in the link text, are emitted unescaped, as the script does. No safety property is claimed for them. Text items and table-of-contents titles go through `Escape`, which `EscapeSafe` covers.
