/** The page's state: the stored rendering, the table of contents and the
    listing currently shown, updated the way `main` and its handlers do. */
module Viewer {
  import opened Strings
  import opened Parser
  import opened Render
  import opened Filter

  class Viewer {
    /** The module-level `rendered` string. */
    var rendered: string
    /** What `render` writes into the table-of-contents element. */
    var toc: string
    /** What the listing element currently shows. */
    var listing: string
    /** The value of the search box. */
    var query: string

    /** The page before anything is loaded. */
    constructor()
      ensures rendered == "" && toc == "" && listing == "" && query == ""
    {
      rendered, toc, listing, query := "", "", "", "";
    }

    /** `main` once the text has arrived: parse, render, store the body and
        show it in full. */
    method Load(text: string)
      modifies this`toc, this`rendered, this`listing
      ensures toc == Toc(Parsed(text))
      ensures rendered == Body(Parsed(text))
      ensures listing == rendered
    {
      var sections := Parse(text);
      Show(sections);
    }

    method Show(sections: seq<Section>)
      modifies this`toc, this`rendered, this`listing
      ensures toc == Toc(sections)
      ensures rendered == Body(sections)
      ensures listing == rendered
    {
      var t, body := Render.Render(sections);
      toc, rendered, listing := t, body, body;
    }

    /** The input handler once the search box holds `q`: show the listing
        for `q`. The stored rendering stays as it is, so queries never
        compound. */
    method Search(q: string)
      modifies this`listing, this`query
      ensures query == q
      ensures listing == ApplyFilter(rendered, q)
    {
      query := q;
      listing := ApplyFilter(rendered, q);
    }

    /** The clear button: empty the search box and filter with the empty
        query, which brings back the whole rendering. */
    method Clear()
      modifies this`listing, this`query
      ensures query == ""
      ensures listing == rendered
    {
      Search("");
    }
  }

  /** Whatever query is typed after loading, the anchor marker of every
      parsed section is still a line of the listing, so the links of the
      table of contents keep their targets. */
  lemma MarkersShown(text: string, q: string, i: nat)
    requires i < |Parsed(text)|
    ensures "[#" + Parsed(text)[i].id + "]" in Split(ApplyFilter(Body(Parsed(text)), q), '\n')
  {
    ParsedLayout(text);
    MarkerKept(Parsed(text), q, i);
  }

  /** The same for any sections whose rendering splits into their layout. */
  lemma MarkerKept(ss: seq<Section>, q: string, i: nat)
    requires i < |ss| && Split(Body(ss), '\n') == Layout(ss)
    ensures "[#" + ss[i].id + "]" in Split(ApplyFilter(Body(ss), q), '\n')
  {
    var marker := "[#" + ss[i].id + "]";
    AnchorsInLayout(ss, i);
    MarkerStarts(ss[i].id);
    FilterKeepsMarkers(Body(ss), q, marker);
  }

  lemma MarkerStarts(id: string)
    ensures StartsWith("[#" + id + "]", "[#")
  {
    assert ("[#" + id + "]")[..2] == "[#";
  }
}
