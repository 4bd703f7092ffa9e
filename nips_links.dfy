/** Link extraction from a NIPS proceedings index page. `NIPSCrawler.extract_index_links` in
    crawler.py and the module-level `extract_index_links` in nips_crawler.py are the same
    code: they differ only in where the page text comes from, and the page is an input here. */
module NipsLinks {
  import opened Wrappers
  import opened Text
  import opened Dom
  import opened Scan

  const Prefix := "https://papers.nips.cc"
  const PaperPath := "/paper/"
  const MainContainer := "main-container"

  predicate IsPaperHref(h: string)
  {
    StartsWith(h, PaperPath)
  }

  /** What one anchor adds: its href when it is a paper path; a missing href raises. */
  function AnchorHrefs(a: Anchor): Result<seq<string>, Error>
  {
    match Href(a)
    case Err(e) => Err(e)
    case Ok(h) => Ok(if IsPaperHref(h) then [h] else [])
  }

  function ItemHrefs(li: Item): Result<seq<string>, Error>
  {
    Collect(li.anchors, AnchorHrefs)
  }

  /** What one div adds: every div's first class is read; only a main container is searched,
      through the items of its first `ul`. */
  function DivHrefs(d: Div): Result<seq<string>, Error>
  {
    match FirstClass(d.classes)
    case Err(e) => Err(e)
    case Ok(c) =>
      if c != MainContainer then Ok([])
      else
        match d.list
        case None => Err(MissingList)
        case Some(items) => Collect(items, ItemHrefs)
  }

  /** The kept hrefs of the page (the list `links` of the source), in document order. */
  function PaperHrefs(page: Page): Result<seq<string>, Error>
  {
    Collect(page, DivHrefs)
  }

  function Prefixed(hs: seq<string>): seq<string>
  {
    seq(|hs|, i requires 0 <= i < |hs| => Prefix + hs[i])
  }

  /** The links the extractor returns (the list `full_links` of the source). */
  function IndexLinks(page: Page): Result<seq<string>, Error>
  {
    match PaperHrefs(page)
    case Err(e) => Err(e)
    case Ok(hs) => Ok(Prefixed(hs))
  }

  /** The page has none of the flaws that make the extractor raise: every div has a non-empty
      class list, every main container has a `ul`, and each anchor of its items has an href. */
  predicate WellFormed(page: Page)
  {
    forall i :: 0 <= i < |page| ==> DivWellFormed(page[i])
  }

  predicate DivWellFormed(d: Div)
  {
    d.classes.Some? && |d.classes.value| > 0 &&
    (d.classes.value[0] == MainContainer ==>
       d.list.Some? &&
       forall j :: 0 <= j < |d.list.value| ==> ItemWellFormed(d.list.value[j]))
  }

  predicate ItemWellFormed(li: Item)
  {
    forall k :: 0 <= k < |li.anchors| ==> li.anchors[k].href.Some?
  }

  /** Some anchor in the items of the first `ul` of `d` has href `h`. */
  predicate ListsHref(d: Div, h: string)
  {
    d.list.Some? &&
    exists j :: 0 <= j < |d.list.value| && ItemHasHref(d.list.value[j], h)
  }

  predicate ItemHasHref(li: Item, h: string)
  {
    exists k :: 0 <= k < |li.anchors| && li.anchors[k].href == Some(h)
  }

  /** The extraction as the source writes it: nested loops over divs, list items and anchors
      that append the kept hrefs (the two inner loops are `ScanDiv` and `ScanItem`), then a
      loop that prefixes each of them. */
  method ExtractIndexLinks(page: Page) returns (r: Result<seq<string>, Error>)
    ensures r == IndexLinks(page)
  {
    var links: seq<string> := [];
    for i := 0 to |page|
      invariant PaperHrefs(page[..i]) == Ok(links)
    {
      var found := ScanDiv(page[i]);
      CollectStep(page, i, DivHrefs);
      if found.Err? {
        return Err(found.error);
      }
      links := links + found.value;
    }
    assert page[..|page|] == page;
    var fullLinks: seq<string> := [];
    for k := 0 to |links|
      invariant fullLinks == Prefixed(links[..k])
    {
      fullLinks := fullLinks + [Prefix + links[k]];
    }
    assert links[..|links|] == links;
    return Ok(fullLinks);
  }

  /** The body of the loop over divs: read the first class and, for a main container, walk
      the items of its first `ul`. */
  method ScanDiv(div: Div) returns (r: Result<seq<string>, Error>)
    ensures r == DivHrefs(div)
  {
    var cls := FirstClass(div.classes);
    if cls.Err? {
      return Err(cls.error);
    }
    if cls.value != MainContainer {
      return Ok([]);
    }
    if div.list.None? {
      return Err(MissingList);
    }
    var items := div.list.value;
    var links: seq<string> := [];
    for j := 0 to |items|
      invariant Collect(items[..j], ItemHrefs) == Ok(links)
    {
      var found := ScanItem(items[j]);
      CollectStep(items, j, ItemHrefs);
      if found.Err? {
        return Err(found.error);
      }
      links := links + found.value;
    }
    assert items[..|items|] == items;
    return Ok(links);
  }

  /** The innermost loop: every anchor's href is read, and the paper paths are kept. */
  method ScanItem(li: Item) returns (r: Result<seq<string>, Error>)
    ensures r == ItemHrefs(li)
  {
    var anchs := li.anchors;
    var links: seq<string> := [];
    for k := 0 to |anchs|
      invariant Collect(anchs[..k], AnchorHrefs) == Ok(links)
    {
      CollectStep(anchs, k, AnchorHrefs);
      var a := anchs[k];
      if a.href.None? {
        return Err(MissingHref);
      }
      var href := a.href.value;
      if StartsWith(href, PaperPath) {
        links := links + [href];
      } else {
        assert links + [] == links;
      }
    }
    assert anchs[..|anchs|] == anchs;
    return Ok(links);
  }

  /** The extractor raises exactly on a page that is not well formed; in particular a div
      without a class attribute anywhere on the page makes it raise, main container or not. */
  lemma OkIff(page: Page)
    ensures IndexLinks(page).Ok? <==> WellFormed(page)
  {
    CollectOkIff(page, DivHrefs);
    forall i | 0 <= i < |page|
      ensures DivHrefs(page[i]).Ok? <==> DivWellFormed(page[i])
    {
      DivOkIff(page[i]);
    }
  }

  lemma DivOkIff(d: Div)
    ensures DivHrefs(d).Ok? <==> DivWellFormed(d)
  {
    if FirstClassIs(d.classes, MainContainer) && d.list.Some? {
      var items := d.list.value;
      CollectOkIff(items, ItemHrefs);
      forall j | 0 <= j < |items|
        ensures ItemHrefs(items[j]).Ok? <==> ItemWellFormed(items[j])
      {
        CollectOkIff(items[j].anchors, AnchorHrefs);
      }
    }
  }

  /** A div without a class attribute makes the extractor raise, wherever it stands. */
  lemma ClasslessDivRaises(page: Page, i: nat)
    requires i < |page| && page[i].classes.None?
    ensures IndexLinks(page).Err?
  {
    OkIff(page);
  }

  /** The kept hrefs are exactly the paper paths among the hrefs of the anchors in the list
      items of main-container divs. */
  lemma HrefIff(page: Page, h: string)
    requires PaperHrefs(page).Ok?
    ensures h in PaperHrefs(page).value <==>
            IsPaperHref(h) &&
            exists i :: 0 <= i < |page| && FirstClassIs(page[i].classes, MainContainer) && ListsHref(page[i], h)
  {
    CollectMember(page, DivHrefs, h);
    CollectOkIff(page, DivHrefs);
    forall i | 0 <= i < |page|
      ensures h in DivHrefs(page[i]).value <==>
              IsPaperHref(h) && FirstClassIs(page[i].classes, MainContainer) && ListsHref(page[i], h)
    {
      DivMember(page[i], h);
    }
  }

  lemma DivMember(d: Div, h: string)
    requires DivHrefs(d).Ok?
    ensures h in DivHrefs(d).value <==>
            IsPaperHref(h) && FirstClassIs(d.classes, MainContainer) && ListsHref(d, h)
  {
    if FirstClassIs(d.classes, MainContainer) {
      var items := d.list.value;
      CollectMember(items, ItemHrefs, h);
      CollectOkIff(items, ItemHrefs);
      forall j | 0 <= j < |items|
        ensures h in ItemHrefs(items[j]).value <==> IsPaperHref(h) && ItemHasHref(items[j], h)
      {
        var anchs := items[j].anchors;
        CollectMember(anchs, AnchorHrefs, h);
        CollectOkIff(anchs, AnchorHrefs);
      }
    }
  }

  /** One link per kept href, in the same order, each the site prefix followed by the href,
      so each begins with the prefix followed by the paper path. */
  lemma LinksArePrefixedHrefs(page: Page)
    requires IndexLinks(page).Ok?
    ensures var links, hrefs := IndexLinks(page).value, PaperHrefs(page).value;
            |links| == |hrefs| &&
            forall n :: 0 <= n < |links| ==>
              links[n] == Prefix + hrefs[n] && StartsWith(links[n], Prefix + PaperPath)
  {
    var hrefs := PaperHrefs(page).value;
    forall n | 0 <= n < |hrefs|
      ensures StartsWith(Prefix + hrefs[n], Prefix + PaperPath)
    {
      HrefIff(page, hrefs[n]);
      assert (Prefix + hrefs[n])[..|Prefix + PaperPath|] == Prefix + hrefs[n][..|PaperPath|];
    }
  }

  /** A string is a returned link exactly when it is the prefix followed by a paper href
      found in a main container's list items. */
  lemma LinkIff(page: Page, l: string)
    requires IndexLinks(page).Ok?
    ensures l in IndexLinks(page).value <==>
            exists h :: l == Prefix + h && IsPaperHref(h) &&
                        exists i :: 0 <= i < |page| && FirstClassIs(page[i].classes, MainContainer) && ListsHref(page[i], h)
  {
    var hrefs := PaperHrefs(page).value;
    if l in IndexLinks(page).value {
      var n :| 0 <= n < |hrefs| && l == Prefix + hrefs[n];
      HrefIff(page, hrefs[n]);
    }
    if exists h :: l == Prefix + h && IsPaperHref(h) &&
                   exists i :: 0 <= i < |page| && FirstClassIs(page[i].classes, MainContainer) && ListsHref(page[i], h) {
      var h :| l == Prefix + h && IsPaperHref(h) &&
               exists i :: 0 <= i < |page| && FirstClassIs(page[i].classes, MainContainer) && ListsHref(page[i], h);
      HrefIff(page, h);
      var n :| 0 <= n < |hrefs| && hrefs[n] == h;
      assert IndexLinks(page).value[n] == l;
    }
  }
}
