/** Link extraction from an ICML (JMLR proceedings) index page, `ICMLCrawler.extract_index_links`
    in crawler.py. It runs in two passes, as the source does: first it selects the paper divs
    among all divs, then it collects the PDF links of those divs. */
module IcmlLinks {
  import opened Wrappers
  import opened Text
  import opened Dom
  import opened Scan

  const PaperClass := "paper"
  const LinksClass := "links"
  const PdfSuffix := ".pdf"
  const SuppSuffix := "-supp.pdf"
  const AbsolutePrefix := "http"

  /** The hrefs the crawler downloads: PDFs that are not supplementary material. */
  predicate IsPaperPdf(h: string)
  {
    EndsWith(h, PdfSuffix) && !EndsWith(h, SuppSuffix)
  }

  /** An absolute href as it is; any other href joined to the index URL with one `/`. */
  function Resolve(indexUrl: string, h: string): string
  {
    if StartsWith(h, AbsolutePrefix) then h else indexUrl + "/" + h
  }

  /** The first pass over one div: a div without a class attribute is passed over, one with
      an empty class list raises, one whose first class is `paper` is selected. */
  function SelectDiv(d: Div): Result<seq<Div>, Error>
  {
    match d.classes
    case None => Ok([])
    case Some(cs) =>
      if |cs| == 0 then Err(EmptyClass)
      else if cs[0] == PaperClass then Ok([d])
      else Ok([])
  }

  function PaperDivs(page: Page): Result<seq<Div>, Error>
  {
    Collect(page, SelectDiv)
  }

  function AnchorLinks(indexUrl: string, a: Anchor): Result<seq<string>, Error>
  {
    match Href(a)
    case Err(e) => Err(e)
    case Ok(h) => Ok(if IsPaperPdf(h) then [Resolve(indexUrl, h)] else [])
  }

  function AnchorLinksAt(indexUrl: string): Anchor -> Result<seq<string>, Error>
  {
    a => AnchorLinks(indexUrl, a)
  }

  /** Every paragraph's first class is read; only the `links` paragraphs are searched. */
  function ParaLinks(indexUrl: string, p: Para): Result<seq<string>, Error>
  {
    match FirstClass(p.classes)
    case Err(e) => Err(e)
    case Ok(c) => if c == LinksClass then Collect(p.anchors, AnchorLinksAt(indexUrl)) else Ok([])
  }

  function ParaLinksAt(indexUrl: string): Para -> Result<seq<string>, Error>
  {
    p => ParaLinks(indexUrl, p)
  }

  function DivLinks(indexUrl: string, d: Div): Result<seq<string>, Error>
  {
    Collect(d.paras, ParaLinksAt(indexUrl))
  }

  function DivLinksAt(indexUrl: string): Div -> Result<seq<string>, Error>
  {
    d => DivLinks(indexUrl, d)
  }

  /** The links the extractor returns, in document order. */
  function IndexLinks(indexUrl: string, page: Page): Result<seq<string>, Error>
  {
    match PaperDivs(page)
    case Err(e) => Err(e)
    case Ok(divs) => Collect(divs, DivLinksAt(indexUrl))
  }

  /** The page has none of the flaws that make the extractor raise: no div has an empty
      class list, and in every paper div each paragraph has a non-empty class list and each
      anchor of a `links` paragraph has an href. */
  predicate WellFormed(page: Page)
  {
    (forall i :: 0 <= i < |page| ==> page[i].classes != Some([])) &&
    forall i :: 0 <= i < |page| && FirstClassIs(page[i].classes, PaperClass) ==> DivWellFormed(page[i])
  }

  predicate DivWellFormed(d: Div)
  {
    forall j :: 0 <= j < |d.paras| ==> ParaWellFormed(d.paras[j])
  }

  predicate ParaWellFormed(p: Para)
  {
    p.classes.Some? && |p.classes.value| > 0 &&
    (p.classes.value[0] == LinksClass ==>
       forall k :: 0 <= k < |p.anchors| ==> p.anchors[k].href.Some?)
  }

  /** Some anchor of a `links` paragraph of `d` has href `h`. */
  predicate LinksHref(d: Div, h: string)
  {
    exists j :: 0 <= j < |d.paras| && FirstClassIs(d.paras[j].classes, LinksClass) && ParaHasHref(d.paras[j], h)
  }

  predicate ParaHasHref(p: Para, h: string)
  {
    exists k :: 0 <= k < |p.anchors| && p.anchors[k].href == Some(h)
  }

  /** The extraction as the source writes it: a loop that selects the paper divs, then
      nested loops over their paragraphs and anchors (the inner two are `ScanDiv` and
      `ScanPara`). */
  method ExtractIndexLinks(indexUrl: string, page: Page) returns (r: Result<seq<string>, Error>)
    ensures r == IndexLinks(indexUrl, page)
  {
    var divs: seq<Div> := [];
    for i := 0 to |page|
      invariant PaperDivs(page[..i]) == Ok(divs)
    {
      CollectStep(page, i, SelectDiv);
      var div := page[i];
      if div.classes.Some? {
        if |div.classes.value| == 0 {
          return Err(EmptyClass);
        }
        if div.classes.value[0] == PaperClass {
          divs := divs + [div];
        } else {
          assert divs + [] == divs;
        }
      } else {
        assert divs + [] == divs;
      }
    }
    assert page[..|page|] == page;
    var links: seq<string> := [];
    for i := 0 to |divs|
      invariant Collect(divs[..i], DivLinksAt(indexUrl)) == Ok(links)
    {
      var found := ScanDiv(indexUrl, divs[i]);
      CollectStep(divs, i, DivLinksAt(indexUrl));
      if found.Err? {
        return Err(found.error);
      }
      links := links + found.value;
    }
    assert divs[..|divs|] == divs;
    return Ok(links);
  }

  /** The loop over the paragraphs of one paper div. */
  method ScanDiv(indexUrl: string, div: Div) returns (r: Result<seq<string>, Error>)
    ensures r == DivLinks(indexUrl, div)
  {
    var ps := div.paras;
    var links: seq<string> := [];
    for j := 0 to |ps|
      invariant Collect(ps[..j], ParaLinksAt(indexUrl)) == Ok(links)
    {
      var found := ScanPara(indexUrl, ps[j]);
      CollectStep(ps, j, ParaLinksAt(indexUrl));
      if found.Err? {
        return Err(found.error);
      }
      links := links + found.value;
    }
    assert ps[..|ps|] == ps;
    return Ok(links);
  }

  /** The first class of one paragraph, and for a `links` paragraph the loop over its anchors. */
  method ScanPara(indexUrl: string, p: Para) returns (r: Result<seq<string>, Error>)
    ensures r == ParaLinks(indexUrl, p)
  {
    var cls := FirstClass(p.classes);
    if cls.Err? {
      return Err(cls.error);
    }
    if cls.value != LinksClass {
      return Ok([]);
    }
    var anchs := p.anchors;
    var links: seq<string> := [];
    for k := 0 to |anchs|
      invariant Collect(anchs[..k], AnchorLinksAt(indexUrl)) == Ok(links)
    {
      CollectStep(anchs, k, AnchorLinksAt(indexUrl));
      var anch := anchs[k];
      if anch.href.None? {
        return Err(MissingHref);
      }
      if EndsWith(anch.href.value, PdfSuffix) && !EndsWith(anch.href.value, SuppSuffix) {
        var link := anch.href.value;
        if StartsWith(link, AbsolutePrefix) {
          links := links + [link];
        } else {
          var fullLink := indexUrl + "/" + link;
          links := links + [fullLink];
        }
      } else {
        assert links + [] == links;
      }
    }
    assert anchs[..|anchs|] == anchs;
    return Ok(links);
  }

  /** `l` is a link some `links` paragraph of `d` yields: the resolution of one of its
      paper PDF hrefs. */
  ghost predicate DivYields(indexUrl: string, d: Div, l: string)
  {
    exists h :: IsPaperPdf(h) && LinksHref(d, h) && l == Resolve(indexUrl, h)
  }

  /** Joining a relative href to the index URL keeps it a paper PDF: it still ends in
      `.pdf`, and the `/` before the href cannot complete a `-supp.pdf` suffix. */
  lemma ResolveKeepsPaperPdf(indexUrl: string, h: string)
    requires IsPaperPdf(h)
    ensures IsPaperPdf(Resolve(indexUrl, h))
  {
    if !StartsWith(h, AbsolutePrefix) {
      var l := indexUrl + "/" + h;
      assert l[|l| - |PdfSuffix|..] == h[|h| - |PdfSuffix|..];
      if |h| >= |SuppSuffix| {
        assert l[|l| - |SuppSuffix|..] == h[|h| - |SuppSuffix|..];
      } else {
        assert l[|l| - |h| - 1] == '/';
        assert SuppSuffix[|SuppSuffix| - |h| - 1] != '/';
      }
    }
  }

  /** The selected divs are exactly the divs of the page whose first class is `paper`. */
  lemma SelectedDivs(page: Page, d: Div)
    requires PaperDivs(page).Ok?
    ensures d in PaperDivs(page).value <==>
            exists i :: 0 <= i < |page| && page[i] == d && FirstClassIs(page[i].classes, PaperClass)
  {
    CollectMember(page, SelectDiv, d);
  }

  lemma ParaOkIff(indexUrl: string, p: Para)
    ensures ParaLinks(indexUrl, p).Ok? <==> ParaWellFormed(p)
  {
    CollectOkIff(p.anchors, AnchorLinksAt(indexUrl));
  }

  lemma DivOkIff(indexUrl: string, d: Div)
    ensures DivLinks(indexUrl, d).Ok? <==> DivWellFormed(d)
  {
    CollectOkIff(d.paras, ParaLinksAt(indexUrl));
    forall j | 0 <= j < |d.paras|
      ensures ParaLinks(indexUrl, d.paras[j]).Ok? <==> ParaWellFormed(d.paras[j])
    {
      ParaOkIff(indexUrl, d.paras[j]);
    }
  }

  /** The extractor raises exactly on a page that is not well formed. A div without a class
      attribute never makes it raise, but a paragraph without one inside a paper div does. */
  lemma OkIff(indexUrl: string, page: Page)
    ensures IndexLinks(indexUrl, page).Ok? <==> WellFormed(page)
  {
    CollectOkIff(page, SelectDiv);
    if PaperDivs(page).Ok? {
      var divs := PaperDivs(page).value;
      CollectOkIff(divs, DivLinksAt(indexUrl));
      forall m | 0 <= m < |divs|
        ensures DivLinks(indexUrl, divs[m]).Ok? <==> DivWellFormed(divs[m])
      {
        DivOkIff(indexUrl, divs[m]);
      }
      if IndexLinks(indexUrl, page).Ok? {
        forall i | 0 <= i < |page| && FirstClassIs(page[i].classes, PaperClass)
          ensures DivWellFormed(page[i])
        {
          SelectedDivs(page, page[i]);
          var m :| 0 <= m < |divs| && divs[m] == page[i];
        }
      }
      if WellFormed(page) {
        forall m | 0 <= m < |divs|
          ensures DivWellFormed(divs[m])
        {
          SelectedDivs(page, divs[m]);
        }
      }
    }
  }

  lemma ParaMember(indexUrl: string, p: Para, l: string)
    requires ParaLinks(indexUrl, p).Ok? && FirstClassIs(p.classes, LinksClass)
    ensures l in ParaLinks(indexUrl, p).value <==>
            exists h :: IsPaperPdf(h) && ParaHasHref(p, h) && l == Resolve(indexUrl, h)
  {
    var f := AnchorLinksAt(indexUrl);
    CollectMember(p.anchors, f, l);
    if l in ParaLinks(indexUrl, p).value {
      var k :| 0 <= k < |p.anchors| && f(p.anchors[k]).Ok? && l in f(p.anchors[k]).value;
      var h := p.anchors[k].href.value;
      assert IsPaperPdf(h) && ParaHasHref(p, h) && l == Resolve(indexUrl, h);
    }
    if exists h :: IsPaperPdf(h) && ParaHasHref(p, h) && l == Resolve(indexUrl, h) {
      var h :| IsPaperPdf(h) && ParaHasHref(p, h) && l == Resolve(indexUrl, h);
      var k :| 0 <= k < |p.anchors| && p.anchors[k].href == Some(h);
      assert f(p.anchors[k]) == Ok([l]);
    }
  }

  lemma DivMember(indexUrl: string, d: Div, l: string)
    requires DivLinks(indexUrl, d).Ok?
    ensures l in DivLinks(indexUrl, d).value <==> DivYields(indexUrl, d, l)
  {
    var f := ParaLinksAt(indexUrl);
    CollectMember(d.paras, f, l);
    CollectOkIff(d.paras, f);
    if l in DivLinks(indexUrl, d).value {
      var j :| 0 <= j < |d.paras| && f(d.paras[j]).Ok? && l in f(d.paras[j]).value;
      var p := d.paras[j];
      assert FirstClassIs(p.classes, LinksClass);
      ParaMember(indexUrl, p, l);
      var h :| IsPaperPdf(h) && ParaHasHref(p, h) && l == Resolve(indexUrl, h);
      assert LinksHref(d, h);
    }
    if DivYields(indexUrl, d, l) {
      var h :| IsPaperPdf(h) && LinksHref(d, h) && l == Resolve(indexUrl, h);
      var j :| 0 <= j < |d.paras| && FirstClassIs(d.paras[j].classes, LinksClass) && ParaHasHref(d.paras[j], h);
      ParaMember(indexUrl, d.paras[j], l);
      assert l in f(d.paras[j]).value;
    }
  }

  /** A string is a returned link exactly when a paper div of the page yields it: it is a
      PDF href, not a supplement, of a `links` paragraph there, kept as it is when absolute
      and joined to the index URL otherwise. */
  lemma LinkIff(indexUrl: string, page: Page, l: string)
    requires IndexLinks(indexUrl, page).Ok?
    ensures l in IndexLinks(indexUrl, page).value <==>
            exists i :: 0 <= i < |page| && FirstClassIs(page[i].classes, PaperClass) && DivYields(indexUrl, page[i], l)
  {
    var divs := PaperDivs(page).value;
    var f := DivLinksAt(indexUrl);
    CollectMember(divs, f, l);
    CollectOkIff(divs, f);
    if l in IndexLinks(indexUrl, page).value {
      var m :| 0 <= m < |divs| && f(divs[m]).Ok? && l in f(divs[m]).value;
      DivMember(indexUrl, divs[m], l);
      SelectedDivs(page, divs[m]);
    }
    if exists i :: 0 <= i < |page| && FirstClassIs(page[i].classes, PaperClass) && DivYields(indexUrl, page[i], l) {
      var i :| 0 <= i < |page| && FirstClassIs(page[i].classes, PaperClass) && DivYields(indexUrl, page[i], l);
      SelectedDivs(page, page[i]);
      var m :| 0 <= m < |divs| && divs[m] == page[i];
      DivMember(indexUrl, divs[m], l);
    }
  }

  /** Every returned link ends in `.pdf` and none ends in `-supp.pdf`. */
  lemma LinksArePaperPdfs(indexUrl: string, page: Page)
    requires IndexLinks(indexUrl, page).Ok?
    ensures forall l :: l in IndexLinks(indexUrl, page).value ==>
              EndsWith(l, PdfSuffix) && !EndsWith(l, SuppSuffix)
  {
    forall l | l in IndexLinks(indexUrl, page).value
      ensures IsPaperPdf(l)
    {
      LinkIff(indexUrl, page, l);
      var i :| 0 <= i < |page| && FirstClassIs(page[i].classes, PaperClass) && DivYields(indexUrl, page[i], l);
      var h :| IsPaperPdf(h) && LinksHref(page[i], h) && l == Resolve(indexUrl, h);
      ResolveKeepsPaperPdf(indexUrl, h);
    }
  }
}
