/** What the crawlers ask `download` to fetch, and what `download` does with each request:
    skip it when the destination is already in the output directory, otherwise issue one
    wget command and, when asked to, wait. */
module Downloads {
  import opened Text
  import opened Paths

  /** The three crawler classes: the base `Crawler`, whose `download_paper` does nothing,
      `NIPSCrawler` and `ICMLCrawler`. */
  datatype Venue = Generic | Nips | Icml

  /** One call `download(target, outdoc, do_wait)`. */
  datatype Request = Request(target: string, outdoc: string, wait: bool)

  const IndexName := "INDEX"
  const PdfExtension := ".pdf"
  const BibExtension := ".bib"
  const BibtexPath := "/bibtex"

  /** The set `existing` of `download`: every name the directory listing reports, joined to
      the output directory. */
  function ExistingPaths(outdir: string, listing: set<string>): set<string>
  {
    set f | f in listing :: Join(outdir, f)
  }

  /** A path in the output directory counts as existing exactly when its name is listed. */
  lemma ExistingIff(outdir: string, listing: set<string>, name: string)
    ensures Join(outdir, name) in ExistingPaths(outdir, listing) <==> name in listing
  {
    if Join(outdir, name) in ExistingPaths(outdir, listing) {
      var f :| f in listing && Join(outdir, f) == Join(outdir, name);
      JoinInjective(outdir, f, name);
    }
  }

  /** The commands one request issues: none when its destination exists, else one wget. */
  function Issue(existing: set<string>, r: Request): seq<string>
  {
    if r.outdoc in existing then [] else [Wget(r.outdoc, r.target)]
  }

  /** The waits one request causes: one when it is issued with `do_wait`. */
  function WaitOf(existing: set<string>, r: Request): nat
  {
    if r.outdoc !in existing && r.wait then 1 else 0
  }

  /** The commands a run of requests issues, in order. */
  function Issued(existing: set<string>, reqs: seq<Request>): seq<string>
    decreases |reqs|
  {
    if reqs == [] then []
    else Issued(existing, reqs[..|reqs| - 1]) + Issue(existing, reqs[|reqs| - 1])
  }

  /** The waits a run of requests causes. */
  function Waited(existing: set<string>, reqs: seq<Request>): nat
    decreases |reqs|
  {
    if reqs == [] then 0
    else Waited(existing, reqs[..|reqs| - 1]) + WaitOf(existing, reqs[|reqs| - 1])
  }

  /** Requests are issued one after another: the commands and waits of two runs in a row
      are those of the first run followed by those of the second. */
  lemma {:induction false} IssuedAppend(existing: set<string>, a: seq<Request>, b: seq<Request>)
    ensures Issued(existing, a + b) == Issued(existing, a) + Issued(existing, b)
    ensures Waited(existing, a + b) == Waited(existing, a) + Waited(existing, b)
    decreases |b|
  {
    if b == [] {
      assert a + b == a;
    } else {
      var n := |b| - 1;
      assert (a + b)[..|a + b| - 1] == a + b[..n];
      assert (a + b)[|a + b| - 1] == b[n];
      IssuedAppend(existing, a, b[..n]);
    }
  }

  /** The commands and waits of one or two requests. */
  lemma IssuedOneOrTwo(existing: set<string>, reqs: seq<Request>)
    requires |reqs| == 1 || |reqs| == 2
    ensures |reqs| == 1 ==> Issued(existing, reqs) == Issue(existing, reqs[0]) &&
                            Waited(existing, reqs) == WaitOf(existing, reqs[0])
    ensures |reqs| == 2 ==> Issued(existing, reqs) == Issue(existing, reqs[0]) + Issue(existing, reqs[1]) &&
                            Waited(existing, reqs) == WaitOf(existing, reqs[0]) + WaitOf(existing, reqs[1])
  {
    assert reqs[..|reqs| - 1][..0] == [];
    if |reqs| == 2 {
      assert |reqs[..1]| == 1 && reqs[..1][0] == reqs[0];
    }
  }

  lemma ConcatAssoc(a: seq<string>, b: seq<string>, c: seq<string>)
    ensures (a + b) + c == a + (b + c)
  {
  }

  /** One more link in a run adds that link's commands and waits after the earlier ones. */
  lemma RunStep(existing: set<string>, venue: Venue, outdir: string, links: seq<string>, i: nat)
    requires i < |links|
    ensures var before, now := PapersRequests(venue, outdir, links[..i]), PaperRequests(venue, outdir, links[i]);
            Issued(existing, PapersRequests(venue, outdir, links[..i + 1])) == Issued(existing, before) + Issued(existing, now) &&
            Waited(existing, PapersRequests(venue, outdir, links[..i + 1])) == Waited(existing, before) + Waited(existing, now)
  {
    assert links[..i + 1][..i] == links[..i];
    IssuedAppend(existing, PapersRequests(venue, outdir, links[..i]), PaperRequests(venue, outdir, links[i]));
  }

  /** When no destination exists yet, every request issues exactly its own wget command,
      in order, and waits exactly when it asks to. */
  lemma {:induction false} IssuedFresh(existing: set<string>, reqs: seq<Request>)
    requires forall k :: 0 <= k < |reqs| ==> reqs[k].outdoc !in existing
    ensures |Issued(existing, reqs)| == |reqs|
    ensures forall k :: 0 <= k < |reqs| ==> Issued(existing, reqs)[k] == Wget(reqs[k].outdoc, reqs[k].target)
    ensures Waited(existing, reqs) == WaitCount(reqs)
    decreases |reqs|
  {
    if reqs != [] {
      var n := |reqs| - 1;
      IssuedFresh(existing, reqs[..n]);
    }
  }

  /** When every destination exists already, nothing is issued and nothing waits. */
  lemma {:induction false} IssuedAllExisting(existing: set<string>, reqs: seq<Request>)
    requires forall k :: 0 <= k < |reqs| ==> reqs[k].outdoc in existing
    ensures Issued(existing, reqs) == [] && Waited(existing, reqs) == 0
    decreases |reqs|
  {
    if reqs != [] {
      IssuedAllExisting(existing, reqs[..|reqs| - 1]);
    }
  }

  /** The number of requests that ask for a wait. */
  function WaitCount(reqs: seq<Request>): nat
    decreases |reqs|
  {
    if reqs == [] then 0 else WaitCount(reqs[..|reqs| - 1]) + (if reqs[|reqs| - 1].wait then 1 else 0)
  }

  /** `download_index_page`: the index page goes to `<outdir>/INDEX`, without a wait. */
  function IndexRequest(outdir: string, indexUrl: string): Request
  {
    Request(indexUrl, Join(outdir, IndexName), false)
  }

  /** `NIPSCrawler.download_paper`: the PDF, without a wait, then the BibTeX record, with one,
      both named after the last `/`-segment of the link. */
  function NipsRequests(outdir: string, link: string): seq<Request>
  {
    var base := AfterLast(link, '/');
    [Request(link + PdfExtension, Join(outdir, base + PdfExtension), false),
     Request(link + BibtexPath, Join(outdir, base + BibExtension), true)]
  }

  /** `ICMLCrawler.download_paper`: the link itself, with a wait, named after the part of its
      last `/`-segment before the first `.`. */
  function IcmlRequests(outdir: string, link: string): seq<Request>
  {
    var base := BeforeFirst(AfterLast(link, '/'), '.');
    [Request(link, Join(outdir, base + PdfExtension), true)]
  }

  function PaperRequests(venue: Venue, outdir: string, link: string): seq<Request>
  {
    match venue
    case Generic => []
    case Nips => NipsRequests(outdir, link)
    case Icml => IcmlRequests(outdir, link)
  }

  /** The requests `download_paper` makes for each link of a run, in the order of the links. */
  function PapersRequests(venue: Venue, outdir: string, links: seq<string>): seq<Request>
    decreases |links|
  {
    if links == [] then []
    else PapersRequests(venue, outdir, links[..|links| - 1]) + PaperRequests(venue, outdir, links[|links| - 1])
  }

  /** The links `download_papers(npapers)` visits: all of them for a negative count, and
      otherwise the slice `links[:npapers]`, as many as there are up to `npapers`. */
  function Selected(links: seq<string>, npapers: int): (r: seq<string>)
    ensures |r| == if npapers < 0 || |links| <= npapers then |links| else npapers
    ensures r == links[..|r|]
  {
    if npapers < 0 || |links| <= npapers then links else links[..npapers]
  }

  /** The number of requests `download_paper` makes per link. */
  function RequestsPerPaper(venue: Venue): nat
  {
    match venue
    case Generic => 0
    case Nips => 2
    case Icml => 1
  }

  /** NIPS file names: the PDF and BibTeX files are `<base>.pdf` and `<base>.bib` in the
      output directory, for the same `base`, the last `/`-segment of the link; the PDF is
      fetched from `link + '.pdf'` without a wait, the BibTeX record from `link + '/bibtex'`
      after it, with one. */
  lemma NipsFileNames(outdir: string, link: string)
    ensures var reqs, base := NipsRequests(outdir, link), AfterLast(link, '/');
            |reqs| == 2 && '/' !in base &&
            reqs[0].target == link + PdfExtension && !reqs[0].wait &&
            reqs[1].target == link + BibtexPath && reqs[1].wait &&
            AfterLast(reqs[0].outdoc, '/') == base + PdfExtension &&
            AfterLast(reqs[1].outdoc, '/') == base + BibExtension &&
            reqs[0].outdoc == Join(outdir, base + PdfExtension) &&
            reqs[1].outdoc == Join(outdir, base + BibExtension)
  {
    var base := AfterLast(link, '/');
    JoinSplits(outdir, base + PdfExtension);
    JoinSplits(outdir, base + BibExtension);
  }

  /** ICML file names: the stem of the stored file (its name up to the first `.`) is the
      stem of the link's last `/`-segment, and the file ends in `.pdf`. */
  lemma IcmlFileNames(outdir: string, link: string)
    ensures var reqs, stem := IcmlRequests(outdir, link), BeforeFirst(AfterLast(link, '/'), '.');
            |reqs| == 1 && reqs[0].target == link && reqs[0].wait &&
            '/' !in stem && '.' !in stem &&
            AfterLast(reqs[0].outdoc, '/') == stem + PdfExtension &&
            BeforeFirst(AfterLast(reqs[0].outdoc, '/'), '.') == stem &&
            reqs[0].outdoc == Join(outdir, stem + PdfExtension)
  {
    var segment := AfterLast(link, '/');
    var stem := BeforeFirst(segment, '.');
    assert forall i :: 0 <= i < |stem| ==> stem[i] == segment[i];
    JoinSplits(outdir, stem + PdfExtension);
    assert stem + PdfExtension == stem + ['.'] + "pdf";
    BeforeFirstJoin(stem, '.', "pdf");
  }

  /** Every file any crawler writes lies directly in the output directory: its path is the
      directory, one `/`, and a name without `/`. */
  lemma RequestsInOutdir(venue: Venue, outdir: string, link: string)
    ensures forall r :: r in PaperRequests(venue, outdir, link) ==>
              '/' !in AfterLast(r.outdoc, '/') && r.outdoc == Join(outdir, AfterLast(r.outdoc, '/'))
    ensures '/' !in IndexName && AfterLast(IndexRequest(outdir, "").outdoc, '/') == IndexName
  {
    JoinSplits(outdir, IndexName);
    match venue
    case Generic =>
    case Nips =>
      NipsFileNames(outdir, link);
    case Icml =>
      IcmlFileNames(outdir, link);
  }

  /** A paper file is skipped exactly when the directory listing reports its file name. */
  lemma SkipsListedNames(venue: Venue, outdir: string, listing: set<string>, link: string)
    ensures forall r :: r in PaperRequests(venue, outdir, link) ==>
              (r.outdoc in ExistingPaths(outdir, listing) <==> AfterLast(r.outdoc, '/') in listing)
  {
    RequestsInOutdir(venue, outdir, link);
    forall r | r in PaperRequests(venue, outdir, link)
      ensures r.outdoc in ExistingPaths(outdir, listing) <==> AfterLast(r.outdoc, '/') in listing
    {
      ExistingIff(outdir, listing, AfterLast(r.outdoc, '/'));
    }
  }

  /** The requests of a run over `a + b` are those of `a` followed by those of `b`. */
  lemma {:induction false} PapersRequestsAppend(venue: Venue, outdir: string, a: seq<string>, b: seq<string>)
    ensures PapersRequests(venue, outdir, a + b) ==
            PapersRequests(venue, outdir, a) + PapersRequests(venue, outdir, b)
    decreases |b|
  {
    if b == [] {
      assert a + b == a;
    } else {
      var n := |b| - 1;
      assert (a + b)[..|a + b| - 1] == a + b[..n];
      assert (a + b)[|a + b| - 1] == b[n];
      PapersRequestsAppend(venue, outdir, a, b[..n]);
    }
  }

  /** Every link is downloaded in order: the requests of a run are those of the links before
      the `k`-th, then the `k`-th link's own requests, then those of the links after it. */
  lemma PapersRequestsInOrder(venue: Venue, outdir: string, links: seq<string>, k: nat)
    requires k < |links|
    ensures PapersRequests(venue, outdir, links) ==
            PapersRequests(venue, outdir, links[..k]) + PaperRequests(venue, outdir, links[k]) +
            PapersRequests(venue, outdir, links[k + 1..])
  {
    assert links == links[..k] + [links[k]] + links[k + 1..];
    PapersRequestsAppend(venue, outdir, links[..k] + [links[k]], links[k + 1..]);
    PapersRequestsAppend(venue, outdir, links[..k], [links[k]]);
    assert ([] + [links[k]])[..0] == [];
    assert PapersRequests(venue, outdir, [links[k]]) == PaperRequests(venue, outdir, links[k]);
  }

  /** A run makes `RequestsPerPaper` requests per link, and one of them per link waits
      (none for the base crawler). */
  lemma {:induction false} PapersRequestsCount(venue: Venue, outdir: string, links: seq<string>)
    ensures |PapersRequests(venue, outdir, links)| == RequestsPerPaper(venue) * |links|
    ensures WaitCount(PapersRequests(venue, outdir, links)) == if venue == Generic then 0 else |links|
    decreases |links|
  {
    if links != [] {
      var n := |links| - 1;
      var c := RequestsPerPaper(venue);
      var front := PapersRequests(venue, outdir, links[..n]);
      var last := PaperRequests(venue, outdir, links[n]);
      PapersRequestsCount(venue, outdir, links[..n]);
      WaitCountAppend(front, last);
      assert |last| == c;
      PaperWaitCount(venue, outdir, links[n]);
      assert c * n + c == c * |links|;
    }
  }

  lemma PaperWaitCount(venue: Venue, outdir: string, link: string)
    ensures WaitCount(PaperRequests(venue, outdir, link)) == if venue == Generic then 0 else 1
  {
    var reqs := PaperRequests(venue, outdir, link);
    match venue
    case Generic =>
    case Nips =>
      assert reqs[..|reqs| - 1] == [reqs[0]];
      assert [reqs[0]][..0] == [];
      assert WaitCount([reqs[0]]) == 0;
    case Icml =>
      assert reqs[..0] == [];
  }

  lemma {:induction false} WaitCountAppend(a: seq<Request>, b: seq<Request>)
    ensures WaitCount(a + b) == WaitCount(a) + WaitCount(b)
    decreases |b|
  {
    if b == [] {
      assert a + b == a;
    } else {
      var n := |b| - 1;
      assert (a + b)[..|a + b| - 1] == a + b[..n];
      WaitCountAppend(a, b[..n]);
    }
  }

  /** A run in a fresh output directory (no destination listed yet) issues exactly one
      command per request, `RequestsPerPaper` per visited link, and waits once per visited
      link (once per paper for ICML, after each BibTeX record for NIPS). */
  lemma FreshRunCounts(venue: Venue, outdir: string, links: seq<string>, npapers: int, existing: set<string>)
    requires forall r :: r in PapersRequests(venue, outdir, Selected(links, npapers)) ==> r.outdoc !in existing
    ensures var reqs := PapersRequests(venue, outdir, Selected(links, npapers));
            |Issued(existing, reqs)| == RequestsPerPaper(venue) * |Selected(links, npapers)| &&
            Waited(existing, reqs) == (if venue == Generic then 0 else |Selected(links, npapers)|)
  {
    var reqs := PapersRequests(venue, outdir, Selected(links, npapers));
    PapersRequestsCount(venue, outdir, Selected(links, npapers));
    IssuedFresh(existing, reqs);
  }
}
