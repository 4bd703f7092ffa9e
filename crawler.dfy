/** The crawler object of crawler.py. The three Python classes `Crawler`, `NIPSCrawler` and
    `ICMLCrawler` are one class here, told apart by its `venue`; the methods the subclasses
    override dispatch on it. The operating system is part of the object's state: `listing`
    is what `os.listdir(outdir)` reports, `commands` the log of commands given to
    `os.system`, and `waits` the number of `time.sleep(WAIT)` calls. */
module Crawlers {
  import opened Wrappers
  import opened Text
  import opened Dom
  import opened Paths
  import opened Downloads
  import NipsLinks
  import IcmlLinks

  /** What `extract_index_links` returns for an index page: nothing for the base crawler. */
  function IndexLinks(venue: Venue, indexUrl: string, page: Page): Result<seq<string>, Error>
  {
    match venue
    case Generic => Ok([])
    case Nips => NipsLinks.IndexLinks(page)
    case Icml => IcmlLinks.IndexLinks(indexUrl, page)
  }

  class Crawler {
    const venue: Venue
    /** The output directory, with its trailing slashes removed. */
    const outdir: string
    const indexUrl: string
    /** The names in the output directory, as `os.listdir(outdir)` reports them. */
    const listing: set<string>
    var indexFile: string
    var links: seq<string>
    /** The exception `extract_index_links` raised in the constructor, if it raised. */
    var raised: Option<Error>
    var commands: seq<string>
    var waits: nat

    function Existing(): set<string>
    {
      ExistingPaths(outdir, listing)
    }

    /** `__init__`: normalise the output directory, fetch the index page into
        `<outdir>/INDEX`, and extract the links from `page`, the parsed contents of that
        file. When the extraction raises, Python produces no object; here `raised` records
        the exception and `links` stays empty. */
    constructor (venue: Venue, outdir: string, indexUrl: string, listing: set<string>, page: Page)
      ensures this.venue == venue && this.indexUrl == indexUrl && this.listing == listing
      ensures this.outdir == StripTrailing(outdir, '/')
      ensures indexFile == Join(this.outdir, IndexName)
      ensures commands == Issued(Existing(), [IndexRequest(this.outdir, indexUrl)]) && waits == 0
      ensures match IndexLinks(venue, indexUrl, page)
              case Ok(ls) => links == ls && raised == None
              case Err(e) => links == [] && raised == Some(e)
    {
      this.venue := venue;
      this.outdir := StripTrailing(outdir, '/');
      this.indexUrl := indexUrl;
      this.listing := listing;
      indexFile := "";
      links := [];
      raised := None;
      commands := [];
      waits := 0;
      new;
      indexFile := DownloadIndexPage();
      assert [IndexRequest(this.outdir, indexUrl)][..0] == [];
      var found := ExtractIndexLinks(page);
      match found
      case Ok(ls) => links := ls;
      case Err(e) => raised := Some(e);
    }

    /** `download`: skip when `outdoc` is already in the output directory; otherwise issue
        exactly one `wget --output-document=<outdoc> <target>`, and wait once if and only if
        `doWait`. */
    method Download(target: string, outdoc: string, doWait: bool)
      modifies this`commands, this`waits
      ensures outdoc in Existing() ==> commands == old(commands) && waits == old(waits)
      ensures outdoc !in Existing() ==>
                commands == old(commands) + [Wget(outdoc, target)] &&
                waits == old(waits) + (if doWait then 1 else 0)
    {
      var existing := set f | f in listing :: Join(outdir, f);
      if outdoc in existing {
        return;
      }
      var cmd := Wget(outdoc, target);
      commands := commands + [cmd];
      if doWait {
        waits := waits + 1;
      }
    }

    /** `download_index_page`: the index page goes to `<outdir>/INDEX`, without a wait. */
    method DownloadIndexPage() returns (outfile: string)
      modifies this`commands, this`waits
      ensures outfile == Join(outdir, IndexName)
      ensures commands == old(commands) + Issue(Existing(), IndexRequest(outdir, indexUrl))
      ensures waits == old(waits)
    {
      outfile := Join(outdir, IndexName);
      Download(indexUrl, outfile, false);
    }

    /** `extract_index_links`, dispatched on the venue: the base crawler finds no links. */
    method ExtractIndexLinks(page: Page) returns (r: Result<seq<string>, Error>)
      ensures r == IndexLinks(venue, indexUrl, page)
    {
      match venue
      case Generic => r := Ok([]);
      case Nips => r := NipsLinks.ExtractIndexLinks(page);
      case Icml => r := IcmlLinks.ExtractIndexLinks(indexUrl, page);
    }

    /** `download_paper`, dispatched on the venue: the base crawler does nothing. */
    method DownloadPaper(link: string)
      modifies this`commands, this`waits
      ensures commands == old(commands) + Issued(Existing(), PaperRequests(venue, outdir, link))
      ensures waits == old(waits) + Waited(Existing(), PaperRequests(venue, outdir, link))
    {
      ghost var reqs := PaperRequests(venue, outdir, link);
      match venue
      case Generic =>
      case Nips =>
        var outfileBase := AfterLast(link, '/');
        var outfilePdf := Join(outdir, outfileBase + PdfExtension);
        var pdfReq := link + PdfExtension;
        Download(pdfReq, outfilePdf, false);
        var outfileBib := Join(outdir, outfileBase + BibExtension);
        var bibtexReq := link + BibtexPath;
        Download(bibtexReq, outfileBib, true);
        IssuedOneOrTwo(Existing(), reqs);
      case Icml =>
        var outfileBase := AfterLast(link, '/');
        outfileBase := BeforeFirst(outfileBase, '.');
        var outfilePdf := Join(outdir, outfileBase + PdfExtension);
        Download(link, outfilePdf, true);
        IssuedOneOrTwo(Existing(), reqs);
    }

    /** `download_papers(npapers)`: every link in order when `npapers` is negative, otherwise
        the first `npapers` of them (all when there are fewer). */
    method DownloadPapers(npapers: int)
      modifies this`commands, this`waits
      ensures commands == old(commands) + Issued(Existing(), PapersRequests(venue, outdir, Selected(links, npapers)))
      ensures waits == old(waits) + Waited(Existing(), PapersRequests(venue, outdir, Selected(links, npapers)))
    {
      if npapers < 0 {
        DownloadEach(links);
      } else {
        DownloadEach(links[..if |links| <= npapers then |links| else npapers]);
      }
    }

    /** The loop `for link in ...: self.download_paper(link)` of `download_papers`. */
    method DownloadEach(todo: seq<string>)
      modifies this`commands, this`waits
      ensures commands == old(commands) + Issued(Existing(), PapersRequests(venue, outdir, todo))
      ensures waits == old(waits) + Waited(Existing(), PapersRequests(venue, outdir, todo))
    {
      ghost var existing := Existing();
      ghost var commands0, waits0 := commands, waits;
      for i := 0 to |todo|
        invariant commands == commands0 + Issued(existing, PapersRequests(venue, outdir, todo[..i]))
        invariant waits == waits0 + Waited(existing, PapersRequests(venue, outdir, todo[..i]))
      {
        RunStep(existing, venue, outdir, todo, i);
        DownloadPaper(todo[i]);
        ConcatAssoc(commands0, Issued(existing, PapersRequests(venue, outdir, todo[..i])),
                    Issued(existing, PaperRequests(venue, outdir, todo[i])));
      }
      assert todo[..|todo|] == todo;
    }
  }
}
