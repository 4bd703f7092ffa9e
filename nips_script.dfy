/** The standalone script nips_crawler.py: its `extract_index_links` is the same code as the
    NIPS crawler's and is modelled once, by `NipsLinks.ExtractIndexLinks`; its
    `download_paper` writes into a fixed directory and issues both wget commands with no
    check for files that already exist. */
module NipsScript {
  import opened Wrappers
  import opened Text
  import opened Paths
  import opened Downloads

  const Outdir := "/Users/kate/research/header_extractor/pages"

  /** `download_paper(link)`: returns the commands it hands to `os.system`, in order. They
      fetch the same requests the NIPS crawler makes, issued unconditionally. */
  method DownloadPaper(link: string) returns (commands: seq<string>)
    ensures commands == Issued({}, NipsRequests(Outdir, link))
  {
    commands := [];
    var outfileBase := AfterLast(link, '/');
    var outfilePdf := Join(Outdir, outfileBase + PdfExtension);
    var pdfReq := link + PdfExtension;
    var cmd := Wget(outfilePdf, pdfReq);
    commands := commands + [cmd];
    var outfileBib := Join(Outdir, outfileBase + BibExtension);
    var bibtexReq := link + BibtexPath;
    cmd := Wget(outfileBib, bibtexReq);
    commands := commands + [cmd];
    IssuedOneOrTwo({}, NipsRequests(Outdir, link));
  }

  /** The script's two commands read back as the PDF of `link + '.pdf'` into `<base>.pdf` and
      then the BibTeX record of `link + '/bibtex'` into `<base>.bib`, for the same `base`,
      the link's last `/`-segment, when that segment has no space (`NipsFileNames` states
      that `base` is what the two paths name after their last `/`). */
  lemma ScriptCommands(link: string)
    requires ' ' !in AfterLast(link, '/')
    ensures var commands, base := Issued({}, NipsRequests(Outdir, link)), AfterLast(link, '/');
            |commands| == 2 &&
            ParseWget(commands[0]) == Some((Join(Outdir, base + PdfExtension), link + PdfExtension)) &&
            ParseWget(commands[1]) == Some((Join(Outdir, base + BibExtension), link + BibtexPath))
  {
    var base := AfterLast(link, '/');
    IssuedOneOrTwo({}, NipsRequests(Outdir, link));
    assert ' ' !in base + PdfExtension && ' ' !in base + BibExtension;
    CommandReadsBack(base + PdfExtension, link + PdfExtension);
    CommandReadsBack(base + BibExtension, link + BibtexPath);
  }

  lemma CommandReadsBack(name: string, target: string)
    requires ' ' !in name
    ensures ParseWget(Wget(Join(Outdir, name), target)) == Some((Join(Outdir, name), target))
  {
    assert ' ' !in Outdir;
    assert ' ' !in Join(Outdir, name) by {
      assert Join(Outdir, name) == Outdir + ['/'] + name;
    }
    WgetRoundTrip(Join(Outdir, name), target);
  }

  /** The NIPS crawler, given the script's directory, issues exactly the script's commands
      for a paper whose two files are not there yet, and none for one whose files both are. */
  lemma CrawlerMatchesScript(existing: set<string>, link: string)
    ensures var reqs := NipsRequests(Outdir, link);
            (reqs[0].outdoc !in existing && reqs[1].outdoc !in existing ==>
               Issued(existing, reqs) == Issued({}, reqs)) &&
            (reqs[0].outdoc in existing && reqs[1].outdoc in existing ==>
               Issued(existing, reqs) == [] && Waited(existing, reqs) == 0)
  {
    var reqs := NipsRequests(Outdir, link);
    IssuedOneOrTwo(existing, reqs);
    IssuedOneOrTwo({}, reqs);
  }
}
