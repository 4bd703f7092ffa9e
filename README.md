# Paper crawlers of header_extractor, modelled in Dafny

The repository downloads conference papers so that their bibliographic headers can be
extracted later. The code that exists does the downloading: `Crawler` and its subclasses
`NIPSCrawler` and `ICMLCrawler` (header_extractor/crawler.py), and an older standalone
NIPS script (header_extractor/nips_crawler.py). The repository's design also describes a
metadata-extraction component that parses structured XML and BibTeX records. The code does
not contain it: header_extractor/xml_to_metadata.py only lists the `*.cermxml` files of a
directory. This model follows the code, so it covers the crawlers only.

A crawler does four things:

- It reads an index page and selects the paper links on it. NIPS keeps the `/paper/`
  hrefs of the list items in `main-container` divs and puts the site address in front.
  ICML keeps the `.pdf` hrefs that are not `-supp.pdf`, taken from `links` paragraphs of
  `paper` divs, and resolves relative ones against the index URL.
- It names the output files. NIPS uses `<outdir>/<base>.pdf` and `<outdir>/<base>.bib`,
  where `base` is the last `/`-segment of the link. ICML uses `<outdir>/<stem>.pdf`, where
  `stem` is that segment cut at its first `.`.
- It downloads with `wget`, skipping any file the output directory already holds, and
  waits after some requests.
- It visits all links, or only the first `npapers` of them.

Modules, one per concern:

- `Text`: `startswith`, `endswith`, `rstrip` and the first and last fields of `split`.
- `Paths`: joining a path and formatting the wget command.
- `Dom`: the parts of a parsed page the crawlers look at, and the exceptions a lookup
  raises.
- `Scan`: the shared "loop, append, stop at the first exception" shape.
- `NipsLinks`, `IcmlLinks`: the two link extractors. Each is a set of specification
  functions, imperative methods proved equal to them, and lemmas about them.
- `Downloads`: the requests each crawler makes and what `download` does with them.
- `Crawlers`: the crawler object.
- `NipsScript`: nips_crawler.py.

The page is an input. It is the sequence of divs `soup.find_all('div')` returns, in document
order. Each div carries the answers to the lookups the code makes on it: its class list,
the items of its first `ul`, and its paragraphs. A missing attribute or child is `None`,
so the model keeps the code's KeyError, IndexError and AttributeError cases as an `Err`
result. The operating system is part of the crawler's state:

- `listing` is what `os.listdir(outdir)` returns.
- `commands` logs the commands given to `os.system`.
- `waits` counts the calls to `time.sleep`.

## Model

| member | source | states |
|---|---|---|
| NipsLinks.ExtractIndexLinks | header_extractor/nips_crawler.py:7-32 | The nested loops over divs, list items and anchors, then the prefixing loop, return exactly `IndexLinks(page)`. This is the same code as `NIPSCrawler.extract_index_links` (crawler.py:66-91). |
| NipsLinks.ScanDiv | header_extractor/crawler.py:76-85 | Every div's first class is read, which raises on a missing or empty class list. Only a `main-container` div is searched, through its first `ul`, which raises when it has none. |
| NipsLinks.ScanItem | header_extractor/crawler.py:81-85 | Every anchor's href is read, which raises when it is missing. The `/paper/` hrefs are kept in order. |
| NipsLinks.OkIff | header_extractor/crawler.py:76-83 | The extractor succeeds exactly on a well-formed page. Well-formed means every div has a non-empty class list, every main container has a `ul`, and every anchor in its items has an href. |
| NipsLinks.ClasslessDivRaises | header_extractor/crawler.py:77 | A div without a class attribute anywhere on the page makes the extraction raise, even when it is not a main container. |
| NipsLinks.HrefIff | header_extractor/nips_crawler.py:16-26 | An href is kept exactly when it starts with `/paper/` and an anchor of a main-container div's list items carries it. |
| NipsLinks.LinksArePrefixedHrefs | header_extractor/crawler.py:86-91 | There is one link per kept href, in the same order. Link `n` is `https://papers.nips.cc` followed by href `n`, so it starts with `https://papers.nips.cc/paper/`. |
| NipsLinks.LinkIff | header_extractor/crawler.py:84-90 | A string is returned exactly when it is the prefix followed by a `/paper/` href found in a main container's list items. |
| IcmlLinks.ExtractIndexLinks | header_extractor/crawler.py:105-126 | The first loop selects the paper divs among all divs and the nested loops collect their links. Together they return exactly `IndexLinks(indexUrl, page)`. |
| IcmlLinks.ScanDiv | header_extractor/crawler.py:113-116 | The loop over one paper div's paragraphs returns the concatenation of their links, or the first exception. |
| IcmlLinks.ScanPara | header_extractor/crawler.py:116-125 | Every paragraph's first class is read, which raises on a missing or empty list. Only `links` paragraphs are searched. Every anchor's href is read. Non-supplement `.pdf` hrefs are kept: an `http` href verbatim, any other as `index_url + '/' + href`. |
| IcmlLinks.SelectedDivs | header_extractor/crawler.py:108-112 | The selected divs are exactly the page's divs that have a class attribute whose first class is `paper`. |
| IcmlLinks.OkIff | header_extractor/crawler.py:109-120 | The extractor succeeds exactly on a well-formed page: no div has an empty class list, and inside paper divs every paragraph has a non-empty class list and every anchor of a `links` paragraph has an href. A div with no class attribute never raises. |
| IcmlLinks.LinkIff | header_extractor/crawler.py:113-125 | A string is returned exactly when it is the resolution of a `.pdf`, non-`-supp.pdf` href of a `links` paragraph of a `paper` div. |
| IcmlLinks.ResolveKeepsPaperPdf | header_extractor/crawler.py:119-125 | Resolving a kept href keeps it a paper PDF. The `/` inserted before a short href can never complete a `-supp.pdf` suffix. |
| IcmlLinks.LinksArePaperPdfs | header_extractor/crawler.py:119 | Every returned link ends in `.pdf` and none ends in `-supp.pdf`. |
| Text.StripTrailing | header_extractor/crawler.py:12 | `rstrip('/')` returns a prefix of the directory that does not end in `/`, and only `/` characters were removed. |
| Text.StripTrailingIdempotent | header_extractor/crawler.py:12 | Stripping a stripped directory changes nothing. |
| Text.AfterLast | header_extractor/crawler.py:56 | `split('/')[-1]` contains no `/` and is a suffix of the link. It is either the whole link or follows a `/`. |
| Text.BeforeFirst | header_extractor/crawler.py:101 | `split('.')[0]` contains no `.` and is a prefix of the segment. It is either the whole segment or is followed by a `.`. |
| Text.AfterLastJoin | header_extractor/crawler.py:58 | The last field of `dir + '/' + name` is `name` when `name` has no `/`. |
| Text.BeforeFirstJoin | header_extractor/crawler.py:101-102 | The first field of `name + '.' + rest` is `name` when `name` has no `.`. |
| Paths.JoinSplits | header_extractor/crawler.py:58 | A joined path splits back, at its last `/`, into the directory and the file name. |
| Paths.JoinInjective | header_extractor/crawler.py:19-20 | Two names joined to the same directory give the same path only when the names are equal. |
| Paths.WgetRoundTrip | header_extractor/crawler.py:23 | A command `wget --output-document=<outdoc> <target>` reads back as exactly `(outdoc, target)` when `outdoc` has no space. |
| Downloads.ExistingIff | header_extractor/crawler.py:19-20 | A path in the output directory is in the `existing` set exactly when the listing reports its name. |
| Downloads.SkipsListedNames | header_extractor/crawler.py:17-22 | Every file a crawler requests is skipped exactly when its file name is in the directory listing. |
| Downloads.IssuedFresh | header_extractor/crawler.py:23-28 | When no destination exists, each request issues exactly its own wget command, in order, and waits exactly when it asks to. |
| Downloads.IssuedAllExisting | header_extractor/crawler.py:20-22 | When every destination exists, no command is issued and there is no wait. |
| Downloads.IssuedAppend | header_extractor/crawler.py:43-47 | The commands and waits of consecutive runs of requests are those of each run, one after the other. |
| Downloads.Selected | header_extractor/crawler.py:41-47 | The visited links are a prefix of the links: all of them when `npapers < 0`, otherwise `min(npapers, len(links))` of them, so `npapers = 0` visits none. |
| Downloads.NipsFileNames | header_extractor/crawler.py:55-64 | The NIPS PDF comes from `link + '.pdf'` without a wait and goes to `<outdir>/<base>.pdf`. The BibTeX comes after it, from `link + '/bibtex'` with a wait, to `<outdir>/<base>.bib`. Both use the same `base`, which has no `/` and is what each path names after its last `/`. |
| Downloads.IcmlFileNames | header_extractor/crawler.py:99-103 | The ICML paper is fetched from the link itself, with a wait. It is stored as `<outdir>/<stem>.pdf`, where `stem` is the link's last segment up to its first `.`. Cutting the stored name at its first `.` gives back `stem`. |
| Downloads.RequestsInOutdir | header_extractor/crawler.py:30-33 | Every file a crawler writes, `INDEX` included, is the output directory, one `/`, and a name without `/`. |
| Downloads.PapersRequestsInOrder | header_extractor/crawler.py:43-47 | The requests of a run are those for the links before link `k`, then link `k`'s own, then those for the links after it. |
| Downloads.PapersRequestsCount | header_extractor/crawler.py:43-47 | A run makes 2 requests per link for NIPS, 1 for ICML and 0 for the base crawler. Exactly one request per link waits, except for the base crawler. |
| Downloads.FreshRunCounts | header_extractor/crawler.py:41-47 | In a directory holding none of the run's files, `download_papers` issues that many commands and waits once per visited link. |
| Crawlers.Crawler.constructor | header_extractor/crawler.py:11-15 | Sets `outdir` to the stripped directory and fetches the index page into `<outdir>/INDEX` without a wait, unless that file is listed. Sets `links` to the extracted links, or records the exception the extraction raised. |
| Crawlers.Crawler.Download | header_extractor/crawler.py:17-28 | When `outdoc` is among the `outdir/f` paths, nothing is issued and nothing waits. Otherwise exactly one `wget --output-document=<outdoc> <target>` is appended, and one wait is counted exactly when `doWait`. |
| Crawlers.Crawler.DownloadIndexPage | header_extractor/crawler.py:30-33 | Returns `<outdir>/INDEX` and downloads the index URL there without a wait. |
| Crawlers.Crawler.ExtractIndexLinks | header_extractor/crawler.py:35-36 | The base crawler returns no links. The NIPS and ICML crawlers return their extractor's result. |
| Crawlers.Crawler.DownloadPaper | header_extractor/crawler.py:55-64 | Issues the commands and waits of the venue's requests (`Downloads.NipsFileNames`, `Downloads.IcmlFileNames`), each subject to the skip check. The base crawler (crawler.py:38-39) does nothing. |
| Crawlers.Crawler.DownloadPapers | header_extractor/crawler.py:41-47 | Issues, in link order, the commands and waits of the requests for the links `Downloads.Selected` visits. |
| Crawlers.Crawler.DownloadEach | header_extractor/crawler.py:43-44 | The loop over the visited links downloads each one in order. |
| NipsScript.DownloadPaper | header_extractor/nips_crawler.py:35-51 | Returns the commands the script issues. They are those of the NIPS crawler's two requests, issued with no skip check, in the fixed directory of nips_crawler.py:36. |
| NipsScript.ScriptCommands | header_extractor/nips_crawler.py:42-51 | There are exactly two commands, in the form `wget --output-document=<path> <url>`. The first fetches `link + '.pdf'` into `<dir>/<base>.pdf`, the second `link + '/bibtex'` into `<dir>/<base>.bib`. |
| NipsScript.CrawlerMatchesScript | header_extractor/nips_crawler.py:37-51 | The NIPS crawler, writing to the same directory, issues exactly the script's commands for a paper whose two files are not listed. It issues none when both are listed. |

## Left out

- HTML parsing with BeautifulSoup and reading the index file with `codecs`: the page is
  given as the sequence of divs `find_all('div')` returns. Each div carries what `find`
  and `find_all` return for it. Nested `li` or `a` elements, which `find_all` would report
  twice, are therefore whatever the caller puts in those sequences.
- Running `wget`, listing the directory, sleeping and printing: these are modelled as the
  command log, the fixed `listing` and the wait counter. The length of a wait (`WAIT = 30`,
  commented as milliseconds but passed to `time.sleep` as seconds) and the printed
  messages are not modelled.
- Crawlers.Crawler.Download: the directory listing does not grow as files are downloaded,
  because what `wget` does to the file system is outside the model. Each call checks
  against the same listing.
- Crawlers.Crawler.constructor: when `extract_index_links` raises, Python creates no
  object. Here the object exists, with `raised` holding the exception and no links.
- The Python class hierarchy is one class with a `venue` field (`Generic`, `Nips`,
  `Icml`). The overridden methods dispatch on it.
- header_extractor/pdf_to_xml.py, header_extractor/crawl_nips.py,
  header_extractor/crawl_icml.py, header_extractor/xml_to_metadata.py and setup.py are
  not part of this model. They hold an external-tool call, command-line entry points, a
  stub, and packaging metadata. `WAIT = 20` in crawl_nips.py is never read.
- The `__main__` block of nips_crawler.py: a fixed local script run of the first link.
- Shell quoting: the commands are modelled as strings. `Paths.WgetRoundTrip` states when
  a command reads back unambiguously, but the shell itself is not modelled.
