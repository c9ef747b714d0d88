# CodeHunter core, modelled in Dafny

CodeHunter is a small bug-bounty toolkit made of three programs:

- the Go scanner (`main.go`) loads a file of regular expressions and reads a list of URLs. It fetches each URL with a pool of worker goroutines and prints every URL whose body matches one of the patterns. Only the first matching pattern is reported for each URL.
- the link crawler (`urlextractor.py`) starts from one URL. It collects the same-site links of the page into an output file. Its "deep" mode is meant to follow those links recursively, but as written it never goes past the start page (see below). It never writes the same URL twice and never writes a URL listed in the site's sitemap.
- the match counter (`codehunter.py`) counts, for every URL, how often each expression matches the page. It prints and/or writes one coloured report line per URL.

The model follows the source file by file. It has one Dafny module per concern:

| file | module | what it holds |
|---|---|---|
| `wrappers.dfy` | `Wrappers` | `Option` and `Result` |
| `seqs.dfy` | `Seqs` | `Elems`, `NoDup`, `IndexOf` (first occurrence), and three small lemmas: first occurrence in a prefix, the elements of a cons, and sequences with equal multisets |
| `text.dfy` | `Text` | ASCII `strings.TrimSpace`, prefix/suffix tests, `str.capitalize`, decimal formatting of a count |
| `lines.dfy` | `Lines` | the trim / skip-blank / skip-`#` filter that `main.go` applies to pattern lines and to URL lines |
| `patterns.dfy` | `Patterns` | `loadPatterns`: the three search paths, then the compile-or-warn loop |
| `scan.dfy` | `Scan` | the URL reader, the worker, `processURLs` with its channels, the result-writing loop and `main` |
| `crawl.dfy` | `Crawl` | scheme defaulting, the output file name, the same-site test, and `extract_urls` as a `Crawler` class whose `visited` set and output lines change in place |
| `report.dfy` | `Report` | the per-URL dictionary of `count_matches`, `display_result` and the report file |

Everything the programs get from outside becomes a function-typed parameter:

- the file system: `opens`, `read`
- the regular-expression engines: `compiles`, `findString`, `findall`
- the network: `fetch`, `get`, `links`, `sitemapOf`
- URL parsing: `hostOf` for `urlparse(u).hostname`, `join` for `urljoin`

A compiled Go regexp is represented by its source text, since `pattern.String()` gives that text back. The goroutine scheduler is a parameter too. `dispatch(k)` names the worker that takes the k-th URL, so every proof holds for every distribution. The hits arrive as the workers' outputs one after another. Only their multiset is stated, because the real order depends on scheduling.

Most methods are proved against a specification function: `Loaded`, `Entries`, `Verdict`, `Hits`, `AllHits`, `Harvest`, `Extracted`, `Tally`, `ReportLine` or `ReportFile`. The lemmas beside those functions state what the programs promise. Three methods are not proved that way:

- `WriteResults` states its output line by line.
- `Run` is stated through the predicate `Reports`, which says which lines the scanner writes.
- `RunExtractor` is stated through `Extracted` and `Crashes`, and directly through the output name.

Some behaviours of the source are modelled as written:

- `loadPatterns` probes the file name as given, then `patterns/` + name, then `/usr/share/codehunter/patterns/` + name. When none opens, it fails with "could not find patterns file <name>". A line that does not compile is reported as a warning and is skipped. A file holding only blank and comment lines loads successfully with no patterns.
- With fewer than one worker thread, the worker loop of `processURLs` (main.go:211-214) starts no worker. The reader and closer goroutines (main.go:217, 229) still start. Because no worker was added to the `WaitGroup`, the closer closes the results channel at once, and no result arrives.
- In `extract_urls`, a page whose URL has no host name crashes with a `TypeError` (`'.' + None`). This happens as soon as one of its hrefs passes the `#` and host-name filters. `ExtractUrls` returns `ok == false` exactly in that case (`Crashes`).
- In deep mode, the recursive call of `extract_urls` gets a URL that was added to `visited` just before the call. So the call returns at once, and deep mode never crawls further than the start page. The method's `decreases` clause proves this: the call would not terminate otherwise.
- `str.replace('www.', '')` makes a single left-to-right pass. A name like `wwwww.w.` keeps a `www.` (`StripWwwSinglePass`).
- In `count_matches`, an expression that fails to compile on a page with status 200 raises `re.error`. Nothing catches it, so the run stops there and no report file is written. Pages with any other status, and failed requests, get a table of zeros.
- Python truthiness is modelled explicitly: an empty `-o` argument, an empty host name or an empty output file name counts as absent.

## Model

| member | source | states |
|---|---|---|
| `Text.TrimSpaceSlice` | main.go:186 | the trimmed line is a contiguous run of the raw line, neither end of it is whitespace, and everything before and after it is whitespace |
| `Text.TrimSpaceIdempotent` | main.go:221 | trimming an already trimmed line changes nothing |
| `Text.TrimLeftShape` | main.go:186 | the left trim keeps a suffix that does not start with whitespace and drops only whitespace |
| `Text.TrimRightShape` | main.go:186 | the right trim keeps a prefix that does not end with whitespace and drops only whitespace |
| `Text.TrimSpace` | main.go:186 | the trimmed line is no longer than the raw line, and a non-empty result neither starts nor ends with whitespace |
| `Lines.CommentTest` | main.go:189 | a line is kept exactly when it is non-empty and `strings.HasPrefix(line, "#")` is false |
| `Lines.Entries` | main.go:185-191 | at most one kept line per input line, and every kept line is non-empty and does not start with `#` |
| `Lines.EntriesTrimmed` | main.go:185-191 | every kept line is non-blank, is not a comment, and is already trimmed |
| `Lines.EntriesSound` | main.go:220-224 | every kept line is the trimmed form of some input line |
| `Lines.EntriesComplete` | main.go:220-224 | every input line that survives the filter once trimmed is kept, at a position the lemma returns |
| `Lines.EntriesMembership` | main.go:220-224 | a string is kept iff it is an entry and the trimmed form of some input line (both directions) |
| `Lines.EntriesAppend` | main.go:185-200 | the filter works line by line: the entries of two chunks of input are those of the first followed by those of the second, so order and duplicates are kept |
| `Patterns.FirstOpen` | main.go:170-175 | the chosen path opens and every earlier path does not; None iff no path opens |
| `Patterns.ProbePaths` | main.go:161-176 | the probe loop finds exactly `FirstOpen` of the paths: the first path that opens, or none |
| `Patterns.Loaded` | main.go:159-203 | loading fails iff none of the three search paths opens, and then reports no warnings; every pattern compiles and every warned line does not, and each is a kept (non-blank, non-comment) line |
| `Patterns.Compilable` | main.go:193-199 | every pattern kept compiles and comes from the filtered lines, and there are no more patterns than lines |
| `Patterns.Uncompilable` | main.go:193-197 | every warned line fails to compile and comes from the filtered lines |
| `Patterns.EveryEntryAccountedFor` | main.go:193-199 | each filtered line becomes exactly one pattern or exactly one warning |
| `Patterns.CompilableAppend` | main.go:185-200 | compiling goes line by line: patterns keep file order, and a bad line does not disturb later ones |
| `Patterns.LoadPatterns` | main.go:159-203 | the result equals `Loaded`; failure iff none of the three search paths opens; every pattern is a trimmed, non-comment line that compiles |
| `Patterns.OnlyCommentsLoadsEmpty` | main.go:182-202 | a file of blank and comment lines loads successfully with no patterns and no warnings |
| `Patterns.LoadedCount` | main.go:185-200 | at most one pattern per filtered line, and patterns plus warnings are exactly the filtered lines |
| `Scan.ReadURLs` | main.go:217-226 | the URLs sent to the workers are the filtered input lines in input order, each one trimmed, non-blank and not a comment |
| `Scan.FirstHit` | main.go:270-279 | the index found is the first pattern with a non-empty `FindString`; None iff no pattern matches |
| `Scan.Verdict` | main.go:249-279 | a URL has a hit iff its fetch succeeds and some pattern matches; the hit carries that URL, a loaded pattern and its non-empty `FindString` on the body |
| `Scan.ScanURL` | main.go:249-279 | one URL's result equals `Verdict`: nothing when the fetch fails or nothing matches, otherwise the first matching pattern with its non-empty match |
| `Scan.Hits` | main.go:244-280 | no more hits than URLs, and every hit is for one of the URLs and has a non-empty match |
| `Scan.HitsComplete` | main.go:244-280 | every URL that a pattern matches gets its hit: no matching URL is dropped |
| `Scan.HitsBound` | main.go:244-281 | at most one hit per URL, only for URLs received, and each hit is the verdict on its URL with a non-empty match |
| `Scan.HitsAppend` | main.go:244-280 | a worker handles its URLs one at a time: the hits of two batches are the hits of each, concatenated |
| `Scan.Worker` | main.go:237-281 | a worker's output equals `Hits` of the URLs it received, in the order received |
| `Scan.AllHitsDeliver` | main.go:211-224 | handing one more URL to any worker adds exactly that URL's hit to the multiset of all hits |
| `Scan.Distribute` | main.go:211-224 | whatever worker takes each URL, the multiset of all workers' hits equals the hits of the URLs in reading order |
| `Scan.Collect` | main.go:228-234 | the drained results channel holds every worker's hits |
| `Scan.ProcessURLs` | main.go:205-235 | with fewer than one thread there are no results; otherwise the multiset of results equals the hits of the filtered input, however the URLs are scheduled |
| `Scan.WriteResults` | main.go:143-151 | one output line per result holding its URL and a newline, and `foundCount` equals the number of results |
| `Scan.OutputLines` | main.go:140-151 | the lines written for the results of `processURLs` satisfy `Reports`: none with fewer than one thread; otherwise the lines are the URLs of the hits taken in some order, one line per hit (a URL listed twice is written twice), every matched URL has a line, and `foundCount` equals the number of hits |
| `Scan.Run` | main.go:86-157 | an empty `-r` and a missing patterns file exit with their messages, and exit happens iff one of those holds; otherwise the output satisfies `Reports`: at most one line per input URL and `foundCount` lines, none with fewer than one thread, and with at least one thread the URLs of the hits in some order, one line per hit, so exactly the URLs that some loaded pattern matches, each as often as it is listed |
| `Crawl.WithScheme` | urlextractor.py:25-27 | the result starts with `http://` or `https://` and ends with the argument; it equals the argument iff the argument already had one of those schemes |
| `Crawl.WithSchemeIdempotent` | urlextractor.py:25-27 | defaulting the scheme twice is defaulting it once |
| `Crawl.WithSchemeCaseSensitive` | urlextractor.py:26-27 | the scheme test is case-sensitive: `HTTP://example.com` gets `http://` in front |
| `Crawl.StripWwwUnchanged` | urlextractor.py:42 | the host name is left unchanged iff it contains no `www.` |
| `Crawl.StripWwwSinglePass` | urlextractor.py:42 | the removal is one pass: `wwwww.w.` becomes `www.` |
| `Crawl.StripWww` | urlextractor.py:42 | removing `www.` never lengthens the name, and every character left occurs in the name |
| `Crawl.OutputName` | urlextractor.py:38-42 | a non-empty `-o` wins; otherwise the non-empty host name without `www.` (unchanged iff it holds none, never longer); otherwise `output.txt` |
| `Crawl.InScope` | urlextractor.py:120 | a host in scope that is not the page host is longer than it and has a dot just before the page host |
| `Crawl.InScopeDotBoundary` | urlextractor.py:120 | a host is in scope iff it is the page host or ends with `.` followed by the page host (both directions) |
| `Crawl.EvilExampleNotInScope` | urlextractor.py:120 | `evilexample.com` is not in scope of `example.com`; `api.example.com` is |
| `Crawl.Harvest` | urlextractor.py:109-126 | the URLs written for a page hold no duplicate, and none of them was visited before or is in the sitemap |
| `Crawl.HarvestSource` | urlextractor.py:109-120 | every URL written comes from an href of the page that has no `#`, has a host name in scope, and resolves to that URL |
| `Crawl.HarvestComplete` | urlextractor.py:109-126 | every href of the page that has no `#` and an in-scope host resolves to a URL that was already visited, is in the sitemap, or is written |
| `Crawl.Extracted` | urlextractor.py:95-126 | the URLs extracted from one page were not visited before and are not sitemap URLs |
| `Crawl.Crashes` | urlextractor.py:116-120 | a page crashes only when its links were fetched and include at least one href, and a crashing page writes nothing |
| `Crawl.AcceptStep` | urlextractor.py:124-126 | writing an accepted URL and adding it to `visited` keeps the crawl state consistent and moves it from the still-to-harvest list to the written lines |
| `Crawl.Crawler.constructor` | urlextractor.py:44-45 | the crawl starts with an empty `visited` set and nothing written |
| `Crawl.Crawler.ExtractUrls` | urlextractor.py:95-129 | a visited URL changes nothing; otherwise the URL is marked visited, the URLs `Extracted` from the page are appended and marked visited, and `ok` is false iff `Crashes` holds for the page; no URL is ever written twice or written from the sitemap |
| `Crawl.RunExtractor` | urlextractor.py:25-57 | no output name is chosen iff the start page cannot be fetched, and then nothing is written; the name is `OutputName`; otherwise what is written is `Extracted` from the start page with only the start URL visited, and the run crashes iff `Crashes` holds for the start page; nothing is written twice, and neither the start URL nor a sitemap URL is written |
| `Text.Capitalize` | codehunter.py:37 | same length, first character upper-cased, the rest lower-cased |
| `Text.CapitalizeIdempotent` | codehunter.py:47 | capitalizing twice is capitalizing once |
| `Text.NatToString` | codehunter.py:39 | a count prints as decimal digits with no leading zero, and as `0` only for zero |
| `Text.NatToStringRoundTrip` | codehunter.py:49 | reading the printed count back gives the count |
| `Text.NatToStringInjective` | codehunter.py:49 | different counts print differently |
| `Report.Dedup` | codehunter.py:16 | the dictionary keys hold no duplicate and hold exactly the expressions |
| `Report.DedupFirstOccurrence` | codehunter.py:16 | the keys are in order of first occurrence in the expression list |
| `Report.ZeroTable` | codehunter.py:16 | the initial table has the deduplicated keys, each with count 0 |
| `Report.Update` | codehunter.py:23 | assigning `matches[expr]` changes that entry's count only and keeps the keys and their order |
| `Report.TallyMeaning` | codehunter.py:16-25 | a URL's table has the deduplicated keys; its counts are zero unless the status is 200; on a 200 page each count is that expression's number of matches, and there is no table iff some expression fails to compile |
| `Report.Tally` | codehunter.py:16-25 | a URL gets no table iff its page has status 200 and some expression fails to compile; a table has one entry per distinct expression |
| `Report.CountURL` | codehunter.py:16-25 | the loop for one URL yields `Tally`: None exactly when `re.compile` raises |
| `Report.SegmentColour` | codehunter.py:38-41 | a segment opens with `-- [` in green when the count is positive and in red otherwise, and closes with the colour reset and `] ` |
| `Report.Segment` | codehunter.py:38-41 | the colour code of a segment is 92 (green) exactly when the count is positive and 91 (red) otherwise |
| `Report.SegmentDeterminesCount` | codehunter.py:36-41 | two segments for the same expression are equal only when the counts are equal |
| `Report.ReportLineShape` | codehunter.py:44-52 | a report line starts with the URL and a space, and ends with a newline |
| `Report.ReportLine` | codehunter.py:44-52 | a report line begins with the URL followed by a space and ends with a newline |
| `Report.Segments` | codehunter.py:36-41 | each entry of the table contributes a segment of at least eight characters |
| `Report.ReportFile` | codehunter.py:33-42 | the report file is empty iff there are no results, and otherwise ends with a newline |
| `Report.DisplayResult` | codehunter.py:44-52 | the printed line equals `ReportLine` of the URL and its table |
| `Report.WriteReport` | codehunter.py:32-42 | the file contents equal `ReportFile`, one `ReportLine` per result in result order |
| `Report.CountMatches` | codehunter.py:12-42 | one result per URL in URL order, each with the URL's `Tally`; the run stops iff some URL's tally crashes; in verbose mode the printed lines are the report lines of the results; a file is written iff there was no crash and a non-empty name was given, and it holds `ReportFile` of the results |

## Left out

- `codehunter.go` is not part of this model.
- HTTP, HTML parsing (BeautifulSoup), `urlparse`, `urljoin` and both regular-expression engines are parameters. Their own behaviour is not modelled.
- Each oracle is a function, so a URL fetched twice is assumed to return the same page both times.
- Goroutines, the `sync.WaitGroup` and channel buffering are replaced by the `dispatch` parameter. The workers' outputs are concatenated, so the order of results is only stated as a multiset.
- `Scan.ProcessURLs` does not model the order in which results arrive, because that order depends on the scheduler.
- `bufio.Scanner` errors, including its 64 KiB line limit, are not modelled. This covers `scanner.Err()` at main.go:202 and the URL reader.
- Errors opening the URLs file and creating the output file are not modelled (main.go:112-116, 127-131). The output is returned as a sequence of lines.
- Command-line parsing and banners are not modelled, apart from the required-`-r` check. This covers flags, the banner, the verbose messages of the Go scanner (loaded, reading, found, scanning, fetch errors), the tqdm progress bar and the loading animation.
- The verbose `print(full_url)` of `extract_urls` and the "Failed to access URL" message of `count_matches` are not modelled.
- Crawl.Crawler.ExtractUrls: a failure of `open(output_file_name, 'a')` (urlextractor.py:108) is not modelled. This includes the empty name that `OutputName` gives for a host that is exactly `www.`, where `open('')` raises. The model writes the lines as if the file opened.
- Report.CountMatches: a failure of `open(output_file, 'w')` (codehunter.py:33) is not modelled. The model returns the file contents as if the file opened.
- Append mode of the crawler's output file is not modelled: the model returns the lines appended by this run.
- `check_sitemap` and `extract_urls_from_sitemap` become the single `sitemapOf` parameter. A sitemap that cannot be fetched gives an empty list.
- The file reading in `main` of `codehunter.py` (`splitlines`, "not found" messages) is not modelled. `CountMatches` receives the URL and expression lists.
- Strings are sequences of characters. `TrimSpace` removes ASCII whitespace only, and `Capitalize` changes ASCII letters only. Unicode whitespace and Unicode case mapping are not modelled.
