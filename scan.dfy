/** URL scanning of the Go scanner (main.go): the URL reader, the workers,
    the worker pool of processURLs and the result-writing loop of main.

    HTTP is a parameter: `fetch(url)` is the body text when client.Get and
    io.ReadAll both succeed and None when either fails. `findString(p, c)` is
    the leftmost match of pattern `p` in `c`, "" when there is none or when
    the leftmost match is empty. The goroutines and channels are modelled by
    their sequential meaning: `dispatch(k)` names the worker that receives
    the k-th URL, and the order in which results reach main is not
    modelled, only their multiset. */
module Scan {
  import opened Wrappers
  import opened Text
  import opened Lines
  import opened Patterns
  import opened Seqs

  /** One line of scanner output: a URL, the first pattern that matched its
      body, and the text that matched. */
  datatype Hit = Hit(url: string, pattern: string, matched: string)

  /** The index of the first pattern, in load order, whose FindString on
      `content` is non-empty. */
  function FirstHit(patterns: seq<string>, content: string, findString: (string, string) -> string)
    : (r: Option<nat>)
    ensures r.Some? ==> r.value < |patterns| && findString(patterns[r.value], content) != ""
                        && forall j :: 0 <= j < r.value ==> findString(patterns[j], content) == ""
    ensures r.None? ==> forall j :: 0 <= j < |patterns| ==> findString(patterns[j], content) == ""
  {
    if patterns == [] then None
    else if findString(patterns[0], content) != "" then Some(0)
    else match FirstHit(patterns[1..], content, findString)
      case None => None
      case Some(i) => Some(i + 1)
  }

  /** What a worker reports for one URL: nothing when the fetch fails or no
      pattern matches, otherwise the hit of the first matching pattern. */
  function Verdict(url: string, patterns: seq<string>, fetch: string -> Option<string>,
                   findString: (string, string) -> string): (r: Option<Hit>)
    ensures r.Some? <==> fetch(url).Some? && FirstHit(patterns, fetch(url).value, findString).Some?
    ensures r.Some? ==> && r.value.url == url && r.value.pattern in patterns && r.value.matched != ""
                        && r.value.matched == findString(r.value.pattern, fetch(url).value)
  {
    match fetch(url)
    case None => None
    case Some(content) =>
      match FirstHit(patterns, content, findString)
      case None => None
      case Some(i) => Some(Hit(url, patterns[i], findString(patterns[i], content)))
  }

  /** The reader goroutine of processURLs: the trimmed, non-blank,
      non-comment lines of the input, in input order, duplicates kept. */
  method ReadURLs(input: seq<string>) returns (urls: seq<string>)
    ensures urls == Entries(input)
    ensures forall k :: 0 <= k < |urls| ==> IsEntry(urls[k]) && TrimSpace(urls[k]) == urls[k]
  {
    urls := [];
    var i := 0;
    while i < |input|
      invariant 0 <= i <= |input|
      invariant urls == Entries(input[..i])
    {
      EntriesStep(input, i);
      var url := TrimSpace(input[i]);
      CommentTest(url);
      if url != "" && !StartsWith(url, "#") {
        urls := urls + [url];
      }
      i := i + 1;
    }
    assert input[..i] == input;
    EntriesTrimmed(input);
  }

  /** The body of the worker loop for one URL: fetch it, then try the
      patterns in load order and stop at the first whose FindString is
      non-empty. */
  method ScanURL(url: string, patterns: seq<string>, fetch: string -> Option<string>,
                 findString: (string, string) -> string)
    returns (hit: Option<Hit>)
    ensures hit == Verdict(url, patterns, fetch, findString)
    ensures hit.Some? ==>
              && fetch(url).Some? && hit.value.url == url && hit.value.matched != ""
              && (exists i :: && 0 <= i < |patterns| && patterns[i] == hit.value.pattern
                              && findString(patterns[i], fetch(url).value) == hit.value.matched
                              && forall j :: 0 <= j < i ==> findString(patterns[j], fetch(url).value) == "")
    ensures hit.None? <==>
              || fetch(url).None?
              || forall j :: 0 <= j < |patterns| ==> findString(patterns[j], fetch(url).value) == ""
  {
    hit := None;
    var body := fetch(url);
    if body.None? {
      return;
    }
    var content := body.value;
    var i := 0;
    while i < |patterns|
      invariant 0 <= i <= |patterns|
      invariant forall j :: 0 <= j < i ==> findString(patterns[j], content) == ""
    {
      var found := findString(patterns[i], content);
      if found != "" {
        hit := Some(Hit(url, patterns[i], found));
        break;
      }
      i := i + 1;
    }
    assert hit.Some? ==> FirstHit(patterns, content, findString) == Some(i);
  }

  /** The hits of a sequence of URLs, one at most per URL, in URL order. */
  function Hits(urls: seq<string>, patterns: seq<string>, fetch: string -> Option<string>,
                findString: (string, string) -> string): (r: seq<Hit>)
    ensures |r| <= |urls|
    ensures forall k :: 0 <= k < |r| ==> r[k].url in urls && r[k].matched != ""
  {
    if urls == [] then []
    else
      var init := Hits(urls[..|urls| - 1], patterns, fetch, findString);
      match Verdict(urls[|urls| - 1], patterns, fetch, findString)
      case None => init
      case Some(h) => init + [h]
  }

  /** Every URL a pattern matches gets its hit. */
  lemma {:induction false} HitsComplete(urls: seq<string>, patterns: seq<string>, fetch: string -> Option<string>,
                                        findString: (string, string) -> string, u: string)
    requires u in urls && Verdict(u, patterns, fetch, findString).Some?
    ensures Verdict(u, patterns, fetch, findString).value in Hits(urls, patterns, fetch, findString)
  {
    var init := urls[..|urls| - 1];
    if urls[|urls| - 1] != u {
      assert u in init by {
        var i :| 0 <= i < |urls| && urls[i] == u;
        assert init[i] == u;
      }
      HitsComplete(init, patterns, fetch, findString, u);
    }
  }

  /** A worker reports at most one hit per URL it receives, only for URLs
      it received, and each hit is the verdict on its URL: a non-empty match
      of the first matching pattern. */
  lemma {:induction false} HitsBound(urls: seq<string>, patterns: seq<string>,
                                     fetch: string -> Option<string>, findString: (string, string) -> string)
    ensures var r := Hits(urls, patterns, fetch, findString);
      && |r| <= |urls|
      && forall k :: 0 <= k < |r| ==>
           && r[k].url in urls && r[k].matched != ""
           && Verdict(r[k].url, patterns, fetch, findString) == Some(r[k])
  {
    if urls != [] {
      var init := urls[..|urls| - 1];
      HitsBound(init, patterns, fetch, findString);
      var r := Hits(urls, patterns, fetch, findString);
      forall k | 0 <= k < |r| ensures r[k].url in urls {
        if k < |Hits(init, patterns, fetch, findString)| {
          assert r[k].url in init;
        }
      }
    }
  }

  lemma {:induction false} HitsAppend(a: seq<string>, b: seq<string>, patterns: seq<string>,
                                      fetch: string -> Option<string>, findString: (string, string) -> string)
    ensures Hits(a + b, patterns, fetch, findString)
            == Hits(a, patterns, fetch, findString) + Hits(b, patterns, fetch, findString)
    decreases |b|
  {
    if b == [] {
      assert a + b == a;
    } else {
      var b' := b[..|b| - 1];
      assert (a + b)[..|a + b| - 1] == a + b';
      HitsAppend(a, b', patterns, fetch, findString);
    }
  }

  /** worker: scan every URL it receives, in the order received. */
  method Worker(urls: seq<string>, patterns: seq<string>, fetch: string -> Option<string>,
                findString: (string, string) -> string)
    returns (out: seq<Hit>)
    ensures out == Hits(urls, patterns, fetch, findString)
  {
    out := [];
    var i := 0;
    while i < |urls|
      invariant 0 <= i <= |urls|
      invariant out == Hits(urls[..i], patterns, fetch, findString)
    {
      assert urls[..i + 1][..i] == urls[..i];
      var hit := ScanURL(urls[i], patterns, fetch, findString);
      if hit.Some? {
        out := out + [hit.value];
      }
      i := i + 1;
    }
    assert urls[..i] == urls;
  }

  /** The hits of all workers, worker by worker. */
  function AllHits(inboxes: seq<seq<string>>, patterns: seq<string>, fetch: string -> Option<string>,
                   findString: (string, string) -> string): seq<Hit>
  {
    if inboxes == [] then []
    else AllHits(inboxes[..|inboxes| - 1], patterns, fetch, findString)
         + Hits(inboxes[|inboxes| - 1], patterns, fetch, findString)
  }

  /** Handing one more URL to any worker adds exactly that URL's hit to the
      multiset of all hits, whichever worker takes it. */
  lemma {:induction false} AllHitsDeliver(inboxes: seq<seq<string>>, w: nat, url: string, patterns: seq<string>,
                                          fetch: string -> Option<string>, findString: (string, string) -> string)
    requires w < |inboxes|
    ensures multiset(AllHits(inboxes[w := inboxes[w] + [url]], patterns, fetch, findString))
            == multiset(AllHits(inboxes, patterns, fetch, findString)) + multiset(Hits([url], patterns, fetch, findString))
  {
    var n := |inboxes| - 1;
    var updated := inboxes[w := inboxes[w] + [url]];
    assert AllHits(updated, patterns, fetch, findString)
           == AllHits(updated[..n], patterns, fetch, findString) + Hits(updated[n], patterns, fetch, findString);
    assert AllHits(inboxes, patterns, fetch, findString)
           == AllHits(inboxes[..n], patterns, fetch, findString) + Hits(inboxes[n], patterns, fetch, findString);
    if w < n {
      assert updated[..n] == inboxes[..n][w := inboxes[w] + [url]];
      assert updated[n] == inboxes[n];
      AllHitsDeliver(inboxes[..n], w, url, patterns, fetch, findString);
    } else {
      assert updated[..n] == inboxes[..n];
      HitsAppend(inboxes[w], [url], patterns, fetch, findString);
    }
  }

  /** processURLs followed by the draining of the results channel. With
      fewer than one thread nothing is started and no result arrives. With
      N >= 1 threads each URL goes to exactly one worker, and whatever the
      distribution, the results are, as a multiset, the hits of the URLs in
      reading order. */
  method ProcessURLs(input: seq<string>, patterns: seq<string>, threads: int, dispatch: nat -> nat,
                     fetch: string -> Option<string>, findString: (string, string) -> string)
    returns (results: seq<Hit>)
    ensures threads < 1 ==> results == []
    ensures threads >= 1 ==> multiset(results) == multiset(Hits(Entries(input), patterns, fetch, findString))
  {
    if threads < 1 {
      return [];
    }
    var urls := ReadURLs(input);
    var inboxes := Distribute(urls, threads, dispatch, patterns, fetch, findString);
    results := Collect(inboxes, patterns, fetch, findString);
  }

  /** The URL channel: each URL, in reading order, goes to exactly one of the
      `threads` workers, the one `dispatch` names. */
  method Distribute(urls: seq<string>, threads: nat, dispatch: nat -> nat, ghost patterns: seq<string>,
                    ghost fetch: string -> Option<string>, ghost findString: (string, string) -> string)
    returns (inboxes: seq<seq<string>>)
    requires threads >= 1
    ensures |inboxes| == threads
    ensures multiset(AllHits(inboxes, patterns, fetch, findString))
            == multiset(Hits(urls, patterns, fetch, findString))
  {
    inboxes := seq(threads, _ => []);
    EmptyInboxes(inboxes, patterns, fetch, findString);
    var k := 0;
    while k < |urls|
      invariant 0 <= k <= |urls|
      invariant |inboxes| == threads
      invariant multiset(AllHits(inboxes, patterns, fetch, findString))
                == multiset(Hits(urls[..k], patterns, fetch, findString))
    {
      var w := dispatch(k) % threads;
      DeliverStep(inboxes, w, urls, k, patterns, fetch, findString);
      inboxes := inboxes[w := inboxes[w] + [urls[k]]];
      k := k + 1;
    }
    assert urls[..k] == urls;
  }

  /** The results channel drained by main: every worker's hits. */
  method Collect(inboxes: seq<seq<string>>, patterns: seq<string>, fetch: string -> Option<string>,
                 findString: (string, string) -> string)
    returns (results: seq<Hit>)
    ensures results == AllHits(inboxes, patterns, fetch, findString)
  {
    results := [];
    var w := 0;
    while w < |inboxes|
      invariant 0 <= w <= |inboxes|
      invariant results == AllHits(inboxes[..w], patterns, fetch, findString)
    {
      assert inboxes[..w + 1][..w] == inboxes[..w];
      var out := Worker(inboxes[w], patterns, fetch, findString);
      results := results + out;
      w := w + 1;
    }
    assert inboxes[..w] == inboxes;
  }

  lemma DeliverStep(inboxes: seq<seq<string>>, w: nat, urls: seq<string>, k: nat, patterns: seq<string>,
                    fetch: string -> Option<string>, findString: (string, string) -> string)
    requires w < |inboxes| && k < |urls|
    requires multiset(AllHits(inboxes, patterns, fetch, findString))
             == multiset(Hits(urls[..k], patterns, fetch, findString))
    ensures multiset(AllHits(inboxes[w := inboxes[w] + [urls[k]]], patterns, fetch, findString))
            == multiset(Hits(urls[..k + 1], patterns, fetch, findString))
  {
    assert urls[..k + 1] == urls[..k] + [urls[k]];
    AllHitsDeliver(inboxes, w, urls[k], patterns, fetch, findString);
    HitsAppend(urls[..k], [urls[k]], patterns, fetch, findString);
  }

  lemma {:induction false} EmptyInboxes(inboxes: seq<seq<string>>, patterns: seq<string>,
                                        fetch: string -> Option<string>, findString: (string, string) -> string)
    requires forall i :: 0 <= i < |inboxes| ==> inboxes[i] == []
    ensures AllHits(inboxes, patterns, fetch, findString) == []
  {
    if inboxes != [] {
      EmptyInboxes(inboxes[..|inboxes| - 1], patterns, fetch, findString);
    }
  }

  /** The result-writing loop of main: one output line per result, holding
      the result's URL, and foundCount counts the results. */
  method WriteResults(results: seq<Hit>) returns (output: seq<string>, foundCount: nat)
    ensures foundCount == |results| == |output|
    ensures forall k :: 0 <= k < |output| ==> output[k] == results[k].url + "\n"
  {
    output := [];
    foundCount := 0;
    var i := 0;
    while i < |results|
      invariant 0 <= i <= |results|
      invariant foundCount == i == |output|
      invariant forall k :: 0 <= k < i ==> output[k] == results[k].url + "\n"
    {
      output := output + [results[i].url + "\n"];
      foundCount := foundCount + 1;
      i := i + 1;
    }
  }

  /** How a scan run ends: the exit status 1 with its message, or the lines
      written to the output and the number of URLs found. */
  datatype Outcome = Exit(message: string) | Done(output: seq<string>, foundCount: nat)

  /** main, from loading the patterns to writing the results. A missing `-r`
      or a pattern file that cannot be found stops the run before any URL is
      read; the exit message is the text main prints after its error prefix.
      Otherwise the output is what `Reports` describes: one line per hit of
      the candidate URLs, and `foundCount` lines. */
  method Run(patternsFile: string, opens: string -> bool, read: string -> seq<string>,
             compiles: string -> bool, input: seq<string>, threads: int, dispatch: nat -> nat,
             fetch: string -> Option<string>, findString: (string, string) -> string)
    returns (outcome: Outcome)
    ensures patternsFile == "" ==> outcome == Exit("Patterns file (-r) is required")
    ensures patternsFile != "" && Loaded(patternsFile, opens, read, compiles).0.Failure? ==>
              outcome == Exit("could not find patterns file " + patternsFile)
    ensures outcome.Exit? <==> patternsFile == "" || Loaded(patternsFile, opens, read, compiles).0.Failure?
    ensures outcome.Done? ==>
              Reports(outcome.output, outcome.foundCount, Entries(input),
                      Loaded(patternsFile, opens, read, compiles).0.value, threads, fetch, findString)
  {
    if patternsFile == "" {
      return Exit("Patterns file (-r) is required");
    }
    var patterns, warnings := LoadPatterns(patternsFile, opens, read, compiles);
    if patterns.Failure? {
      return Exit(patterns.error);
    }
    var results := ProcessURLs(input, patterns.value, threads, dispatch, fetch, findString);
    var output, foundCount := WriteResults(results);
    var urls := Entries(input);
    OutputLines(urls, patterns.value, threads, fetch, findString, results, output, foundCount);
    outcome := Done(output, foundCount);
  }

  /** What main writes for the URLs `urls`: one line per hit, so as many
      lines as URLs at most and `foundCount` of them; none when fewer than
      one thread is asked for; otherwise every line a URL some pattern
      matches, every URL some pattern matches a line, and the lines are those
      of the hits taken in some order, so a URL listed twice is written
      twice. */
  ghost predicate Reports(output: seq<string>, foundCount: int, urls: seq<string>, patterns: seq<string>,
                          threads: int, fetch: string -> Option<string>, findString: (string, string) -> string)
  {
    && foundCount == |output| <= |urls|
    && (threads < 1 ==> output == [])
    && (threads >= 1 ==>
          && foundCount == |Hits(urls, patterns, fetch, findString)|
          && (forall u :: u in urls && Verdict(u, patterns, fetch, findString).Some? ==> u + "\n" in output)
          && exists rs: seq<Hit> ::
               && multiset(rs) == multiset(Hits(urls, patterns, fetch, findString)) && |rs| == |output|
               && forall k :: 0 <= k < |output| ==> output[k] == rs[k].url + "\n")
    && forall k :: 0 <= k < |output| ==>
         exists u :: u in urls && output[k] == u + "\n" && Verdict(u, patterns, fetch, findString).Some?
  }

  /** The lines WriteResults makes of the results of processURLs are what
      main is meant to report. */
  lemma OutputLines(urls: seq<string>, patterns: seq<string>, threads: int, fetch: string -> Option<string>,
                    findString: (string, string) -> string, results: seq<Hit>, output: seq<string>,
                    foundCount: nat)
    requires threads < 1 ==> results == []
    requires threads >= 1 ==> multiset(results) == multiset(Hits(urls, patterns, fetch, findString))
    requires foundCount == |results| == |output|
    requires forall k :: 0 <= k < |output| ==> output[k] == results[k].url + "\n"
    ensures Reports(output, foundCount, urls, patterns, threads, fetch, findString)
  {
    if threads >= 1 {
      var hits := Hits(urls, patterns, fetch, findString);
      SameMultiset(results, hits);
      HitsBound(urls, patterns, fetch, findString);
      forall k | 0 <= k < |output|
        ensures exists u :: u in urls && output[k] == u + "\n" && Verdict(u, patterns, fetch, findString).Some?
      {
        var j := IndexOf(hits, results[k]);
        var u := hits[j].url;
        assert u in urls && output[k] == u + "\n" && Verdict(u, patterns, fetch, findString).Some?;
      }
      forall u | u in urls && Verdict(u, patterns, fetch, findString).Some?
        ensures u + "\n" in output
      {
        var h := Verdict(u, patterns, fetch, findString).value;
        HitsComplete(urls, patterns, fetch, findString, u);
        assert h in multiset(results);
        var k := IndexOf(results, h);
        assert output[k] == u + "\n";
      }
      assert multiset(results) == multiset(hits) && |results| == |output|
             && forall k :: 0 <= k < |output| ==> output[k] == results[k].url + "\n";
    }
  }
}
