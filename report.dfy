/** The match counter codehunter.py: count_matches builds, for every URL, a
    table of how often each expression matches the page, and display_result
    and the file writer render a table as one report line.

    The network and the regular-expression engine are parameters: `get(u)`
    is the reply to requests.get(u), RequestError when it raises
    RequestException; `compiles(e)` says whether re.compile(e) succeeds; and
    `findall(e, text)` is len(re.compile(e).findall(text)). */
module Report {
  import opened Wrappers
  import opened Text
  import opened Seqs

  const Green := "\U{1B}[92m"
  const Red := "\U{1B}[91m"
  const End := "\U{1B}[0m"

  datatype Reply = Reply(status: int, text: string) | RequestError

  /** One entry of the per-URL dictionary. */
  datatype Count = Count(expr: string, count: nat)

  /** The per-URL dictionary, entries in insertion order. */
  type Table = seq<Count>

  /** The keys of a table, in insertion order. */
  function Keys(t: Table): (r: seq<string>)
    ensures |r| == |t| && forall j :: 0 <= j < |t| ==> r[j] == t[j].expr
  {
    seq(|t|, j requires 0 <= j < |t| => t[j].expr)
  }

  /** The distinct expressions, each at the position of its first
      occurrence: the key order of `{expr: 0 for expr in expressions}`. */
  function Dedup(exprs: seq<string>): (r: seq<string>)
    ensures NoDup(r)
    ensures forall x :: x in r <==> x in exprs
    ensures forall i :: 0 <= i < |r| ==> r[i] in exprs
  {
    if exprs == [] then []
    else
      var init := exprs[..|exprs| - 1];
      var last := exprs[|exprs| - 1];
      var d := Dedup(init);
      if last in d then d else d + [last]
  }

  /** Dedup keeps first-occurrence order: of two distinct expressions, the
      one that occurs first in `exprs` comes first. */
  lemma {:induction false} DedupFirstOccurrence(exprs: seq<string>)
    ensures forall i, j :: 0 <= i < j < |Dedup(exprs)| ==>
              IndexOf(exprs, Dedup(exprs)[i]) < IndexOf(exprs, Dedup(exprs)[j])
  {
    if exprs != [] {
      var init := exprs[..|exprs| - 1];
      DedupFirstOccurrence(init);
      DedupOrder(exprs, Dedup(init));
    }
  }

  /** The step behind Dedup's order: first occurrences in a prefix are first
      occurrences in the whole, and a new expression comes after them. */
  lemma DedupOrder(exprs: seq<string>, d: seq<string>)
    requires exprs != []
    requires forall x :: x in d <==> x in exprs[..|exprs| - 1]
    requires forall i :: 0 <= i < |d| ==> d[i] in exprs[..|exprs| - 1]
    requires forall i, j :: 0 <= i < j < |d| ==> IndexOf(exprs[..|exprs| - 1], d[i]) < IndexOf(exprs[..|exprs| - 1], d[j])
    ensures forall i :: 0 <= i < |d| ==> d[i] in exprs
    ensures forall i, j :: 0 <= i < j < |d| ==> IndexOf(exprs, d[i]) < IndexOf(exprs, d[j])
    ensures var last := exprs[|exprs| - 1];
      last !in d ==> forall i :: 0 <= i < |d| ==> IndexOf(exprs, d[i]) < IndexOf(exprs, last)
  {
    var n := |exprs| - 1;
    forall i | 0 <= i < |d| ensures d[i] in exprs && IndexOf(exprs, d[i]) == IndexOf(exprs[..n], d[i]) < n {
      IndexOfPrefix(exprs, n, d[i]);
    }
    var last := exprs[n];
    if last !in d {
      LastIsNew(exprs, d);
    }
  }

  /** An expression that is not among the first occurrences of the prefix
      occurs first at the end. */
  lemma LastIsNew(exprs: seq<string>, d: seq<string>)
    requires exprs != []
    requires forall x :: x in exprs[..|exprs| - 1] ==> x in d
    requires exprs[|exprs| - 1] !in d
    ensures IndexOf(exprs, exprs[|exprs| - 1]) == |exprs| - 1
  {
    var n := |exprs| - 1;
    forall j | 0 <= j < n ensures exprs[j] != exprs[n] {
      assert exprs[j] == exprs[..n][j];
    }
  }

  /** The table every URL starts with: each distinct expression, in order of
      first occurrence, with count 0. */
  function ZeroTable(exprs: seq<string>): (t: Table)
    ensures Keys(t) == Dedup(exprs)
    ensures forall j :: 0 <= j < |t| ==> t[j].count == 0
  {
    var d := Dedup(exprs);
    seq(|d|, j requires 0 <= j < |d| => Count(d[j], 0))
  }

  /** `matches[expr] = n`: the entry for `expr` gets count `n`, every other
      entry and the order stay as they are. */
  function Update(t: Table, expr: string, n: nat): (r: Table)
    ensures Keys(r) == Keys(t)
    ensures forall j :: 0 <= j < |t| ==> r[j].count == if t[j].expr == expr then n else t[j].count
  {
    seq(|t|, j requires 0 <= j < |t| => if t[j].expr == expr then Count(expr, n) else t[j])
  }

  /** Every expression compiles. */
  predicate AllCompile(exprs: seq<string>, compiles: string -> bool)
  {
    forall k :: 0 <= k < |exprs| ==> compiles(exprs[k])
  }

  /** The table count_matches records for one URL, or None when re.compile
      raises: zero counts unless the reply has status 200, and then the
      number of matches of each expression in the page text. */
  function Tally(u: string, exprs: seq<string>, get: string -> Reply, compiles: string -> bool,
                 findall: (string, string) -> nat): (r: Option<Table>)
    ensures r.None? <==> get(u).Reply? && get(u).status == 200 && !AllCompile(exprs, compiles)
    ensures r.Some? ==> |r.value| == |Dedup(exprs)|
  {
    match get(u)
    case RequestError => Some(ZeroTable(exprs))
    case Reply(status, text) =>
      if status != 200 then Some(ZeroTable(exprs))
      else if AllCompile(exprs, compiles) then
        var d := Dedup(exprs);
        Some(seq(|d|, j requires 0 <= j < |d| => Count(d[j], findall(d[j], text))))
      else None
  }

  /** What the table of one URL holds: each distinct expression once, in
      order of first occurrence; zero counts unless the status is 200; on a
      200 page the number of matches of each expression, or nothing at all
      when an expression fails to compile. */
  lemma TallyMeaning(u: string, exprs: seq<string>, get: string -> Reply, compiles: string -> bool,
                     findall: (string, string) -> nat)
    ensures var t := Tally(u, exprs, get, compiles, findall);
      && (t.Some? ==> Keys(t.value) == Dedup(exprs))
      && (!(get(u).Reply? && get(u).status == 200) ==>
            t.Some? && forall j :: 0 <= j < |t.value| ==> t.value[j].count == 0)
      && (get(u).Reply? && get(u).status == 200 ==>
            (t.None? <==> !AllCompile(exprs, compiles))
            && (t.Some? ==> forall j :: 0 <= j < |t.value| ==>
                  t.value[j].count == findall(t.value[j].expr, get(u).text)))
  {
  }

  /** The body of the loop of count_matches for one URL. The dictionary holds
      each distinct expression once, in order of first occurrence; the
      counts stay 0 unless the status is 200, and then each is the number of
      matches of its expression. None when an expression fails to compile on
      a 200 page (re.error is not caught). */
  method CountURL(u: string, exprs: seq<string>, get: string -> Reply, compiles: string -> bool,
                  findall: (string, string) -> nat)
    returns (matches: Option<Table>)
    ensures matches == Tally(u, exprs, get, compiles, findall)
  {
    var d := Dedup(exprs);
    var table := ZeroTable(exprs);
    var response := get(u);
    if response.Reply? && response.status == 200 {
      var text := response.text;
      var i := 0;
      while i < |exprs|
        invariant 0 <= i <= |exprs|
        invariant AllCompile(exprs[..i], compiles)
        invariant |table| == |d|
        invariant forall j :: 0 <= j < |d| ==>
                    table[j] == Count(d[j], if d[j] in exprs[..i] then findall(d[j], text) else 0)
      {
        assert exprs[..i + 1] == exprs[..i] + [exprs[i]];
        if !compiles(exprs[i]) {
          return None;
        }
        table := Update(table, exprs[i], findall(exprs[i], text));
        i := i + 1;
      }
      assert exprs[..i] == exprs;
      assert table == seq(|d|, j requires 0 <= j < |d| => Count(d[j], findall(d[j], text)));
    }
    return Some(table);
  }

  /** One `-- [...] ` segment: green with the count when the expression
      matched, red with "No Results" when it did not. */
  function Segment(c: Count): (r: string)
    ensures |r| > 7 && r[7] == if c.count > 0 then '2' else '1'
  {
    if c.count > 0 then "-- [" + Green + Capitalize(c.expr) + " - " + NatToString(c.count) + " Times" + End + "] "
    else "-- [" + Red + Capitalize(c.expr) + " - No Results" + End + "] "
  }

  /** The segments of a table, in insertion order. */
  function Segments(t: Table): (r: string)
    ensures |r| >= 8 * |t|
  {
    if t == [] then "" else Segments(t[..|t| - 1]) + Segment(t[|t| - 1])
  }

  lemma SegmentsStep(prefix: string, t: Table, j: nat)
    requires j < |t|
    ensures prefix + Segments(t[..j]) + Segment(t[j]) == prefix + Segments(t[..j + 1])
  {
    assert t[..j + 1][..j] == t[..j];
  }

  /** One report line: the URL, a space, the segments, a newline. */
  function ReportLine(url: string, t: Table): (r: string)
    ensures |r| >= |url| + 2 && r[..|url|] == url && r[|url|] == ' ' && r[|r| - 1] == '\n'
  {
    url + " " + Segments(t) + "\n"
  }

  lemma ReportFileStep(results: seq<(string, Table)>, i: nat)
    requires i < |results|
    ensures ReportFile(results[..i + 1]) == ReportFile(results[..i]) + ReportLine(results[i].0, results[i].1)
  {
    assert results[..i + 1][..i] == results[..i];
  }

  lemma LineAppend(before: string, url: string, t: Table)
    ensures before + url + " " + Segments(t) + "\n" == before + ReportLine(url, t)
  {
  }

  /** A report line opens with the URL and a space and closes with a
      newline, whatever the table holds. */
  lemma ReportLineShape(url: string, t: Table)
    ensures StartsWith(ReportLine(url, t), url + " ") && EndsWith(ReportLine(url, t), "\n")
  {
    var line := ReportLine(url, t);
    assert line == (url + " ") + (Segments(t) + "\n");
    assert line[..|url + " "|] == url + " ";
  }

  /** The report file: one line per result, in result order. */
  function ReportFile(results: seq<(string, Table)>): (r: string)
    ensures r == [] <==> results == []
    ensures results != [] ==> r[|r| - 1] == '\n'
  {
    if results == [] then ""
    else ReportFile(results[..|results| - 1]) + ReportLine(results[|results| - 1].0, results[|results| - 1].1)
  }

  /** A segment opens in green when the count is positive and in red
      otherwise, and closes by resetting the colour. */
  lemma SegmentColour(c: Count)
    ensures StartsWith(Segment(c), "-- [" + (if c.count > 0 then Green else Red))
    ensures EndsWith(Segment(c), End + "] ")
  {
  }

  /** A segment gives its count away: two segments for the same expression
      read the same only when the counts are equal, so "No Results" and
      "N Times" never coincide and different counts print differently. */
  lemma SegmentDeterminesCount(expr: string, m: nat, n: nat)
    requires Segment(Count(expr, m)) == Segment(Count(expr, n))
    ensures m == n
  {
    if m > 0 && n > 0 {
      var s := Segment(Count(expr, m));
      var a := "-- [" + Green + Capitalize(expr) + " - ";
      var ms := NatToString(m);
      var ns := NatToString(n);
      var tail := " Times" + End + "] ";
      assert s == a + ms + tail;
      assert s == a + ns + tail;
      assert ms == s[|a|..|a| + |ms|];
      assert ns == s[|a|..|a| + |ns|];
      NatToStringInjective(m, n);
    }
  }

  /** display_result: prints the URL and a space, then one segment per entry
      in insertion order, then a newline. Returns what it prints. */
  method DisplayResult(url: string, matches: Table) returns (printed: string)
    ensures printed == ReportLine(url, matches)
  {
    printed := url + " ";
    var j := 0;
    while j < |matches|
      invariant 0 <= j <= |matches|
      invariant printed == url + " " + Segments(matches[..j])
    {
      SegmentsStep(url + " ", matches, j);
      printed := printed + Segment(matches[j]);
      j := j + 1;
    }
    assert matches[..j] == matches;
    printed := printed + "\n";
  }

  /** The file writer of count_matches: for every result, the URL and a
      space, one segment per entry, a newline; the same text display_result
      prints for that result. */
  method WriteReport(results: seq<(string, Table)>) returns (contents: string)
    ensures contents == ReportFile(results)
  {
    contents := "";
    var i := 0;
    while i < |results|
      invariant 0 <= i <= |results|
      invariant contents == ReportFile(results[..i])
    {
      ReportFileStep(results, i);
      var (url, matches) := results[i];
      ghost var before := contents;
      contents := contents + url + " ";
      var j := 0;
      while j < |matches|
        invariant 0 <= j <= |matches|
        invariant contents == before + url + " " + Segments(matches[..j])
      {
        SegmentsStep(before + url + " ", matches, j);
        contents := contents + Segment(matches[j]);
        j := j + 1;
      }
      assert matches[..j] == matches;
      LineAppend(before, url, matches);
      contents := contents + "\n";
      i := i + 1;
    }
    assert results[..i] == results;
  }

  /** The file name given on the command line, when Python treats it as
      true: present and non-empty. */
  predicate Given(outputFile: Option<string>)
  {
    outputFile.Some? && outputFile.value != ""
  }

  /** count_matches. `results` has one entry per URL, in URL order,
      including URLs whose request failed, each with that URL's table; the
      run stops at the first URL on which an expression fails to compile,
      and then no file is written. In verbose mode every recorded line is
      printed as it is recorded; the file, written only when a name is
      given, holds the same lines. */
  method CountMatches(urls: seq<string>, exprs: seq<string>, verbose: bool, outputFile: Option<string>,
                      get: string -> Reply, compiles: string -> bool, findall: (string, string) -> nat)
    returns (results: seq<(string, Table)>, crashed: bool, printed: seq<string>, file: Option<string>)
    ensures |results| <= |urls|
    ensures forall k :: 0 <= k < |results| ==>
              results[k].0 == urls[k] && Tally(urls[k], exprs, get, compiles, findall) == Some(results[k].1)
    ensures crashed <==> |results| < |urls|
    ensures crashed ==> Tally(urls[|results|], exprs, get, compiles, findall).None?
    ensures !verbose ==> printed == []
    ensures verbose ==> |printed| == |results|
                        && forall k :: 0 <= k < |results| ==> printed[k] == ReportLine(results[k].0, results[k].1)
    ensures file == if !crashed && Given(outputFile) then Some(ReportFile(results)) else None
  {
    results := [];
    printed := [];
    var i := 0;
    while i < |urls|
      invariant 0 <= i <= |urls| && |results| == i
      invariant forall k :: 0 <= k < i ==>
                  results[k].0 == urls[k] && Tally(urls[k], exprs, get, compiles, findall) == Some(results[k].1)
      invariant !verbose ==> printed == []
      invariant verbose ==> |printed| == i && forall k :: 0 <= k < i ==> printed[k] == ReportLine(results[k].0, results[k].1)
    {
      var matches := CountURL(urls[i], exprs, get, compiles, findall);
      if matches.None? {
        return results, true, printed, None;
      }
      results := results + [(urls[i], matches.value)];
      if verbose {
        var line := DisplayResult(urls[i], matches.value);
        printed := printed + [line];
      }
      i := i + 1;
    }
    crashed := false;
    file := None;
    if outputFile.Some? && outputFile.value != "" {
      var contents := WriteReport(results);
      file := Some(contents);
    }
  }
}
