/** The line filter of the Go scanner (main.go): every input line is trimmed
    with strings.TrimSpace, and the trimmed line is kept unless it is empty or
    starts with '#'. The pattern loader and the URL reader apply the same
    filter. */
module Lines {
  import opened Text

  /** A trimmed line that is neither blank nor a comment. */
  predicate IsEntry(line: string)
  {
    line != "" && line[0] != '#'
  }

  /** The filter's test, written as strings.HasPrefix(line, "#") in the
      source, looks at the first character only. */
  lemma CommentTest(line: string)
    ensures IsEntry(line) <==> line != "" && !StartsWith(line, "#")
  {
    if line != "" && line[0] == '#' {
      assert line[..1] == "#";
    }
  }

  /** The trimmed lines of `raw` that survive the filter, in input order,
      duplicates kept. */
  function Entries(raw: seq<string>): (r: seq<string>)
    ensures |r| <= |raw|
    ensures forall k :: 0 <= k < |r| ==> IsEntry(r[k])
  {
    if raw == [] then []
    else
      var line := TrimSpace(raw[|raw| - 1]);
      if IsEntry(line) then Entries(raw[..|raw| - 1]) + [line] else Entries(raw[..|raw| - 1])
  }

  lemma EntriesStep(lines: seq<string>, i: nat)
    requires i < |lines|
    ensures var line := TrimSpace(lines[i]);
      Entries(lines[..i + 1]) == if IsEntry(line) then Entries(lines[..i]) + [line] else Entries(lines[..i])
  {
    assert lines[..i + 1][..i] == lines[..i];
  }

  /** Every entry is neither blank nor a comment, and is already trimmed:
      trimming it again changes nothing. */
  lemma {:induction false} EntriesTrimmed(raw: seq<string>)
    ensures forall k :: 0 <= k < |Entries(raw)| ==>
              IsEntry(Entries(raw)[k]) && TrimSpace(Entries(raw)[k]) == Entries(raw)[k]
  {
    if raw != [] {
      var init := raw[..|raw| - 1];
      EntriesTrimmed(init);
      TrimSpaceIdempotent(raw[|raw| - 1]);
    }
  }

  /** Nothing but a surviving trimmed input line is an entry: blank and
      comment lines never get through. */
  lemma {:induction false} EntriesSound(raw: seq<string>, j: nat)
    requires j < |Entries(raw)|
    ensures exists k :: 0 <= k < |raw| && TrimSpace(raw[k]) == Entries(raw)[j]
  {
    var init := raw[..|raw| - 1];
    var last := |raw| - 1;
    if j < |Entries(init)| {
      assert Entries(raw)[j] == Entries(init)[j];
      EntriesSound(init, j);
      var k :| 0 <= k < |init| && TrimSpace(init[k]) == Entries(init)[j];
      assert raw[k] == init[k];
    } else {
      assert Entries(raw)[j] == TrimSpace(raw[last]);
    }
  }

  /** Every input line that survives the filter once trimmed is an entry. */
  lemma {:induction false} EntriesComplete(raw: seq<string>, k: nat) returns (j: nat)
    requires k < |raw| && IsEntry(TrimSpace(raw[k]))
    ensures j < |Entries(raw)| && Entries(raw)[j] == TrimSpace(raw[k])
  {
    var n := |raw| - 1;
    var init := raw[..n];
    var line := TrimSpace(raw[n]);
    assert Entries(raw) == if IsEntry(line) then Entries(init) + [line] else Entries(init);
    if k < n {
      assert init[k] == raw[k];
      j := EntriesComplete(init, k);
    } else {
      j := |Entries(init)|;
    }
  }

  /** A string is an entry exactly when it is the trimmed form of some input
      line and survives the filter. */
  lemma EntriesMembership(raw: seq<string>, x: string)
    ensures x in Entries(raw) <==> IsEntry(x) && exists k :: 0 <= k < |raw| && TrimSpace(raw[k]) == x
  {
    if x in Entries(raw) {
      var j :| 0 <= j < |Entries(raw)| && Entries(raw)[j] == x;
      EntriesSound(raw, j);
      EntriesTrimmed(raw);
    }
    if IsEntry(x) && exists k :: 0 <= k < |raw| && TrimSpace(raw[k]) == x {
      var k :| 0 <= k < |raw| && TrimSpace(raw[k]) == x;
      var j := EntriesComplete(raw, k);
    }
  }

  /** The filter works line by line: the entries of two consecutive chunks of
      input are the entries of the first followed by those of the second. So
      input order is kept and a repeated line yields a repeated entry. */
  lemma {:induction false} EntriesAppend(a: seq<string>, b: seq<string>)
    ensures Entries(a + b) == Entries(a) + Entries(b)
    decreases |b|
  {
    if b != [] {
      var b' := b[..|b| - 1];
      assert (a + b)[..|a + b| - 1] == a + b';
      EntriesAppend(a, b');
    } else {
      assert a + b == a;
    }
  }
}
