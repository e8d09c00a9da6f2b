/**
  The Spike log filter: keeps the execution lines of a Spike trace (those
  whose stripped text starts with `core   0: 3`), removes that prefix and
  the blanks around it, and counts lines read and lines kept. The file
  system is reduced to a flag saying whether the input exists and the
  input's lines as Python iterates them (each with its line terminator).
*/
module SpikeLogFilter {
  import opened Wrappers
  import opened Text

  /** The prefix of a hart-0 privilege-level-3 execution line. */
  const ExecPrefix: string := "core   0: 3"

  /** What `filter_spike_log` reports: its return value, the output file it opened, what it wrote, and its counters. */
  datatype Outcome = Outcome(
    success: bool,
    outputFile: Option<string>,
    written: seq<string>,
    totalLines: nat,
    filteredLines: nat)

  // ----- One line -----

  /** The keep test: `line.strip().startswith("core   0: 3")`. */
  predicate Kept(line: string) {
    StartsWith(Strip(line), ExecPrefix)
  }

  /** `line.replace("core   0: 3", "", 1).lstrip()`: the first occurrence removed, then leading blanks. */
  function Rewrite(line: string): string {
    match FindFrom(line, ExecPrefix, 0)
    case None => LStrip(line)
    case Some(k) => LStrip(line[..k] + line[k + |ExecPrefix|..])
  }

  // ----- The default output name -----

  /** Index of the last `c` in `s`, or -1, as `str.rfind`. */
  function LastIndex(s: string, c: char): (r: int)
    ensures -1 <= r < |s|
    ensures r >= 0 ==> s[r] == c
    ensures forall k :: r < k < |s| ==> s[k] != c
  {
    if s == [] then -1
    else if s[|s| - 1] == c then |s| - 1
    else LastIndex(s[..|s| - 1], c)
  }

  /** Some character of `s[lo..hi]` is not a dot. */
  predicate HasNonDot(s: string, lo: int, hi: int)
    requires 0 <= lo && hi <= |s|
  {
    exists i :: lo <= i < hi && s[i] != '.'
  }

  /**
    `os.path.splitext(p)[0]` on POSIX: the extension starts at the last dot
    of the last path component, unless every character before that dot in
    the component is a dot (hidden files keep their name).
  */
  function SplitExtRoot(p: string): string {
    var sep := LastIndex(p, '/');
    var dot := LastIndex(p, '.');
    if dot > sep && HasNonDot(p, sep + 1, dot) then p[..dot] else p
  }

  /** The output name used when none is given: `<input without extension>_filtered.log`. */
  function DefaultOutput(inputFile: string): string {
    SplitExtRoot(inputFile) + "_filtered.log"
  }

  // ----- The whole file -----

  /** The kept lines, in input order. */
  function Selected(lines: seq<string>): seq<string> {
    if lines == [] then []
    else Selected(lines[..|lines| - 1]) + (if Kept(lines[|lines| - 1]) then [lines[|lines| - 1]] else [])
  }

  /** Each line rewritten, one for one. */
  function Rewritten(lines: seq<string>): (r: seq<string>)
    ensures |r| == |lines| && forall k :: 0 <= k < |lines| ==> r[k] == Rewrite(lines[k])
  {
    seq(|lines|, k requires 0 <= k < |lines| => Rewrite(lines[k]))
  }

  /** What `filter_spike_log` does, given whether the input exists and its lines. */
  function Filter(inputExists: bool, inputFile: string, outputFile: Option<string>, lines: seq<string>): Outcome {
    if !inputExists then Outcome(false, None, [], 0, 0)
    else
      var out := if outputFile.None? then DefaultOutput(inputFile) else outputFile.value;
      Outcome(|lines| > 0, Some(out), Rewritten(Selected(lines)), |lines|, |Selected(lines)|)
  }

  /**
    `filter_spike_log`: the loop over the input counts every line, and
    writes and counts the rewritten kept ones. An empty input reaches the
    compression ratio with zero lines read; the division by zero there is
    caught and the call reports failure after creating an empty output.
  */
  method FilterSpikeLog(inputExists: bool, inputFile: string, outputFile: Option<string>, lines: seq<string>)
    returns (outcome: Outcome)
    ensures outcome == Filter(inputExists, inputFile, outputFile, lines)
  {
    if !inputExists {
      return Outcome(false, None, [], 0, 0);
    }
    var out := if outputFile.None? then DefaultOutput(inputFile) else outputFile.value;
    var written, totalLines, filteredLines := FilterLines(lines);
    var success := totalLines > 0;
    outcome := Outcome(success, Some(out), written, totalLines, filteredLines);
  }

  /** The loop of `filter_spike_log` over the input lines, with its two counters. */
  method FilterLines(lines: seq<string>) returns (written: seq<string>, totalLines: nat, filteredLines: nat)
    ensures written == Rewritten(Selected(lines))
    ensures totalLines == |lines| && filteredLines == |Selected(lines)|
  {
    written := [];
    filteredLines := 0;
    totalLines := 0;
    for n := 0 to |lines|
      invariant totalLines == n
      invariant written == Rewritten(Selected(lines[..n]))
      invariant filteredLines == |Selected(lines[..n])|
    {
      SelectedStep(lines, n);
      totalLines := totalLines + 1;
      var line := lines[n];
      if Kept(line) {
        RewrittenSnoc(Selected(lines[..n]), line);
        written := written + [Rewrite(line)];
        filteredLines := filteredLines + 1;
      }
    }
    assert lines[..|lines|] == lines;
  }

  lemma SelectedStep(lines: seq<string>, n: nat)
    requires n < |lines|
    ensures Selected(lines[..n + 1]) == Selected(lines[..n]) + (if Kept(lines[n]) then [lines[n]] else [])
  {
    assert lines[..n + 1][..n] == lines[..n];
  }

  lemma RewrittenSnoc(lines: seq<string>, line: string)
    ensures Rewritten(lines + [line]) == Rewritten(lines) + [Rewrite(line)]
  {
  }

  // ----- Properties -----

  /** Blanks in front of a string do not change what `lstrip` leaves. */
  lemma {:induction false} LStripAfterSpaces(ws: string, t: string)
    requires forall k :: 0 <= k < |ws| ==> IsSpace(ws[k])
    ensures LStrip(ws + t) == LStrip(t)
  {
    if ws != [] {
      assert (ws + t)[1..] == ws[1..] + t;
      LStripAfterSpaces(ws[1..], t);
    } else {
      assert ws + t == t;
    }
  }

  /** A line is kept exactly when the prefix follows its leading blanks. */
  lemma KeptIff(line: string)
    ensures Kept(line) <==> OccursAt(line, ExecPrefix, LeadingSpaces(line))
  {
    var n := LeadingSpaces(line);
    var l := LStrip(line);
    if OccursAt(line, ExecPrefix, n) {
      assert l[..11] == line[n..n + 11];
      RStripKeepsPrefix(l);
    }
    if Kept(line) {
      RStripPrefixBack(l);
      assert l[..11] == line[n..n + 11];
    }
  }

  /** Stripping trailing blanks cannot cut into the prefix, whose last character is not a blank. */
  lemma RStripKeepsPrefix(l: string)
    requires StartsWith(l, ExecPrefix)
    ensures StartsWith(RStrip(l), ExecPrefix)
  {
    var t := TrailingSpaces(l);
    assert l[10] == l[..11][10] == '3';
    assert |l| - t > 10;
    assert RStrip(l)[..11] == l[..11];
  }

  lemma RStripPrefixBack(l: string)
    requires StartsWith(RStrip(l), ExecPrefix)
    ensures StartsWith(l, ExecPrefix)
  {
    assert RStrip(l)[..11] == l[..11];
  }

  /** On a kept line the first occurrence of the prefix is the one right after the leading blanks. */
  lemma FirstPrefixAfterBlanks(line: string)
    requires OccursAt(line, ExecPrefix, LeadingSpaces(line))
    ensures FindFrom(line, ExecPrefix, 0) == Some(LeadingSpaces(line))
  {
    var n := LeadingSpaces(line);
    FindFromAtMost(line, n);
    var k := FindFrom(line, ExecPrefix, 0).value;
    MatchNotInBlanks(line, k);
    assert k == n;
  }

  /** The first occurrence is at or before any occurrence. */
  lemma FindFromAtMost(line: string, k: nat)
    requires OccursAt(line, ExecPrefix, k)
    ensures FindFrom(line, ExecPrefix, 0).Some? && FindFrom(line, ExecPrefix, 0).value <= k
  {
  }

  /** No occurrence of the prefix starts inside the leading blanks. */
  lemma MatchNotInBlanks(line: string, k: nat)
    requires OccursAt(line, ExecPrefix, k)
    ensures LeadingSpaces(line) <= k
  {
    MatchStartsWithC(line, k);
  }

  /** An occurrence of the prefix starts with a character that is not a blank. */
  lemma MatchStartsWithC(line: string, k: nat)
    requires OccursAt(line, ExecPrefix, k)
    ensures k < |line| && line[k] == 'c'
  {
    assert line[k..k + 11][0] == line[k];
  }

  /**
    A kept line loses its leading blanks, the prefix and the blanks after
    it, and nothing else: what is written is the tail of the line after
    the prefix, left-stripped, so its trailing text is unchanged.
  */
  lemma RewriteKept(line: string)
    requires Kept(line)
    ensures var n := LeadingSpaces(line);
      n + |ExecPrefix| <= |line| && Rewrite(line) == LStrip(line[n + |ExecPrefix|..])
    ensures var r := Rewrite(line);
      |r| <= |line| && line[|line| - |r|..] == r
  {
    KeptIff(line);
    FirstPrefixAfterBlanks(line);
    var n := LeadingSpaces(line);
    RewriteAt(line, n);
    var rest := line[n + |ExecPrefix|..];
    var r := LStrip(rest);
    assert r == rest[|rest| - |r|..];
    SuffixOfSuffix(line, n + |ExecPrefix|, |r|);
  }

  /** Removing the first occurrence at `n`, after nothing but blanks, leaves the stripped tail. */
  lemma RewriteAt(line: string, n: nat)
    requires n == LeadingSpaces(line) && FindFrom(line, ExecPrefix, 0) == Some(n)
    ensures Rewrite(line) == LStrip(line[n + |ExecPrefix|..])
  {
    var rest := line[n + |ExecPrefix|..];
    assert line[..n] + line[n + |ExecPrefix|..] == line[..n] + rest;
    LStripAfterSpaces(line[..n], rest);
  }

  /** The last `m` characters of a suffix of `line` are the last `m` characters of `line`. */
  lemma SuffixOfSuffix(line: string, j: nat, m: nat)
    requires j <= |line| && m <= |line| - j
    ensures line[|line| - m..] == line[j..][|line| - j - m..]
  {
  }

  /** The extension removed is a dot and what follows it in the last path component, free of other dots. */
  lemma SplitExtShape(p: string)
    ensures var root := SplitExtRoot(p);
      |root| <= |p| && p[..|root|] == root
    ensures var root := SplitExtRoot(p);
      root != p ==> p[|root|] == '.' && forall k :: |root| < k < |p| ==> p[k] != '.' && p[k] != '/'
  {
  }

  /** A hidden file keeps its name: the root keeps a character other than a dot in its last component. */
  lemma SplitExtKeepsName(p: string)
    ensures var root := SplitExtRoot(p);
      root != p ==> exists i :: 0 <= i < |root| && root[i] != '.' && forall k :: i < k < |root| ==> root[k] != '/'
  {
    var sep := LastIndex(p, '/');
    var dot := LastIndex(p, '.');
    if dot > sep && HasNonDot(p, sep + 1, dot) {
      var i :| sep + 1 <= i < dot && p[i] != '.';
      var root := p[..dot];
      assert root[i] == p[i];
      forall k | i < k < |root|
        ensures root[k] != '/'
      {
        assert root[k] == p[k];
        assert sep < k;
      }
    }
  }

  /** Kept lines appear once each, in input order: selecting from two stretches is selecting from each in turn. */
  lemma {:induction false} SelectedAppend(a: seq<string>, b: seq<string>)
    ensures Selected(a + b) == Selected(a) + Selected(b)
    decreases |b|
  {
    if b == [] {
      assert a + b == a;
    } else {
      assert (a + b)[..|a + b| - 1] == a + b[..|b| - 1];
      SelectedAppend(a, b[..|b| - 1]);
    }
  }

  /** The number of lines filtered out: the lines whose stripped text does not start with the prefix. */
  function DroppedCount(lines: seq<string>): nat {
    if lines == [] then 0
    else DroppedCount(lines[..|lines| - 1]) + (if Kept(lines[|lines| - 1]) then 0 else 1)
  }

  /** Every selected line is kept, and the kept and dropped lines account for all lines. */
  lemma {:induction false} SelectedPartition(lines: seq<string>)
    ensures forall k :: 0 <= k < |Selected(lines)| ==> Kept(Selected(lines)[k])
    ensures |Selected(lines)| + DroppedCount(lines) == |lines|
  {
    if lines != [] {
      SelectedPartition(lines[..|lines| - 1]);
    }
  }

  /**
    The counters: at most every line is kept, the filtered-out count is
    the number of dropped lines, and the output holds one line per kept
    line.
  */
  lemma FilterCounts(inputFile: string, outputFile: Option<string>, lines: seq<string>)
    ensures var o := Filter(true, inputFile, outputFile, lines);
      && o.filteredLines <= o.totalLines == |lines|
      && o.totalLines - o.filteredLines == DroppedCount(lines)
      && |o.written| == o.filteredLines
  {
    SelectedPartition(lines);
  }

  /** Every written line is the rewrite of a kept input line: the `k`-th kept one. */
  lemma FilterWritesKeptLines(inputFile: string, outputFile: Option<string>, lines: seq<string>)
    ensures var o := Filter(true, inputFile, outputFile, lines);
      var s := Selected(lines);
      |o.written| == |s| &&
      forall k :: 0 <= k < |s| ==> s[k] in lines && Kept(s[k]) && o.written[k] == Rewrite(s[k])
  {
    SelectedPartition(lines);
    SelectedSubset(lines);
  }

  lemma {:induction false} SelectedSubset(lines: seq<string>)
    ensures forall line :: line in Selected(lines) ==> line in lines
  {
    if lines != [] {
      SelectedSubset(lines[..|lines| - 1]);
      forall line | line in Selected(lines[..|lines| - 1])
        ensures line in lines
      {
        assert line in lines[..|lines| - 1];
      }
    }
  }

  /**
    The error paths: a missing input reports failure and opens no output;
    an empty input reports failure after opening the output and writing
    nothing; any other input reports success.
  */
  lemma FilterOutcomes(inputExists: bool, inputFile: string, outputFile: Option<string>, lines: seq<string>)
    ensures var o := Filter(inputExists, inputFile, outputFile, lines);
      && (!inputExists ==> !o.success && o.outputFile.None? && o.written == [])
      && (inputExists && lines == [] ==> !o.success && o.outputFile.Some? && o.written == [])
      && (o.success <==> inputExists && lines != [])
      && (inputExists && outputFile.Some? ==> o.outputFile == outputFile)
      && (inputExists && outputFile.None? ==> o.outputFile == Some(DefaultOutput(inputFile)))
  {
    if inputExists && lines == [] {
      assert Selected(lines) == [];
    }
  }
}
