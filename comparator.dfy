/**
  The comparison driver: loop removal on both traces with one detector,
  the LCS alignment of the cleaned traces, the operation counters and the
  hunks of the report, with the statistics `compare_logs` records.
*/
module Comparator {
  import opened Wrappers
  import opened LogEntries
  import opened LoopDetector
  import opened Lcs
  import opened Hunks

  /** The thresholds `compare_logs` builds its detector with. */
  const MinPatternLength: nat := 3
  const MinRepetitions: nat := 20

  /** The `stats` dictionary of the comparator. */
  datatype Stats = Stats(
    coreEntries: int,
    spikeEntries: int,
    perfectMatches: int,
    deletions: int,
    insertions: int,
    loopsRemoved: int,
    lcsLength: int)

  const ZeroStats := Stats(0, 0, 0, 0, 0, 0, 0)

  /** Numbers of EQUAL, DELETE and INSERT operations in a script. */
  datatype Tally = Tally(equal: nat, delete: nat, insert: nat)

  function TallyOf(ops: seq<DiffOp>): Tally {
    if ops == [] then Tally(0, 0, 0)
    else
      var t := TallyOf(ops[..|ops| - 1]);
      match ops[|ops| - 1]
      case Equal(_, _, _) => t.(equal := t.equal + 1)
      case Delete(_, _) => t.(delete := t.delete + 1)
      case Insert(_, _) => t.(insert := t.insert + 1)
  }

  /** What the comparison returns in place of the report text: the script and its hunks. */
  datatype Comparison = Comparison(differences: seq<DiffOp>, hunks: seq<seq<DiffOp>>)

  /** The edit script `compare_logs` obtains for two loaded traces. */
  function Differences(core: seq<Entry>, spike: seq<Entry>): seq<DiffOp> {
    var cc := Clean(core, MinPatternLength, MinRepetitions).0;
    var sc := Clean(spike, MinPatternLength, MinRepetitions).0;
    if cc == [] || sc == [] then [] else Script(cc, sc, |cc|, |sc|)
  }

  /** The statistics after one comparison, starting from `prev`. */
  function Wire(prev: Stats, core: seq<Entry>, spike: seq<Entry>): Stats {
    var cc := Clean(core, MinPatternLength, MinRepetitions).0;
    var sc := Clean(spike, MinPatternLength, MinRepetitions).0;
    var t := TallyOf(Differences(core, spike));
    Stats(
      coreEntries := |cc|,
      spikeEntries := |sc|,
      perfectMatches := prev.perfectMatches + t.equal,
      deletions := prev.deletions + t.delete,
      insertions := prev.insertions + t.insert,
      loopsRemoved := |core| + |spike| - |cc| - |sc|,
      lcsLength := Table(cc, sc, |cc|, |sc|))
  }

  /** The counters are a partition of the script. */
  lemma {:induction false} TallyTotal(ops: seq<DiffOp>)
    ensures TallyOf(ops).equal + TallyOf(ops).delete + TallyOf(ops).insert == |ops|
  {
    if ops != [] {
      TallyTotal(ops[..|ops| - 1]);
    }
  }

  /** Each side's projection of a script counts its EQUAL operations and its own changes. */
  lemma {:induction false} TallyProjections(ops: seq<DiffOp>)
    ensures |CoreIndices(ops)| == TallyOf(ops).equal + TallyOf(ops).delete
    ensures |SpikeIndices(ops)| == TallyOf(ops).equal + TallyOf(ops).insert
    ensures |Matches(ops)| == TallyOf(ops).equal
  {
    if ops != [] {
      TallyProjections(ops[..|ops| - 1]);
    }
  }

  /**
    On the traceback's script the counters are determined by the table:
    `T[m][n]` matches, `m - T[m][n]` deletions and `n - T[m][n]` insertions.
  */
  lemma TallyOfScript(a: seq<Entry>, b: seq<Entry>)
    ensures var t := TallyOf(Script(a, b, |a|, |b|));
      var lcs := Table(a, b, |a|, |b|);
      t.equal == lcs && t.delete == |a| - lcs && t.insert == |b| - lcs
  {
    var ops := Script(a, b, |a|, |b|);
    TallyProjections(ops);
    ScriptCoreSide(a, b, |a|, |b|);
    ScriptSpikeSide(a, b, |a|, |b|);
    ScriptMatchCount(a, b, |a|, |b|);
  }

  /** Loop removal never empties a loaded trace, so both cleaned traces reach the traceback. */
  lemma CleanKeepsTraceNonEmpty(entries: seq<Entry>)
    requires entries != []
    ensures Clean(entries, MinPatternLength, MinRepetitions).0 != []
  {
    CleanIsSubsequence(entries, MinPatternLength, MinRepetitions);
    CleanKeepsUnremoved(entries, MinPatternLength, MinRepetitions);
    var kept := KeptIndices(KeptSet(entries, MinPatternLength, MinRepetitions), 0, |entries|);
    assert 0 in kept;
  }

  /**
    The statistics of a comparison on a fresh comparator agree with one
    another: perfect matches equal the LCS length, deletions and insertions
    are what each cleaned trace has beyond it, the three counters add up to
    the script length, and loop removal only shrinks the traces.
  */
  lemma FreshStatsAgree(core: seq<Entry>, spike: seq<Entry>)
    requires core != [] && spike != []
    ensures var s := Wire(ZeroStats, core, spike);
      && s.perfectMatches == s.lcsLength
      && s.deletions == s.coreEntries - s.lcsLength
      && s.insertions == s.spikeEntries - s.lcsLength
      && s.perfectMatches + s.deletions + s.insertions == |Differences(core, spike)|
      && 0 <= s.lcsLength <= s.coreEntries && s.lcsLength <= s.spikeEntries
      && 0 < s.coreEntries <= |core| && 0 < s.spikeEntries <= |spike|
      && s.loopsRemoved >= 0
  {
    var cc := Clean(core, MinPatternLength, MinRepetitions).0;
    var sc := Clean(spike, MinPatternLength, MinRepetitions).0;
    CleanKeepsTraceNonEmpty(core);
    CleanKeepsTraceNonEmpty(spike);
    assert Differences(core, spike) == Script(cc, sc, |cc|, |sc|);
    TallyOfScript(cc, sc);
    TallyTotal(Script(cc, sc, |cc|, |sc|));
    TableBound(cc, sc, |cc|, |sc|);
  }

  /** The comparator object: its statistics and the patterns of its last comparison. */
  class ProfessionalLogComparator {
    var stats: Stats
    var patternsFound: seq<PatternRecord>

    constructor ()
      ensures stats == ZeroStats && patternsFound == []
    {
      stats := ZeroStats;
      patternsFound := [];
    }

    /** `_analyze_differences`: adds the operation counts of the script to the counters. */
    method AnalyzeDifferences(differences: seq<DiffOp>)
      modifies this
      ensures stats == old(stats).(
        perfectMatches := old(stats.perfectMatches) + TallyOf(differences).equal,
        deletions := old(stats.deletions) + TallyOf(differences).delete,
        insertions := old(stats.insertions) + TallyOf(differences).insert)
      ensures patternsFound == old(patternsFound)
    {
      var k := 0;
      while k < |differences|
        invariant 0 <= k <= |differences|
        invariant stats == old(stats).(
          perfectMatches := old(stats.perfectMatches) + TallyOf(differences[..k]).equal,
          deletions := old(stats.deletions) + TallyOf(differences[..k]).delete,
          insertions := old(stats.insertions) + TallyOf(differences[..k]).insert)
        invariant patternsFound == old(patternsFound)
      {
        assert differences[..k + 1][..k] == differences[..k];
        match differences[k] {
          case Equal(_, _, _) =>
            stats := stats.(perfectMatches := stats.perfectMatches + 1);
          case Delete(_, _) =>
            stats := stats.(deletions := stats.deletions + 1);
          case Insert(_, _) =>
            stats := stats.(insertions := stats.insertions + 1);
        }
        k := k + 1;
      }
      assert differences[..k] == differences;
    }

    /**
      `compare_logs` on two loaded traces: fails when either is empty;
      otherwise removes loops from each, records the statistics, aligns
      the cleaned traces and groups the script into hunks.
    */
    method CompareLogs(coreEntries: seq<Entry>, spikeEntries: seq<Entry>) returns (outcome: Option<Comparison>)
      modifies this
      ensures outcome.None? <==> coreEntries == [] || spikeEntries == []
      ensures outcome.None? ==> stats == old(stats) && patternsFound == old(patternsFound)
      ensures outcome.Some? ==>
        && outcome.value.differences == Differences(coreEntries, spikeEntries)
        && outcome.value.hunks == Group(Differences(coreEntries, spikeEntries), 0)
        && stats == Wire(old(stats), coreEntries, spikeEntries)
        && patternsFound == Clean(coreEntries, MinPatternLength, MinRepetitions).1 +
                            Clean(spikeEntries, MinPatternLength, MinRepetitions).1
    {
      if coreEntries == [] || spikeEntries == [] {
        return None;
      }
      ghost var s0 := stats;
      var coreClean, spikeClean, corePatterns, spikePatterns := RemoveLoops(coreEntries, spikeEntries);
      stats := stats.(
        coreEntries := |coreClean|,
        spikeEntries := |spikeClean|,
        loopsRemoved := |coreEntries| + |spikeEntries| - |coreClean| - |spikeClean|);
      patternsFound := corePatterns + spikePatterns;

      var lcsLength, differences := Align(coreClean, spikeClean);
      stats := stats.(lcsLength := lcsLength);
      CleanKeepsTraceNonEmpty(coreEntries);
      CleanKeepsTraceNonEmpty(spikeEntries);
      AnalyzeDifferences(differences);
      assert stats == Wire(s0, coreEntries, spikeEntries);
      var hunks := GroupIntoHunks(differences);
      outcome := Some(Comparison(differences, hunks));
    }
  }

  /**
    Step 1 of `compare_logs`: one detector with the default thresholds
    cleans both traces; its pattern list is copied after each call and
    cleared in between.
  */
  method RemoveLoops(coreEntries: seq<Entry>, spikeEntries: seq<Entry>)
    returns (coreClean: seq<Entry>, spikeClean: seq<Entry>,
             corePatterns: seq<PatternRecord>, spikePatterns: seq<PatternRecord>)
    ensures coreClean == Clean(coreEntries, MinPatternLength, MinRepetitions).0
    ensures corePatterns == Clean(coreEntries, MinPatternLength, MinRepetitions).1
    ensures spikeClean == Clean(spikeEntries, MinPatternLength, MinRepetitions).0
    ensures spikePatterns == Clean(spikeEntries, MinPatternLength, MinRepetitions).1
  {
    ghost var coreRun := Clean(coreEntries, MinPatternLength, MinRepetitions);
    ghost var spikeRun := Clean(spikeEntries, MinPatternLength, MinRepetitions);
    var detector := new InfiniteLoopDetector(MinPatternLength, MinRepetitions);
    coreClean := detector.RemovePatterns(coreEntries);
    corePatterns := detector.patternsFound;
    assert [] + coreRun.1 == coreRun.1;
    detector.patternsFound := [];
    spikeClean := detector.RemovePatterns(spikeEntries);
    spikePatterns := detector.patternsFound;
    assert [] + spikeRun.1 == spikeRun.1;
  }

  /** Steps 2 and 3 of `compare_logs`: the table's corner and the traceback. */
  method Align(coreClean: seq<Entry>, spikeClean: seq<Entry>) returns (lcsLength: int, differences: seq<DiffOp>)
    ensures lcsLength == Table(coreClean, spikeClean, |coreClean|, |spikeClean|)
    ensures differences == if coreClean == [] || spikeClean == [] then []
                           else Script(coreClean, spikeClean, |coreClean|, |spikeClean|)
  {
    var lcs := new LcsComparator();
    var table := lcs.ComputeLcsTable(coreClean, spikeClean);
    lcsLength := table[|coreClean|, |spikeClean|];
    differences := lcs.TracebackDifferences();
  }
}
