/**
  The infinite-loop remover: before alignment, each trace loses every
  repetition after the second of a window of pattern keys that repeats at
  least `minRepetitions` times in a row.

  `Scan` and `Detect` are the reference definitions of one pass over a
  pattern length and of all passes; `DetectPatternLength` and
  `InfiniteLoopDetector.RemovePatterns` are the loops that compute them.
*/
module LoopDetector {
  import opened LogEntries

  /** One entry of `patterns_found`; `location` is the start index the report prints as "Line i". */
  datatype PatternRecord = PatternRecord(length: nat, repetitions: nat, location: nat, removed: int)

  function Min(a: int, b: int): int {
    if a <= b then a else b
  }

  /** `set(range(lo, hi))`. */
  function Span(lo: int, hi: int): (s: set<int>)
    decreases hi - lo
    ensures forall k :: k in s <==> lo <= k < hi
  {
    if lo >= hi then {} else {lo} + Span(lo + 1, hi)
  }

  /** `[entry.pattern_key() for entry in entries]`. */
  function Keys(entries: seq<Entry>): (keys: seq<string>)
    ensures |keys| == |entries|
    ensures forall k :: 0 <= k < |entries| ==> keys[k] == PatternKey(entries[k])
  {
    if entries == [] then [] else [PatternKey(entries[0])] + Keys(entries[1..])
  }

  /** `keys` holds `n` consecutive copies of `pat` from `pos` on. */
  ghost predicate RunOf(keys: seq<string>, pat: seq<string>, pos: nat, n: nat)
    decreases n
  {
    n == 0 ||
    (pos + |pat| <= |keys| && keys[pos..pos + |pat|] == pat && RunOf(keys, pat, pos + |pat|, n - 1))
  }

  /** The inner `while` of `_detect_pattern_length`: further copies of `keys[i..i+L]` from `pos` on. */
  function MoreReps(keys: seq<string>, i: nat, L: nat, pos: nat): (n: nat)
    requires L >= 1 && i + L <= |keys| && pos <= |keys|
    decreases |keys| - pos
    ensures pos + n * L <= |keys|
  {
    if pos + L <= |keys| && keys[pos..pos + L] == keys[i..i + L] then 1 + MoreReps(keys, i, L, pos + L)
    else 0
  }

  /** `reps`: the number of consecutive copies of the window at `i`, counted on the original keys. */
  function Reps(keys: seq<string>, i: nat, L: nat): (r: nat)
    requires L >= 1 && i + L <= |keys|
    ensures r >= 1 && i + r * L <= |keys|
  {
    1 + MoreReps(keys, i, L, i + L)
  }

  /** The indices one detected run discards: every copy after the second. */
  function Discarded(r: PatternRecord): set<int> {
    Span(r.location + 2 * r.length, r.location + r.repetitions * r.length)
  }

  /** `n * L`, by repeated addition. */
  function Times(n: nat, L: nat): nat {
    if n == 0 then 0 else L + Times(n - 1, L)
  }

  lemma {:induction false} TimesIsMul(n: nat, L: nat)
    ensures Times(n, L) == n * L
  {
    if n > 0 {
      TimesIsMul(n - 1, L);
    }
  }

  /** The index just past the block a record covers: `location + repetitions * length`. */
  function BlockEnd(r: PatternRecord): int {
    r.location + Times(r.repetitions, r.length)
  }

  /** Union of what a list of records discards. */
  function RemovedBy(recs: seq<PatternRecord>): set<int> {
    if recs == [] then {} else Discarded(recs[0]) + RemovedBy(recs[1..])
  }

  lemma MulAtLeast(L: nat, m: nat)
    requires m >= 1
    ensures L * m >= L
  {
  }

  /**
    One pass of `_detect_pattern_length` for length `L`, from start index
    `i`: the kept set it leaves and the records it appends, in order.
  */
  function Scan(keys: seq<string>, keep: set<int>, L: nat, minReps: nat, i: nat): (set<int>, seq<PatternRecord>)
    requires L >= 1 && minReps >= 1 && i <= |keys|
    decreases |keys| - i
  {
    if i > |keys| - L * minReps then (keep, [])
    else if i !in keep then Scan(keys, keep, L, minReps, i + 1)
    else
      MulAtLeast(L, minReps);
      var reps := Reps(keys, i, L);
      if reps >= minReps then
        var rest := Scan(keys, keep - Span(i + 2 * L, i + reps * L), L, minReps, i + reps * L);
        (rest.0, [PatternRecord(L, reps, i, (reps - 2) * L)] + rest.1)
      else Scan(keys, keep, L, minReps, i + 1)
  }

  /** The `for pattern_len in range(L, hi)` loop of `remove_patterns`. */
  function Detect(keys: seq<string>, keep: set<int>, minReps: nat, L: nat, hi: int): (set<int>, seq<PatternRecord>)
    requires L >= 1 && minReps >= 1
    decreases hi - L
  {
    if L >= hi then (keep, [])
    else
      var pass := Scan(keys, keep, L, minReps, 0);
      var rest := Detect(keys, pass.0, minReps, L + 1, hi);
      (rest.0, pass.1 + rest.1)
  }

  /** The pattern lengths `remove_patterns` tries: `range(minLen, min(30, n // minReps))`. */
  function LengthBound(n: nat, minReps: nat): int
    requires minReps >= 1
  {
    Min(30, n / minReps)
  }

  /** The indices of `keep` in `[from, n)`, ascending: `sorted(keep_indices)`. */
  function KeptIndices(keep: set<int>, from: nat, n: nat): seq<nat>
    decreases n - from
  {
    if from >= n then [] else (if from in keep then [from] else []) + KeptIndices(keep, from + 1, n)
  }

  /** `[entries[i] for i in sorted(keep_indices)]`. */
  function Select(entries: seq<Entry>, keep: set<int>, from: nat): (r: seq<Entry>)
    requires from <= |entries|
    ensures |r| <= |entries| - from
    decreases |entries| - from
  {
    if from == |entries| then []
    else (if from in keep then [entries[from]] else []) + Select(entries, keep, from + 1)
  }

  /** What `remove_patterns` returns, with the records it appends to `patterns_found`. */
  function Clean(entries: seq<Entry>, minLen: nat, minReps: nat): (r: (seq<Entry>, seq<PatternRecord>))
    requires minLen >= 1 && minReps >= 1
    ensures |r.0| <= |entries|
  {
    if |entries| < minLen * minReps then (entries, [])
    else
      var d := Detect(Keys(entries), Span(0, |entries|), minReps, minLen, LengthBound(|entries|, minReps));
      (Select(entries, d.0, 0), d.1)
  }

  /** A record as one pass for length `L` writes it, about the original keys. */
  ghost predicate ValidRecord(keys: seq<string>, r: PatternRecord, L: nat, minReps: nat) {
    L >= 1 && r.length == L && r.location + L <= |keys| &&
    r.repetitions == Reps(keys, r.location, L) && r.repetitions >= minReps &&
    r.removed == (r.repetitions - 2) * L
  }

  lemma {:induction false} MoreRepsRun(keys: seq<string>, i: nat, L: nat, pos: nat)
    requires L >= 1 && i + L <= |keys| && pos <= |keys|
    ensures RunOf(keys, keys[i..i + L], pos, MoreReps(keys, i, L, pos))
    ensures !RunOf(keys, keys[i..i + L], pos, MoreReps(keys, i, L, pos) + 1)
    decreases |keys| - pos
  {
    var pat := keys[i..i + L];
    if pos + L <= |keys| && keys[pos..pos + L] == pat {
      MoreRepsRun(keys, i, L, pos + L);
    }
  }

  /**
    `reps` is the length of the longest run of copies of the window at `i`
    that starts at `i`.
  */
  lemma RepsIsMaximalRun(keys: seq<string>, i: nat, L: nat)
    requires L >= 1 && i + L <= |keys|
    ensures RunOf(keys, keys[i..i + L], i, Reps(keys, i, L))
    ensures !RunOf(keys, keys[i..i + L], i, Reps(keys, i, L) + 1)
  {
    MoreRepsRun(keys, i, L, i + L);
  }

  lemma {:induction false} RemovedByAppend(a: seq<PatternRecord>, b: seq<PatternRecord>)
    ensures RemovedBy(a + b) == RemovedBy(a) + RemovedBy(b)
  {
    if a == [] {
      assert a + b == b;
    } else {
      assert (a + b)[1..] == a[1..] + b;
      RemovedByAppend(a[1..], b);
    }
  }

  lemma {:induction false} RemovedByCons(r: PatternRecord, rest: seq<PatternRecord>)
    ensures RemovedBy([r] + rest) == Discarded(r) + RemovedBy(rest)
  {
    assert ([r] + rest)[1..] == rest;
  }

  /** One pass keeps exactly the indices of `keep` that none of its records discards. */
  lemma {:induction false} ScanRemoves(keys: seq<string>, keep: set<int>, L: nat, minReps: nat, i: nat)
    requires L >= 1 && minReps >= 1 && i <= |keys|
    ensures var res := Scan(keys, keep, L, minReps, i); res.0 == keep - RemovedBy(res.1)
    decreases |keys| - i
  {
    if i > |keys| - L * minReps {
    } else if i !in keep {
      ScanRemoves(keys, keep, L, minReps, i + 1);
    } else {
      MulAtLeast(L, minReps);
      var reps := Reps(keys, i, L);
      if reps >= minReps {
        var keep' := keep - Span(i + 2 * L, i + reps * L);
        var rest := Scan(keys, keep', L, minReps, i + reps * L);
        var r := PatternRecord(L, reps, i, (reps - 2) * L);
        assert Scan(keys, keep, L, minReps, i) == (rest.0, [r] + rest.1);
        ScanRemoves(keys, keep', L, minReps, i + reps * L);
        RemovedByCons(r, rest.1);
        assert Discarded(r) == Span(i + 2 * L, i + reps * L);
        assert keep' - RemovedBy(rest.1) == keep - (Discarded(r) + RemovedBy(rest.1));
      } else {
        ScanRemoves(keys, keep, L, minReps, i + 1);
      }
    }
  }

  /**
    Every record of one pass is one the pass is entitled to write (the run
    at its location, counted on the original keys, is long enough), and it
    starts at an index that was still kept, at or after `i`.
  */
  lemma {:induction false} ScanRecords(keys: seq<string>, keep: set<int>, L: nat, minReps: nat, i: nat)
    requires L >= 1 && minReps >= 1 && i <= |keys|
    ensures forall r :: r in Scan(keys, keep, L, minReps, i).1 ==>
      ValidRecord(keys, r, L, minReps) && i <= r.location && r.location in keep
    decreases |keys| - i
  {
    if i > |keys| - L * minReps {
    } else if i !in keep {
      ScanRecords(keys, keep, L, minReps, i + 1);
    } else {
      MulAtLeast(L, minReps);
      var reps := Reps(keys, i, L);
      if reps >= minReps {
        var keep' := keep - Span(i + 2 * L, i + reps * L);
        ScanRecords(keys, keep', L, minReps, i + reps * L);
      } else {
        ScanRecords(keys, keep, L, minReps, i + 1);
      }
    }
  }

  /** Every record of a pass started at `i` lies at or after `i`. */
  lemma {:induction false} ScanLocations(keys: seq<string>, keep: set<int>, L: nat, minReps: nat, i: nat)
    requires L >= 1 && minReps >= 1 && i <= |keys|
    ensures forall r :: r in Scan(keys, keep, L, minReps, i).1 ==> i <= r.location
    decreases |keys| - i
  {
    if i > |keys| - L * minReps {
    } else if i !in keep {
      ScanLocations(keys, keep, L, minReps, i + 1);
    } else {
      MulAtLeast(L, minReps);
      var reps := Reps(keys, i, L);
      if reps >= minReps {
        ScanLocations(keys, keep - Span(i + 2 * L, i + reps * L), L, minReps, i + reps * L);
      } else {
        ScanLocations(keys, keep, L, minReps, i + 1);
      }
    }
  }

  /** Each record's block ends at or before the next record starts. */
  ghost predicate Ordered(recs: seq<PatternRecord>) {
    forall a, b :: 0 <= a < b < |recs| ==> BlockEnd(recs[a]) <= recs[b].location
  }

  lemma OrderedCons(head: PatternRecord, rest: seq<PatternRecord>, next: int)
    requires BlockEnd(head) <= next && Ordered(rest)
    requires forall r :: r in rest ==> next <= r.location
    ensures Ordered([head] + rest)
  {
    var recs := [head] + rest;
    forall a, b | 0 <= a < b < |recs|
      ensures BlockEnd(recs[a]) <= recs[b].location
    {
      assert recs[b] == rest[b - 1];
      if a > 0 {
        assert recs[a] == rest[a - 1];
      }
    }
  }

  /** The blocks of one pass's records follow each other without overlap. */
  lemma {:induction false} ScanRecordsOrdered(keys: seq<string>, keep: set<int>, L: nat, minReps: nat, i: nat)
    requires L >= 1 && minReps >= 1 && i <= |keys|
    ensures Ordered(Scan(keys, keep, L, minReps, i).1)
    decreases |keys| - i
  {
    if i > |keys| - L * minReps {
    } else if i !in keep {
      ScanRecordsOrdered(keys, keep, L, minReps, i + 1);
    } else {
      MulAtLeast(L, minReps);
      var reps := Reps(keys, i, L);
      if reps >= minReps {
        var next := i + reps * L;
        var keep' := keep - Span(i + 2 * L, next);
        var head := PatternRecord(L, reps, i, (reps - 2) * L);
        ScanRecordsOrdered(keys, keep', L, minReps, next);
        ScanLocations(keys, keep', L, minReps, next);
        TimesIsMul(reps, L);
        OrderedCons(head, Scan(keys, keep', L, minReps, next).1, next);
      } else {
        ScanRecordsOrdered(keys, keep, L, minReps, i + 1);
      }
    }
  }

  /**
    All passes together keep exactly the indices no record discards; each
    record comes from a pass whose length lies in `[L, hi)`.
  */
  lemma {:induction false} DetectFacts(keys: seq<string>, keep: set<int>, minReps: nat, L: nat, hi: int)
    requires L >= 1 && minReps >= 1
    ensures var res := Detect(keys, keep, minReps, L, hi);
      res.0 == keep - RemovedBy(res.1) &&
      forall r :: r in res.1 ==> L <= r.length < hi && ValidRecord(keys, r, r.length, minReps)
    decreases hi - L
  {
    if L < hi {
      var pass := Scan(keys, keep, L, minReps, 0);
      ScanRemoves(keys, keep, L, minReps, 0);
      ScanRecords(keys, keep, L, minReps, 0);
      DetectFacts(keys, pass.0, minReps, L + 1, hi);
      var rest := Detect(keys, pass.0, minReps, L + 1, hi);
      RemovedByAppend(pass.1, rest.1);
    }
  }

  /** No record discards an index below `bound` when every block starts its discarding at or past it. */
  lemma {:induction false} RemovedByAbove(recs: seq<PatternRecord>, bound: int)
    requires forall r :: r in recs ==> r.location + 2 * r.length >= bound
    ensures forall k :: k in RemovedBy(recs) ==> k >= bound
  {
    if recs != [] {
      assert recs[0] in recs;
      assert forall r :: r in recs[1..] ==> r in recs;
      RemovedByAbove(recs[1..], bound);
    }
  }

  /** The kept indices from `from` lie in `[from, n)` and in the kept set. */
  lemma {:induction false} KeptIndicesRange(keep: set<int>, from: nat, n: nat)
    ensures forall t :: 0 <= t < |KeptIndices(keep, from, n)| ==>
      from <= KeptIndices(keep, from, n)[t] < n && KeptIndices(keep, from, n)[t] in keep
    decreases n - from
  {
    if from < n {
      KeptIndicesRange(keep, from + 1, n);
      var head: seq<nat> := if from in keep then [from] else [];
      var tail := KeptIndices(keep, from + 1, n);
      var idx := KeptIndices(keep, from, n);
      assert idx == head + tail;
      forall t | 0 <= t < |idx|
        ensures from <= idx[t] < n && idx[t] in keep
      {
        if t < |head| {
          assert idx[t] == from;
        } else {
          assert idx[t] == tail[t - |head|];
        }
      }
    }
  }

  /** The kept indices are listed in ascending order. */
  lemma {:induction false} KeptIndicesAscending(keep: set<int>, from: nat, n: nat)
    ensures forall s, t :: 0 <= s < t < |KeptIndices(keep, from, n)| ==>
      KeptIndices(keep, from, n)[s] < KeptIndices(keep, from, n)[t]
    decreases n - from
  {
    if from < n {
      KeptIndicesAscending(keep, from + 1, n);
      KeptIndicesRange(keep, from + 1, n);
      var tail := KeptIndices(keep, from + 1, n);
      if from in keep {
        var idx := KeptIndices(keep, from, n);
        assert idx == [from] + tail;
        forall s, t | 0 <= s < t < |idx|
          ensures idx[s] < idx[t]
        {
          assert idx[t] == tail[t - 1];
          if s > 0 {
            assert idx[s] == tail[s - 1];
          }
        }
      }
    }
  }

  /** Every kept index in `[from, n)` is listed. */
  lemma {:induction false} KeptIndicesComplete(keep: set<int>, from: nat, n: nat)
    ensures forall k :: from <= k < n && k in keep ==> k in KeptIndices(keep, from, n)
    decreases n - from
  {
    if from < n {
      KeptIndicesComplete(keep, from + 1, n);
      var head: seq<nat> := if from in keep then [from] else [];
      var tail := KeptIndices(keep, from + 1, n);
      var idx := KeptIndices(keep, from, n);
      assert idx == head + tail;
      forall k | from <= k < n && k in keep
        ensures k in idx
      {
        if k == from {
          assert idx[0] == k;
        } else {
          var t :| 0 <= t < |tail| && tail[t] == k;
          assert idx[|head| + t] == k;
        }
      }
    }
  }

  /** `Select` picks `entries[KeptIndices[t]]`, one entry per kept index. */
  lemma {:induction false} SelectIndexed(entries: seq<Entry>, keep: set<int>, from: nat)
    requires from <= |entries|
    ensures var idx := KeptIndices(keep, from, |entries|);
      var sel := Select(entries, keep, from);
      |sel| == |idx| &&
      forall t :: 0 <= t < |idx| ==> idx[t] < |entries| && sel[t] == entries[idx[t]]
    decreases |entries| - from
  {
    KeptIndicesRange(keep, from, |entries|);
    if from < |entries| {
      SelectIndexed(entries, keep, from + 1);
      var head: seq<nat> := if from in keep then [from] else [];
      var picked := if from in keep then [entries[from]] else [];
      assert KeptIndices(keep, from, |entries|) == head + KeptIndices(keep, from + 1, |entries|);
      assert Select(entries, keep, from) == picked + Select(entries, keep, from + 1);
    }
  }

  /** Keeping every index selects the whole list. */
  lemma {:induction false} SelectAll(entries: seq<Entry>, keep: set<int>, from: nat)
    requires from <= |entries|
    requires forall k :: from <= k < |entries| ==> k in keep
    ensures Select(entries, keep, from) == entries[from..]
    decreases |entries| - from
  {
    if from < |entries| {
      SelectAll(entries, keep, from + 1);
    }
  }

  /** The index set `remove_patterns` ends with. */
  ghost function KeptSet(entries: seq<Entry>, minLen: nat, minReps: nat): set<int>
    requires minLen >= 1 && minReps >= 1
  {
    if |entries| < minLen * minReps then Span(0, |entries|)
    else Detect(Keys(entries), Span(0, |entries|), minReps, minLen, LengthBound(|entries|, minReps)).0
  }

  /**
    `remove_patterns` returns a subsequence of its input in original order:
    the entries at the ascending indices `kept`.
  */
  lemma CleanIsSubsequence(entries: seq<Entry>, minLen: nat, minReps: nat)
    requires minLen >= 1 && minReps >= 1
    ensures var res := Clean(entries, minLen, minReps);
      var kept := KeptIndices(KeptSet(entries, minLen, minReps), 0, |entries|);
      |res.0| == |kept| &&
      (forall t :: 0 <= t < |kept| ==> kept[t] < |entries| && res.0[t] == entries[kept[t]]) &&
      (forall s, t :: 0 <= s < t < |kept| ==> kept[s] < kept[t])
  {
    var keepSet := KeptSet(entries, minLen, minReps);
    assert Clean(entries, minLen, minReps).0 == Select(entries, keepSet, 0) by {
      if |entries| < minLen * minReps {
        SelectAll(entries, keepSet, 0);
      }
    }
    SelectIndexed(entries, keepSet, 0);
    KeptIndicesAscending(keepSet, 0, |entries|);
  }

  /**
    The kept indices are exactly those no reported pattern discards, and
    the first `2 * minLen` entries always survive, so a non-empty trace
    stays non-empty.
  */
  lemma CleanKeepsUnremoved(entries: seq<Entry>, minLen: nat, minReps: nat)
    requires minLen >= 1 && minReps >= 1
    ensures var res := Clean(entries, minLen, minReps);
      var kept := KeptIndices(KeptSet(entries, minLen, minReps), 0, |entries|);
      (forall k :: 0 <= k < |entries| ==> (k in kept <==> k !in RemovedBy(res.1))) &&
      (forall k :: 0 <= k < |entries| && k < 2 * minLen ==> k in kept)
  {
    KeptListed(KeptSet(entries, minLen, minReps), |entries|);
    KeptSetIsUnremoved(entries, minLen, minReps);
  }

  /** An index below `n` is listed exactly when it is kept. */
  lemma KeptListed(keep: set<int>, n: nat)
    ensures forall k :: 0 <= k < n ==> (k in KeptIndices(keep, 0, n) <==> k in keep)
  {
    var kept := KeptIndices(keep, 0, n);
    KeptIndicesRange(keep, 0, n);
    KeptIndicesComplete(keep, 0, n);
    forall k | 0 <= k < n && k in kept
      ensures k in keep
    {
      var t :| 0 <= t < |kept| && kept[t] == k;
    }
  }

  /** The kept set is what the reported patterns leave, and it holds the first `2 * minLen` indices. */
  lemma KeptSetIsUnremoved(entries: seq<Entry>, minLen: nat, minReps: nat)
    requires minLen >= 1 && minReps >= 1
    ensures var removed := RemovedBy(Clean(entries, minLen, minReps).1);
      (forall k :: 0 <= k < |entries| ==> (k in KeptSet(entries, minLen, minReps) <==> k !in removed)) &&
      (forall k :: 0 <= k < |entries| && k < 2 * minLen ==> k !in removed)
  {
    var n := |entries|;
    if n >= minLen * minReps {
      var d := Detect(Keys(entries), Span(0, n), minReps, minLen, LengthBound(n, minReps));
      assert Clean(entries, minLen, minReps).1 == d.1;
      assert KeptSet(entries, minLen, minReps) == d.0;
      DetectFacts(Keys(entries), Span(0, n), minReps, minLen, LengthBound(n, minReps));
      RemovedByAbove(d.1, 2 * minLen);
    }
  }

  /** Every reported pattern was tried at a length in `[minLen, min(30, n // minReps))` and holds in the keys. */
  lemma CleanRecordsTried(entries: seq<Entry>, minLen: nat, minReps: nat)
    requires minLen >= 1 && minReps >= 1
    ensures var res := Clean(entries, minLen, minReps);
      forall r :: r in res.1 ==> minLen <= r.length < LengthBound(|entries|, minReps) &&
                                 ValidRecord(Keys(entries), r, r.length, minReps)
  {
    var n := |entries|;
    if n >= minLen * minReps {
      DetectFacts(Keys(entries), Span(0, n), minReps, minLen, LengthBound(n, minReps));
    }
  }

  /**
    The pattern-length range is exclusive: with the default thresholds a
    trace of 60 to 79 entries is long enough to be scanned, yet
    `range(3, min(30, n // 20))` is empty, so nothing is removed.
  */
  lemma NoLengthTriedBelowEighty(entries: seq<Entry>)
    requires 60 <= |entries| < 80
    ensures Clean(entries, 3, 20) == (entries, [])
  {
    assert |entries| / 20 == 3;
    SelectAll(entries, Span(0, |entries|), 0);
  }

  /**
    `_detect_pattern_length`: one pass over the keys for one pattern length.
    The kept set is threaded through instead of being mutated in place, and
    the records are returned instead of appended to the detector.
  */
  method DetectPatternLength(keys: seq<string>, keep: set<int>, L: nat, minReps: nat)
    returns (newKeep: set<int>, found: seq<PatternRecord>)
    requires L >= 1 && minReps >= 1
    ensures (newKeep, found) == Scan(keys, keep, L, minReps, 0)
  {
    newKeep, found := keep, [];
    var i := 0;
    assert found + Scan(keys, newKeep, L, minReps, i).1 == Scan(keys, newKeep, L, minReps, i).1;
    while i <= |keys| - L * minReps
      invariant 0 <= i <= |keys|
      invariant Scan(keys, keep, L, minReps, 0) == Resume(keys, newKeep, found, L, minReps, i)
      decreases |keys| - i
    {
      newKeep, found, i := ScanAt(keys, newKeep, found, L, minReps, i);
    }
    assert found + [] == found;
  }

  /** What is left of a pass at index `i`, after the records `found` so far. */
  ghost function Resume(keys: seq<string>, keep: set<int>, found: seq<PatternRecord>, L: nat, minReps: nat, i: nat): (set<int>, seq<PatternRecord>)
    requires L >= 1 && minReps >= 1 && i <= |keys|
  {
    var rest := Scan(keys, keep, L, minReps, i);
    (rest.0, found + rest.1)
  }

  /** One iteration of the pass loop: skip a discarded index, record a pattern, or move on. */
  method ScanAt(keys: seq<string>, keep: set<int>, found: seq<PatternRecord>, L: nat, minReps: nat, i: nat)
    returns (newKeep: set<int>, newFound: seq<PatternRecord>, next: nat)
    requires L >= 1 && minReps >= 1 && i <= |keys| - L * minReps
    ensures i < next <= |keys|
    ensures Resume(keys, newKeep, newFound, L, minReps, next) == Resume(keys, keep, found, L, minReps, i)
  {
    MulAtLeast(L, minReps);
    if i !in keep {
      return keep, found, i + 1;
    }
    var reps := CountReps(keys, i, L);
    if reps < minReps {
      return keep, found, i + 1;
    }
    var removeStart := i + 2 * L;
    var removeEnd := i + reps * L;
    var record := PatternRecord(L, reps, i, (reps - 2) * L);
    newKeep := Discard(keep, removeStart, removeEnd);
    ghost var rest := Scan(keys, newKeep, L, minReps, removeEnd);
    assert Scan(keys, keep, L, minReps, i) == (rest.0, [record] + rest.1);
    assert (found + [record]) + rest.1 == found + ([record] + rest.1);
    newFound := found + [record];
    next := removeEnd;
  }

  /** The repetition-counting loop of `_detect_pattern_length`, on the original keys. */
  method CountReps(keys: seq<string>, i: nat, L: nat) returns (reps: nat)
    requires L >= 1 && i + L <= |keys|
    ensures reps == Reps(keys, i, L)
  {
    reps := 1;
    var pos := i + L;
    while pos + L <= |keys| && keys[pos..pos + L] == keys[i..i + L]
      invariant i + L <= pos <= |keys|
      invariant Reps(keys, i, L) == reps + MoreReps(keys, i, L, pos)
      decreases |keys| - pos
    {
      reps := reps + 1;
      pos := pos + L;
    }
  }

  /** The `for idx in range(lo, hi): keep_indices.discard(idx)` loop. */
  method Discard(keep: set<int>, lo: int, hi: int) returns (newKeep: set<int>)
    ensures newKeep == keep - Span(lo, hi)
  {
    newKeep := keep;
    var idx := lo;
    while idx < hi
      invariant lo <= idx && (idx <= hi || idx == lo)
      invariant forall k :: k in newKeep <==> k in keep && !(lo <= k < idx)
      decreases hi - idx
    {
      newKeep := newKeep - {idx};
      idx := idx + 1;
    }
    ghost var target := keep - Span(lo, hi);
    assert forall k :: k in newKeep <==> k in target;
    assert newKeep == target;
  }

  /**
    The `for pattern_len in range(...)` loop of `remove_patterns`: one pass
    per length, each on the kept set the previous pass left.
  */
  method DetectAll(keys: seq<string>, minLen: nat, minReps: nat, hi: int, keep0: set<int>)
    returns (keep: set<int>, found: seq<PatternRecord>)
    requires minLen >= 1 && minReps >= 1
    ensures (keep, found) == Detect(keys, keep0, minReps, minLen, hi)
  {
    keep, found := keep0, [];
    var patternLen := minLen;
    assert found + Detect(keys, keep, minReps, patternLen, hi).1 == Detect(keys, keep, minReps, patternLen, hi).1;
    while patternLen < hi
      invariant patternLen >= minLen
      invariant Detect(keys, keep0, minReps, minLen, hi) ==
        (Detect(keys, keep, minReps, patternLen, hi).0, found + Detect(keys, keep, minReps, patternLen, hi).1)
      decreases hi - patternLen
    {
      ghost var pass := Scan(keys, keep, patternLen, minReps, 0);
      ghost var rest := Detect(keys, pass.0, minReps, patternLen + 1, hi);
      assert Detect(keys, keep, minReps, patternLen, hi) == (rest.0, pass.1 + rest.1);
      var more;
      keep, more := DetectPatternLength(keys, keep, patternLen, minReps);
      assert (found + more) + rest.1 == found + (more + rest.1);
      found := found + more;
      patternLen := patternLen + 1;
    }
    assert found + [] == found;
  }

  /**
    The detector object: its thresholds, `removed_count` and the
    `patterns_found` list that every call of `RemovePatterns` appends to.
  */
  class InfiniteLoopDetector {
    const minPatternLength: nat
    const minRepetitions: nat
    var removedCount: int
    var patternsFound: seq<PatternRecord>

    constructor (minPatternLength: nat, minRepetitions: nat)
      requires minPatternLength >= 1 && minRepetitions >= 1
      ensures this.minPatternLength == minPatternLength && this.minRepetitions == minRepetitions
      ensures removedCount == 0 && patternsFound == []
    {
      this.minPatternLength := minPatternLength;
      this.minRepetitions := minRepetitions;
      removedCount := 0;
      patternsFound := [];
    }

    /** `remove_patterns`. */
    method RemovePatterns(entries: seq<Entry>) returns (result: seq<Entry>)
      requires minPatternLength >= 1 && minRepetitions >= 1
      modifies this
      ensures result == Clean(entries, minPatternLength, minRepetitions).0
      ensures patternsFound == old(patternsFound) + Clean(entries, minPatternLength, minRepetitions).1
      ensures removedCount == if |result| < |entries| then |entries| - |result| else old(removedCount)
    {
      if |entries| < minPatternLength * minRepetitions {
        return entries;
      }
      var keep, found := DetectAll(Keys(entries), minPatternLength, minRepetitions,
                                   LengthBound(|entries|, minRepetitions), Span(0, |entries|));
      patternsFound := patternsFound + found;
      result := Select(entries, keep, 0);
      var removed := |entries| - |result|;
      if removed > 0 {
        removedCount := removed;
      }
    }
  }
}
