/**
  The aligner: the classic (m+1) x (n+1) longest-common-subsequence table
  over the two cleaned traces, compared by full key, and the traceback
  that turns it into an edit script.

  `Table` and `Script` are the reference definitions; the class
  `LcsComparator` holds the 2-D table and the two sequences as the source
  object does, and its methods are proved to compute them.
*/
module Lcs {
  import opened LogEntries

  /**
    One operation of the edit script. The source stores -1 as the missing
    side's index; here each kind carries only the indices it has.
  */
  datatype DiffOp =
    | Equal(coreIdx: nat, spikeIdx: nat, entry: Entry)
    | Delete(coreIdx: nat, entry: Entry)
    | Insert(spikeIdx: nat, entry: Entry)

  function Max(x: int, y: int): int {
    if x >= y then x else y
  }

  /** `lcs_table[i][j]`: the recurrence the table is filled with. */
  function Table(a: seq<Entry>, b: seq<Entry>, i: nat, j: nat): nat
    requires i <= |a| && j <= |b|
    decreases i + j
  {
    if i == 0 || j == 0 then 0
    else if Same(a[i - 1], b[j - 1]) then Table(a, b, i - 1, j - 1) + 1
    else Max(Table(a, b, i - 1, j), Table(a, b, i, j - 1))
  }

  /** One traceback step: the operation emitted and the cell moved to. */
  datatype Move = Move(op: DiffOp, i: nat, j: nat)

  /**
    The step `traceback_differences` takes from cell `(i, j)`: EQUAL on a
    match, else INSERT when the cell to the left is at least the cell
    above (ties go to INSERT), else DELETE.
  */
  function Back(a: seq<Entry>, b: seq<Entry>, i: nat, j: nat): (mv: Move)
    requires i <= |a| && j <= |b| && (i > 0 || j > 0)
    ensures mv.op.Equal? ==> 0 < i && 0 < j && mv == Move(Equal(i - 1, j - 1, a[i - 1]), i - 1, j - 1) && Same(a[i - 1], b[j - 1])
    ensures mv.op.Insert? ==> 0 < j && mv == Move(Insert(j - 1, b[j - 1]), i, j - 1)
    ensures mv.op.Delete? ==> 0 < i && mv == Move(Delete(i - 1, a[i - 1]), i - 1, j)
  {
    if i > 0 && j > 0 && Same(a[i - 1], b[j - 1]) then Move(Equal(i - 1, j - 1, a[i - 1]), i - 1, j - 1)
    else if j > 0 && (i == 0 || Table(a, b, i, j - 1) >= Table(a, b, i - 1, j)) then Move(Insert(j - 1, b[j - 1]), i, j - 1)
    else Move(Delete(i - 1, a[i - 1]), i - 1, j)
  }

  /**
    Which step is taken: EQUAL exactly on a match; INSERT exactly when
    there is no match, a column is left and the cell to the left is at
    least the cell above (so ties go to INSERT); DELETE otherwise.
  */
  lemma BackPrefersInsert(a: seq<Entry>, b: seq<Entry>, i: nat, j: nat)
    requires i <= |a| && j <= |b| && (i > 0 || j > 0)
    ensures Back(a, b, i, j).op.Equal? <==> (0 < i && 0 < j && Same(a[i - 1], b[j - 1]))
    ensures Back(a, b, i, j).op.Insert? <==>
      (!(0 < i && 0 < j && Same(a[i - 1], b[j - 1])) && 0 < j && (i == 0 || Table(a, b, i, j - 1) >= Table(a, b, i - 1, j)))
    ensures Back(a, b, i, j).op.Delete? <==>
      (!(0 < i && 0 < j && Same(a[i - 1], b[j - 1])) && !(0 < j && (i == 0 || Table(a, b, i, j - 1) >= Table(a, b, i - 1, j))))
  {
  }

  /**
    The operations the traceback emits from `(i, j)` back to `(0, 0)`, in
    forward order (after the final reverse).
  */
  function Script(a: seq<Entry>, b: seq<Entry>, i: nat, j: nat): seq<DiffOp>
    requires i <= |a| && j <= |b|
    decreases i + j
  {
    if i == 0 && j == 0 then []
    else
      var mv := Back(a, b, i, j);
      Script(a, b, mv.i, mv.j) + [mv.op]
  }

  function Reversed<T>(s: seq<T>): (r: seq<T>)
    ensures |r| == |s|
  {
    if s == [] then [] else Reversed(s[1..]) + [s[0]]
  }

  lemma {:induction false} ReversedSnoc<T>(s: seq<T>, x: T)
    ensures Reversed(s + [x]) == [x] + Reversed(s)
  {
    if s == [] {
      assert s + [x] == [x];
    } else {
      assert (s + [x])[1..] == s[1..] + [x];
      ReversedSnoc(s[1..], x);
    }
  }

  /** Appending to the reversed tail moves the operation to the front of it. */
  lemma TracebackStep<T>(prefix: seq<T>, op: T, rev: seq<T>)
    ensures prefix + [op] + Reversed(rev) == prefix + Reversed(rev + [op])
  {
    ReversedSnoc(rev, op);
    assert prefix + Reversed(rev + [op]) == (prefix + [op]) + Reversed(rev);
  }

  /** `0, 1, ..., n - 1`. */
  function Range(n: nat): (r: seq<nat>)
    ensures |r| == n
  {
    if n == 0 then [] else Range(n - 1) + [n - 1]
  }

  /** The full keys of a trace, in order. */
  function KeysOf(s: seq<Entry>): (r: seq<string>)
    ensures |r| == |s|
  {
    if s == [] then [] else KeysOf(s[..|s| - 1]) + [FullKey(s[|s| - 1])]
  }

  /** Core-trace index of one operation, if it has one. */
  function CoreIndexOf(op: DiffOp): seq<nat> {
    match op
    case Insert(_, _) => []
    case Equal(c, _, _) => [c]
    case Delete(c, _) => [c]
  }

  /** Spike-trace index of one operation, if it has one. */
  function SpikeIndexOf(op: DiffOp): seq<nat> {
    match op
    case Delete(_, _) => []
    case Equal(_, t, _) => [t]
    case Insert(t, _) => [t]
  }

  /** Core-trace indices the script visits (EQUAL and DELETE), in order. */
  function CoreIndices(ops: seq<DiffOp>): seq<nat> {
    if ops == [] then [] else CoreIndices(ops[..|ops| - 1]) + CoreIndexOf(ops[|ops| - 1])
  }

  /** Core-trace entries the script carries (EQUAL and DELETE), in order. */
  function CoreSide(ops: seq<DiffOp>): seq<Entry> {
    if ops == [] then []
    else CoreSide(ops[..|ops| - 1]) + (if ops[|ops| - 1].Insert? then [] else [ops[|ops| - 1].entry])
  }

  /** Spike-trace indices the script visits (EQUAL and INSERT), in order. */
  function SpikeIndices(ops: seq<DiffOp>): seq<nat> {
    if ops == [] then [] else SpikeIndices(ops[..|ops| - 1]) + SpikeIndexOf(ops[|ops| - 1])
  }

  /** Full keys of the entries on the spike side of the script (EQUAL and INSERT), in order. */
  function SpikeKeys(ops: seq<DiffOp>): seq<string> {
    if ops == [] then []
    else SpikeKeys(ops[..|ops| - 1]) + (if ops[|ops| - 1].Delete? then [] else [FullKey(ops[|ops| - 1].entry)])
  }

  /** The `(core, spike)` index pairs of the EQUAL operations, in order. */
  function Matches(ops: seq<DiffOp>): seq<(nat, nat)> {
    if ops == [] then []
    else Matches(ops[..|ops| - 1]) + (if ops[|ops| - 1].Equal? then [(ops[|ops| - 1].coreIdx, ops[|ops| - 1].spikeIdx)] else [])
  }

  /** Every projection of a script distributes over appending one operation. */
  lemma CoreSnoc(ops: seq<DiffOp>, op: DiffOp)
    ensures CoreIndices(ops + [op]) == CoreIndices(ops) + CoreIndexOf(op)
    ensures CoreSide(ops + [op]) == CoreSide(ops) + (if op.Insert? then [] else [op.entry])
  {
    assert (ops + [op])[..|ops|] == ops;
  }

  lemma SpikeSnoc(ops: seq<DiffOp>, op: DiffOp)
    ensures SpikeIndices(ops + [op]) == SpikeIndices(ops) + SpikeIndexOf(op)
    ensures SpikeKeys(ops + [op]) == SpikeKeys(ops) + (if op.Delete? then [] else [FullKey(op.entry)])
  {
    assert (ops + [op])[..|ops|] == ops;
  }

  lemma MatchesSnoc(ops: seq<DiffOp>, op: DiffOp)
    ensures Matches(ops + [op]) == Matches(ops) + (if op.Equal? then [(op.coreIdx, op.spikeIdx)] else [])
  {
    assert (ops + [op])[..|ops|] == ops;
  }

  /**
    `ps` is a common subsequence of `a[..i]` and `b[..j]`, given as strictly
    increasing index pairs whose entries are equal.
  */
  ghost predicate IsCommon(a: seq<Entry>, b: seq<Entry>, i: nat, j: nat, ps: seq<(nat, nat)>)
    requires i <= |a| && j <= |b|
  {
    (forall k :: 0 <= k < |ps| ==> ps[k].0 < i && ps[k].1 < j && Same(a[ps[k].0], b[ps[k].1])) &&
    (forall k, l :: 0 <= k < l < |ps| ==> ps[k].0 < ps[l].0 && ps[k].1 < ps[l].1)
  }

  /** Moving one row or one column back lowers the table by at most one and never raises it. */
  lemma {:induction false} TableSteps(a: seq<Entry>, b: seq<Entry>, i: nat, j: nat)
    requires i <= |a| && j <= |b|
    ensures i > 0 ==> Table(a, b, i - 1, j) <= Table(a, b, i, j) <= Table(a, b, i - 1, j) + 1
    ensures j > 0 ==> Table(a, b, i, j - 1) <= Table(a, b, i, j) <= Table(a, b, i, j - 1) + 1
    decreases i + j
  {
    if i > 0 && j > 0 {
      TableSteps(a, b, i - 1, j);
      TableSteps(a, b, i, j - 1);
      TableSteps(a, b, i - 1, j - 1);
    }
  }

  /** An LCS of two prefixes is no longer than either prefix. */
  lemma {:induction false} TableBound(a: seq<Entry>, b: seq<Entry>, i: nat, j: nat)
    requires i <= |a| && j <= |b|
    ensures Table(a, b, i, j) <= i && Table(a, b, i, j) <= j
    decreases i + j
  {
    if i > 0 && j > 0 {
      TableSteps(a, b, i, j);
      TableBound(a, b, i - 1, j);
      TableBound(a, b, i, j - 1);
    }
  }

  /** Appending one operation to a script that covers `a[..i']` covers `a[..i]`. */
  lemma CoreStep(a: seq<Entry>, i: nat, i': nat, ops: seq<DiffOp>, op: DiffOp)
    requires i' <= i <= |a|
    requires CoreIndices(ops) == Range(i') && CoreSide(ops) == a[..i']
    requires (op.Insert? && i' == i) || (!op.Insert? && 0 < i && i' == i - 1 && op.coreIdx == i - 1 && op.entry == a[i - 1])
    ensures CoreIndices(ops + [op]) == Range(i) && CoreSide(ops + [op]) == a[..i]
  {
    CoreSnoc(ops, op);
    if op.Insert? {
      assert CoreIndexOf(op) == [];
    } else {
      assert CoreIndexOf(op) == [i - 1];
      assert Range(i) == Range(i - 1) + [i - 1];
      assert a[..i] == a[..i - 1] + [a[i - 1]];
    }
  }

  /** Appending one operation to a script that covers `b[..j']` covers `b[..j]`. */
  lemma SpikeStep(b: seq<Entry>, j: nat, j': nat, ops: seq<DiffOp>, op: DiffOp)
    requires j' <= j <= |b|
    requires SpikeIndices(ops) == Range(j') && SpikeKeys(ops) == KeysOf(b[..j'])
    requires (op.Delete? && j' == j) ||
             (!op.Delete? && 0 < j && j' == j - 1 && op.spikeIdx == j - 1 && FullKey(op.entry) == FullKey(b[j - 1]))
    ensures SpikeIndices(ops + [op]) == Range(j) && SpikeKeys(ops + [op]) == KeysOf(b[..j])
  {
    SpikeSnoc(ops, op);
    if op.Delete? {
      assert SpikeIndexOf(op) == [];
    } else {
      assert SpikeIndexOf(op) == [j - 1];
      assert Range(j) == Range(j - 1) + [j - 1];
      assert b[..j][..j - 1] == b[..j - 1];
    }
  }

  /** The script visits every core index once, in order, and carries exactly the core trace. */
  lemma {:induction false} ScriptCoreSide(a: seq<Entry>, b: seq<Entry>, i: nat, j: nat)
    requires i <= |a| && j <= |b|
    ensures CoreIndices(Script(a, b, i, j)) == Range(i)
    ensures CoreSide(Script(a, b, i, j)) == a[..i]
    decreases i + j
  {
    if i == 0 && j == 0 {
      assert Script(a, b, i, j) == [];
    } else {
      var mv := Back(a, b, i, j);
      var prev := Script(a, b, mv.i, mv.j);
      assert Script(a, b, i, j) == prev + [mv.op];
      ScriptCoreSide(a, b, mv.i, mv.j);
      CoreStep(a, i, mv.i, prev, mv.op);
    }
  }

  /**
    The script visits every spike index once, in order, and its spike side
    has exactly the full keys of the spike trace (an EQUAL carries the core
    entry, whose full key is the same).
  */
  lemma {:induction false} ScriptSpikeSide(a: seq<Entry>, b: seq<Entry>, i: nat, j: nat)
    requires i <= |a| && j <= |b|
    ensures SpikeIndices(Script(a, b, i, j)) == Range(j)
    ensures SpikeKeys(Script(a, b, i, j)) == KeysOf(b[..j])
    decreases i + j
  {
    if i == 0 && j == 0 {
      assert Script(a, b, i, j) == [];
    } else {
      var mv := Back(a, b, i, j);
      var prev := Script(a, b, mv.i, mv.j);
      assert Script(a, b, i, j) == prev + [mv.op];
      ScriptSpikeSide(a, b, mv.i, mv.j);
      SpikeStep(b, j, mv.j, prev, mv.op);
    }
  }

  /** Each traceback step stays on the table's path: EQUAL drops it by one, the others keep it. */
  lemma BackFollowsTable(a: seq<Entry>, b: seq<Entry>, i: nat, j: nat)
    requires i <= |a| && j <= |b| && (i > 0 || j > 0)
    ensures Table(a, b, i, j) == Table(a, b, Back(a, b, i, j).i, Back(a, b, i, j).j) + (if Back(a, b, i, j).op.Equal? then 1 else 0)
  {
  }

  /** The script has exactly `Table(i, j)` EQUAL operations. */
  lemma {:induction false} ScriptMatchCount(a: seq<Entry>, b: seq<Entry>, i: nat, j: nat)
    requires i <= |a| && j <= |b|
    ensures |Matches(Script(a, b, i, j))| == Table(a, b, i, j)
    decreases i + j
  {
    if i == 0 && j == 0 {
      assert Script(a, b, i, j) == [];
    } else {
      var mv := Back(a, b, i, j);
      var prev := Script(a, b, mv.i, mv.j);
      assert Script(a, b, i, j) == prev + [mv.op];
      ScriptMatchCount(a, b, mv.i, mv.j);
      MatchesSnoc(prev, mv.op);
      BackFollowsTable(a, b, i, j);
    }
  }

  /** The EQUAL operations of the script form a common subsequence of the two prefixes. */
  lemma {:induction false} ScriptMatchesCommon(a: seq<Entry>, b: seq<Entry>, i: nat, j: nat)
    requires i <= |a| && j <= |b|
    ensures IsCommon(a, b, i, j, Matches(Script(a, b, i, j)))
    decreases i + j
  {
    if i == 0 && j == 0 {
      assert Script(a, b, i, j) == [];
    } else {
      var mv := Back(a, b, i, j);
      var prev := Script(a, b, mv.i, mv.j);
      assert Script(a, b, i, j) == prev + [mv.op];
      ScriptMatchesCommon(a, b, mv.i, mv.j);
      CommonStep(a, b, i, j, prev);
    }
  }

  /** One traceback step keeps the EQUAL pairs a common subsequence. */
  lemma CommonStep(a: seq<Entry>, b: seq<Entry>, i: nat, j: nat, prev: seq<DiffOp>)
    requires i <= |a| && j <= |b| && (i > 0 || j > 0)
    requires IsCommon(a, b, Back(a, b, i, j).i, Back(a, b, i, j).j, Matches(prev))
    ensures IsCommon(a, b, i, j, Matches(prev + [Back(a, b, i, j).op]))
  {
    var mv := Back(a, b, i, j);
    MatchesSnoc(prev, mv.op);
    if mv.op.Equal? {
      CommonSnoc(a, b, i, j, Matches(prev));
    } else {
      CommonWiden(a, b, mv.i, mv.j, i, j, Matches(prev));
    }
  }

  /** A common subsequence of shorter prefixes is one of longer prefixes. */
  lemma CommonWiden(a: seq<Entry>, b: seq<Entry>, i: nat, j: nat, i': nat, j': nat, ps: seq<(nat, nat)>)
    requires i <= i' <= |a| && j <= j' <= |b|
    requires IsCommon(a, b, i, j, ps)
    ensures IsCommon(a, b, i', j', ps)
  {
  }

  /** A common subsequence of the shorter prefixes extends by the matching last pair. */
  lemma CommonSnoc(a: seq<Entry>, b: seq<Entry>, i: nat, j: nat, ps: seq<(nat, nat)>)
    requires 0 < i <= |a| && 0 < j <= |b|
    requires IsCommon(a, b, i - 1, j - 1, ps) && Same(a[i - 1], b[j - 1])
    ensures IsCommon(a, b, i, j, ps + [(i - 1, j - 1)])
  {
  }

  /** A common subsequence whose last pair lies within shorter prefixes lies wholly within them. */
  lemma CommonNarrow(a: seq<Entry>, b: seq<Entry>, i: nat, j: nat, i': nat, j': nat, ps: seq<(nat, nat)>)
    requires i' <= i <= |a| && j' <= j <= |b|
    requires IsCommon(a, b, i, j, ps) && ps != []
    requires ps[|ps| - 1].0 < i' && ps[|ps| - 1].1 < j'
    ensures IsCommon(a, b, i', j', ps)
  {
    forall k | 0 <= k < |ps| - 1
      ensures ps[k].0 < i' && ps[k].1 < j'
    {
      assert ps[k].0 < ps[|ps| - 1].0;
    }
  }

  /** Dropping the last pair of a common subsequence leaves one of the prefixes before that pair. */
  lemma CommonInit(a: seq<Entry>, b: seq<Entry>, i: nat, j: nat, ps: seq<(nat, nat)>)
    requires 0 < i <= |a| && 0 < j <= |b|
    requires IsCommon(a, b, i, j, ps) && ps != [] && ps[|ps| - 1] == (i - 1, j - 1)
    ensures IsCommon(a, b, i - 1, j - 1, ps[..|ps| - 1])
  {
    forall k | 0 <= k < |ps| - 1
      ensures ps[k].0 < i - 1 && ps[k].1 < j - 1
    {
      assert ps[k].0 < ps[|ps| - 1].0;
    }
  }

  /** No common subsequence of `a[..i]` and `b[..j]` is longer than `Table(i, j)`. */
  lemma {:induction false} TableIsUpperBound(a: seq<Entry>, b: seq<Entry>, i: nat, j: nat, ps: seq<(nat, nat)>)
    requires i <= |a| && j <= |b|
    requires IsCommon(a, b, i, j, ps)
    ensures |ps| <= Table(a, b, i, j)
    decreases i + j, 1
  {
    if ps != [] {
      var last := ps[|ps| - 1];
      assert last.0 < i && last.1 < j;
      if last.0 < i - 1 {
        UpperBoundAbove(a, b, i, j, ps);
      } else if last.1 < j - 1 {
        UpperBoundLeft(a, b, i, j, ps);
      } else {
        UpperBoundDiagonal(a, b, i, j, ps);
      }
    }
  }

  /** The last pair lies above row `i`: the bound for row `i - 1` carries over. */
  lemma {:induction false} UpperBoundAbove(a: seq<Entry>, b: seq<Entry>, i: nat, j: nat, ps: seq<(nat, nat)>)
    requires 0 < i <= |a| && j <= |b|
    requires IsCommon(a, b, i, j, ps) && ps != [] && ps[|ps| - 1].0 < i - 1
    ensures |ps| <= Table(a, b, i, j)
    decreases i + j, 0
  {
    CommonNarrow(a, b, i, j, i - 1, j, ps);
    TableIsUpperBound(a, b, i - 1, j, ps);
    TableSteps(a, b, i, j);
  }

  /** The last pair lies left of column `j`: the bound for column `j - 1` carries over. */
  lemma {:induction false} UpperBoundLeft(a: seq<Entry>, b: seq<Entry>, i: nat, j: nat, ps: seq<(nat, nat)>)
    requires i <= |a| && 0 < j <= |b|
    requires IsCommon(a, b, i, j, ps) && ps != [] && ps[|ps| - 1].1 < j - 1
    ensures |ps| <= Table(a, b, i, j)
    decreases i + j, 0
  {
    CommonNarrow(a, b, i, j, i, j - 1, ps);
    TableIsUpperBound(a, b, i, j - 1, ps);
    TableSteps(a, b, i, j);
  }

  /** The last pair is the corner `(i - 1, j - 1)`: it is a match, and the rest fits the smaller table. */
  lemma {:induction false} UpperBoundDiagonal(a: seq<Entry>, b: seq<Entry>, i: nat, j: nat, ps: seq<(nat, nat)>)
    requires 0 < i <= |a| && 0 < j <= |b|
    requires IsCommon(a, b, i, j, ps) && ps != [] && ps[|ps| - 1] == (i - 1, j - 1)
    ensures |ps| <= Table(a, b, i, j)
    decreases i + j, 0
  {
    assert Same(a[i - 1], b[j - 1]);
    CommonInit(a, b, i, j, ps);
    TableIsUpperBound(a, b, i - 1, j - 1, ps[..|ps| - 1]);
  }

  /**
    `T[m][n]` is the length of a longest common subsequence of the two
    traces, and the traceback's EQUAL operations realise one.
  */
  lemma LcsOptimal(a: seq<Entry>, b: seq<Entry>)
    ensures IsCommon(a, b, |a|, |b|, Matches(Script(a, b, |a|, |b|)))
    ensures |Matches(Script(a, b, |a|, |b|))| == Table(a, b, |a|, |b|)
    ensures forall ps :: IsCommon(a, b, |a|, |b|, ps) ==> |ps| <= Table(a, b, |a|, |b|)
  {
    ScriptMatchesCommon(a, b, |a|, |b|);
    ScriptMatchCount(a, b, |a|, |b|);
    forall ps | IsCommon(a, b, |a|, |b|, ps)
      ensures |ps| <= Table(a, b, |a|, |b|)
    {
      TableIsUpperBound(a, b, |a|, |b|, ps);
    }
  }

  /** The inner loop of `compute_lcs_table`: fills row `i` from the row above it. */
  method FillRow(t: array2<int>, a: seq<Entry>, b: seq<Entry>, i: nat)
    requires t.Length0 == |a| + 1 && t.Length1 == |b| + 1 && 1 <= i <= |a|
    requires forall r, c :: 0 <= r < i && 0 <= c <= |b| ==> t[r, c] == Table(a, b, r, c)
    requires t[i, 0] == 0
    modifies t
    ensures forall c :: 0 <= c <= |b| ==> t[i, c] == Table(a, b, i, c)
    ensures forall r, c :: 0 <= r < t.Length0 && r != i && 0 <= c < t.Length1 ==> t[r, c] == old(t[r, c])
  {
    var j := 1;
    while j <= |b|
      invariant 1 <= j <= |b| + 1
      invariant forall c :: 0 <= c < j ==> t[i, c] == Table(a, b, i, c)
      invariant forall r, c :: 0 <= r < t.Length0 && r != i && 0 <= c < t.Length1 ==> t[r, c] == old(t[r, c])
    {
      var v := if Same(a[i - 1], b[j - 1]) then t[i - 1, j - 1] + 1 else Max(t[i - 1, j], t[i, j - 1]);
      assert v == Table(a, b, i, j);
      t[i, j] := v;
      j := j + 1;
    }
  }

  /** The LCS comparator object: the table and the two sequences it was computed for. */
  class LcsComparator {
    var lcsTable: array2?<int>
    var sequenceA: seq<Entry>
    var sequenceB: seq<Entry>

    /** A stored table has the right shape and holds the recurrence for the stored sequences. */
    ghost predicate Valid()
      reads this, lcsTable
    {
      lcsTable != null ==>
        lcsTable.Length0 == |sequenceA| + 1 && lcsTable.Length1 == |sequenceB| + 1 &&
        forall i, j :: 0 <= i <= |sequenceA| && 0 <= j <= |sequenceB| ==>
          lcsTable[i, j] == Table(sequenceA, sequenceB, i, j)
    }

    constructor ()
      ensures Valid() && lcsTable == null && sequenceA == [] && sequenceB == []
    {
      lcsTable := null;
      sequenceA := [];
      sequenceB := [];
    }

    /** `compute_lcs_table`: fills a fresh zeroed table row by row. */
    method ComputeLcsTable(a: seq<Entry>, b: seq<Entry>) returns (t: array2<int>)
      modifies this
      ensures Valid() && fresh(t) && lcsTable == t && sequenceA == a && sequenceB == b
      ensures t.Length0 == |a| + 1 && t.Length1 == |b| + 1
      ensures forall i, j :: 0 <= i <= |a| && 0 <= j <= |b| ==> t[i, j] == Table(a, b, i, j)
    {
      var m, n := |a|, |b|;
      t := new int[m + 1, n + 1]((_, _) => 0);
      var i := 1;
      while i <= m
        invariant 1 <= i <= m + 1
        invariant forall r, c :: 0 <= r < i && 0 <= c <= n ==> t[r, c] == Table(a, b, r, c)
        invariant forall r, c :: i <= r <= m && 0 <= c <= n ==> t[r, c] == 0
      {
        FillRow(t, a, b, i);
        i := i + 1;
      }
      sequenceA, sequenceB := a, b;
      lcsTable := t;
    }

    /**
      `traceback_differences`: walks the table back from `(m, n)`, appending
      one operation per step, then reverses. Returns `[]` when no table was
      computed or either sequence is empty.
    */
    method TracebackDifferences() returns (diffs: seq<DiffOp>)
      requires Valid()
      ensures diffs == if lcsTable == null || sequenceA == [] || sequenceB == [] then []
                       else Script(sequenceA, sequenceB, |sequenceA|, |sequenceB|)
    {
      if lcsTable == null || sequenceA == [] || sequenceB == [] {
        return [];
      }
      var a, b := sequenceA, sequenceB;
      var m, n := |a|, |b|;
      var rev: seq<DiffOp> := [];
      var i, j := m, n;
      while i > 0 || j > 0
        invariant 0 <= i <= m && 0 <= j <= n
        invariant Script(a, b, m, n) == Script(a, b, i, j) + Reversed(rev)
        decreases i + j
      {
        var op, i', j' := StepBack(i, j);
        TracebackStep(Script(a, b, i', j'), op, rev);
        rev := rev + [op];
        i, j := i', j';
      }
      diffs := Reversed(rev);
    }

    /** One step of the traceback loop, read off the stored table. */
    method StepBack(i: nat, j: nat) returns (op: DiffOp, i': nat, j': nat)
      requires Valid() && lcsTable != null
      requires i <= |sequenceA| && j <= |sequenceB| && (i > 0 || j > 0)
      ensures Move(op, i', j') == Back(sequenceA, sequenceB, i, j)
    {
      var a, b := sequenceA, sequenceB;
      if i > 0 && j > 0 && Same(a[i - 1], b[j - 1]) {
        op, i', j' := Equal(i - 1, j - 1, a[i - 1]), i - 1, j - 1;
      } else if j > 0 && (i == 0 || lcsTable[i, j - 1] >= lcsTable[i - 1, j]) {
        assert i == 0 || Table(a, b, i, j - 1) >= Table(a, b, i - 1, j);
        op, i', j' := Insert(j - 1, b[j - 1]), i, j - 1;
      } else {
        assert j == 0 || Table(a, b, i, j - 1) < Table(a, b, i - 1, j);
        op, i', j' := Delete(i - 1, a[i - 1]), i - 1, j;
      }
    }
  }
}
