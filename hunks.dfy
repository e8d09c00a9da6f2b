/**
  The hunk grouper of the comparator report: the edit script is cut into
  unified-diff style hunks, each a maximal stretch of changes (single
  EQUAL operations between two changes are absorbed) with up to three
  EQUAL operations of context on either side.
*/
module Hunks {
  import opened Lcs

  /** Number of context operations on each side of a hunk. */
  const ContextLines: nat := 3

  function Max0(x: int): nat {
    if x >= 0 then x else 0
  }

  function MinInt(x: int, y: int): int {
    if x <= y then x else y
  }

  /** The EQUAL operations of `d[lo..hi]`, in order. */
  function EqualsIn(d: seq<DiffOp>, lo: nat, hi: nat): (r: seq<DiffOp>)
    requires lo <= hi <= |d|
    ensures |r| <= hi - lo
    ensures forall k :: 0 <= k < |r| ==> r[k].Equal?
    decreases hi - lo
  {
    if hi == lo then []
    else EqualsIn(d, lo, hi - 1) + (if d[hi - 1].Equal? then [d[hi - 1]] else [])
  }

  /** The absorbing loop keeps going at `k`: a change here, or a change right after. */
  predicate Absorbs(d: seq<DiffOp>, k: nat) {
    k < |d| && (!d[k].Equal? || (k + 1 < |d| && !d[k + 1].Equal?))
  }

  /** Where the absorbing loop started at `i` stops. */
  function AbsorbEnd(d: seq<DiffOp>, i: nat): (e: nat)
    requires i <= |d|
    ensures i <= e <= |d|
    ensures !Absorbs(d, e)
    ensures forall k :: i <= k < e ==> Absorbs(d, k)
    decreases |d| - i
  {
    if Absorbs(d, i) then AbsorbEnd(d, i + 1) else i
  }

  /** Leading context of a hunk whose first change is at `i`. */
  function Lead(d: seq<DiffOp>, i: nat): seq<DiffOp>
    requires i <= |d|
  {
    EqualsIn(d, Max0(i - ContextLines), i)
  }

  /** Trailing context of a hunk whose absorbed part ends at `e`. */
  function Trail(d: seq<DiffOp>, e: nat): seq<DiffOp>
    requires e <= |d|
  {
    EqualsIn(d, e, MinInt(|d|, e + ContextLines))
  }

  /** The hunk opened by the change at `i`. */
  function HunkAt(d: seq<DiffOp>, i: nat): seq<DiffOp>
    requires i <= |d|
  {
    var e := AbsorbEnd(d, i);
    Lead(d, i) + d[i..e] + Trail(d, e)
  }

  /** The hunks `_group_into_hunks` produces when its scan is at `i`. */
  function Group(d: seq<DiffOp>, i: nat): seq<seq<DiffOp>>
    requires i <= |d|
    decreases |d| - i
  {
    if i == |d| then []
    else if !d[i].Equal? then [HunkAt(d, i)] + Group(d, AbsorbEnd(d, i))
    else Group(d, i + 1)
  }

  /** The change operations (DELETE and INSERT) of `s`, in order. */
  function Changes(s: seq<DiffOp>): seq<DiffOp> {
    if s == [] then [] else (if s[0].Equal? then [] else [s[0]]) + Changes(s[1..])
  }

  function Flatten(hs: seq<seq<DiffOp>>): seq<DiffOp> {
    if hs == [] then [] else hs[0] + Flatten(hs[1..])
  }

  /** The leading- and trailing-context loops: collect the EQUAL operations of `d[lo..hi]`. */
  method CollectEquals(d: seq<DiffOp>, lo: nat, hi: nat) returns (context: seq<DiffOp>)
    requires lo <= hi <= |d|
    ensures context == EqualsIn(d, lo, hi)
  {
    context := [];
    var j := lo;
    while j < hi
      invariant lo <= j <= hi
      invariant context == EqualsIn(d, lo, j)
    {
      if d[j].Equal? {
        context := context + [d[j]];
      }
      j := j + 1;
    }
  }

  /** The absorbing loop: takes operations while there is a change here or right after. */
  method Absorb(d: seq<DiffOp>, start: nat) returns (body: seq<DiffOp>, e: nat)
    requires start <= |d|
    ensures e == AbsorbEnd(d, start) && body == d[start..e]
  {
    body := [];
    e := start;
    while e < |d| && (!d[e].Equal? || (e + 1 < |d| && !d[e + 1].Equal?))
      invariant start <= e <= |d|
      invariant AbsorbEnd(d, start) == AbsorbEnd(d, e)
      invariant body == d[start..e]
      decreases |d| - e
    {
      assert d[start..e + 1] == d[start..e] + [d[e]];
      body := body + [d[e]];
      e := e + 1;
    }
  }

  /** `_group_into_hunks`: the index-driven scan over the edit script. */
  method GroupIntoHunks(differences: seq<DiffOp>) returns (hunks: seq<seq<DiffOp>>)
    ensures hunks == Group(differences, 0)
  {
    var d := differences;
    hunks := [];
    var i := 0;
    while i < |d|
      invariant 0 <= i <= |d|
      invariant Group(d, 0) == hunks + Group(d, i)
      decreases |d| - i
    {
      if !d[i].Equal? {
        var lead := CollectEquals(d, Max0(i - ContextLines), i);
        var body, e := Absorb(d, i);
        var trail := CollectEquals(d, e, MinInt(|d|, e + ContextLines));
        var current := lead + body + trail;
        assert current == HunkAt(d, i);
        assert Group(d, i) == [current] + Group(d, e);
        hunks := hunks + [current];
        i := e;
      } else {
        i := i + 1;
      }
    }
  }

  // ----- Properties -----

  lemma {:induction false} ChangesAppend(s: seq<DiffOp>, t: seq<DiffOp>)
    ensures Changes(s + t) == Changes(s) + Changes(t)
  {
    if s == [] {
      assert s + t == t;
    } else {
      assert (s + t)[1..] == s[1..] + t;
      ChangesAppend(s[1..], t);
    }
  }

  lemma ChangesOfEquals(d: seq<DiffOp>, lo: nat, hi: nat)
    requires lo <= hi <= |d|
    ensures Changes(EqualsIn(d, lo, hi)) == []
  {
    NoChanges(EqualsIn(d, lo, hi));
  }

  /** A run of EQUAL operations has no change. */
  lemma {:induction false} NoChanges(s: seq<DiffOp>)
    requires forall k :: 0 <= k < |s| ==> s[k].Equal?
    ensures Changes(s) == []
  {
    if s != [] {
      assert s[0].Equal?;
      NoChanges(s[1..]);
    }
  }

  /** Context adds no change: a hunk's changes are those of its absorbed stretch. */
  lemma HunkChanges(d: seq<DiffOp>, i: nat)
    requires i <= |d|
    ensures Changes(HunkAt(d, i)) == Changes(d[i..AbsorbEnd(d, i)])
  {
    var e := AbsorbEnd(d, i);
    ChangesOfEquals(d, Max0(i - ContextLines), i);
    ChangesOfEquals(d, e, MinInt(|d|, e + ContextLines));
    ChangesAppend(Lead(d, i), d[i..e]);
    ChangesAppend(Lead(d, i) + d[i..e], Trail(d, e));
  }

  lemma FlattenCons(h: seq<DiffOp>, hs: seq<seq<DiffOp>>)
    ensures Flatten([h] + hs) == h + Flatten(hs)
  {
    assert ([h] + hs)[1..] == hs;
  }

  /**
    Every change of the script appears in exactly one hunk, and the hunks
    list the changes in script order: the changes of the concatenated
    hunks are the changes of the script.
  */
  lemma {:induction false} GroupKeepsChanges(d: seq<DiffOp>, i: nat)
    requires i <= |d|
    ensures Changes(Flatten(Group(d, i))) == Changes(d[i..])
    decreases |d| - i
  {
    if i == |d| {
    } else if !d[i].Equal? {
      var e := AbsorbEnd(d, i);
      assert Absorbs(d, i);
      GroupKeepsChanges(d, e);
      GroupAtChange(d, i);
    } else {
      GroupKeepsChanges(d, i + 1);
      GroupAtEqual(d, i);
    }
  }

  /** A change opens a hunk covering `d[i..AbsorbEnd(d, i)]`, and grouping resumes after it. */
  lemma GroupAtChange(d: seq<DiffOp>, i: nat)
    requires i < |d| && !d[i].Equal?
    ensures var e := AbsorbEnd(d, i);
      Changes(Flatten(Group(d, i))) == Changes(d[i..e]) + Changes(Flatten(Group(d, e))) &&
      Changes(d[i..]) == Changes(d[i..e]) + Changes(d[e..])
  {
    var e := AbsorbEnd(d, i);
    var h := HunkAt(d, i);
    var g := Group(d, e);
    assert Flatten(Group(d, i)) == h + Flatten(g) by {
      assert Group(d, i) == [h] + g;
      FlattenCons(h, g);
    }
    assert Changes(h) == Changes(d[i..e]) by {
      HunkChanges(d, i);
    }
    ChangesAppend(h, Flatten(g));
    SliceChanges(d, i, e);
  }

  lemma SliceChanges(d: seq<DiffOp>, i: nat, e: nat)
    requires i <= e <= |d|
    ensures Changes(d[i..]) == Changes(d[i..e]) + Changes(d[e..])
  {
    assert d[i..] == d[i..e] + d[e..];
    ChangesAppend(d[i..e], d[e..]);
  }

  /** An EQUAL operation outside every hunk is skipped and has no change. */
  lemma GroupAtEqual(d: seq<DiffOp>, i: nat)
    requires i < |d| && d[i].Equal?
    ensures Group(d, i) == Group(d, i + 1)
    ensures Changes(d[i..]) == Changes(d[i + 1..])
  {
    assert d[i..][1..] == d[i + 1..];
  }

  /**
    Shape of the hunk opened at a change `i`: at most three EQUAL operations
    of leading and of trailing context around an absorbed stretch that
    starts and ends with a change, never holds two EQUAL operations in a
    row, and stops only at the end or before two EQUAL operations.
  */
  lemma HunkShape(d: seq<DiffOp>, i: nat)
    requires i < |d| && !d[i].Equal?
    ensures var e := AbsorbEnd(d, i);
      && HunkAt(d, i) == Lead(d, i) + d[i..e] + Trail(d, e)
      && |Lead(d, i)| <= ContextLines && |Trail(d, e)| <= ContextLines
      && (forall k :: 0 <= k < |Lead(d, i)| ==> Lead(d, i)[k].Equal?)
      && (forall k :: 0 <= k < |Trail(d, e)| ==> Trail(d, e)[k].Equal?)
      && i < e && !d[e - 1].Equal?
      && (forall k :: i <= k < e - 1 ==> !d[k].Equal? || !d[k + 1].Equal?)
      && (e == |d| || (d[e].Equal? && (e + 1 == |d| || d[e + 1].Equal?)))
  {
    var e := AbsorbEnd(d, i);
    assert Absorbs(d, i);
    forall k | i <= k < e - 1
      ensures !d[k].Equal? || !d[k + 1].Equal?
    {
      assert Absorbs(d, k);
    }
    if d[e - 1].Equal? {
      assert Absorbs(d, e - 1);
      assert Absorbs(d, e);
    }
  }

  /** Every hunk is opened by a change of the script, and so holds one. */
  lemma {:induction false} GroupHunksOpenAtChanges(d: seq<DiffOp>, i: nat)
    requires i <= |d|
    ensures forall h :: h in Group(d, i) ==> exists k :: i <= k < |d| && !d[k].Equal? && h == HunkAt(d, k)
    decreases |d| - i
  {
    if i == |d| {
    } else if !d[i].Equal? {
      GroupHunksOpenAtChanges(d, AbsorbEnd(d, i));
    } else {
      GroupHunksOpenAtChanges(d, i + 1);
    }
  }

  /** A script without changes gives no hunk; one with a change gives at least one. */
  lemma {:induction false} NoHunksIffNoChanges(d: seq<DiffOp>, i: nat)
    requires i <= |d|
    ensures Group(d, i) == [] <==> Changes(d[i..]) == []
    decreases |d| - i
  {
    if i < |d| {
      assert d[i..] == [d[i]] + d[i + 1..];
      ChangesAppend([d[i]], d[i + 1..]);
      if d[i].Equal? {
        NoHunksIffNoChanges(d, i + 1);
      }
    }
  }
}
