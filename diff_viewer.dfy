/**
  The side-by-side diff view of the GUI comparator: the lines of the
  comparator's difference listing (`@@ HUNK` headers, `  ` context, `- `
  core-only and `+ ` Spike-only entries) become two equally long columns
  of tagged rows. A run of deletions is paired with the run of insertions
  that follows it by program counter; the shorter column is padded, and
  the rows where either side differs are listed for navigation.
*/
module DiffViewer {
  import opened Wrappers
  import opened Text

  datatype Tag = Normal | Missing | Different

  /** One displayed row: its tag and its text. */
  datatype Row = Row(tag: Tag, text: string)

  const Placeholder: string := "--- (missing) ---"

  /** The row shown opposite an entry the other side lacks. */
  const Gap: Row := Row(Missing, Placeholder)

  /** The rows appended to `core_entries` and to `spike_entries`. */
  datatype Sides = Sides(core: seq<Row>, spike: seq<Row>)

  const NoRows: Sides := Sides([], [])

  function Then(a: Sides, b: Sides): Sides {
    Sides(a.core + b.core, a.spike + b.spike)
  }

  function One(c: Row, s: Row): Sides {
    Sides([c], [s])
  }

  /** Python's `s[2:]`, which is empty for a shorter string. */
  function Tail(s: string): string {
    if |s| >= 2 then s[2..] else ""
  }

  // ----- The program counter of an entry -----

  /** A match of `0x[0-9a-fA-F]+` starts at `p`. */
  predicate PcAt(s: string, p: nat) {
    p + 2 < |s| && s[p] == '0' && s[p + 1] == 'x' && IsHexDigit(s[p + 2])
  }

  /** Where `re.search` finds its match, scanning from `p`. */
  function PcPos(s: string, p: nat): (r: Option<nat>)
    ensures r.Some? ==> p <= r.value && PcAt(s, r.value) && forall q :: p <= q < r.value ==> !PcAt(s, q)
    ensures r.None? ==> forall q :: p <= q ==> !PcAt(s, q)
    decreases |s| - p
  {
    if p + 2 >= |s| then None
    else if PcAt(s, p) then Some(p)
    else PcPos(s, p + 1)
  }

  /** The token matched at `p`: `0x` and the whole run of hex digits after it. */
  function Token(s: string, p: nat): string
    requires PcAt(s, p)
  {
    s[p..p + 2 + HexRun(s[p + 2..])]
  }

  /** `extract_pc_address`: the first `0x` token with its whole run of hex digits, if any. */
  function ExtractPc(s: string): (r: Option<string>)
    ensures r.None? <==> forall q :: !PcAt(s, q)
    ensures r.Some? ==> PcPos(s, 0).Some? && r.value == Token(s, PcPos(s, 0).value)
  {
    match PcPos(s, 0)
    case None => None
    case Some(p) => Some(Token(s, p))
  }

  /**
    The token found is the leftmost match, starts with `0x`, holds at
    least one hex digit and only hex digits, and is never followed by
    another hex digit.
  */
  lemma ExtractPcShape(s: string)
    requires ExtractPc(s).Some?
    ensures var p := PcPos(s, 0).value;
      var tok := ExtractPc(s).value;
      var e := p + |tok|;
      && PcAt(s, p) && (forall q :: 0 <= q < p ==> !PcAt(s, q))
      && |tok| >= 3 && tok[..2] == "0x" && AllHex(tok[2..])
      && e <= |s| && s[p..e] == tok && (e < |s| ==> !IsHexDigit(s[e]))
  {
    var p := PcPos(s, 0).value;
    var n := HexRun(s[p + 2..]);
    var tok := s[p..p + 2 + n];
    assert tok[2..] == s[p + 2..][..n];
    if p + 2 + n < |s| {
      assert s[p + 2..][n] == s[p + 2 + n];
    }
  }

  // ----- Pairing a block of deletions with the insertions after it -----

  /** `deletion_pcs`: each program counter mapped to the last deletion that has it. */
  function PcMap(dels: seq<string>): map<string, string> {
    if dels == [] then map[]
    else
      var m := PcMap(dels[..|dels| - 1]);
      var d := dels[|dels| - 1];
      match ExtractPc(d)
      case None => m
      case Some(pc) => m[pc := d]
  }

  /** The rows for one insertion: opposite its deletion when the program counters match, else opposite a gap. */
  function InsertionRow(x: string, pcs: map<string, string>): Sides {
    match ExtractPc(x)
    case Some(pc) => if pc in pcs then One(Row(Different, pcs[pc]), Row(Different, x)) else One(Gap, Row(Different, x))
    case None => One(Gap, Row(Different, x))
  }

  function InsertionRows(ins: seq<string>, pcs: map<string, string>): Sides {
    if ins == [] then NoRows
    else Then(InsertionRows(ins[..|ins| - 1], pcs), InsertionRow(ins[|ins| - 1], pcs))
  }

  /** `used_deletions`: the deletions some insertion was paired with. */
  function Used(ins: seq<string>, pcs: map<string, string>): set<string> {
    if ins == [] then {}
    else
      var u := Used(ins[..|ins| - 1], pcs);
      match ExtractPc(ins[|ins| - 1])
      case Some(pc) => if pc in pcs then u + {pcs[pc]} else u
      case None => u
  }

  /** The deletions left over, each opposite a gap; deletions whose text was used are dropped. */
  function DeletionRows(dels: seq<string>, used: set<string>): Sides {
    if dels == [] then NoRows
    else
      var d := dels[|dels| - 1];
      Then(DeletionRows(dels[..|dels| - 1], used), if d in used then NoRows else One(Row(Different, d), Gap))
  }

  /** `pair_deletions_insertions`: insertion rows first, in order, then the unused deletions. */
  function Pair(dels: seq<string>, ins: seq<string>): Sides {
    var pcs := PcMap(dels);
    Then(InsertionRows(ins, pcs), DeletionRows(dels, Used(ins, pcs)))
  }

  /** A run of insertions with no deletions before it: each opposite a gap. */
  function PureInsertions(ins: seq<string>): Sides {
    if ins == [] then NoRows
    else Then(PureInsertions(ins[..|ins| - 1]), One(Gap, Row(Different, ins[|ins| - 1])))
  }

  // ----- The whole listing -----

  /** Where the run of lines starting with `prefix` that begins at `j` ends. */
  function RunEnd(lines: seq<string>, j: nat, prefix: string): (e: nat)
    requires j <= |lines|
    ensures j <= e <= |lines|
    ensures forall k :: j <= k < e ==> StartsWith(lines[k], prefix)
    ensures e < |lines| ==> !StartsWith(lines[e], prefix)
    decreases |lines| - j
  {
    if j < |lines| && StartsWith(lines[j], prefix) then RunEnd(lines, j + 1, prefix) else j
  }

  /** The entries of the lines `lo..hi`, their two-character markers removed. */
  function Bodies(lines: seq<string>, lo: nat, hi: nat): (r: seq<string>)
    requires lo <= hi <= |lines|
    ensures |r| == hi - lo
    decreases hi - lo
  {
    if hi == lo then [] else Bodies(lines, lo, hi - 1) + [Tail(lines[hi - 1])]
  }

  /** One pass of the scan at line `i`: the rows it appends and where the scan resumes. */
  function Step(lines: seq<string>, i: nat): (r: (Sides, nat))
    requires i < |lines|
    ensures i < r.1 <= |lines|
  {
    var line := lines[i];
    if StartsWith(line, "@@ HUNK") then (NoRows, i + 1)
    else if StartsWith(line, "  ") then (One(Row(Normal, Tail(line)), Row(Normal, Tail(line))), i + 1)
    else if StartsWith(line, "- ") then
      var j := RunEnd(lines, i, "- ");
      var e := RunEnd(lines, j, "+ ");
      (Pair(Bodies(lines, i, j), Bodies(lines, j, e)), e)
    else if StartsWith(line, "+ ") then
      var e := RunEnd(lines, i, "+ ");
      (PureInsertions(Bodies(lines, i, e)), e)
    else (NoRows, i + 1)
  }

  /** The rows `process_unified_diff_sequentially` appends for the lines from `i` on. */
  function Process(lines: seq<string>, i: nat): Sides
    requires i <= |lines|
    decreases |lines| - i
  {
    if i == |lines| then NoRows
    else Then(Step(lines, i).0, Process(lines, Step(lines, i).1))
  }

  // ----- Display -----

  function Gaps(n: nat): (r: seq<Row>)
    ensures |r| == n && forall k :: 0 <= k < n ==> r[k] == Gap
  {
    if n == 0 then [] else Gaps(n - 1) + [Gap]
  }

  /** A column padded with gaps up to `n` rows. */
  function Pad(rows: seq<Row>, n: nat): seq<Row> {
    if |rows| >= n then rows else rows + Gaps(n - |rows|)
  }

  /** Either side of row `k` (0-based) differs. */
  predicate DiffersAt(core: seq<Row>, spike: seq<Row>, k: nat)
    requires k < |core| && k < |spike|
  {
    core[k].tag == Different || spike[k].tag == Different
  }

  /** `current_diff_lines` over the first `n` rows: their 1-based numbers where a side differs. */
  function DiffLines(core: seq<Row>, spike: seq<Row>, n: nat): seq<nat>
    requires n <= |core| && n <= |spike|
  {
    if n == 0 then [] else DiffLines(core, spike, n - 1) + (if DiffersAt(core, spike, n - 1) then [n] else [])
  }

  // ----- The methods -----

  /** The inner loops that collect a run of entries with the same marker. */
  method CollectRun(lines: seq<string>, start: nat, prefix: string) returns (items: seq<string>, e: nat)
    requires start <= |lines|
    ensures e == RunEnd(lines, start, prefix) && items == Bodies(lines, start, e)
  {
    items := [];
    e := start;
    while e < |lines| && StartsWith(lines[e], prefix)
      invariant start <= e <= |lines|
      invariant RunEnd(lines, start, prefix) == RunEnd(lines, e, prefix)
      invariant items == Bodies(lines, start, e)
      decreases |lines| - e
    {
      items := items + [Tail(lines[e])];
      e := e + 1;
    }
  }

  /** The loop that builds `deletion_pcs`. */
  method BuildPcMap(deletions: seq<string>) returns (pcs: map<string, string>)
    ensures pcs == PcMap(deletions)
  {
    pcs := map[];
    for k := 0 to |deletions|
      invariant pcs == PcMap(deletions[..k])
    {
      assert deletions[..k + 1][..k] == deletions[..k];
      var pc := ExtractPc(deletions[k]);
      if pc.Some? {
        pcs := pcs[pc.value := deletions[k]];
      }
    }
    assert deletions[..|deletions|] == deletions;
  }

  /** The loop over the insertions: each paired by program counter or set opposite a gap. */
  method AddInsertionRows(insertions: seq<string>, pcs: map<string, string>, coreEntries: seq<Row>, spikeEntries: seq<Row>)
    returns (core: seq<Row>, spike: seq<Row>, used: set<string>)
    ensures Sides(core, spike) == Then(Sides(coreEntries, spikeEntries), InsertionRows(insertions, pcs))
    ensures used == Used(insertions, pcs)
  {
    used := {};
    core, spike := coreEntries, spikeEntries;
    for k := 0 to |insertions|
      invariant Sides(core, spike) == Then(Sides(coreEntries, spikeEntries), InsertionRows(insertions[..k], pcs))
      invariant used == Used(insertions[..k], pcs)
    {
      assert insertions[..k + 1][..k] == insertions[..k];
      var insertion := insertions[k];
      assert InsertionRows(insertions[..k + 1], pcs) == Then(InsertionRows(insertions[..k], pcs), InsertionRow(insertion, pcs));
      ghost var before := Sides(core, spike);
      var insPc := ExtractPc(insertion);
      if insPc.Some? && insPc.value in pcs {
        var matching := pcs[insPc.value];
        core := core + [Row(Different, matching)];
        spike := spike + [Row(Different, insertion)];
        used := used + {matching};
      } else {
        core := core + [Gap];
        spike := spike + [Row(Different, insertion)];
      }
      assert Sides(core, spike) == Then(before, InsertionRow(insertion, pcs));
      ThenAssoc(Sides(coreEntries, spikeEntries), InsertionRows(insertions[..k], pcs), InsertionRow(insertion, pcs));
    }
    assert insertions[..|insertions|] == insertions;
  }

  /** The loop over the deletions: those not used, each opposite a gap. */
  method AddUnusedDeletions(deletions: seq<string>, used: set<string>, coreEntries: seq<Row>, spikeEntries: seq<Row>)
    returns (core: seq<Row>, spike: seq<Row>)
    ensures Sides(core, spike) == Then(Sides(coreEntries, spikeEntries), DeletionRows(deletions, used))
  {
    core, spike := coreEntries, spikeEntries;
    for k := 0 to |deletions|
      invariant Sides(core, spike) == Then(Sides(coreEntries, spikeEntries), DeletionRows(deletions[..k], used))
    {
      assert deletions[..k + 1][..k] == deletions[..k];
      var deletion := deletions[k];
      if deletion !in used {
        core := core + [Row(Different, deletion)];
        spike := spike + [Gap];
      }
    }
    assert deletions[..|deletions|] == deletions;
  }

  /** `pair_deletions_insertions`, appending to the caller's two columns. */
  method PairDeletionsInsertions(deletions: seq<string>, insertions: seq<string>, coreEntries: seq<Row>, spikeEntries: seq<Row>)
    returns (core: seq<Row>, spike: seq<Row>)
    ensures Sides(core, spike) == Then(Sides(coreEntries, spikeEntries), Pair(deletions, insertions))
  {
    var pcs := BuildPcMap(deletions);
    var used;
    core, spike, used := AddInsertionRows(insertions, pcs, coreEntries, spikeEntries);
    core, spike := AddUnusedDeletions(deletions, used, core, spike);
    ThenAssoc(Sides(coreEntries, spikeEntries), InsertionRows(insertions, pcs), DeletionRows(deletions, used));
  }

  lemma ThenAssoc(a: Sides, b: Sides, c: Sides)
    ensures Then(Then(a, b), c) == Then(a, Then(b, c))
  {
  }

  /** The loop that adds a run of pure insertions. */
  method AddPureInsertions(insertions: seq<string>, coreEntries: seq<Row>, spikeEntries: seq<Row>)
    returns (core: seq<Row>, spike: seq<Row>)
    ensures Sides(core, spike) == Then(Sides(coreEntries, spikeEntries), PureInsertions(insertions))
  {
    core, spike := coreEntries, spikeEntries;
    for k := 0 to |insertions|
      invariant Sides(core, spike) == Then(Sides(coreEntries, spikeEntries), PureInsertions(insertions[..k]))
    {
      assert insertions[..k + 1][..k] == insertions[..k];
      core := core + [Gap];
      spike := spike + [Row(Different, insertions[k])];
    }
    assert insertions[..|insertions|] == insertions;
  }

  /** `process_unified_diff_sequentially`, appending to the caller's two columns. */
  method ProcessUnifiedDiffSequentially(diffLines: seq<string>, coreEntries: seq<Row>, spikeEntries: seq<Row>)
    returns (core: seq<Row>, spike: seq<Row>)
    ensures Sides(core, spike) == Then(Sides(coreEntries, spikeEntries), Process(diffLines, 0))
  {
    core, spike := coreEntries, spikeEntries;
    var i := 0;
    while i < |diffLines|
      invariant i <= |diffLines|
      invariant Then(Sides(coreEntries, spikeEntries), Process(diffLines, 0)) == Then(Sides(core, spike), Process(diffLines, i))
      decreases |diffLines| - i
    {
      ghost var before := Sides(core, spike);
      ghost var i0 := i;
      var line := diffLines[i];
      if StartsWith(line, "@@ HUNK") {
        i := i + 1;
      } else if StartsWith(line, "  ") {
        var content := Tail(line);
        core := core + [Row(Normal, content)];
        spike := spike + [Row(Normal, content)];
        i := i + 1;
      } else if StartsWith(line, "- ") {
        var deletions, j := CollectRun(diffLines, i, "- ");
        var insertions, e := CollectRun(diffLines, j, "+ ");
        core, spike := PairDeletionsInsertions(deletions, insertions, core, spike);
        i := e;
      } else if StartsWith(line, "+ ") {
        var insertions, e := CollectRun(diffLines, i, "+ ");
        core, spike := AddPureInsertions(insertions, core, spike);
        i := e;
      } else {
        i := i + 1;
      }
      assert Sides(core, spike) == Then(before, Step(diffLines, i0).0) && i == Step(diffLines, i0).1;
      ThenAssoc(before, Step(diffLines, i0).0, Process(diffLines, i));
    }
  }

  /** The padding loop: appends gaps until the column has `n` rows. */
  method PadColumn(rows: seq<Row>, n: nat) returns (padded: seq<Row>)
    requires |rows| <= n
    ensures padded == Pad(rows, n) && |padded| == n
  {
    padded := rows;
    while |padded| < n
      invariant |rows| <= |padded| <= n && padded == rows + Gaps(|padded| - |rows|)
      decreases n - |padded|
    {
      padded := padded + [Gap];
    }
  }

  /** The navigation state of the viewer. */
  class Viewer {
    var currentDiffLines: seq<nat>

    constructor ()
      ensures currentDiffLines == []
    {
      currentDiffLines := [];
    }

    /**
      The row preparation of `populate_text_widgets_sequential`: pads the
      shorter column with gaps and records the rows where a side differs.
    */
    method PopulateRows(coreEntries: seq<Row>, spikeEntries: seq<Row>) returns (core: seq<Row>, spike: seq<Row>)
      modifies this
      ensures var n := if |coreEntries| >= |spikeEntries| then |coreEntries| else |spikeEntries|;
        core == Pad(coreEntries, n) && spike == Pad(spikeEntries, n)
      ensures |core| == |spike| && currentDiffLines == DiffLines(core, spike, |core|)
    {
      currentDiffLines := [];
      var maxLen := if |coreEntries| >= |spikeEntries| then |coreEntries| else |spikeEntries|;
      core := PadColumn(coreEntries, maxLen);
      spike := PadColumn(spikeEntries, maxLen);
      var i := 1;
      while i <= |core|
        invariant 1 <= i <= |core| + 1
        invariant currentDiffLines == DiffLines(core, spike, i - 1)
        decreases |core| + 1 - i
      {
        if core[i - 1].tag == Different || spike[i - 1].tag == Different {
          currentDiffLines := currentDiffLines + [i];
        }
        i := i + 1;
      }
    }
  }

  // ----- Properties -----

  /** Pairing keeps the columns level: as many core rows as Spike rows. */
  lemma {:induction false} PairLevel(dels: seq<string>, ins: seq<string>)
    ensures |Pair(dels, ins).core| == |Pair(dels, ins).spike|
  {
    InsertionRowsShape(ins, PcMap(dels));
    DeletionRowsLevel(dels, Used(ins, PcMap(dels)));
  }

  lemma {:induction false} DeletionRowsLevel(dels: seq<string>, used: set<string>)
    ensures |DeletionRows(dels, used).core| == |DeletionRows(dels, used).spike|
    ensures forall k :: 0 <= k < |DeletionRows(dels, used).spike| ==> DeletionRows(dels, used).spike[k] == Gap
  {
    if dels != [] {
      DeletionRowsLevel(dels[..|dels| - 1], used);
    }
  }

  /** The core-side row opposite insertion `x`: its paired deletion, or a gap. */
  function PairedWith(x: string, pcs: map<string, string>): Row {
    if ExtractPc(x).Some? && ExtractPc(x).value in pcs then Row(Different, pcs[ExtractPc(x).value]) else Gap
  }

  lemma InsertionRowIs(x: string, pcs: map<string, string>)
    ensures InsertionRow(x, pcs) == One(PairedWith(x, pcs), Row(Different, x))
  {
  }

  /**
    The insertion rows come one per insertion, in order: the Spike side
    shows the insertion, the core side its paired deletion (the one the
    map holds for its program counter) or a gap when there is none.
  */
  lemma {:induction false} InsertionRowsShape(ins: seq<string>, pcs: map<string, string>)
    ensures |InsertionRows(ins, pcs).core| == |ins| && |InsertionRows(ins, pcs).spike| == |ins|
    ensures forall k :: 0 <= k < |ins| ==> InsertionRows(ins, pcs).spike[k] == Row(Different, ins[k])
    ensures forall k :: 0 <= k < |ins| ==> InsertionRows(ins, pcs).core[k] == PairedWith(ins[k], pcs)
  {
    if ins != [] {
      var init := ins[..|ins| - 1];
      var x := ins[|ins| - 1];
      var r0 := InsertionRows(init, pcs);
      InsertionRowsShape(init, pcs);
      InsertionRowIs(x, pcs);
      var r := InsertionRows(ins, pcs);
      assert r.core == r0.core + [PairedWith(x, pcs)];
      assert r.spike == r0.spike + [Row(Different, x)];
      forall k | 0 <= k < |init|
        ensures r.spike[k] == Row(Different, ins[k]) && r.core[k] == PairedWith(ins[k], pcs)
      {
        assert ins[k] == init[k];
      }
    }
  }

  /**
    After the insertion rows, the deletions nobody used follow in their
    original order, each opposite a gap; a deletion whose text equals a
    used one is suppressed with it.
  */
  lemma {:induction false} DeletionRowsAreUnused(dels: seq<string>, used: set<string>)
    ensures DeletionRows(dels, used).core == UnusedRows(dels, used)
  {
    if dels != [] {
      DeletionRowsAreUnused(dels[..|dels| - 1], used);
    }
  }

  /** The unused deletions, in order, as core rows. */
  function UnusedRows(dels: seq<string>, used: set<string>): (r: seq<Row>)
    ensures forall k :: 0 <= k < |r| ==> r[k].tag == Different && r[k].text in dels && r[k].text !in used
  {
    if dels == [] then []
    else
      var d := dels[|dels| - 1];
      var r := UnusedRows(dels[..|dels| - 1], used);
      assert forall x :: x in dels[..|dels| - 1] ==> x in dels;
      r + (if d in used then [] else [Row(Different, d)])
  }

  /** The deletion the map holds for a program counter is the last deletion that carries it. */
  lemma {:induction false} PcMapLastWins(dels: seq<string>)
    ensures forall pc :: pc in PcMap(dels) ==> LastWithPc(dels, pc, PcMap(dels)[pc])
  {
    if dels != [] {
      PcMapLastWins(dels[..|dels| - 1]);
      forall pc | pc in PcMap(dels)
        ensures LastWithPc(dels, pc, PcMap(dels)[pc])
      {
        PcMapLastStep(dels, pc);
      }
    }
  }

  /** The map entry for `pc` is the last deletion of `dels` with that counter, given that it holds for all but the last deletion. */
  lemma PcMapLastStep(dels: seq<string>, pc: string)
    requires dels != [] && pc in PcMap(dels)
    requires var init := dels[..|dels| - 1];
      forall pc' :: pc' in PcMap(init) ==> LastWithPc(init, pc', PcMap(init)[pc'])
    ensures LastWithPc(dels, pc, PcMap(dels)[pc])
  {
    var init := dels[..|dels| - 1];
    var d := dels[|dels| - 1];
    if ExtractPc(d) == Some(pc) {
      assert PcMap(dels)[pc] == d;
      assert LastWithPc(dels, pc, dels[|dels| - 1]);
    } else {
      assert pc in PcMap(init) && PcMap(dels)[pc] == PcMap(init)[pc];
      LastWithPcSnoc(dels, pc, PcMap(init)[pc]);
    }
  }

  /** `d` is a deletion of `dels` with program counter `pc`, and no later one has it. */
  ghost predicate LastWithPc(dels: seq<string>, pc: string, d: string) {
    exists k :: 0 <= k < |dels| && dels[k] == d && ExtractPc(d) == Some(pc) &&
      (forall k' :: k < k' < |dels| ==> ExtractPc(dels[k']) != Some(pc))
  }

  /** A deletion that was last with `pc` before the final one stays last when the final one has another counter. */
  lemma LastWithPcSnoc(dels: seq<string>, pc: string, x: string)
    requires dels != [] && LastWithPc(dels[..|dels| - 1], pc, x) && ExtractPc(dels[|dels| - 1]) != Some(pc)
    ensures LastWithPc(dels, pc, x)
  {
    LastWithPcExtends(dels[..|dels| - 1], dels[|dels| - 1], pc, x);
    assert dels[..|dels| - 1] + [dels[|dels| - 1]] == dels;
  }

  lemma LastWithPcExtends(init: seq<string>, d: string, pc: string, x: string)
    requires LastWithPc(init, pc, x) && ExtractPc(d) != Some(pc)
    ensures LastWithPc(init + [d], pc, x)
  {
    var k :| 0 <= k < |init| && init[k] == x && ExtractPc(x) == Some(pc) &&
      (forall k' :: k < k' < |init| ==> ExtractPc(init[k']) != Some(pc));
    var dels := init + [d];
    assert dels[k] == x;
    forall k' | k < k' < |dels|
      ensures ExtractPc(dels[k']) != Some(pc)
    {
      if k' < |init| {
        assert dels[k'] == init[k'];
      }
    }
  }

  /** Every deletion that carries a program counter puts that counter in the map. */
  lemma {:induction false} PcMapCovers(dels: seq<string>)
    ensures forall k :: 0 <= k < |dels| && ExtractPc(dels[k]).Some? ==> ExtractPc(dels[k]).value in PcMap(dels)
  {
    if dels != [] {
      var init := dels[..|dels| - 1];
      PcMapCovers(init);
      forall k | 0 <= k < |dels| && ExtractPc(dels[k]).Some?
        ensures ExtractPc(dels[k]).value in PcMap(dels)
      {
        if k < |init| {
          assert dels[k] == init[k];
        }
      }
    }
  }

  /** A pure run of insertions is laid out as insertions that found no deletion. */
  lemma {:induction false} PureInsertionsUnpaired(ins: seq<string>)
    ensures PureInsertions(ins) == InsertionRows(ins, map[])
  {
    if ins != [] {
      PureInsertionsUnpaired(ins[..|ins| - 1]);
    }
  }

  /** Every step appends as many rows to one column as to the other. */
  lemma {:induction false} ProcessLevel(lines: seq<string>, i: nat)
    requires i <= |lines|
    ensures |Process(lines, i).core| == |Process(lines, i).spike|
    decreases |lines| - i
  {
    if i < |lines| {
      var line := lines[i];
      if StartsWith(line, "@@ HUNK") {
        ProcessLevel(lines, i + 1);
      } else if StartsWith(line, "  ") {
        ProcessLevel(lines, i + 1);
      } else if StartsWith(line, "- ") {
        var j := RunEnd(lines, i, "- ");
        var e := RunEnd(lines, j, "+ ");
        PairLevel(Bodies(lines, i, j), Bodies(lines, j, e));
        ProcessLevel(lines, e);
      } else if StartsWith(line, "+ ") {
        var e := RunEnd(lines, i, "+ ");
        PureInsertionsUnpaired(Bodies(lines, i, e));
        InsertionRowsShape(Bodies(lines, i, e), map[]);
        ProcessLevel(lines, e);
      } else {
        ProcessLevel(lines, i + 1);
      }
    }
  }

  /** Hunk headers and lines with no known marker add no rows. */
  lemma SkippedLinesAddNothing(lines: seq<string>, i: nat)
    requires i < |lines|
    requires StartsWith(lines[i], "@@ HUNK") ||
      (!StartsWith(lines[i], "  ") && !StartsWith(lines[i], "- ") && !StartsWith(lines[i], "+ "))
    ensures Process(lines, i) == Process(lines, i + 1)
  {
  }

  /** A context line shows its entry as a normal row on both sides. */
  lemma ContextLineRow(lines: seq<string>, i: nat)
    requires i < |lines| && StartsWith(lines[i], "  ")
    ensures var p := Process(lines, i);
      |p.core| >= 1 && |p.spike| >= 1 &&
      p.core[0] == Row(Normal, lines[i][2..]) && p.spike[0] == Row(Normal, lines[i][2..])
  {
    assert lines[i][0] == ' ';
    assert Step(lines, i).0 == One(Row(Normal, lines[i][2..]), Row(Normal, lines[i][2..]));
  }

  /** Number of rows tagged different. */
  function CountDifferent(rows: seq<Row>): nat {
    if rows == [] then 0 else CountDifferent(rows[..|rows| - 1]) + (if rows[|rows| - 1].tag == Different then 1 else 0)
  }

  lemma {:induction false} CountDifferentAppend(a: seq<Row>, b: seq<Row>)
    ensures CountDifferent(a + b) == CountDifferent(a) + CountDifferent(b)
    decreases |b|
  {
    if b == [] {
      assert a + b == a;
    } else {
      assert (a + b)[..|a + b| - 1] == a + b[..|b| - 1];
      CountDifferentAppend(a, b[..|b| - 1]);
    }
  }

  /** Number of `+ ` lines from `i` on. */
  function InsertionLines(lines: seq<string>, i: nat): nat
    requires i <= |lines|
    decreases |lines| - i
  {
    if i == |lines| then 0 else (if StartsWith(lines[i], "+ ") then 1 else 0) + InsertionLines(lines, i + 1)
  }

  lemma {:induction false} InsertionLinesRun(lines: seq<string>, j: nat, e: nat, prefix: string)
    requires j <= e <= |lines|
    requires prefix == "+ " || prefix == "- "
    requires forall k :: j <= k < e ==> StartsWith(lines[k], prefix)
    ensures InsertionLines(lines, j) == (if prefix == "+ " then e - j else 0) + InsertionLines(lines, e)
    decreases e - j
  {
    if j < e {
      InsertionLinesRun(lines, j + 1, e, prefix);
      if prefix == "- " {
        assert lines[j][..2] == "- ";
      }
    }
  }

  lemma {:induction false} SpikeSideOfPair(dels: seq<string>, ins: seq<string>)
    ensures CountDifferent(Pair(dels, ins).spike) == |ins|
  {
    var pcs := PcMap(dels);
    InsertionRowsShape(ins, pcs);
    DeletionRowsLevel(dels, Used(ins, pcs));
    AllDifferent(InsertionRows(ins, pcs).spike);
    NoneDifferent(DeletionRows(dels, Used(ins, pcs)).spike);
    CountDifferentAppend(InsertionRows(ins, pcs).spike, DeletionRows(dels, Used(ins, pcs)).spike);
  }

  lemma {:induction false} AllDifferent(rows: seq<Row>)
    requires forall k :: 0 <= k < |rows| ==> rows[k].tag == Different
    ensures CountDifferent(rows) == |rows|
  {
    if rows != [] {
      AllDifferent(rows[..|rows| - 1]);
    }
  }

  lemma {:induction false} NoneDifferent(rows: seq<Row>)
    requires forall k :: 0 <= k < |rows| ==> rows[k].tag != Different
    ensures CountDifferent(rows) == 0
  {
    if rows != [] {
      NoneDifferent(rows[..|rows| - 1]);
    }
  }

  lemma NotInsertion(line: string)
    requires |line| > 0 && line[0] != '+'
    ensures !StartsWith(line, "+ ")
  {
    if |line| >= 2 {
      assert line[..2][0] == line[0];
    }
  }

  /** One step shows one Spike row tagged different per `+ ` line it consumes. */
  lemma StepSpikeDifferences(lines: seq<string>, i: nat)
    requires i < |lines|
    ensures CountDifferent(Step(lines, i).0.spike) + InsertionLines(lines, Step(lines, i).1) == InsertionLines(lines, i)
  {
    var line := lines[i];
    if StartsWith(line, "@@ HUNK") {
      assert line[0] == line[..7][0] == '@';
      NotInsertion(line);
    } else if StartsWith(line, "  ") {
      assert line[0] == line[..2][0] == ' ';
      NotInsertion(line);
    } else if StartsWith(line, "- ") {
      var j := RunEnd(lines, i, "- ");
      var e := RunEnd(lines, j, "+ ");
      SpikeSideOfPair(Bodies(lines, i, j), Bodies(lines, j, e));
      InsertionLinesRun(lines, i, j, "- ");
      InsertionLinesRun(lines, j, e, "+ ");
    } else if StartsWith(line, "+ ") {
      var e := RunEnd(lines, i, "+ ");
      var ins := Bodies(lines, i, e);
      PureInsertionsUnpaired(ins);
      InsertionRowsShape(ins, map[]);
      AllDifferent(PureInsertions(ins).spike);
      InsertionLinesRun(lines, i, e, "+ ");
    }
  }

  /**
    No insertion is lost or doubled: the Spike column shows exactly one
    row tagged different per `+ ` line of the listing.
  */
  lemma {:induction false} SpikeDifferencesAreInsertions(lines: seq<string>, i: nat)
    requires i <= |lines|
    ensures CountDifferent(Process(lines, i).spike) == InsertionLines(lines, i)
    decreases |lines| - i
  {
    if i < |lines| {
      var (rows, next) := Step(lines, i);
      SpikeDifferencesAreInsertions(lines, next);
      StepSpikeDifferences(lines, i);
      CountDifferentAppend(rows.spike, Process(lines, next).spike);
    }
  }

  /** Padding keeps every row and only adds gaps, up to the longer column. */
  lemma PadShape(rows: seq<Row>, n: nat)
    ensures var r := Pad(rows, n);
      |r| == (if |rows| >= n then |rows| else n) && r[..|rows|] == rows &&
      forall k :: |rows| <= k < |r| ==> r[k] == Gap
  {
  }

  /**
    The navigation list holds exactly the 1-based numbers of the rows
    where a side differs, in increasing order.
  */
  lemma {:induction false} DiffLinesExact(core: seq<Row>, spike: seq<Row>, n: nat)
    requires n <= |core| && n <= |spike|
    ensures forall m :: m in DiffLines(core, spike, n) <==> 1 <= m <= n && DiffersAt(core, spike, m - 1)
    ensures forall p, q :: 0 <= p < q < |DiffLines(core, spike, n)| ==> DiffLines(core, spike, n)[p] < DiffLines(core, spike, n)[q]
  {
    if n > 0 {
      DiffLinesExact(core, spike, n - 1);
      var prev := DiffLines(core, spike, n - 1);
      assert forall p :: 0 <= p < |prev| ==> prev[p] in prev;
    }
  }
}
