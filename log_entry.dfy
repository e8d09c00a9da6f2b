/**
  One committed-instruction record of a trace, as the comparator reads it
  from a line `0x<pc> (0x<instruction>)<rest>`, with the two keys that the
  loop detector and the aligner compare.
*/
module LogEntries {
  import opened Wrappers
  import opened Text

  datatype Entry = Entry(pc: string, instruction: string, extra: string, original: string, lineNum: int)

  /** The regex groups of `0x([0-9a-fA-F]+)\s+\(0x([0-9a-fA-F]+)\)(.*)$`. */
  datatype Fields = Fields(pc: string, instruction: string, rest: string)

  /**
    `re.match` of the entry pattern against an already stripped line. Each
    `+` run is maximal (the character after it cannot start the next part
    of the pattern), so at most one way of matching exists; `(.*)$` fails
    when the rest holds a line break.
  */
  function MatchFields(s: string): Option<Fields>
  {
    if StartsWith(s, "0x") then MatchPc(s[2..]) else None
  }

  /** `([0-9a-fA-F]+)` for the pc, then the rest of the pattern. */
  function MatchPc(u: string): Option<Fields>
  {
    var h := HexRun(u);
    if h == 0 then None else MatchGap(u[..h], u[h..])
  }

  /** `\s+\(0x` between the pc and the instruction. */
  function MatchGap(pc: string, u: string): Option<Fields>
  {
    var w := LeadingSpaces(u);
    if w == 0 || !StartsWith(u[w..], "(0x") then None else MatchInstruction(pc, u[w + 3..])
  }

  /** `([0-9a-fA-F]+)\)(.*)$` for the instruction and the rest. */
  function MatchInstruction(pc: string, u: string): Option<Fields>
  {
    var h := HexRun(u);
    if h == 0 || h == |u| || u[h] != ')' || Contains(u[h + 1..], "\n") then None
    else Some(Fields(pc, u[..h], u[h + 1..]))
  }

  /** What a successful match guarantees about its groups. */
  lemma MatchFieldsShape(s: string)
    requires MatchFields(s).Some?
    ensures var f := MatchFields(s).value;
      f.pc != [] && f.instruction != [] && AllHex(f.pc) && AllHex(f.instruction) &&
      StartsWith(s, "0x") && 2 + |f.pc| <= |s| && s[2..2 + |f.pc|] == f.pc
  {
    var u := s[2..];
    var h := HexRun(u);
    assert u[..h] == s[2..2 + h];
  }

  /** `LogEntry.parse`: None for a blank or non-matching line. */
  function Parse(line: string, lineNum: int): Option<Entry>
  {
    var s := Strip(line);
    if s == [] then None
    else match MatchFields(s)
      case None => None
      case Some(f) => Some(Entry(Upper(f.pc), Upper(f.instruction), Strip(f.rest), s, lineNum))
  }

  /** Key for loop detection: pc and instruction only. */
  function PatternKey(e: Entry): string {
    e.pc + ":" + e.instruction
  }

  /** Key for alignment: pc, instruction and the side-effect text. */
  function FullKey(e: Entry): string {
    e.pc + ":" + e.instruction + ":" + e.extra
  }

  /** `LogEntry.__eq__` between two entries. */
  predicate Same(a: Entry, b: Entry) {
    FullKey(a) == FullKey(b)
  }

  /**
    `LogEntry.__hash__`: the hash of the full key. Python seeds its string
    hash per process, so the string hash is a parameter.
  */
  function Hash(e: Entry, strHash: string -> int): int {
    strHash(FullKey(e))
  }

  /** An entry as `Parse` produces it. */
  predicate WellFormed(e: Entry) {
    e.pc != [] && e.instruction != [] && AllUpperHex(e.pc) && AllUpperHex(e.instruction) &&
    IsStripped(e.extra)
  }

  /** A line in the form the core and the reference emit (inverse of `Parse`). */
  function Format(pc: string, instruction: string, extra: string): string {
    "0x" + pc + " (0x" + instruction + ")" + (if extra == [] then "" else " " + extra)
  }

  /** Blank lines yield no entry. */
  lemma ParseBlank(line: string, lineNum: int)
    requires forall k :: 0 <= k < |line| ==> IsSpace(line[k])
    ensures Parse(line, lineNum) == None
  {
    StripShape(line);
  }

  /**
    What a parsed entry holds: upper-case hex pc and instruction, a trimmed
    extra, the stripped line as `original`, and the given line number; the
    line itself starts with `0x` and the raw hex digits.
  */
  lemma ParseShape(line: string, lineNum: int)
    requires Parse(line, lineNum).Some?
    ensures var e := Parse(line, lineNum).value;
      WellFormed(e) && e.original == Strip(line) && e.lineNum == lineNum &&
      StartsWith(e.original, "0x") && Upper(e.original[2..2 + |e.pc|]) == e.pc
  {
    var s := Strip(line);
    var f := MatchFields(s).value;
    MatchFieldsShape(s);
    StripShape(f.rest);
    UpperOfHex(f.pc);
    UpperOfHex(f.instruction);
  }

  lemma UpperOfHex(s: string)
    requires AllHex(s)
    ensures AllUpperHex(Upper(s))
  {
  }

  /** Parsing a formatted line gives back its fields, upper-cased. */
  lemma ParseFormat(pc: string, instruction: string, extra: string, lineNum: int)
    requires pc != [] && instruction != [] && AllHex(pc) && AllHex(instruction)
    requires IsStripped(extra) && !Contains(extra, "\n")
    ensures Parse(Format(pc, instruction, extra), lineNum) ==
            Some(Entry(Upper(pc), Upper(instruction), extra, Format(pc, instruction, extra), lineNum))
  {
    var s := Format(pc, instruction, extra);
    var tail := if extra == [] then "" else " " + extra;
    var afterPc := " (0x" + instruction + ")" + tail;
    assert s == "0x" + (pc + afterPc);
    FormatIsStripped(pc, instruction, extra);
    StripStripped(s);
    assert s[2..] == pc + afterPc;
    assert StartsWith(s, "0x");
    MatchPcOf(pc, afterPc);
    MatchGapOf(pc, instruction, tail);
    MatchInstructionOf(pc, instruction, extra);
    assert MatchFields(s) == Some(Fields(pc, instruction, tail));
    StripTail(extra);
    assert Strip(s) == s && s != [];
  }

  lemma FormatIsStripped(pc: string, instruction: string, extra: string)
    requires IsStripped(extra)
    ensures IsStripped(Format(pc, instruction, extra))
  {
    var s := Format(pc, instruction, extra);
    assert s[0] == '0';
    if extra == [] {
      assert s[|s| - 1] == ')';
    } else {
      assert s[|s| - 1] == extra[|extra| - 1];
    }
  }

  lemma MatchPcOf(pc: string, afterPc: string)
    requires pc != [] && AllHex(pc)
    requires afterPc != [] && afterPc[0] == ' '
    ensures MatchPc(pc + afterPc) == MatchGap(pc, afterPc)
  {
    HexRunPrefix(pc, afterPc);
    assert (pc + afterPc)[..|pc|] == pc;
    assert (pc + afterPc)[|pc|..] == afterPc;
  }

  lemma MatchGapOf(pc: string, instruction: string, tail: string)
    ensures MatchGap(pc, " (0x" + instruction + ")" + tail) == MatchInstruction(pc, instruction + ")" + tail)
  {
    var u := " (0x" + instruction + ")" + tail;
    assert LeadingSpaces(u) == 1;
    assert u[1..] == "(0x" + instruction + ")" + tail;
    assert u[4..] == instruction + ")" + tail;
  }

  lemma MatchInstructionOf(pc: string, instruction: string, extra: string)
    requires instruction != [] && AllHex(instruction) && !Contains(extra, "\n")
    ensures var tail := if extra == [] then "" else " " + extra;
      MatchInstruction(pc, instruction + ")" + tail) == Some(Fields(pc, instruction, tail))
  {
    var tail := if extra == [] then "" else " " + extra;
    if extra != [] {
      NoLineBreakTail(extra);
    } else {
      assert !OccursAt(tail, "\n", 0);
    }
    MatchInstructionTail(pc, instruction, tail);
  }

  lemma MatchInstructionTail(pc: string, instruction: string, tail: string)
    requires instruction != [] && AllHex(instruction) && !Contains(tail, "\n")
    ensures MatchInstruction(pc, instruction + ")" + tail) == Some(Fields(pc, instruction, tail))
  {
    var rest := ")" + tail;
    var u := instruction + rest;
    assert u == instruction + ")" + tail;
    HexRunPrefix(instruction, rest);
    assert u[|instruction|] == rest[0] == ')';
    assert u[..|instruction|] == instruction;
    assert u[|instruction| + 1..] == rest[1..] == tail;
  }

  lemma StripTail(extra: string)
    requires IsStripped(extra)
    ensures Strip(if extra == [] then "" else " " + extra) == extra
  {
    StripStripped(extra);
    if extra != [] {
      var t := " " + extra;
      assert LeadingSpaces(t) == 1;
      assert LStrip(t) == extra;
    }
  }

  lemma NoLineBreakTail(extra: string)
    requires !Contains(extra, "\n")
    ensures !Contains(" " + extra, "\n")
  {
    var t := " " + extra;
    if Contains(t, "\n") {
      var k := FindFrom(t, "\n", 0).value;
      assert k > 0;
      assert OccursAt(extra, "\n", k - 1);
    }
  }

  /** The hex run of `digits + tail` is `digits` when `tail` starts with a non-hex character. */
  lemma {:induction false} HexRunPrefix(digits: string, tail: string)
    requires AllHex(digits)
    requires tail != [] && !IsHexDigit(tail[0])
    ensures HexRun(digits + tail) == |digits|
  {
    if digits != [] {
      assert (digits + tail)[1..] == digits[1..] + tail;
      HexRunPrefix(digits[1..], tail);
    }
  }

  /** Joining on `:` is injective when the left parts hold no `:`. */
  lemma {:induction false} JoinInjective(x: string, y: string, x': string, y': string)
    requires forall k :: 0 <= k < |x| ==> x[k] != ':'
    requires forall k :: 0 <= k < |x'| ==> x'[k] != ':'
    ensures x + ":" + y == x' + ":" + y' <==> x == x' && y == y'
  {
    var s, s' := x + ":" + y, x' + ":" + y';
    if s == s' {
      assert s[|x|] == ':' && s'[|x'|] == ':';
      assert x == s[..|x|] && x' == s'[..|x'|];
      assert y == s[|x| + 1..] && y' == s'[|x'| + 1..];
    }
  }

  lemma HexHasNoColon(s: string)
    requires AllUpperHex(s)
    ensures forall k :: 0 <= k < |s| ==> s[k] != ':'
  {
  }

  /**
    Between parsed entries, `__eq__` holds exactly when pc, instruction and
    extra all agree (the original line and line number do not matter).
  */
  lemma SameIff(a: Entry, b: Entry)
    requires WellFormed(a) && WellFormed(b)
    ensures Same(a, b) <==> a.pc == b.pc && a.instruction == b.instruction && a.extra == b.extra
  {
    HexHasNoColon(a.pc);
    HexHasNoColon(b.pc);
    HexHasNoColon(a.instruction);
    HexHasNoColon(b.instruction);
    assert FullKey(a) == a.pc + ":" + (a.instruction + ":" + a.extra);
    assert FullKey(b) == b.pc + ":" + (b.instruction + ":" + b.extra);
    JoinInjective(a.pc, a.instruction + ":" + a.extra, b.pc, b.instruction + ":" + b.extra);
    JoinInjective(a.instruction, a.extra, b.instruction, b.extra);
  }

  /** Equal entries have equal pattern keys; the pattern key ignores extra. */
  lemma SameHasSamePatternKey(a: Entry, b: Entry)
    requires WellFormed(a) && WellFormed(b) && Same(a, b)
    ensures PatternKey(a) == PatternKey(b)
  {
    SameIff(a, b);
  }

  /** Two entries that differ only in extra share a pattern key but are not equal. */
  lemma PatternKeyIgnoresExtra(a: Entry, extra: string)
    requires WellFormed(a) && IsStripped(extra) && extra != a.extra
    ensures PatternKey(a.(extra := extra)) == PatternKey(a) && !Same(a.(extra := extra), a)
  {
    SameIff(a.(extra := extra), a);
  }

  /** `__hash__` agrees with `__eq__`. */
  lemma HashConsistent(a: Entry, b: Entry, strHash: string -> int)
    requires Same(a, b)
    ensures Hash(a, strHash) == Hash(b, strHash)
  {
  }

  /** `__eq__` is an equivalence relation. */
  lemma SameIsEquivalence(a: Entry, b: Entry, c: Entry)
    ensures Same(a, a)
    ensures Same(a, b) ==> Same(b, a)
    ensures Same(a, b) && Same(b, c) ==> Same(a, c)
  {
  }
}
