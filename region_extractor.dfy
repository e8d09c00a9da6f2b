/**
  The region extractor: a line-driven state machine over an assembly
  listing. `region_N:` labels open a region, `.section` directives enter
  or leave region sections, and the 32-bit values of `.word` directives
  inside an open region are split into little-endian byte strings. Each
  region with data becomes a `.hex` file with one byte per line.

  The regions dictionary keeps insertion order, as a Python dict does: it
  is modelled as the list of names in first-insertion order plus a map.
*/
module RegionExtractor {
  import opened Wrappers
  import opened Text

  /** The scanner's variables: `current_region`, `in_region_section` and `regions`. */
  datatype Scanner = Scanner(
    current: Option<string>,
    inSection: bool,
    order: seq<string>,
    data: map<string, seq<string>>)

  const Start := Scanner(None, false, [], map[])

  // ----- Splitting the file -----

  /** `content.split('\n')`. */
  function SplitLines(s: string): (r: seq<string>)
    ensures |r| >= 1
    ensures forall k :: 0 <= k < |r| ==> !Contains(r[k], "\n")
    decreases |s|
  {
    match FindFrom(s, "\n", 0)
    case None => [s]
    case Some(k) =>
      assert !Contains(s[..k], "\n") by { NoBreakBefore(s, k); }
      [s[..k]] + SplitLines(s[k + 1..])
  }

  /** No line break occurs in `s[..k]` when the first one of `s` is at `k`. */
  lemma NoBreakBefore(s: string, k: nat)
    requires FindFrom(s, "\n", 0) == Some(k)
    ensures FindFrom(s[..k], "\n", 0).None?
  {
    var t := s[..k];
    if FindFrom(t, "\n", 0).Some? {
      var p := FindFrom(t, "\n", 0).value;
      assert t[p..p + 1] == s[p..p + 1];
      assert OccursAt(s, "\n", p);
    }
  }

  /** `'\n'.join(lines)`. */
  function JoinLines(lines: seq<string>): string
    requires |lines| >= 1
  {
    if |lines| == 1 then lines[0] else lines[0] + "\n" + JoinLines(lines[1..])
  }

  /** Splitting loses nothing: joining the lines gives back the content. */
  lemma {:induction false} SplitJoin(s: string)
    ensures JoinLines(SplitLines(s)) == s
    decreases |s|
  {
    match FindFrom(s, "\n", 0)
    case None =>
      assert SplitLines(s) == [s];
    case Some(k) =>
      var rest := SplitLines(s[k + 1..]);
      SplitJoin(s[k + 1..]);
      assert SplitLines(s) == [s[..k]] + rest;
      assert ([s[..k]] + rest)[0] == s[..k];
      assert ([s[..k]] + rest)[1..] == rest;
      assert JoinLines(SplitLines(s)) == s[..k] + "\n" + JoinLines(rest);
      assert s[k..k + 1] == "\n";
      assert s == s[..k] + "\n" + s[k + 1..];
  }

  // ----- Matching one stripped line -----

  /** The name `re.match(r'^(region_\d+):\s*$', line)` captures, for a stripped line. */
  function RegionLabel(line: string): (r: Option<string>)
    ensures r.Some? ==> line == r.value + ":" && StartsWith(r.value, "region_") && |r.value| > 7
  {
    if |line| >= 9 && line[..7] == "region_" && line[|line| - 1] == ':' &&
       (forall k :: 7 <= k < |line| - 1 ==> IsDigit(line[k]))
    then Some(line[..|line| - 1])
    else None
  }

  /** What `re.match(r'\.word\s+(.*)', line)` captures: the text after `.word` and the blanks that follow it. */
  function WordOperands(line: string): (r: Option<string>)
    ensures r.Some? <==> StartsWith(line, ".word") && |line| > 5 && IsSpace(line[5])
    ensures r.Some? ==> |r.value| < |line| - 5 && r.value == line[|line| - |r.value|..]
    ensures r.Some? ==> forall j :: 5 <= j < |line| - |r.value| ==> IsSpace(line[j])
    ensures r.Some? && r.value != [] ==> !IsSpace(r.value[0])
  {
    if StartsWith(line, ".word") && |line| > 5 && IsSpace(line[5])
    then Some(line[5 + LeadingSpaces(line[5..])..])
    else None
  }

  /** `re.findall(r'0x([0-9a-fA-F]{8})', s)`: scans left to right, resuming after each match. */
  function FindWords(s: string): (r: seq<string>)
    ensures forall k :: 0 <= k < |r| ==> |r[k]| == 8 && AllHex(r[k])
    decreases |s|
  {
    if |s| < 10 then []
    else if s[..2] == "0x" && AllHex(s[2..10]) then [s[2..10]] + FindWords(s[10..])
    else FindWords(s[1..])
  }

  /** `0xAABBCCDD` becomes `DD`, `CC`, `BB`, `AA`: the upper-cased bytes, least significant first. */
  function WordBytes(hex: string): (r: seq<string>)
    requires |hex| == 8
    ensures |r| == 4
  {
    var u := Upper(hex);
    [u[6..8], u[4..6], u[2..4], u[0..2]]
  }

  /** The bytes of a list of words, word by word. */
  function BytesOf(words: seq<string>): (r: seq<string>)
    requires forall k :: 0 <= k < |words| ==> |words[k]| == 8
    ensures |r| == 4 * |words|
  {
    if words == [] then [] else BytesOf(words[..|words| - 1]) + WordBytes(words[|words| - 1])
  }

  // ----- The state machine -----

  /** What a stripped line is to the scanner, tested in the source's order. */
  datatype LineKind =
    | Label(name: string)
    | EnterSection
    | LeaveSection
    | WordLine(operands: Option<string>)
    | Other

  function Classify(line: string): (k: LineKind)
    ensures k.Label? <==> RegionLabel(line).Some?
    ensures k.WordLine? ==> StartsWith(line, ".word")
  {
    match RegionLabel(line)
    case Some(name) => Label(name)
    case None =>
      if StartsWith(line, ".section .region_") then EnterSection
      else if StartsWith(line, ".section") && !Contains(line, ".region_") then LeaveSection
      else if StartsWith(line, ".word") then WordLine(WordOperands(line))
      else Other
  }

  /** A region label: the region is (re)opened with an empty list and keeps its place in the order. */
  function Open(st: Scanner, name: string): Scanner {
    Scanner(Some(name), true, if name in st.data then st.order else st.order + [name], st.data[name := []])
  }

  /** One iteration of the loop of `extract_regions_from_assembly` on a raw line. */
  function Step(st: Scanner, raw: string): Scanner {
    match Classify(Strip(raw))
    case Label(name) => Open(st, name)
    case EnterSection => st.(inSection := true)
    case LeaveSection => st.(inSection := false, current := None)
    case WordLine(operands) =>
      if st.inSection && st.current.Some? && st.current.value in st.data && operands.Some? then
        var name := st.current.value;
        st.(data := st.data[name := st.data[name] + BytesOf(FindWords(operands.value))])
      else st
    case Other => st
  }

  /** The scanner after the lines `lines`, read in order. */
  function Run(lines: seq<string>): Scanner {
    if lines == [] then Start else Step(Run(lines[..|lines| - 1]), lines[|lines| - 1])
  }

  /** The loop over the hex values of one `.word` line: extends `bytes` word by word. */
  method ExtendBytes(bytes: seq<string>, hexValues: seq<string>) returns (r: seq<string>)
    requires forall k :: 0 <= k < |hexValues| ==> |hexValues[k]| == 8
    ensures r == bytes + BytesOf(hexValues)
  {
    r := bytes;
    for k := 0 to |hexValues|
      invariant r == bytes + BytesOf(hexValues[..k])
    {
      assert hexValues[..k + 1][..k] == hexValues[..k];
      r := r + WordBytes(hexValues[k]);
    }
    assert hexValues[..|hexValues|] == hexValues;
  }

  /**
    `extract_regions_from_assembly` over the file's content: the region
    names in dictionary order and their byte lists.
  */
  method ExtractRegions(content: string) returns (order: seq<string>, regions: map<string, seq<string>>)
    ensures order == Run(SplitLines(content)).order && regions == Run(SplitLines(content)).data
  {
    var lines := SplitLines(content);
    var current: Option<string> := None;
    var inSection := false;
    order, regions := [], map[];
    for n := 0 to |lines|
      invariant Run(lines[..n]) == Scanner(current, inSection, order, regions)
      invariant current.Some? ==> current.value in regions
    {
      assert lines[..n + 1][..n] == lines[..n];
      ghost var st := Scanner(current, inSection, order, regions);
      assert Run(lines[..n + 1]) == Step(st, lines[n]);
      var kind := Classify(Strip(lines[n]));
      match kind {
        case Label(name) =>
          if name !in regions {
            order := order + [name];
          }
          current := Some(name);
          regions := regions[name := []];
          inSection := true;
        case EnterSection =>
          inSection := true;
        case LeaveSection =>
          inSection := false;
          current := None;
        case WordLine(operands) =>
          if inSection && current.Some? && operands.Some? {
            var name := current.value;
            var bytes := ExtendBytes(regions[name], FindWords(operands.value));
            regions := regions[name := bytes];
          }
        case Other =>
      }
      assert Scanner(current, inSection, order, regions) == Step(st, lines[n]);
    }
    assert lines[..|lines|] == lines;
  }

  // ----- Output files -----

  /** `write_hex_files`: one `<name>.hex` per region in dictionary order, skipping empty regions. */
  function HexFiles(order: seq<string>, data: map<string, seq<string>>): (r: seq<(string, seq<string>)>)
    requires forall k :: 0 <= k < |order| ==> order[k] in data
  {
    if order == [] then []
    else
      var last := order[|order| - 1];
      HexFiles(order[..|order| - 1], data) + (if data[last] == [] then [] else [(last + ".hex", data[last])])
  }

  /** The text of one `.hex` file: each byte on its own line. */
  function HexText(bytes: seq<string>): string {
    if bytes == [] then "" else HexText(bytes[..|bytes| - 1]) + bytes[|bytes| - 1] + "\n"
  }

  // ----- Properties -----

  /** A byte string: two upper-case hex digits. */
  predicate IsByte(b: string) {
    |b| == 2 && AllUpperHex(b)
  }

  /**
    The scanner's invariant: names are listed once each and exactly the
    dictionary's keys, the open region is a key, and every region holds
    whole words of well-formed bytes.
  */
  ghost predicate WellFormed(st: Scanner) {
    && (forall p, q :: 0 <= p < q < |st.order| ==> st.order[p] != st.order[q])
    && (forall name :: name in st.data <==> name in st.order)
    && (st.current.Some? ==> st.current.value in st.data)
    && (!st.inSection ==> st.current.None?)
    && (forall name :: name in st.data ==> |st.data[name]| % 4 == 0)
    && (forall name, k :: name in st.data && 0 <= k < |st.data[name]| ==> IsByte(st.data[name][k]))
  }

  /**
    The split is little-endian: the four bytes of a word, read from last
    to first, spell the upper-cased word, and each is a well-formed byte.
  */
  lemma WordBytesLittleEndian(hex: string)
    requires |hex| == 8 && AllHex(hex)
    ensures var b := WordBytes(hex);
      b[3] + b[2] + b[1] + b[0] == Upper(hex) && forall k :: 0 <= k < 4 ==> IsByte(b[k])
  {
    var u := Upper(hex);
    assert u == u[0..2] + u[2..4] + u[4..6] + u[6..8];
    UpperBytes(hex);
  }

  lemma UpperBytes(hex: string)
    requires |hex| == 8 && AllHex(hex)
    ensures forall k :: 0 <= k < 4 ==> IsByte(WordBytes(hex)[k])
  {
    var u := Upper(hex);
    assert AllUpperHex(u);
    forall k | 0 <= k < 4
      ensures IsByte(WordBytes(hex)[k])
    {
      var lo := 6 - 2 * k;
      assert WordBytes(hex)[k] == u[lo..lo + 2];
    }
  }

  lemma {:induction false} BytesOfWellFormed(words: seq<string>)
    requires forall k :: 0 <= k < |words| ==> |words[k]| == 8 && AllHex(words[k])
    ensures forall k :: 0 <= k < |BytesOf(words)| ==> IsByte(BytesOf(words)[k])
  {
    if words != [] {
      BytesOfWellFormed(words[..|words| - 1]);
      WordBytesLittleEndian(words[|words| - 1]);
    }
  }

  /** Bytes keep source order: the bytes of two lists of words are the two byte lists in turn. */
  lemma {:induction false} BytesOfAppend(u: seq<string>, w: seq<string>)
    requires forall k :: 0 <= k < |u| ==> |u[k]| == 8
    requires forall k :: 0 <= k < |w| ==> |w[k]| == 8
    ensures BytesOf(u + w) == BytesOf(u) + BytesOf(w)
    decreases |w|
  {
    if w == [] {
      assert u + w == u;
      assert BytesOf(w) == [];
    } else {
      var w' := w[..|w| - 1];
      var last := w[|w| - 1];
      assert (u + w)[..|u + w| - 1] == u + w';
      assert (u + w)[|u + w| - 1] == last;
      BytesOfAppend(u, w');
      assert BytesOf(u + w) == BytesOf(u + w') + WordBytes(last);
      assert BytesOf(w) == BytesOf(w') + WordBytes(last);
    }
  }

  /** Opening a region keeps the scanner well formed. */
  lemma OpenWellFormed(st: Scanner, name: string)
    requires WellFormed(st)
    ensures WellFormed(Open(st, name))
  {
    var st' := Open(st, name);
    if name !in st.data {
      forall p, q | 0 <= p < q < |st'.order|
        ensures st'.order[p] != st'.order[q]
      {
        if q == |st.order| {
          assert st.order[p] in st.data;
        }
      }
    }
  }

  /** Appending the bytes of whole words to a region keeps the scanner well formed. */
  lemma AppendWellFormed(st: Scanner, name: string, words: seq<string>)
    requires WellFormed(st) && name in st.data
    requires forall k :: 0 <= k < |words| ==> |words[k]| == 8 && AllHex(words[k])
    ensures WellFormed(st.(data := st.data[name := st.data[name] + BytesOf(words)]))
  {
    BytesOfWellFormed(words);
    var bytes := st.data[name] + BytesOf(words);
    assert |bytes| % 4 == 0;
    assert forall k :: 0 <= k < |bytes| ==> IsByte(bytes[k]);
    var st' := st.(data := st.data[name := bytes]);
    assert st'.data.Keys == st.data.Keys;
    forall n | n in st'.data
      ensures |st'.data[n]| % 4 == 0 && forall k :: 0 <= k < |st'.data[n]| ==> IsByte(st'.data[n][k])
    {
      if n != name {
        assert st'.data[n] == st.data[n];
      }
    }
  }

  /** Every step keeps the scanner well formed. */
  lemma StepWellFormed(st: Scanner, raw: string)
    requires WellFormed(st)
    ensures WellFormed(Step(st, raw))
  {
    match Classify(Strip(raw))
    case Label(name) =>
      OpenWellFormed(st, name);
    case EnterSection =>
    case LeaveSection =>
    case WordLine(operands) =>
      if st.inSection && st.current.Some? && st.current.value in st.data && operands.Some? {
        AppendWellFormed(st, st.current.value, FindWords(operands.value));
      }
    case Other =>
  }

  /** The extracted regions are well formed, whatever the listing. */
  lemma {:induction false} RunWellFormed(lines: seq<string>)
    ensures WellFormed(Run(lines))
  {
    if lines == [] {
      assert Run(lines) == Start;
    } else {
      RunWellFormed(lines[..|lines| - 1]);
      StepWellFormed(Run(lines[..|lines| - 1]), lines[|lines| - 1]);
    }
  }

  /**
    Any line but a region label keeps the names and their order, only
    appends to the open region's bytes and leaves every other region
    alone; only a `.word` line can change the data at all.
  */
  lemma StepOnlyAppends(st: Scanner, raw: string)
    requires !Classify(Strip(raw)).Label?
    ensures var st' := Step(st, raw);
      && st'.order == st.order && st'.data.Keys == st.data.Keys
      && (forall name :: name in st.data ==> st.data[name] <= st'.data[name])
      && (forall name :: name in st.data && st.current != Some(name) ==> st'.data[name] == st.data[name])
      && (!Classify(Strip(raw)).WordLine? ==> st'.data == st.data)
  {
  }

  /**
    The `.section` and `.word` transitions, on the stripped line: a
    `.section .region_` line enters a region section and keeps the open
    region; any other `.section` line leaves the section and closes the
    region; a `.word` line outside an open region in a region section
    changes nothing.
  */
  lemma SectionLines(st: Scanner, raw: string)
    ensures StartsWith(Strip(raw), ".section .region_") ==> Step(st, raw) == st.(inSection := true)
    ensures StartsWith(Strip(raw), ".section") && !Contains(Strip(raw), ".region_") ==>
      Step(st, raw) == st.(inSection := false, current := None)
    ensures StartsWith(Strip(raw), ".word") && !(st.inSection && st.current.Some?) ==> Step(st, raw) == st
  {
    var line := Strip(raw);
    if StartsWith(line, ".section .region_") {
      EnterSectionLine(line);
    }
    if StartsWith(line, ".section") && !Contains(line, ".region_") {
      NotLabel(line);
      assert Classify(line) == LeaveSection;
    }
    if StartsWith(line, ".word") {
      NotLabel(line);
      assert line[1] == 'w' && ".section"[1] == 's';
      assert !StartsWith(line, ".section .region_") && !StartsWith(line, ".section");
      assert Classify(line) == WordLine(WordOperands(line));
    }
  }

  /** A directive line is never a region label. */
  lemma NotLabel(line: string)
    requires |line| > 0 && line[0] == '.'
    ensures RegionLabel(line).None?
  {
    assert "region_"[0] == 'r';
  }

  lemma EnterSectionLine(line: string)
    requires StartsWith(line, ".section .region_")
    ensures Classify(line) == EnterSection && Contains(line, ".region_")
  {
    assert line[0] == '.';
    NotLabel(line);
    assert line[9..17] == ".section .region_"[9..17];
    assert OccursAt(line, ".region_", 9);
  }

  /**
    A label line opens its region with a fresh empty list, replacing any
    earlier list of that name and keeping the name's place in the order.
  */
  lemma LabelResets(st: Scanner, digits: string)
    requires |digits| >= 1 && forall k :: 0 <= k < |digits| ==> IsDigit(digits[k])
    ensures var name := "region_" + digits;
      var st' := Step(st, name + ":");
      && st'.current == Some(name) && st'.inSection
      && st'.data == st.data[name := []]
      && st'.order == (if name in st.data then st.order else st.order + [name])
  {
    var line := "region_" + digits + ":";
    assert line[..|line| - 1] == "region_" + digits;
    assert IsStripped(line);
    StripStripped(line);
    assert RegionLabel(line) == Some("region_" + digits);
  }

  /** The `.word` operand list a listing holds: `0x` values separated by `", "`. */
  function FormatWords(words: seq<string>): string {
    if words == [] then ""
    else if |words| == 1 then "0x" + words[0]
    else "0x" + words[0] + ", " + FormatWords(words[1..])
  }

  /** A value right at the start is taken, and the scan resumes after its ten characters. */
  lemma FindWordsMatch(w: string, rest: string)
    requires |w| == 8 && AllHex(w)
    ensures FindWords("0x" + w + rest) == [w] + FindWords(rest)
  {
    var s := "0x" + w + rest;
    assert s[..2] == "0x" && s[2..10] == w && s[10..] == rest;
  }

  /** A character other than `0` cannot start a match and is skipped. */
  lemma FindWordsSkip(c: char, t: string)
    requires c != '0'
    ensures FindWords([c] + t) == FindWords(t)
  {
    var s := [c] + t;
    assert s[1..] == t;
    if |s| >= 10 {
      assert s[..2][0] == c;
    }
  }

  /** `findall` recovers exactly the 8-digit values of a formatted operand list. */
  lemma {:induction false} FindWordsFormat(words: seq<string>)
    requires forall k :: 0 <= k < |words| ==> |words[k]| == 8 && AllHex(words[k])
    ensures FindWords(FormatWords(words)) == words
  {
    if words == [] {
      assert FormatWords(words) == [];
    } else if |words| == 1 {
      FindWordsMatch(words[0], []);
      assert "0x" + words[0] + [] == FormatWords(words);
    } else {
      FindWordsFormat(words[1..]);
      FindWordsSeparated(words[0], FormatWords(words[1..]));
    }
  }

  /** A value followed by the `", "` separator: the value is taken and the separator skipped. */
  lemma FindWordsSeparated(w: string, rest: string)
    requires |w| == 8 && AllHex(w)
    ensures FindWords("0x" + w + ", " + rest) == [w] + FindWords(rest)
  {
    FindWordsSkip(' ', rest);
    FindWordsSkip(',', [' '] + rest);
    assert ", " + rest == [','] + ([' '] + rest);
    FindWordsMatch(w, ", " + rest);
    assert "0x" + w + ", " + rest == "0x" + w + (", " + rest);
  }

  /** Output files exist exactly for the regions with data, and each file holds that data. */
  lemma {:induction false} HexFilesSkipEmpty(order: seq<string>, data: map<string, seq<string>>)
    requires forall k :: 0 <= k < |order| ==> order[k] in data
    ensures forall f :: f in HexFiles(order, data) ==>
      exists name :: name in order && f == (name + ".hex", data[name]) && data[name] != []
    ensures forall name :: name in order && data[name] != [] ==> (name + ".hex", data[name]) in HexFiles(order, data)
  {
    if order != [] {
      HexFilesSkipEmpty(order[..|order| - 1], data);
      var last := order[|order| - 1];
      forall name | name in order
        ensures name == last || name in order[..|order| - 1]
      {
        var k :| 0 <= k < |order| && order[k] == name;
        if k < |order| - 1 {
          assert order[..|order| - 1][k] == name;
        }
      }
    }
  }

  /** A `.hex` file has one line per byte, so a region of `4 * w` bytes fills `4 * w` lines of three characters. */
  lemma {:induction false} HexTextLength(bytes: seq<string>)
    requires forall k :: 0 <= k < |bytes| ==> IsByte(bytes[k])
    ensures |HexText(bytes)| == 3 * |bytes|
  {
    if bytes != [] {
      HexTextLength(bytes[..|bytes| - 1]);
    }
  }
}
