# Zero-RISC-V trace comparator, modelled in Dafny

This project models the trace-differencing tools of the Zero-RISC-V
repository. They compare the instruction-commit log of the core under test
with the log of the Spike reference simulator. The model covers four parts.

- **The professional log comparator.** A committed-instruction line
  `0x<pc> (0x<instruction>)<rest>` is parsed into a log entry. Entries are
  compared by their full key: pc, instruction and side-effect text.
  Before alignment an infinite-loop detector removes the third and later
  copies of any window of 3 to 29 pattern keys (pc and instruction) that
  repeats at least 20 times in a row. The two cleaned traces are then
  aligned:
  - the classic longest-common-subsequence table is filled;
  - a traceback from the bottom-right corner turns the table into an edit
    script of EQUAL, DELETE and INSERT operations, preferring INSERT on a
    tie;
  - the script is counted into the comparator's statistics;
  - the script is cut into unified-diff style hunks with up to three
    operations of context.
- **The region extractor.** A line-driven scanner over an assembly listing.
  `region_N:` labels open a region. `.section` directives enter or leave
  region sections. The 32-bit `.word` values inside an open region are
  split into four little-endian byte strings each. Every region with data
  becomes a `.hex` file with one byte per line.
- **The Spike log filter.** It keeps the lines of a Spike trace whose
  stripped text starts with `core   0: 3`. From each kept line it removes
  that prefix and the blanks around it, and it counts lines read and lines
  kept.
- **The diff-row pairing of the GUI comparator.** The lines of a difference
  listing (`@@ HUNK` headers, `  ` context, `- ` core-only entries and
  `+ ` Spike-only entries) become two columns of tagged rows.
  - A run of deletions is paired, by program counter, with the run of
    insertions that follows it.
  - The shorter column is padded with placeholder rows.
  - The rows where either side differs are listed for navigation.

Each part is written in the source's own form:
- Parsing and the keys are pure functions.
- The loops of the source are methods with loop invariants. Each is proved
  to compute a reference function: `Scan`/`Detect`/`Clean` for the loop
  remover, `Table`/`Script` for the aligner, `Group` for the hunks, `Run`
  for the region scanner, `Filter` for the log filter, and `Process`/`Pair`
  for the row pairing.
- The objects the source updates in place are classes:
  - `InfiniteLoopDetector`, with `patternsFound` and `removedCount`;
  - `LcsComparator`, with its table as an `array2`;
  - `ProfessionalLogComparator`, with `stats`;
  - the viewer, with `currentDiffLines`.
- The properties of the source are lemmas about the reference functions.

Files:
- `text.dfy`: string helpers (Python's `strip`, `startswith`, `find`) and an `Option` type.
- `log_entry.dfy`: log entries.
- `loop_detector.dfy`: the loop remover.
- `lcs.dfy`: the aligner.
- `hunks.dfy`: hunk grouping.
- `comparator.dfy`: the comparison driver.
- `region_extractor.dfy`: the region extractor.
- `spike_log_filter.dfy`: the Spike log filter.
- `diff_viewer.dfy`: the row pairing.

Where the code and its design description disagree, the model follows the code:
- **Pattern lengths.** The design describes lengths "up to"
  `min(30, n / minRepetitions)`. The code's `range` excludes that bound, so a
  trace of 60 to 79 entries is scanned for no pattern length at all
  (`LoopDetector.NoLengthTriedBelowEighty`).
- **Empty input.** The design says the aligner turns an empty side into an
  all-one-sided script. The traceback returns an empty script instead when
  either sequence is empty. `compare_logs` already stops earlier on an empty
  trace.

## Model

Paths are relative to the repository root.

| member | source | states |
|---|---|---|
| LogEntries.ParseBlank | digital/tests/riscv_dv_tests/test1/out_2025-07-12/spike_sim/professional_log_comparator.py:46-48 | a line of nothing but whitespace parses to no entry |
| LogEntries.ParseShape | digital/tests/riscv_dv_tests/test1/out_2025-07-12/spike_sim/professional_log_comparator.py:43-61 | a parsed entry has non-empty upper-case hex pc and instruction, a stripped extra, the stripped line as original and the given line number; the line starts with `0x` and the pc is its digits upper-cased |
| LogEntries.ParseFormat | digital/tests/riscv_dv_tests/test1/out_2025-07-12/spike_sim/professional_log_comparator.py:51-61 | parsing a line `0x<pc> (0x<instr>) <extra>` gives back exactly its fields, pc and instruction upper-cased (the round trip with `Format`) |
| LogEntries.MatchFieldsShape | digital/tests/riscv_dv_tests/test1/out_2025-07-12/spike_sim/professional_log_comparator.py:51 | a successful match of the entry pattern has non-empty hex groups and the pc group is the text right after `0x` |
| LogEntries.FormatIsStripped | digital/tests/riscv_dv_tests/test1/out_2025-07-12/spike_sim/professional_log_comparator.py:46 | a formatted line is already stripped, so the strip at the start of parsing leaves it alone |
| LogEntries.SameIff | digital/tests/riscv_dv_tests/test1/out_2025-07-12/spike_sim/professional_log_comparator.py:67-75 | two parsed entries are equal exactly when pc, instruction and extra all agree; original text and line number do not matter |
| LogEntries.JoinInjective | digital/tests/riscv_dv_tests/test1/out_2025-07-12/spike_sim/professional_log_comparator.py:63-69 | joining with `:` is injective when the left part holds no `:`, so the colon-joined keys determine their parts |
| LogEntries.SameHasSamePatternKey | digital/tests/riscv_dv_tests/test1/out_2025-07-12/spike_sim/professional_log_comparator.py:63-75 | equal entries have equal pattern keys |
| LogEntries.PatternKeyIgnoresExtra | digital/tests/riscv_dv_tests/test1/out_2025-07-12/spike_sim/professional_log_comparator.py:63-69 | changing only the extra text keeps the pattern key and makes the entries unequal |
| LogEntries.HashConsistent | digital/tests/riscv_dv_tests/test1/out_2025-07-12/spike_sim/professional_log_comparator.py:77-78 | equal entries have equal hashes, whatever the string hash |
| LogEntries.SameIsEquivalence | digital/tests/riscv_dv_tests/test1/out_2025-07-12/spike_sim/professional_log_comparator.py:71-75 | entry equality is reflexive, symmetric and transitive |
| LoopDetector.Keys | digital/tests/riscv_dv_tests/test1/out_2025-07-12/spike_sim/professional_log_comparator.py:105 | one pattern key per entry, in order |
| LoopDetector.Span | digital/tests/riscv_dv_tests/test1/out_2025-07-12/spike_sim/professional_log_comparator.py:106 | `set(range(lo, hi))` holds exactly the integers in `[lo, hi)` |
| LoopDetector.RepsIsMaximalRun | digital/tests/riscv_dv_tests/test1/out_2025-07-12/spike_sim/professional_log_comparator.py:131-139 | `reps` counts the longest run of copies of the window at `i`, on the original keys: that many copies follow, one more does not |
| LoopDetector.CountReps | digital/tests/riscv_dv_tests/test1/out_2025-07-12/spike_sim/professional_log_comparator.py:134-139 | the counting loop computes `Reps` |
| LoopDetector.Discard | digital/tests/riscv_dv_tests/test1/out_2025-07-12/spike_sim/professional_log_comparator.py:149-150 | the discard loop removes exactly `[lo, hi)` from the kept set |
| LoopDetector.ScanAt | digital/tests/riscv_dv_tests/test1/out_2025-07-12/spike_sim/professional_log_comparator.py:126-162 | one loop iteration skips a removed index, records a run and jumps past it, or moves on; the remaining pass is unchanged |
| LoopDetector.DetectPatternLength | digital/tests/riscv_dv_tests/test1/out_2025-07-12/spike_sim/professional_log_comparator.py:122-162 | the pass for one length computes the reference pass `Scan` from index 0 |
| LoopDetector.ScanRemoves | digital/tests/riscv_dv_tests/test1/out_2025-07-12/spike_sim/professional_log_comparator.py:142-160 | a pass keeps exactly the indices of the kept set that none of its records discards (the copies after the second) |
| LoopDetector.ScanRecords | digital/tests/riscv_dv_tests/test1/out_2025-07-12/spike_sim/professional_log_comparator.py:125-158 | each record has the pass's length, at least `minRepetitions` copies counted on the original keys, `removed = (reps - 2) * L`, and a start that was still kept, at or after where the pass began |
| LoopDetector.ScanRecordsOrdered | digital/tests/riscv_dv_tests/test1/out_2025-07-12/spike_sim/professional_log_comparator.py:146-160 | the scan resumes at `i + reps * L`, so the blocks of one pass's records follow one another without overlap |
| LoopDetector.DetectAll | digital/tests/riscv_dv_tests/test1/out_2025-07-12/spike_sim/professional_log_comparator.py:109-110 | the loop over pattern lengths computes `Detect`, each pass on the set the previous one left |
| LoopDetector.DetectFacts | digital/tests/riscv_dv_tests/test1/out_2025-07-12/spike_sim/professional_log_comparator.py:109-110 | after all passes the kept set is exactly what no record discards, and every record has a length in the tried range |
| LoopDetector.KeptIndicesRange | digital/tests/riscv_dv_tests/test1/out_2025-07-12/spike_sim/professional_log_comparator.py:113 | the sorted kept indices lie in range and in the kept set |
| LoopDetector.KeptIndicesAscending | digital/tests/riscv_dv_tests/test1/out_2025-07-12/spike_sim/professional_log_comparator.py:113 | the sorted kept indices are strictly ascending |
| LoopDetector.KeptIndicesComplete | digital/tests/riscv_dv_tests/test1/out_2025-07-12/spike_sim/professional_log_comparator.py:113 | every kept index in range is listed |
| LoopDetector.SelectIndexed | digital/tests/riscv_dv_tests/test1/out_2025-07-12/spike_sim/professional_log_comparator.py:113 | the result list holds `entries[i]` for each sorted kept index `i`, one for one |
| LoopDetector.SelectAll | digital/tests/riscv_dv_tests/test1/out_2025-07-12/spike_sim/professional_log_comparator.py:106-113 | when nothing was discarded the whole list comes back |
| LoopDetector.CleanIsSubsequence | digital/tests/riscv_dv_tests/test1/out_2025-07-12/spike_sim/professional_log_comparator.py:97-120 | `remove_patterns` returns a subsequence of its input in original order, at strictly ascending indices |
| LoopDetector.CleanKeepsUnremoved | digital/tests/riscv_dv_tests/test1/out_2025-07-12/spike_sim/professional_log_comparator.py:106-118 | an index survives exactly when no reported pattern discards it, and the first `2 * minLen` entries always survive |
| LoopDetector.KeptSetIsUnremoved | digital/tests/riscv_dv_tests/test1/out_2025-07-12/spike_sim/professional_log_comparator.py:106-113 | the final kept set is what the reported patterns leave, and it holds the first `2 * minLen` indices |
| LoopDetector.CleanRecordsTried | digital/tests/riscv_dv_tests/test1/out_2025-07-12/spike_sim/professional_log_comparator.py:109 | every reported pattern has a length in `[minLen, min(30, n // minReps))` and is a valid run in the keys |
| LoopDetector.NoLengthTriedBelowEighty | digital/tests/riscv_dv_tests/test1/out_2025-07-12/spike_sim/professional_log_comparator.py:99-109 | with thresholds 3 and 20, a trace of 60 to 79 entries comes back unchanged and reports no pattern, because the length range is exclusive |
| LoopDetector.InfiniteLoopDetector.constructor | digital/tests/riscv_dv_tests/test1/out_2025-07-12/spike_sim/professional_log_comparator.py:91-95 | a detector starts with its thresholds, no removed count and no patterns |
| LoopDetector.InfiniteLoopDetector.RemovePatterns | digital/tests/riscv_dv_tests/test1/out_2025-07-12/spike_sim/professional_log_comparator.py:97-120 | returns `Clean(entries)`, appends the pass records to `patterns_found`, and sets `removed_count` only when something was removed; a short input comes back as is |
| Lcs.Back | digital/tests/riscv_dv_tests/test1/out_2025-07-12/spike_sim/professional_log_comparator.py:214-227 | one traceback step: EQUAL only on a match and moving diagonally; INSERT of `b[j-1]` moving left; DELETE of `a[i-1]` moving up |
| Lcs.BackPrefersInsert | digital/tests/riscv_dv_tests/test1/out_2025-07-12/spike_sim/professional_log_comparator.py:214-224 | which step is taken: EQUAL exactly on a match; otherwise INSERT exactly when a column is left and `T[i][j-1] >= T[i-1][j]` (ties go to INSERT); DELETE in the remaining case |
| Lcs.TableSteps | digital/tests/riscv_dv_tests/test1/out_2025-07-12/spike_sim/professional_log_comparator.py:188-193 | the table never decreases along a row or column and grows by at most one per step |
| Lcs.TableBound | digital/tests/riscv_dv_tests/test1/out_2025-07-12/spike_sim/professional_log_comparator.py:185-193 | each cell `T[i][j]` is at most `min(i, j)` |
| Lcs.ScriptCoreSide | digital/tests/riscv_dv_tests/test1/out_2025-07-12/spike_sim/professional_log_comparator.py:214-230 | the EQUAL and DELETE operations visit core indices `0..m-1` in order and carry exactly the core trace |
| Lcs.ScriptSpikeSide | digital/tests/riscv_dv_tests/test1/out_2025-07-12/spike_sim/professional_log_comparator.py:214-230 | the EQUAL and INSERT operations visit Spike indices `0..n-1` in order, with exactly the Spike trace's full keys |
| Lcs.BackFollowsTable | digital/tests/riscv_dv_tests/test1/out_2025-07-12/spike_sim/professional_log_comparator.py:214-227 | each step stays on the table's path: EQUAL lowers the cell by one, INSERT and DELETE keep it |
| Lcs.ScriptMatchCount | digital/tests/riscv_dv_tests/test1/out_2025-07-12/spike_sim/professional_log_comparator.py:214-230 | the script has exactly `T[i][j]` EQUAL operations |
| Lcs.ScriptMatchesCommon | digital/tests/riscv_dv_tests/test1/out_2025-07-12/spike_sim/professional_log_comparator.py:214-230 | the EQUAL pairs are strictly increasing index pairs of equal entries: a common subsequence |
| Lcs.TableIsUpperBound | digital/tests/riscv_dv_tests/test1/out_2025-07-12/spike_sim/professional_log_comparator.py:188-193 | no common subsequence of the two prefixes is longer than the table cell |
| Lcs.LcsOptimal | digital/tests/riscv_dv_tests/test1/out_2025-07-12/spike_sim/professional_log_comparator.py:172-231 | `T[m][n]` is the length of a longest common subsequence, and the traceback's EQUAL operations realise one |
| Lcs.FillRow | digital/tests/riscv_dv_tests/test1/out_2025-07-12/spike_sim/professional_log_comparator.py:189-193 | the inner loop fills row `i` with the recurrence and leaves every other row alone |
| Lcs.LcsComparator.constructor | digital/tests/riscv_dv_tests/test1/out_2025-07-12/spike_sim/professional_log_comparator.py:167-170 | a fresh comparator has no table and no sequences |
| Lcs.LcsComparator.ComputeLcsTable | digital/tests/riscv_dv_tests/test1/out_2025-07-12/spike_sim/professional_log_comparator.py:172-197 | fills a fresh `(m+1) x (n+1)` table with a zero first row and column and the match/max recurrence, and stores it with both sequences |
| Lcs.LcsComparator.TracebackDifferences | digital/tests/riscv_dv_tests/test1/out_2025-07-12/spike_sim/professional_log_comparator.py:199-231 | returns `[]` when no table was computed or either sequence is empty, else the reversed traceback `Script(m, n)` |
| Lcs.LcsComparator.StepBack | digital/tests/riscv_dv_tests/test1/out_2025-07-12/spike_sim/professional_log_comparator.py:215-227 | one iteration read off the stored table is the step `Back`, with INSERT chosen on a tie |
| Hunks.AbsorbEnd | digital/tests/riscv_dv_tests/test1/out_2025-07-12/spike_sim/professional_log_comparator.py:426-429 | the absorbing loop stops at the first index where neither the operation nor the next one is a change |
| Hunks.CollectEquals | digital/tests/riscv_dv_tests/test1/out_2025-07-12/spike_sim/professional_log_comparator.py:420-423 | the context loops collect the EQUAL operations of their range, in order |
| Hunks.Absorb | digital/tests/riscv_dv_tests/test1/out_2025-07-12/spike_sim/professional_log_comparator.py:426-429 | the absorbing loop takes exactly the operations up to `AbsorbEnd` |
| Hunks.GroupIntoHunks | digital/tests/riscv_dv_tests/test1/out_2025-07-12/spike_sim/professional_log_comparator.py:405-442 | the index-driven scan computes the reference grouping `Group` |
| Hunks.GroupKeepsChanges | digital/tests/riscv_dv_tests/test1/out_2025-07-12/spike_sim/professional_log_comparator.py:412-440 | the changes of the concatenated hunks are the changes of the script: each change appears in exactly one hunk, in script order |
| Hunks.HunkShape | digital/tests/riscv_dv_tests/test1/out_2025-07-12/spike_sim/professional_log_comparator.py:415-438 | a hunk is at most three EQUAL operations of leading context, an absorbed stretch from one change to a change with no two EQUAL operations in a row, and at most three EQUAL operations of trailing context; the stretch ends only at the end or before two EQUAL operations |
| Hunks.HunkChanges | digital/tests/riscv_dv_tests/test1/out_2025-07-12/spike_sim/professional_log_comparator.py:419-435 | context adds no change: a hunk's changes are those of its absorbed stretch |
| Hunks.GroupAtEqual | digital/tests/riscv_dv_tests/test1/out_2025-07-12/spike_sim/professional_log_comparator.py:439-440 | an EQUAL operation outside every hunk is skipped |
| Hunks.GroupHunksOpenAtChanges | digital/tests/riscv_dv_tests/test1/out_2025-07-12/spike_sim/professional_log_comparator.py:415-438 | every hunk is the hunk opened by some change of the script |
| Hunks.NoHunksIffNoChanges | digital/tests/riscv_dv_tests/test1/out_2025-07-12/spike_sim/professional_log_comparator.py:412-442 | the script yields no hunk exactly when it holds no change |
| Comparator.TallyTotal | digital/tests/riscv_dv_tests/test1/out_2025-07-12/spike_sim/professional_log_comparator.py:315-323 | perfect matches, deletions and insertions add up to the length of the script |
| Comparator.TallyProjections | digital/tests/riscv_dv_tests/test1/out_2025-07-12/spike_sim/professional_log_comparator.py:315-323 | the core side has matches plus deletions entries, the Spike side matches plus insertions, and there are as many EQUAL pairs as matches |
| Comparator.TallyOfScript | digital/tests/riscv_dv_tests/test1/out_2025-07-12/spike_sim/professional_log_comparator.py:304-310 | on the traceback script: `T[m][n]` matches, `m - T[m][n]` deletions and `n - T[m][n]` insertions |
| Comparator.CleanKeepsTraceNonEmpty | digital/tests/riscv_dv_tests/test1/out_2025-07-12/spike_sim/professional_log_comparator.py:285-292 | loop removal never empties a loaded trace |
| Comparator.FreshStatsAgree | digital/tests/riscv_dv_tests/test1/out_2025-07-12/spike_sim/professional_log_comparator.py:295-310 | on a fresh comparator: `perfect_matches == lcs_length`, deletions and insertions are what each cleaned trace has beyond it, the counters add up to the script length, and loop removal only shrinks the traces |
| Comparator.ProfessionalLogComparator.constructor | digital/tests/riscv_dv_tests/test1/out_2025-07-12/spike_sim/professional_log_comparator.py:236-246 | a fresh comparator has zero statistics and no patterns |
| Comparator.ProfessionalLogComparator.AnalyzeDifferences | digital/tests/riscv_dv_tests/test1/out_2025-07-12/spike_sim/professional_log_comparator.py:315-323 | adds the script's EQUAL, DELETE and INSERT counts to the three counters and changes nothing else |
| Comparator.ProfessionalLogComparator.CompareLogs | digital/tests/riscv_dv_tests/test1/out_2025-07-12/spike_sim/professional_log_comparator.py:270-313 | fails, changing nothing, exactly when a trace is empty; otherwise records the statistics of `Wire`, the two traces' pattern lists, and returns the script and its hunks |
| Comparator.RemoveLoops | digital/tests/riscv_dv_tests/test1/out_2025-07-12/spike_sim/professional_log_comparator.py:285-292 | one detector cleans both traces; the pattern lists are copied per trace, cleared in between |
| Comparator.Align | digital/tests/riscv_dv_tests/test1/out_2025-07-12/spike_sim/professional_log_comparator.py:302-307 | `lcs_length` is the table's corner and the differences are the traceback script, or `[]` on an empty side |
| RegionExtractor.SplitLines | scripts/region_extractor.py:44 | at least one line, none holding a line break |
| RegionExtractor.SplitJoin | scripts/region_extractor.py:44 | joining the split lines with `\n` gives back the content |
| RegionExtractor.RegionLabel | scripts/region_extractor.py:52-54 | a captured name is the whole line before the colon, `region_` and at least one more character |
| RegionExtractor.WordOperands | scripts/region_extractor.py:75-79 | the pattern matches exactly when the line starts with `.word` and a blank; the group is the line's tail after the blanks |
| RegionExtractor.FindWords | scripts/region_extractor.py:81 | every value found is 8 hex digits |
| RegionExtractor.Classify | scripts/region_extractor.py:49-72 | a label exactly when the label pattern matches; a word line only when the line starts with `.word` |
| RegionExtractor.WordBytes | scripts/region_extractor.py:86-93 | four bytes per word |
| RegionExtractor.BytesOf | scripts/region_extractor.py:83-93 | four bytes per word of a line |
| RegionExtractor.ExtendBytes | scripts/region_extractor.py:83-93 | the loop over a line's values appends their bytes, word by word, to the region's list |
| RegionExtractor.ExtractRegions | scripts/region_extractor.py:24-95 | the loop over the lines computes the reference scanner `Run` on the split content: region names in dictionary order and their bytes |
| RegionExtractor.WordBytesLittleEndian | scripts/region_extractor.py:86-93 | the four bytes read from last to first spell the upper-cased word, and each is two upper-case hex digits |
| RegionExtractor.BytesOfWellFormed | scripts/region_extractor.py:86-93 | every byte produced is two upper-case hex digits |
| RegionExtractor.BytesOfAppend | scripts/region_extractor.py:83-93 | bytes keep source order across words and across lines |
| RegionExtractor.StepWellFormed | scripts/region_extractor.py:48-93 | every line keeps the scanner's invariant: names listed once, exactly the dictionary keys, the open region a key, no open region outside a region section, whole words of well-formed bytes |
| RegionExtractor.SectionLines | scripts/region_extractor.py:61-72 | a `.section .region_` line enters a region section and keeps the open region; any other `.section` line leaves the section and closes the region; a `.word` line outside an open region in a region section changes nothing |
| RegionExtractor.RunWellFormed | scripts/region_extractor.py:48-93 | after any listing every region holds whole 4-byte words of well-formed bytes, so `len // 4` counts its words |
| RegionExtractor.StepOnlyAppends | scripts/region_extractor.py:61-93 | a line other than a label keeps the names, only appends to the open region and leaves the others alone; only a `.word` line changes data |
| RegionExtractor.LabelResets | scripts/region_extractor.py:52-58 | a `region_N:` line opens region N with a fresh empty list, enters a region section and keeps the name's place in the order |
| RegionExtractor.FindWordsFormat | scripts/region_extractor.py:81 | `findall` recovers exactly the values of a `0x`-formatted operand list |
| RegionExtractor.FindWordsSkip | scripts/region_extractor.py:81 | a character other than `0` never starts a match |
| RegionExtractor.HexFilesSkipEmpty | scripts/region_extractor.py:114-125 | files are written exactly for the regions with data, each named `<region>.hex` and holding that region's bytes |
| RegionExtractor.HexTextLength | scripts/region_extractor.py:123-125 | a `.hex` file holds one three-character line per byte |
| SpikeLogFilter.KeptIff | digital/tests/riscv_dv_tests/test1/out_2025-07-12/spike_sim/spike_log_filter.py:47 | a line is kept exactly when the prefix follows its leading blanks |
| SpikeLogFilter.RewriteKept | digital/tests/riscv_dv_tests/test1/out_2025-07-12/spike_sim/spike_log_filter.py:49-52 | a kept line is written as its tail after the prefix, left-stripped; the trailing text, terminator included, is unchanged |
| SpikeLogFilter.FirstPrefixAfterBlanks | digital/tests/riscv_dv_tests/test1/out_2025-07-12/spike_sim/spike_log_filter.py:49 | on a kept line the first occurrence `replace` removes is the one right after the leading blanks |
| SpikeLogFilter.LastIndex | digital/tests/riscv_dv_tests/test1/out_2025-07-12/spike_sim/spike_log_filter.py:29 | the index of the last occurrence of a character, or -1 |
| SpikeLogFilter.SplitExtShape | digital/tests/riscv_dv_tests/test1/out_2025-07-12/spike_sim/spike_log_filter.py:29 | `splitext` keeps a prefix of the path and removes a dot and what follows it in the last component, free of other dots |
| SpikeLogFilter.SplitExtKeepsName | digital/tests/riscv_dv_tests/test1/out_2025-07-12/spike_sim/spike_log_filter.py:29 | when an extension is removed, the last component keeps a character other than a dot |
| SpikeLogFilter.FilterLines | digital/tests/riscv_dv_tests/test1/out_2025-07-12/spike_sim/spike_log_filter.py:43-53 | the loop writes the rewrites of the kept lines in order and counts all lines and kept lines |
| SpikeLogFilter.FilterSpikeLog | digital/tests/riscv_dv_tests/test1/out_2025-07-12/spike_sim/spike_log_filter.py:14-71 | the whole function computes the reference outcome `Filter` |
| SpikeLogFilter.SelectedAppend | digital/tests/riscv_dv_tests/test1/out_2025-07-12/spike_sim/spike_log_filter.py:43-53 | kept lines appear once each in input order |
| SpikeLogFilter.SelectedPartition | digital/tests/riscv_dv_tests/test1/out_2025-07-12/spike_sim/spike_log_filter.py:43-63 | every selected line is kept, and kept plus dropped lines are all lines |
| SpikeLogFilter.FilterCounts | digital/tests/riscv_dv_tests/test1/out_2025-07-12/spike_sim/spike_log_filter.py:44-63 | `filtered_lines <= total_lines`, the filtered-out count is the number of dropped lines, one output line per kept line |
| SpikeLogFilter.FilterWritesKeptLines | digital/tests/riscv_dv_tests/test1/out_2025-07-12/spike_sim/spike_log_filter.py:43-53 | the `k`-th written line is the rewrite of the `k`-th kept input line |
| SpikeLogFilter.FilterOutcomes | digital/tests/riscv_dv_tests/test1/out_2025-07-12/spike_sim/spike_log_filter.py:23-71 | a missing input fails and opens nothing; an empty input fails after opening the output (division by zero caught); otherwise success; the output is the given name or `<root>_filtered.log` |
| DiffViewer.ExtractPc | scripts/risc_v_gui_comparator.py:551-555 | none exactly when no `0x<hex>` token occurs; otherwise the token at the leftmost match |
| DiffViewer.ExtractPcShape | scripts/risc_v_gui_comparator.py:551-555 | the token is leftmost, is `0x` and at least one hex digit, is the text at its position, and is never followed by another hex digit |
| DiffViewer.RunEnd | scripts/risc_v_gui_comparator.py:484-492 | a collected run is every line with the marker from its start, up to the first line without it |
| DiffViewer.CollectRun | scripts/risc_v_gui_comparator.py:484-506 | the collecting loops take the run's bodies with their markers removed |
| DiffViewer.BuildPcMap | scripts/risc_v_gui_comparator.py:520-524 | the map loop computes `PcMap` |
| DiffViewer.PcMapLastWins | scripts/risc_v_gui_comparator.py:520-524 | the map holds, for each program counter, the last deletion that carries it |
| DiffViewer.PcMapCovers | scripts/risc_v_gui_comparator.py:520-524 | every deletion with a program counter puts it in the map |
| DiffViewer.AddInsertionRows | scripts/risc_v_gui_comparator.py:527-543 | the insertion loop appends the insertion rows and collects the used deletions |
| DiffViewer.AddUnusedDeletions | scripts/risc_v_gui_comparator.py:545-549 | the deletion loop appends each unused deletion opposite a gap |
| DiffViewer.PairDeletionsInsertions | scripts/risc_v_gui_comparator.py:517-549 | appends the reference pairing `Pair` to the caller's columns |
| DiffViewer.InsertionRowsShape | scripts/risc_v_gui_comparator.py:530-543 | one row per insertion in order: the insertion tagged different, opposite its paired deletion or a gap |
| DiffViewer.DeletionRowsAreUnused | scripts/risc_v_gui_comparator.py:545-549 | the remaining core rows are deletions not used, tagged different; a deletion whose text equals a used one is dropped |
| DiffViewer.DeletionRowsLevel | scripts/risc_v_gui_comparator.py:545-549 | each remaining deletion stands opposite a gap |
| DiffViewer.PairLevel | scripts/risc_v_gui_comparator.py:517-549 | pairing appends as many rows to each column |
| DiffViewer.AddPureInsertions | scripts/risc_v_gui_comparator.py:509-511 | a pure insertion run is appended one row per insertion |
| DiffViewer.PureInsertionsUnpaired | scripts/risc_v_gui_comparator.py:499-513 | a pure insertion run lays out like insertions that found no deletion: a gap opposite each |
| DiffViewer.ProcessUnifiedDiffSequentially | scripts/risc_v_gui_comparator.py:462-515 | the scan appends the reference rows `Process` to the caller's columns |
| DiffViewer.ProcessLevel | scripts/risc_v_gui_comparator.py:462-549 | every step appends as many rows to one column as to the other |
| DiffViewer.SkippedLinesAddNothing | scripts/risc_v_gui_comparator.py:468-471 | hunk headers and lines with no known marker add no rows |
| DiffViewer.ContextLineRow | scripts/risc_v_gui_comparator.py:473-477 | a context line shows its text as a normal row on both sides |
| DiffViewer.SpikeDifferencesAreInsertions | scripts/risc_v_gui_comparator.py:479-513 | the Spike column shows exactly one row tagged different per `+ ` line: no insertion is lost or doubled |
| DiffViewer.PadColumn | scripts/risc_v_gui_comparator.py:581-584 | the padding loop extends a column with gaps to the given length |
| DiffViewer.PadShape | scripts/risc_v_gui_comparator.py:577-584 | padding keeps every row and adds only gaps, up to the longer length |
| DiffViewer.DiffLinesExact | scripts/risc_v_gui_comparator.py:592-599 | the navigation list holds exactly the 1-based numbers of rows where a side is different, in increasing order |
| DiffViewer.Viewer.PopulateRows | scripts/risc_v_gui_comparator.py:575-599 | pads both columns to the longer length and resets `current_diff_lines` to the rows where a side differs |

## Left out

- File reading and writing, console output and the command-line `main` functions: the traces, the listing and the Spike log are given as in-memory sequences of lines or entries.
- `load_log_file`: it becomes the sequence of parsed entries that `CompareLogs` receives; the missing-file and read-error paths both give an empty list, which `CompareLogs` models as failure.
- `_generate_report`, its match percentage and its text: `CompareLogs` returns the edit script and its hunks instead of the report string.
- The Tk and pywebview interfaces, themes, scrolling, search, export and the background comparison thread: presentation, foreign libraries and concurrency.
- The compression ratio of the Spike log filter is floating point: only its division by zero on an empty input (caught, the call fails) is modelled.
- LogEntries.Hash: Python's string hash is randomised per process, so it is a parameter; only its consistency with equality is stated.
- Digits: the `\d` of the region label is read as ASCII `[0-9]`; Python's `str` pattern also accepts other Unicode decimal digits. Whitespace follows Python's `str.isspace` character list.
- SpikeLogFilter.SplitExtRoot: models POSIX `os.path.splitext` only; Windows separators and drive letters are not modelled.
- LoopDetector.PatternRecord: the location is kept as the start index rather than the text `"Line i"`.
- LoopDetector.DetectPatternLength: the kept set is threaded through and returned rather than mutated in place, and the records are returned to the caller, which appends them to `patternsFound` after all passes; the final list is the same.
- Comparator.ProfessionalLogComparator: statistics accumulate across calls as in the source, but `Comparator.FreshStatsAgree` states the agreement between counters only for a comparator on its first comparison.
- The `if current_hunk` test of `_group_into_hunks` is always true (a hunk opened at a change holds it), so it has no branch in the model.
- Exceptions other than the caught division by zero and the missing input of the Spike log filter (unreadable files, encoding errors) are not modelled.
- Loop-removal idempotence is not claimed: the greedy scan on the original keys does not guarantee that a second removal removes nothing.
- LoopDetector.InfiniteLoopDetector.constructor: requires both thresholds to be at least 1. With a pattern length of 0 the source's counting loop (professional_log_comparator.py:138-140) never advances and does not terminate; with 0 repetitions the division at line 109 raises ZeroDivisionError. The only caller (line 285) passes 3 and 20.
