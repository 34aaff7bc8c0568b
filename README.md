# wss-rs working-set estimator, modelled in Dafny

wss-rs estimates how much memory a process actively touches over an interval.
It uses the kernel's page-idle tracking for this. First it marks every physical
frame idle. Then it sleeps, reloads the idle bitmap, and walks the process's
pagemap region by region. A page counts as walked when it is present and has a
nonzero physical frame number (PFN). It counts as active when its frame's idle
bit was cleared by an access. Finally it corrects the elapsed time for the cost
of the reset and of the reload-and-walk.

The model has six modules: one per source file, plus two shared ones in
words.dfy.

- `Wrappers` (words.dfy): Rust's `Option` and `io::Result`.
- `Words` (words.dfy): Rust's `u64` and the little-endian decoding of an 8-byte
  pagemap record. `u64::from_ne_bytes` is little-endian on x86-64, the target
  that `PAGE_OFFSET` assumes. Also `i64` halving, which truncates toward zero.
- `IdleMaps` (idlemap.dfy): `IdleMap::is_page_active` over the loaded byte
  buffer, and an arithmetic reference reading of the bitmap as a sequence of
  flags.
- `Pagemaps` (pagemap.dfy): `Pagemap::process_region` as a method with a
  `for` loop, a `break` at the table's end and `continue` on skipped records.
  It is proved equal to `RegionCounts`, a specification over the records the
  walk reads.
- `Scanner` (scanner.dfy): `split_whitespace`, `split('-')`,
  `u64::from_str_radix(_, 16)`, `parse_map_line`, and the loop of `get_maps`
  over the lines of `/proc/<pid>/maps`.
- `Estimator` (estimator.dfy): the `PAGE_OFFSET` filter and the accumulation
  loop of `main`, the `est_micros` formula, and one measurement from the
  reloaded bitmap on (`Measure`).

The kernel files are inputs:

- the idle bitmap is the byte sequence `load` returns;
- the pagemap is the byte image the mmap shows;
- the maps listing is its sequence of lines;
- the `Instant` readings are natural numbers of nanoseconds.

Notes on what the code does:

- The pagemap is memory-mapped and indexed. There are no chunked reads.
- A table that ends inside the region stops the walk quietly (`break`).
  `process_region` always returns `Ok`.
- A region is skipped only when its start is strictly above `PAGE_OFFSET`.
  A region starting exactly at `PAGE_OFFSET` is walked.
- The parser does not demand `start <= end`. `process_region` computes
  `end - start` as a `u64`. A release build wraps that subtraction, and a debug
  build panics. `NumPages` models the release build: the difference is taken
  modulo 2^64.

In `main`, the region loop always receives `Ok` from `process_region`. To
give its `Err` arm a meaning, `AccumulateRegions` takes the per-region walk as
a function parameter (`Walker`). `Measure` passes it `TableWalker`, which is
`RegionCounts` over the mapped table. `ProcessRegion` is proved to return
exactly that.

## Model

| member | source | states |
|---|---|---|
| `IdleMaps.IsPageActive` | src/idlemap.rs:83-91 | the model of `is_page_active`: a frame reported active has its byte inside the buffer; what the answer means is given by `LookupMatchesFlags` and `OutOfRangeNotActive` |
| `IdleMaps.OutOfRangeNotActive` | src/idlemap.rs:84-87 | a frame whose byte index `pfn / 8` is at or past the end of the buffer is never active |
| `IdleMaps.LookupMatchesFlags` | src/idlemap.rs:83-91 | the lookup agrees with the reference reading of the bitmap: active exactly when the frame is covered and its idle flag (bit `pfn % 8` of byte `pfn / 8`) is clear, in both directions |
| `IdleMaps.IdleFlagsAt` | src/idlemap.rs:84-89 | in the reference reading, the flag of frame `pfn` is bit `pfn % 8` of byte `pfn / 8` |
| `IdleMaps.MaskTestIsBit` | src/idlemap.rs:89-90 | the mask test `byte & (1 << bit)` is nonzero exactly when the arithmetic bit `bit` of the byte is 1 |
| `IdleMaps.ResetPatternAllIdle` | src/idlemap.rs:34 | over a buffer of 0xFF bytes (the reset pattern), of any length, no frame is active |
| `IdleMaps.ZeroSnapshotAllActive` | src/idlemap.rs:85-90 | over an all-zero buffer, a frame is active exactly when `pfn / 8` is inside the buffer |
| `IdleMaps.DependsOnOwnByte` | src/idlemap.rs:84-90 | two buffers of equal length that agree at byte `pfn / 8` give the same answer for `pfn` |
| `IdleMaps.MarkIdleMakesInactive` | src/idlemap.rs:88-90 | after setting bit `pfn % 8` of byte `pfn / 8`, frame `pfn` is inactive |
| `IdleMaps.MarkIdleKeepsOthers` | src/idlemap.rs:88-90 | setting the idle bit of one frame leaves the answer for every other frame unchanged |
| `Words.LoadU64LE` | src/pagemap.rs:48-49 | the model of `u64::from_ne_bytes` on x86-64: the first byte is the word's least significant byte and the eighth its most significant; `LoadStore` and `StoreLoad` show that no bit is lost either way |
| `Words.LoadStore` | src/pagemap.rs:48-49 | decoding the eight little-endian bytes of a word gives the word back |
| `Words.StoreLoad` | src/pagemap.rs:48-49 | encoding the word decoded from eight bytes gives those bytes back |
| `Words.HalfTowardZero` | src/main.rs:121-122 | `i64` division by 2: remainder 0 or 1 for non-negative values, 0 or -1 for negative ones |
| `Pagemaps.NumPages` | src/pagemap.rs:32 | `(end - start) / 4096` when `start <= end`; when `end < start`, the wrapped difference `2^64 - (start - end)` divided by 4096; always below 2^52 |
| `Pagemaps.TableOffset` | src/pagemap.rs:35 | the region's first record starts at byte `8 * (start / 4096)`: a multiple of 8 whose record index is the page index of `start`, and below 2^64, so the `as usize` cast loses nothing |
| `Pagemaps.ProcessRegion` | src/pagemap.rs:25-68 | the loop always returns `Ok` with exactly the counts `RegionCounts` gives, and `active <= walked <= (end - start) / 4096` |
| `Pagemaps.RegionCounts` | src/pagemap.rs:32-64 | the counts of a region satisfy `active <= walked <= (end - start) / 4096` |
| `Pagemaps.VisitedEntries` | src/pagemap.rs:32-46 | the walk reads `min((end - start) / 4096, records that fit)` records from byte `(start / 4096) * 8` on, and never more than the region's pages |
| `Pagemaps.WalkReadsFittingEntries` | src/pagemap.rs:40-49 | record i of the walk is the little-endian word at byte `(start / 4096) * 8 + 8 i`, which ends inside the table, and i is below the region's page count |
| `Pagemaps.TrailingBytesIgnored` | src/pagemap.rs:43-46 | when the table holds all the region's records, bytes after them do not change the counts |
| `Pagemaps.AbsentEntryNotCounted` | src/pagemap.rs:52-54 | a record with bit 63 clear adds to neither counter |
| `Pagemaps.ZeroFrameNotCounted` | src/pagemap.rs:56-59 | a record whose low 55 bits are 0 adds to neither counter |
| `Pagemaps.CountsAreCardinalities` | src/pagemap.rs:56-64 | `walked` is the number of present records with a nonzero PFN; `active` is the number of those whose PFN `is_page_active` reports active |
| `Pagemaps.ThreePageScenario` | src/pagemap.rs:40-67 | records [present, PFN 10], [absent], [present, PFN 20] over a 3-page region, with frame 10 idle and frame 20 accessed, give `(1, 2)` |
| `Scanner.SplitWhitespace` | src/scanner.rs:43 | the model of `split_whitespace`: every field is non-empty and free of whitespace; `BlankHasNoFields`, `LeadingBlank`, `SplitJoinPadded` and `SplitJoinWords` say which fields a line yields |
| `Scanner.BlankHasNoFields` | src/scanner.rs:43 | a string of whitespace splits into no fields |
| `Scanner.SplitJoinWords` | src/scanner.rs:43 | splitting on whitespace undoes joining non-empty whitespace-free words with spaces |
| `Scanner.LeadingBlank` | src/scanner.rs:43 | whitespace in front of a string adds no field |
| `Scanner.SplitJoinPadded` | src/scanner.rs:43 | splitting on whitespace gives back the words of a line whose columns are separated by any non-empty runs of whitespace, with any trailing whitespace |
| `Scanner.Split` | src/scanner.rs:48 | the model of `split('-')`: at least one piece, none holding the separator; `JoinSplit` and `SplitCount` say which pieces |
| `Scanner.JoinSplit` | src/scanner.rs:48 | joining the pieces of `split(sep)` with the separator gives back the string |
| `Scanner.SplitCount` | src/scanner.rs:48-51 | `split(sep)` yields one piece more than there are separators |
| `Scanner.ParseHex` | src/scanner.rs:53-54 | the model of `u64::from_str_radix(_, 16)`: it fails on the empty string and on a lone `+`; `ParseHexDigits`, `ParseHexRoundTrip`, `ParseHexRejectsMalformed` and `ParseHexPlusSign` together give its result on every input |
| `Scanner.ParseHexRoundTrip` | src/scanner.rs:53-54 | hex parsing of a number printed in lower-case hex gives the number when it is below 2^64, and fails otherwise |
| `Scanner.ParseHexRejectsMalformed` | src/scanner.rs:53-54 | the empty string, a lone `+`, or any character that is not a hex digit (after an optional leading `+`) fails the parse |
| `Scanner.ParseHexPlusSign` | src/scanner.rs:53-54 | one leading `+` is accepted and does not change the result |
| `Scanner.ParseMapLine` | src/scanner.rs:41-64 | the model of `parse_map_line`: a line it accepts has at least one field; `MapLineRoundTrip`, `OptionalFields`, `BlankLineRejected`, `BadRangeRejected` and `BadAddressRejected` give its result on accepted and rejected lines |
| `Scanner.BlankLineRejected` | src/scanner.rs:43-46 | an empty or whitespace-only line parses to `None` |
| `Scanner.BadRangeRejected` | src/scanner.rs:48-51 | a first field without exactly one `-` parses to `None` |
| `Scanner.BadAddressRejected` | src/scanner.rs:53-54 | when either side of the range is not a valid 64-bit hex number, the line parses to `None` |
| `Scanner.ParseHexDigits` | src/scanner.rs:53-54 | any non-empty run of hex digits, of either case and with any leading zeros, parses to its value when that is below 2^64, and fails otherwise |
| `Scanner.MapLineRoundTrip` | src/scanner.rs:41-64 | `a + "-" + b + " " + rest`, with `a` and `b` hex addresses below 2^64 (either case, leading zeros allowed), parses to exactly their values, for any rest |
| `Scanner.OptionalFields` | src/scanner.rs:41-63 | for a line of a hex range followed by whitespace-free fields, with any whitespace before the range, between the columns (one or more characters, such as the spaces that align the pathname column) and after the last, start and end are the range's values; perms is the first field after the range and pathname the fifth; each is `""` when the line is too short |
| `Scanner.ExampleLineParses` | src/scanner.rs:42-63 | the zero-padded line `00400000-0040b000 r-xp 00000000 08:01 123456 /path/to/file` parses to start 0x400000, end 0x40b000, perms `r-xp` and pathname `/path/to/file` |
| `Scanner.PaddedExampleLineParses` | src/scanner.rs:42-63 | the same line with its pathname column padded by a run of spaces and a trailing tab parses to the same region |
| `Scanner.ReversedRangeAccepted` | src/scanner.rs:53-63 | a line whose start lies above its end still parses, with `start > end` |
| `Scanner.GetMaps` | src/scanner.rs:24-37 | the loop returns `ParsedRegions(lines, ParseMapLine)`: the regions of the lines `parse_map_line` accepts, in order |
| `Scanner.ParsedRegionsAppend` | src/scanner.rs:26-35 | for any line parser, the regions of two consecutive runs of lines are those of the first run followed by those of the second |
| `Scanner.ParsedRegionsFromLines` | src/scanner.rs:26-35 | there are no more regions than lines, and each region is the parse of some line |
| `Scanner.AllLinesParsable` | src/scanner.rs:26-35 | when every line parses, region j is the parse of line j |
| `Scanner.NoLineParsable` | src/scanner.rs:26-35 | when no line parses, there are no regions |
| `Estimator.AccumulateRegions` | src/main.rs:85-105 | the loop's totals are `TotalCounts`: the walk results of the non-skipped regions whose walk succeeded, summed in order |
| `Estimator.KernelRegionSkipped` | src/main.rs:89-91 | a region with `start > PAGE_OFFSET` adds nothing to the totals |
| `Estimator.ThresholdRegionWalked` | src/main.rs:89-91 | the skip test is strict: a region starting exactly at `PAGE_OFFSET` (the constant of src/main.rs:17) is walked, and its counts are added |
| `Estimator.FailedRegionDropped` | src/main.rs:98-103 | a region whose walk fails adds nothing |
| `Estimator.TotalCountsAppend` | src/main.rs:93-97 | the totals over two runs of regions are the sums of their totals |
| `Estimator.TotalsOrdered` | src/main.rs:95-96 | if no walk reports more active than walked pages, the totals keep `total_active_pages <= total_walked_pages` |
| `Estimator.TableWalkerSound` | src/main.rs:93 | the program's walk never fails and never reports more active than walked pages |
| `Estimator.WalkedBoundedByPages` | src/main.rs:85-105 | with the program's walk, the walked total is at most the page count of the regions not above `PAGE_OFFSET` |
| `Estimator.WrapI64` | src/main.rs:120-122 | `i64` wrap-around: the result is in the `i64` range, congruent to its input modulo 2^64, and equal to it when the input is already in range |
| `Estimator.AsI64` | src/main.rs:120-122 | `as i64` keeps the low 64 bits: the result is in the `i64` range and congruent to its input modulo 2^64, so equal to it when the input is below 2^63 |
| `Estimator.EstMicros` | src/main.rs:120-122 | the model of the `est_micros` expression: an `i64` value; `EstimateBounds`, `EstimateFitsI64`, `EstimateWithoutOverhead` and `EstimateNonNegative` say how it relates to the durations |
| `Estimator.EstimateBounds` | src/main.rs:120-122 | `est <= total`, and `total - est` lies between `(set + read) / 2 - 1` and `(set + read) / 2` |
| `Estimator.EstimateWithoutOverhead` | src/main.rs:120-122 | with both overheads 0, `est == total` |
| `Estimator.EstimateFitsI64` | src/main.rs:120-122 | with durations below 2^63 microseconds, the `i64` subtractions do not overflow: the estimate is exactly `total - set/2 - read/2` |
| `Estimator.MicrosSuperadditive` | src/main.rs:115-122 | truncating two spans to microseconds separately gives no more than truncating their sum |
| `Estimator.EstimateNonNegative` | src/main.rs:43-55 | with the instants in the order they are taken (before the reset, after it, on waking, after the walk), the estimate is at least 0 |
| `Estimator.Measure` | src/main.rs:85-122 | the active total is `TotalCounts` of the parsed regions under the program's walk, and is at most their page count; the estimate is the `est_micros` of the four instants and lies between 0 and the elapsed time |

## Left out

- The kernel and proc file I/O, taken as inputs instead: the write-until-zero reset loop of `set_idlemap`, `load`'s `read_to_end`, the mmap in `Pagemap::new`, and the open and `BufReader` in `get_maps`. Their failures end the program, so they change nothing in the logic modelled here.
- Scanner.GetMaps: an error while reading a line (`line?`) is not modelled. The lines are given as already read.
- `thread::sleep` and the `Instant` clock. The instants are parameters.
- Floating point: the `duration < 0.01` check, `est_seconds` and `ref_mb`. There is no floating-point arithmetic in this model.
- Argument parsing with clap, the printed table, and `process::exit`.
- Scanner.IsWhitespace: covers only the ASCII whitespace of `split_whitespace`. The other Unicode white-space characters are not modelled.
- Estimator.EstMicros: the two `i64` subtractions wrap around, as in a release build. A debug build panics instead. Only durations of 2^63 microseconds or more can overflow them (`EstimateFitsI64`).
- Pagemaps.NumPages: models the release build's wrap-around of `end - start`. A debug build panics instead when `end < start`.
- Estimator.AccumulateRegions: the `+=` on `usize` totals is unbounded here. Overflowing it would take more than 2^64 pages.
- IdleMaps.IsPageActive: the `(pfn / 8) as usize` cast assumes a 64-bit `usize`, as on x86-64.
