# lazysimd scanner core, modelled in Dafny

lazysimd finds a byte signature such as `"48 8B ?? ?? 89"` in a block of memory.
This project models the AArch64 path of the crate.

- `SimdPatternScanData::new` compiles the text into a byte array, a 0/1 mask and the
  count of wildcards before the first concrete byte (the anchor).
- `build_match_indexes` lists the concrete positions after index 0.
- `pattern_to_vec` cuts `bytes[1..]` into zero-padded 16-byte registers.
- `find_pattern_neon` looks for the anchor in 16-byte windows with the four Neon helpers
  of `src/imp/aarch64.rs`. It checks each candidate block by block against the match
  table and returns the offset of the first candidate that passes.
- `get_offset_neon` calls it on a slice.

Modules, one per file:

- `Vector` (`vector.dfy`): the four vector primitives. `movemask` is written out as the
  backend computes it and is proved to pack the top bit of lane i into bit i.
- `Pattern` (`pattern.dfy`): splitting on spaces, `trim_start_matches("0x")`,
  `u8::from_str_radix(_, 16)`, and the compiler `ScanDataNew`. A token that does not
  parse is the `Err` result where the source's `unwrap` panics.
- `Tables` (`tables.dfy`): `BuildMatchIndexes` over an array, and `PatternToVec`.
- `Scan` (`scan.dfy`): the scanner as written. The cursor is kept as `data_ptr - data`.
  A 16-byte load outside `data` ends the run with `Fault`. The outer loop gets `fuel`,
  spent only when the cursor does not move forward.
- `ScanFacts` (`scan_facts.dfy`): what the candidate check decides.
- `ScanTheorems` (`scan_theorems.dfy`): what the whole loop finds.
- `ScanFixed` (`scan_fixed.dfy`): the loop with the defects below mended, proved to find
  the first match that lies within the first `data_len` bytes.
- `Findings` (`findings.dfy`): concrete inputs that show each defect.

The model keeps the code's behaviour where it departs from what a pattern
scanner is evidently meant to do, as judged from the source's own comments and
the four findings below:

- A byte token is whatever `u8::from_str_radix(_, 16)` accepts (src/lib.rs:187). That
  is one or two hex digits, an optional leading `+`, or more digits with leading zeros
  (`"00A"`), and not only the two-digit bytes a signature is written with.
- `trim_start_matches("0x")` (src/lib.rs:176) removes every leading `"0x"`, so
  `"0x0xAA"` is a byte and `"0x??"` is a wildcard.
- A bad token panics at `unwrap` (src/lib.rs:187); the model returns
  `Err(BadToken(k))` for the first bad token k.
- The comment at src/lib.rs:54 speaks of advancing the pointer. After a failed
  candidate, the code can move the cursor back and loop forever (finding 2).
- The table walk (src/lib.rs:70-85) runs over the whole zero-filled table, not only
  over the slots that name concrete bytes (finding 1).
- The loop bound `data_len - max(bytes.len(), 16)` (src/lib.rs:30) underflows whenever
  `data_len` is below `max(bytes.len(), 16)`. That includes a `data_len` of 16 or more
  that is shorter than the pattern. A debug build panics there. In a release build the
  wrapped bound lies below the data pointer and the loop does not run; the model
  reports `NotFound`.

## Model

| member | source | states |
|---|---|---|
| Vector.Vector128Create | src/imp/aarch64.rs:5-7 | defines `vdupq_n_u8`: all sixteen lanes hold the given byte |
| Vector.LoadVector128 | src/imp/aarch64.rs:9-11 | defines `vld1q_u8`: the sixteen bytes from offset p on, defined only when `[p, p + 16)` lies inside the memory |
| Vector.CompareEqual | src/imp/aarch64.rs:13-15 | defines `vceqq_u8`: lane i is 0xFF when the two lanes i agree and 0 otherwise |
| Vector.AndLanes | src/imp/aarch64.rs:22 | defines `vandq_u8`: lane i is the bitwise AND of the two lanes i |
| Vector.ShiftLanes | src/imp/aarch64.rs:24 | defines `vshlq_u8`: each lane shifted left by a non-negative amount, right by a negative one, cleared at eight or more |
| Vector.AddAcross | src/imp/aarch64.rs:27-29 | defines `vaddv_u8`: the sum of eight lanes wrapped to a `u8`, so always below 256 |
| Vector.Movemask | src/imp/aarch64.rs:17-31 | AND with 0x80, shift by `UC_SHIFT`, two `vaddv_u8` sums, the high one times 256: the result is the bit-per-lane mask (bit i = top bit of lane i) and is below 2^16 |
| Vector.MovemaskHalves | src/imp/aarch64.rs:22-29 | the low-half sum plus 256 times the high-half sum equals the packed top bits of all sixteen lanes, with no carry out of 16 bits |
| Vector.HalfPack | src/imp/aarch64.rs:26-29 | each `vaddv_u8` over eight shifted lanes equals the packed top bits of those lanes and stays below 256, so the `u8` sum never wraps |
| Vector.ShiftedLane | src/imp/aarch64.rs:18-24 | a lane masked with 0x80 and shifted by `UC_SHIFT[k]` is 2^k when its top bit is set and 0 otherwise |
| Vector.ShiftedLanes | src/imp/aarch64.rs:18-24 | lane i of the data masked with 0x80 and shifted by `UC_SHIFT` is 2^(i mod 8) when lane i has its top bit set and 0 otherwise, for all sixteen lanes |
| Vector.MaskBits | src/imp/aarch64.rs:17-31 | bit i of the mask is set exactly when lane i has its top bit set, for i < 16; no bit at 16 or above is set |
| Vector.CompareMaskBit | src/imp/aarch64.rs:13-15 | bit i of `movemask(compare_equal(l, r))` is set exactly when lanes i of l and r are equal |
| Vector.TrailingZeros | src/lib.rs:55 | `trailing_zeros` of a non-zero mask is a set bit with no set bit below it |
| Vector.Bit | src/lib.rs:74 | defines the test `(x >> k) & 1 == 1`: bit k of x is set |
| Vector.PackBitsAppend | src/imp/aarch64.rs:27-29 | the mask of two concatenated lane runs is the mask of the first plus the second shifted past it |
| Pattern.Split | src/lib.rs:176 | `split(' ')` gives at least one piece and no piece contains a space |
| Pattern.HexDigit | src/lib.rs:187 | defines `char::to_digit(16)` as used by `from_str_radix(_, 16)`: 0-9, a-f and A-F give their value, below 16; any other character gives none |
| Pattern.JoinSplit | src/lib.rs:176 | joining the pieces of `split(' ')` with spaces gives back the text |
| Pattern.SplitJoin | src/lib.rs:176 | splitting space-free tokens joined with spaces gives back the tokens |
| Pattern.TrimHexPrefixes | src/lib.rs:176 | defines `trim_start_matches("0x")`: strips a leading "0x" as long as one is there |
| Pattern.TrimHexPrefixesSpec | src/lib.rs:176 | `trim_start_matches("0x")` drops a run of whole "0x" pairs and leaves a suffix that does not start with "0x" |
| Pattern.ParseHexU8 | src/lib.rs:187 | defines `u8::from_str_radix(_, 16)`: an optional '+', then one or more hex digits of either case whose value is below 256; anything else is an error |
| Pattern.ParseHexByte | src/lib.rs:187 | every byte written as two hex digits parses back to itself with `from_str_radix(_, 16)` |
| Pattern.ParseTwoDigits | src/lib.rs:187 | two hex digits hi, lo parse to the byte hi * 16 + lo |
| Pattern.Classify | src/lib.rs:176-190 | defines what one token means after the "0x" trim: `??` is a wildcard, a parsable token is that byte, and anything else is where `unwrap` panics |
| Pattern.PatternOf | src/lib.rs:178-197 | defines the compiled pattern position by position: byte (0 for a wildcard), mask bit, and the count of wildcards before the first concrete token |
| Pattern.FirstInvalid | src/lib.rs:178-190 | the token where `unwrap` panics is invalid and every token before it is valid |
| Pattern.FirstInvalidAt | src/lib.rs:178-190 | an invalid token after only valid ones is the one reported |
| Pattern.ScanDataNew | src/lib.rs:167-199 | the loop over tokens succeeds exactly when every token is a byte or `??`; on success the result is the token-by-token compilation; on failure it names the first bad token |
| Pattern.PatternOfSnoc | src/lib.rs:178-190 | one more token appends its byte and mask bit and keeps the leading count unless only wildcards came before |
| Pattern.LeadingWildcardsSpec | src/lib.rs:183-185 | `leading_ignore_count` counts the wildcards before the first concrete token and the token at it is concrete |
| Pattern.PatternOfShape | src/lib.rs:167-199 | bytes and mask have one entry per token and the pattern has an anchor exactly when some token is concrete |
| Tables.OffsetsBelowSpec | src/lib.rs:148-156 | the offsets written are strictly increasing and name exactly the concrete positions after index 0, minus one |
| Tables.BuildMatchIndexes | src/lib.rs:142-159 | the array loop produces the match table: concrete offsets first (cut to 16 bits), then zeros, as long as the mask |
| Tables.MatchTableShape | src/lib.rs:142-159 | for a mask of at most 65537 entries the table starts with the concrete offsets, below `len - 1` and increasing, and every later slot is 0 |
| Tables.DivCeil | src/lib.rs:102 | defines `div_ceil`: n divided by d, rounded up |
| Tables.DivCeilBounds | src/lib.rs:102 | `div_ceil(16)` gives the least block count whose 16-byte blocks cover n bytes |
| Tables.PatternToVec | src/lib.rs:100-140 | the loop over blocks produces the pattern blocks: full loads, then a zero-padded last block |
| Tables.PatternBlocksRoundTrip | src/lib.rs:100-140 | the blocks, laid end to end, are `bytes[1..]` followed by zero padding to a multiple of 16 |
| Tables.FlattenAt | src/lib.rs:100-140 | byte e of the laid-out blocks is lane e mod 16 of block e / 16 |
| Scan.WalkBlock | src/lib.rs:70-85 | defines the inner `while`: from slot j, each entry whose distance from the block offset is below 16 must have its compare bit set; the first entry outside the block ends the walk |
| Scan.SearchEnd | src/lib.rs:30 | defines the loop bound `data_len - max(bytes.len(), 16)`, kept as a signed value so that the underflow shows as a bound below 0 |
| Scan.VerifyBlocks | src/lib.rs:61-86 | defines the `for` over blocks: load 16 bytes after the candidate per block, compare, and walk the table; a load outside `data` faults |
| Scan.StepAsWritten | src/lib.rs:39-88 | defines one turn of the `'data` loop: window load, anchor mask, move on by 15, or move to the candidate and check it |
| Scan.RunAsWritten | src/lib.rs:37-91 | defines the `'data` loop while the cursor is below the bound, with fuel spent only on a turn that does not move forward |
| Scan.FindSpec | src/lib.rs:20-98 | defines the whole call: compile, panic on a bad token or a missing anchor, build both tables, run the loop up to `data_len - max(len, 16)` |
| Scan.VerifyCandidate | src/lib.rs:58-86 | the `for` over blocks with its inner `while` on the table computes the candidate verdict |
| Scan.DataTurn | src/lib.rs:38-88 | one turn of the `'data` loop computes the step: move on by 15, report the candidate, move to one past it, or fault on a load |
| Scan.DataLoop | src/lib.rs:37-91 | the `'data` loop computes the run of turns from cursor 0 |
| Scan.FindPatternNeon | src/lib.rs:20-98 | the call compiles the pattern, builds both tables, and runs the loop up to `data_len - max(len, 16)` |
| Scan.GetOffsetNeon | src/lib.rs:16-18 | the call scans the whole slice with `data_len = data.len()` |
| Scan.RunStops | src/lib.rs:37-89 | a turn that matches or faults ends the loop with that result |
| Scan.RunMovesOn | src/lib.rs:37-89 | a turn that moves the cursor forward leaves the outcome that of the new cursor |
| Scan.RunFallsBack | src/lib.rs:37-89 | a turn that does not move the cursor forward costs one unit of fuel |
| Scan.RunStalls | src/lib.rs:37-89 | without fuel, such a turn is a loop that does not end |
| ScanFacts.WalkBlockSpan | src/lib.rs:70-85 | the inner `while` passes a run of slots inside the block exactly when every lane they name is set |
| ScanFacts.BlockLane | src/lib.rs:64-68 | lane l of block i's compare mask is set exactly when pattern byte 1 + 16 i + l is in place |
| ScanFacts.VerifyTurn | src/lib.rs:61-85 | one block accepts its slots exactly when the pattern bytes they name are in place |
| ScanFacts.VerifyFrom | src/lib.rs:58-86 | from block i on, the check accepts exactly when the named bytes are in place, plus `bytes[1]` when every used slot is in block 0 |
| ScanFacts.CandidateVerdict | src/lib.rs:58-86 | with its loads inside `data`, the check accepts exactly the candidates that pass `Verified` and rejects the others |
| ScanFacts.UsedSlotsHit | src/lib.rs:142-159 | the used table slots name exactly the concrete positions after index 0 |
| ScanFacts.UsedSlotsLow | src/lib.rs:142-159 | every used slot is in block 0 exactly when all concrete bytes after the anchor lie within 16 places of it |
| ScanFacts.AcceptedFits | src/lib.rs:61-66 | an accepted candidate had every block load inside `data` |
| ScanTheorems.Window | src/lib.rs:39-56 | the anchor mask of a window is 0 exactly when the window lacks the anchor; otherwise `trailing_zeros` is its first place |
| ScanTheorems.StepMatched | src/lib.rs:39-88 | a matching turn found the anchor within 15 places of the cursor and accepted the candidate it leads to |
| ScanTheorems.RunFound | src/lib.rs:37-89 | a reported offset is the match of some turn |
| ScanTheorems.FoundMatches | src/lib.rs:20-98 | at a reported offset (possibly -1) every concrete byte of the pattern is in place and the check's extra demand holds |
| ScanTheorems.FoundInText | src/lib.rs:20-98 | when the call on a pattern text of at most 65537 tokens reports an offset, the text compiled to a well-formed pattern and every concrete byte of it is in place there (from -1 on) |
| ScanTheorems.AcceptedMatches | src/lib.rs:58-88 | an accepted candidate with its anchor in place lies in `data` (from -1 on) and has every concrete byte in place |
| ScanTheorems.AdmitsAnchored | src/lib.rs:58-86 | with the anchor at index 0, the loop admits an offset exactly when the anchor is there and the check passes |
| ScanTheorems.CandidateFits | src/lib.rs:30 | with 29 readable bytes past `data_len`, every block load for a candidate in a searched window stays inside `data` |
| ScanTheorems.StepAnchored | src/lib.rs:39-88 | with the anchor at index 0, a turn matches the first admitted offset from the cursor on or moves forward past offsets that are not admitted |
| ScanTheorems.RunAnchored | src/lib.rs:37-91 | from a cursor with nothing admitted before it, the loop ends with the first admitted offset or `None` |
| ScanTheorems.FirstAdmitted | src/lib.rs:20-98 | with the anchor at index 0 and 29 spare bytes, the scan ends without fault and returns the first admitted offset, or `None` when no offset below the bound is admitted |
| ScanFixed.MatchHasAnchor | src/lib.rs:28 | a match has the anchor byte at its leading-wildcard distance |
| ScanFixed.FixedQuiet | src/lib.rs:49-52 | a window without the anchor holds the anchor of no match within `data_len` bytes |
| ScanFixed.FixedAnchor | src/lib.rs:54-56 | at the first anchor in the window, the candidate is the first match within `data_len` bytes, or no such match is anchored up to the anchor |
| ScanFixed.FixedAnchorTurn | src/lib.rs:54-88 | a mended turn at an anchor reports the candidate when all its concrete bytes are in place within `data_len` bytes, and otherwise goes on one past the anchor |
| ScanFixed.FixedStep | src/lib.rs:39-86 | a mended turn reports the first match within `data_len` bytes or moves forward past anchors of no such match |
| ScanFixed.FixedStepQuiet | src/lib.rs:49-52 | the same for a window without the anchor byte |
| ScanFixed.FixedStepAnchor | src/lib.rs:54-88 | the same for a window with the anchor byte |
| ScanFixed.FixedFrom | src/lib.rs:37-91 | the mended loop from a cursor with no match anchored before it ends with the first match within `data_len` bytes, or with `None` |
| ScanFixed.FixedFirstMatch | src/lib.rs:20-98 | the mended scan never faults or hangs, whatever readable bytes follow the first `data_len`; it returns the first offset whose concrete bytes are all in place and which ends within `data_len` bytes, or `None` only when no such match is anchored below the bound |
| Findings.BadTokenText | src/lib.rs:187 | compiling "ZZ" fails at token 0 |
| Findings.GapTable | src/lib.rs:142-159 | the match table of "11 ?? 33" is [1, 0, 0]: one used slot and two zero slots |
| Findings.GapText | src/lib.rs:167-199 | "11 ?? 33" compiles to bytes [11, 00, 33], mask [1, 0, 1], no leading wildcards |
| Findings.GapMissed | src/lib.rs:142-159 | on 00 11 22 33 then zeros, with `data_len` 17, the scan as written returns `None` though "11 ?? 33" matches at 1 |
| Findings.GapMissedText | src/lib.rs:20-98 | the same, from the pattern text through the whole call |
| Findings.GapFound | src/lib.rs:70-85 | the mended scan reports offset 1 there |
| Findings.StallText | src/lib.rs:167-199 | "?? AA BB" compiles to bytes [00, AA, BB], mask [0, 1, 1], one leading wildcard |
| Findings.StallLoops | src/lib.rs:76 | on AA then zeros, the scan as written runs out of any fuel: the cursor returns to 0 forever |
| Findings.StallLoopsText | src/lib.rs:20-98 | the same, from the pattern text through the whole call |
| Findings.StallEnds | src/lib.rs:76 | the mended scan returns `None` there |
| Findings.LeadText | src/lib.rs:167-199 | "?? AA" compiles to bytes [00, AA], mask [0, 1], one leading wildcard |
| Findings.LeadBeforeData | src/lib.rs:88 | on AA then zeros, "?? AA" matches nowhere, yet the scan as written reports offset -1 |
| Findings.LeadBeforeDataText | src/lib.rs:16-18 | the same, from the pattern text through `get_offset_neon` |
| Findings.LeadEnds | src/lib.rs:55-56 | the mended scan returns `None` there |
| Findings.TailText | src/lib.rs:167-199 | "AA BB" compiles to bytes [AA, BB], mask [1, 1] |
| Findings.TailOverread | src/lib.rs:64-66 | on 17 bytes with AA at 15, the check loads 16 bytes at offset 16, past the end |
| Findings.TailOverreadText | src/lib.rs:16-18 | the same, from the pattern text through `get_offset_neon` |
| Findings.TailEnds | src/lib.rs:64-66 | the mended scan checks inside the slice and returns `None` there |
| Findings.PaddingIgnored | src/lib.rs:16-30 | with `data_len` 17 and readable padding after it, "AA" and fifteen wildcards has its concrete byte in place only at offset 15, which ends past `data_len`, and the mended scan returns `None` |

## Findings

| source | as written | input that shows it | evidently intended | confidence | as-written member | corrected member |
|---|---|---|---|---|---|---|
| src/lib.rs:142-159 | the check walks every slot of the table, and the unused slots, left at 0, ask for `bytes[1]` (wildcard or not) in block 0 | "11 ?? 33" in 00 11 22 33 then zeros, `data_len` 17: returns `None` | walk only the used slots, so a match at 1 is found | high (proved; not executed) | Findings.GapMissed | ScanFixed.FixedFirstMatch, Findings.GapFound |
| src/lib.rs:55-56 | after a failed candidate the cursor goes to one past the candidate, which lies `leading_ignore_count` before the anchor and can be behind the cursor | "?? AA BB" in AA then zeros, `data_len` 17: the loop never ends | move past the anchor, so the loop always ends | high (proved; not executed) | Findings.StallLoops | ScanFixed.FixedFirstMatch, Findings.StallEnds |
| src/lib.rs:88 | a candidate before the start of `data` is checked and returned; `data_ptr - data` then underflows | "?? AA" in AA then zeros: returns offset -1 (`usize::MAX`, or a panic in a debug build) | skip candidates before `data` | high (proved; not executed) | Findings.LeadBeforeData | ScanFixed.FixedFirstMatch, Findings.LeadEnds |
| src/lib.rs:16-18 | the check loads 16 bytes past the candidate whatever `data_len` is, and `get_offset_neon` passes the slice length | "AA BB" in 15 zeros, AA, 00: a load at offset 16 of a 17-byte slice | read only inside the slice | high (proved; not executed) | Findings.TailOverread | ScanFixed.FixedFirstMatch, Findings.TailEnds |

## Left out

- The x86 backend (`src/imp/x86.rs`), the `lazysimd_macro` crate and the `scan` module are not part of this model. The commented-out tail of `find_pattern_neon` is not code.
- Raw pointers are a byte sequence `data` with offsets into it. A load outside it ends the model with `Fault`; reading other memory is not modelled.
- Non-termination is modelled by fuel: a turn that does not move the cursor forward spends one unit, and `OutOfFuel` stands for a loop that never ends.
- `leading_ignore_count as i32` and the `isize` cursor adjustment are unbounded integers. Patterns of 2^31 or more tokens, where the cast truncates, are not modelled.
- `data_ptr` arithmetic is not modular. An offset before `data` is kept as a negative number where the source wraps or panics.
- The loop bound `data_len - max(len, 16)` is an integer; the debug-build panic on its underflow is not modelled, and a negative bound gives `NotFound`.
- Tables.MatchTableShape: holds only for masks of at most 65537 entries. Beyond that, `i as u16 - 1` wraps (the table stores offsets mod 2^16, as a release build does) and the theorems built on the table do not apply.
- ScanTheorems.FirstAdmitted: assumes at least 29 readable bytes after `data_len`, since the source reads past it. 29 is the worst case, not what every pattern needs: a pattern of at most 17 bytes reads at most 15 bytes past `data_len`, and one of 18, 34, 50, ... bytes (two more than a multiple of 16) reads 29. The same pad is assumed by ScanTheorems.StepAnchored, ScanTheorems.RunAnchored and ScanTheorems.CandidateFits. It describes the admitted offsets, which add the `bytes[1]` demand of finding 1 to a true match.
- ScanTheorems.FoundInText: holds for pattern texts of at most 65537 tokens, for the reason given for Tables.MatchTableShape.
- ScanTheorems.FoundMatches: is stated for a compiled pattern. It allows the offset -1 that finding 3 shows.
- Findings.GapMissed: uses 18 readable bytes with `data_len` 17, so that the candidate's load stays in memory.
- The timing, SIMD parallelism and concurrency of the scan are not modelled.
