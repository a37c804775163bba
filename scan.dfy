/**
 * The AArch64 scanner of src/lib.rs: `find_pattern_neon` and its wrapper
 * `get_offset_neon`.
 *
 * Memory is the sequence `data` of bytes readable from the data pointer on;
 * `dataLen` is the length the caller passes. The scan cursor is kept as
 * `data_ptr - data`, an integer that may go negative. A 16-byte load that
 * does not lie inside `data` is an out-of-bounds read in the source and ends
 * the model with `Fault`. The outer loop does not always terminate in the
 * source; the model gives it `fuel`, spent only when the cursor fails to move
 * forward, and reports `OutOfFuel` when that runs out.
 */
module Scan {
  import opened Vector
  import opened Pattern
  import opened Tables

  /** What a call to `find_pattern_neon` comes to. */
  datatype Outcome =
    | Found(offset: int)      // `Some(data_ptr - data)`
    | NotFound                // `None`
    | BadPattern(token: nat)  // `unwrap` panics on this token
    | NoAnchor                // every token is a wildcard: `bytes[leading_ignore_count]` panics
    | Fault(at: int)          // a 16-byte load at this offset leaves `data`
    | OutOfFuel               // the cursor kept falling back: the loop would not end

  /** How checking the blocks of one candidate ends. */
  datatype Verdict = Accept | Reject | Faulted(at: int)

  /** How one inner `while` over the match table ends. */
  datatype Check = Mismatch | Pass(next: nat)

  /** How one turn of the `'data` loop ends. */
  datatype Step = Advance(next: int) | Matched(at: int) | StepFault(at: int)

  function Max(a: int, b: int): int
  {
    if a >= b then a else b
  }

  /** A load of 16 bytes at offset q stays inside `data`. */
  predicate InBounds(data: seq<bv8>, q: int)
  {
    0 <= q && q + 16 <= |data|
  }

  /**
   * The inner `while` for the block at byte offset `off`: from slot j, every
   * table entry whose `Wrapping` distance from `off` is below 16 names a lane
   * whose compare bit must be set; the first entry further away ends the walk.
   */
  function WalkBlock(cmp: nat, off: nat, table: seq<int>, j: nat): Check
    decreases |table| - j
  {
    if j >= |table| then Pass(j)
    else
      // `Wrapping(table[j]) - Wrapping(off)` is below 16 exactly when this is in [0, 16)
      var matchIndex := table[j] - off;
      if 0 <= matchIndex < 16 then
        if !Bit(cmp, matchIndex) then Mismatch
        else WalkBlock(cmp, off, table, j + 1)
      else Pass(j)
  }

  /**
   * The `for` over the pattern blocks, from block i with the match-table
   * cursor at j: load the 16 bytes after the candidate that block i covers,
   * compare them lane by lane with the block and walk the table.
   */
  function VerifyBlocks(data: seq<bv8>, c: int, blocks: seq<Vector128>, table: seq<int>, i: nat, j: nat): Verdict
    decreases |blocks| - i
  {
    if i >= |blocks| then Accept
    else
      var nextByte := c + 16 * i + 1;
      if !InBounds(data, nextByte) then Faulted(nextByte)
      else
        var compareResult := PackBits(CompareEqual(blocks[i], LoadVector128(data, nextByte)));
        match WalkBlock(compareResult, 16 * i, table, j)
        case Mismatch => Reject
        case Pass(next) => VerifyBlocks(data, c, blocks, table, i + 1, next)
  }

  /**
   * One turn of the `'data` loop at cursor c: look for the anchor byte in the
   * 16 bytes at c; with none, move on by 15; otherwise move the cursor to the
   * first hit minus the leading wildcard count and check the candidate there,
   * moving on by one past it if it fails.
   */
  function StepAsWritten(data: seq<bv8>, p: ScanData, blocks: seq<Vector128>, table: seq<int>, c: int): Step
    requires p.leadingIgnoreCount < |p.bytes|
  {
    if !InBounds(data, c) then StepFault(c)
    else
      var firstByteVec := Vector128Create(p.bytes[p.leadingIgnoreCount]);
      var findFirstByte := PackBits(CompareEqual(firstByteVec, LoadVector128(data, c)));
      if findFirstByte == 0 then Advance(c + RegisterLength - 1)
      else
        // `(tz as i32).wrapping_sub(leading_ignore_count as i32)`, added to the cursor
        var candidate := c + TrailingZeros(findFirstByte) - p.leadingIgnoreCount;
        match VerifyBlocks(data, candidate, blocks, table, 0, 0)
        case Accept => Matched(candidate)
        case Reject => Advance(candidate + 1)
        case Faulted(q) => StepFault(q)
  }

  /** The `'data` loop from cursor c while `c < end`. */
  function RunAsWritten(data: seq<bv8>, end: int, p: ScanData, blocks: seq<Vector128>, table: seq<int>,
                        c: int, fuel: nat): Outcome
    requires p.leadingIgnoreCount < |p.bytes|
    decreases fuel, end - c
  {
    if c >= end then NotFound
    else match StepAsWritten(data, p, blocks, table, c)
      case Matched(at) => Found(at)
      case StepFault(q) => Fault(q)
      case Advance(next) =>
        if next > c then RunAsWritten(data, end, p, blocks, table, next, fuel)
        else if fuel == 0 then OutOfFuel
        else RunAsWritten(data, end, p, blocks, table, next, fuel - 1)
  }

  /** The loop bound `data_len - max(bytes.len(), 16)`, relative to `data`. */
  function SearchEnd(dataLen: nat, p: ScanData): int
  {
    dataLen - Max(|p.bytes|, RegisterLength)
  }

  /** `find_pattern_neon(data, data_len, pattern)` as a whole. */
  function FindSpec(data: seq<bv8>, dataLen: nat, pattern: string, fuel: nat): Outcome
  {
    var tokens := Split(pattern, ' ');
    if !AllValid(tokens) then BadPattern(FirstInvalid(tokens))
    else
      var p := PatternOf(tokens);
      if p.leadingIgnoreCount >= |p.bytes| then NoAnchor
      else RunAsWritten(data, SearchEnd(dataLen, p), p, PatternBlocksOf(p.bytes), MatchTableOf(p.mask), 0, fuel)
  }

  /** The `for` over the pattern blocks for the candidate at c. */
  method VerifyCandidate(data: seq<bv8>, c: int, patternVecs: seq<Vector128>, matchTable: seq<int>)
    returns (v: Verdict)
    ensures v == VerifyBlocks(data, c, patternVecs, matchTable, 0, 0)
  {
    var matchTableIndex := 0;
    for i := 0 to |patternVecs|
      invariant VerifyBlocks(data, c, patternVecs, matchTable, i, matchTableIndex)
             == VerifyBlocks(data, c, patternVecs, matchTable, 0, 0)
    {
      var registerByteOffs := i * RegisterLength;
      assert registerByteOffs == 16 * i;
      var nextByte := c + registerByteOffs + 1;
      if !InBounds(data, nextByte) {
        return Faulted(nextByte);
      }
      var rhs2 := LoadVector128(data, nextByte);
      var compareResult := Movemask(CompareEqual(patternVecs[i], rhs2));
      ghost var start := matchTableIndex;
      assert VerifyBlocks(data, c, patternVecs, matchTable, i, start) ==
        match WalkBlock(compareResult, registerByteOffs, matchTable, start)
        case Mismatch => Reject
        case Pass(next) => VerifyBlocks(data, c, patternVecs, matchTable, i + 1, next);
      while matchTableIndex < |matchTable|
        invariant WalkBlock(compareResult, registerByteOffs, matchTable, matchTableIndex)
               == WalkBlock(compareResult, registerByteOffs, matchTable, start)
        decreases |matchTable| - matchTableIndex
      {
        // `Wrapping(usize) - Wrapping(usize)`: below 16 exactly when in [0, 16) here
        var matchIndex := matchTable[matchTableIndex] - registerByteOffs;
        if 0 <= matchIndex < RegisterLength {
          if !Bit(compareResult, matchIndex) {
            return Reject;
          } else {
            matchTableIndex := matchTableIndex + 1;
            continue;
          }
        }
        break;
      }
      assert WalkBlock(compareResult, registerByteOffs, matchTable, start) == Pass(matchTableIndex);
    }
    return Accept;
  }

  /**
   * `find_pattern_neon`: compile the pattern, build its match table and
   * blocks, then run the `'data` loop.
   */
  method FindPatternNeon(data: seq<bv8>, dataLen: nat, pattern: string, fuel: nat) returns (r: Outcome)
    ensures r == FindSpec(data, dataLen, pattern, fuel)
  {
    var parsed := ScanDataNew(pattern);
    if parsed.Err? {
      assert parsed.error.index == FirstInvalid(Split(pattern, ' '));
      return BadPattern(parsed.error.index);
    }
    var scanData := parsed.value;
    PatternOfShape(Split(pattern, ' '));
    var matchTable := BuildMatchIndexes(scanData);
    var patternVecs := PatternToVec(scanData);
    if scanData.leadingIgnoreCount >= |scanData.bytes| {
      return NoAnchor;
    }
    var searchLength := dataLen - Max(|scanData.bytes|, RegisterLength);
    r := DataLoop(data, searchLength, scanData, patternVecs, matchTable, fuel);
  }

  /**
   * The `'data` loop of `find_pattern_neon`, with the cursor `data_ptr - data`
   * running from 0 while below `search_length`.
   */
  method DataLoop(data: seq<bv8>, searchLength: int, scanData: ScanData,
                  patternVecs: seq<Vector128>, matchTable: seq<int>, fuel: nat) returns (r: Outcome)
    requires scanData.leadingIgnoreCount < |scanData.bytes|
    ensures r == RunAsWritten(data, searchLength, scanData, patternVecs, matchTable, 0, fuel)
  {
    var dataPtr := 0;
    var dataPtrMax := searchLength;
    var fuelLeft := fuel;
    while dataPtr < dataPtrMax
      invariant RunAsWritten(data, dataPtrMax, scanData, patternVecs, matchTable, dataPtr, fuelLeft)
             == RunAsWritten(data, dataPtrMax, scanData, patternVecs, matchTable, 0, fuel)
      decreases fuelLeft, dataPtrMax - dataPtr
    {
      var step := DataTurn(data, scanData, patternVecs, matchTable, dataPtr);
      match step
      case Matched(at) =>
        RunStops(data, dataPtrMax, scanData, patternVecs, matchTable, dataPtr, fuelLeft, step);
        return Found(at);
      case StepFault(at) =>
        RunStops(data, dataPtrMax, scanData, patternVecs, matchTable, dataPtr, fuelLeft, step);
        return Fault(at);
      case Advance(next) =>
        if next <= dataPtr {
          if fuelLeft == 0 {
            RunStalls(data, dataPtrMax, scanData, patternVecs, matchTable, dataPtr, fuelLeft, next);
            return OutOfFuel;
          }
          RunFallsBack(data, dataPtrMax, scanData, patternVecs, matchTable, dataPtr, fuelLeft, next);
          fuelLeft := fuelLeft - 1;
        } else {
          RunMovesOn(data, dataPtrMax, scanData, patternVecs, matchTable, dataPtr, fuelLeft, next);
        }
        dataPtr := next;
    }
    return NotFound;
  }

  /**
   * The body of the `'data` loop at cursor `dataPtr`: load the window, find
   * the anchor byte in it, and check the candidate it leads to.
   */
  method DataTurn(data: seq<bv8>, scanData: ScanData, patternVecs: seq<Vector128>, matchTable: seq<int>,
                  dataPtr: int) returns (step: Step)
    requires scanData.leadingIgnoreCount < |scanData.bytes|
    ensures step == StepAsWritten(data, scanData, patternVecs, matchTable, dataPtr)
  {
    var leadingIgnoreCount := scanData.leadingIgnoreCount;
    var firstByteVec := Vector128Create(scanData.bytes[leadingIgnoreCount]);
    if !InBounds(data, dataPtr) {
      return StepFault(dataPtr);
    }
    var rhs := LoadVector128(data, dataPtr);
    var equal := CompareEqual(firstByteVec, rhs);
    var findFirstByte := Movemask(equal);
    if findFirstByte == 0 {
      return Advance(dataPtr + RegisterLength - 1);
    }
    var test := TrailingZeros(findFirstByte) - leadingIgnoreCount;
    var candidate := dataPtr + test;
    var verdict := VerifyCandidate(data, candidate, patternVecs, matchTable);
    match verdict
    case Accept =>
      return Matched(candidate);
    case Reject =>
      return Advance(candidate + 1);
    case Faulted(at) =>
      return StepFault(at);
  }

  /** A turn of the loop that matches or faults ends the scan with it. */
  lemma RunStops(data: seq<bv8>, end: int, p: ScanData, blocks: seq<Vector128>, table: seq<int>,
                 c: int, fuel: nat, step: Step)
    requires p.leadingIgnoreCount < |p.bytes|
    requires c < end && step == StepAsWritten(data, p, blocks, table, c)
    ensures step.Matched? ==> RunAsWritten(data, end, p, blocks, table, c, fuel) == Found(step.at)
    ensures step.StepFault? ==> RunAsWritten(data, end, p, blocks, table, c, fuel) == Fault(step.at)
  {
  }

  /** A turn of the loop that moves the cursor forward costs no fuel. */
  lemma RunMovesOn(data: seq<bv8>, end: int, p: ScanData, blocks: seq<Vector128>, table: seq<int>,
                   c: int, fuel: nat, next: int)
    requires p.leadingIgnoreCount < |p.bytes|
    requires c < end && StepAsWritten(data, p, blocks, table, c) == Advance(next) && next > c
    ensures RunAsWritten(data, end, p, blocks, table, c, fuel) == RunAsWritten(data, end, p, blocks, table, next, fuel)
  {
  }

  /** A turn of the loop that does not move the cursor forward costs one unit of fuel. */
  lemma RunFallsBack(data: seq<bv8>, end: int, p: ScanData, blocks: seq<Vector128>, table: seq<int>,
                     c: int, fuel: nat, next: int)
    requires p.leadingIgnoreCount < |p.bytes|
    requires c < end && StepAsWritten(data, p, blocks, table, c) == Advance(next) && next <= c && fuel > 0
    ensures RunAsWritten(data, end, p, blocks, table, c, fuel) == RunAsWritten(data, end, p, blocks, table, next, fuel - 1)
  {
  }

  /** With no fuel left, a turn that does not move the cursor forward ends the model. */
  lemma RunStalls(data: seq<bv8>, end: int, p: ScanData, blocks: seq<Vector128>, table: seq<int>,
                  c: int, fuel: nat, next: int)
    requires p.leadingIgnoreCount < |p.bytes|
    requires c < end && StepAsWritten(data, p, blocks, table, c) == Advance(next) && next <= c && fuel == 0
    ensures RunAsWritten(data, end, p, blocks, table, c, fuel) == OutOfFuel
  {
  }

  /** `get_offset_neon(data, pattern)`: the scan over a slice, with its own length. */
  method GetOffsetNeon(data: seq<bv8>, pattern: string, fuel: nat) returns (r: Outcome)
    ensures r == FindSpec(data, |data|, pattern, fuel)
  {
    r := FindPatternNeon(data, |data|, pattern, fuel);
  }
}
