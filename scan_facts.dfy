/**
 * What the candidate check of `find_pattern_neon` (src/lib.rs) decides.
 *
 * The match table lists the concrete positions after index 0 (minus one),
 * followed by zeros; the block loop walks it block by block. The facts here
 * pin down the verdict: a candidate at c is accepted exactly when every
 * concrete byte after index 0 is found at its place after c and, when all of
 * them lie within the first block, also the byte at c + 1 equals `bytes[1]`:
 * the zero slots left at the end of the table are read as "offset 0", that
 * is `bytes[1]`, whether or not position 1 is concrete.
 */
module ScanFacts {
  import opened Vector
  import opened Pattern
  import opened Tables
  import opened Scan

  // ---------------------------------------------------------------------
  // The table walk of one block
  // ---------------------------------------------------------------------

  /** Slots j .. e - 1 point into the block at `off`; slot e, if there is one, does not. */
  predicate WalkSpan(off: nat, table: seq<int>, j: nat, e: nat)
  {
    j <= e <= |table|
    && (forall t :: j <= t < e ==> off <= table[t] < off + 16)
    && (e < |table| ==> !(off <= table[e] < off + 16))
  }

  /** Over a span, the walk passes to its end exactly when every lane it names is set. */
  lemma {:induction false} WalkBlockSpan(cmp: nat, off: nat, table: seq<int>, j: nat, e: nat)
    requires WalkSpan(off, table, j, e)
    ensures WalkBlock(cmp, off, table, j) ==
      if forall t :: j <= t < e ==> Bit(cmp, table[t] - off) then Pass(e) else Mismatch
    decreases e - j
  {
    if j < e {
      WalkBlockSpan(cmp, off, table, j + 1, e);
    }
  }

  // ---------------------------------------------------------------------
  // One block against the data
  // ---------------------------------------------------------------------

  /** Pattern byte idx is found at c + idx (both inside their sequences). */
  predicate HitAt(data: seq<bv8>, bytes: seq<bv8>, c: int, idx: int)
  {
    0 <= idx < |bytes| && 0 <= c + idx < |data| && data[c + idx] == bytes[idx]
  }

  /** Lane l of block i's compare mask is set exactly when pattern byte 1 + 16 i + l is found. */
  lemma BlockLane(data: seq<bv8>, bytes: seq<bv8>, c: int, i: nat, l: nat)
    requires |bytes| >= 1 && i < |PatternBlocksOf(bytes)| && InBounds(data, c + 16 * i + 1)
    requires l < 16 && 16 * i + l < |bytes| - 1
    ensures Bit(PackBits(CompareEqual(PatternBlocksOf(bytes)[i], LoadVector128(data, c + 16 * i + 1))), l)
        <==> HitAt(data, bytes, c, 1 + 16 * i + l)
  {
    var block, window := PatternBlocksOf(bytes)[i], LoadVector128(data, c + 16 * i + 1);
    CompareMaskBit(block, window, l);
    assert block[l] == bytes[1 + 16 * i + l];
    assert window[l] == data[c + 16 * i + 1 + l];
  }

  /**
   * One turn of the block loop over a span of table slots that all name
   * pattern bytes: it rejects unless every one of them is found, and
   * otherwise goes on with the next block from the end of the span.
   */
  lemma VerifyTurn(data: seq<bv8>, bytes: seq<bv8>, c: int, table: seq<int>, i: nat, j: nat, e: nat)
    requires |bytes| >= 1 && i < |PatternBlocksOf(bytes)| && InBounds(data, c + 16 * i + 1)
    requires WalkSpan(16 * i, table, j, e)
    requires forall t :: j <= t < e ==> table[t] < |bytes| - 1
    ensures VerifyBlocks(data, c, PatternBlocksOf(bytes), table, i, j) ==
      if SpanHits(data, bytes, c, table, j, e)
      then VerifyBlocks(data, c, PatternBlocksOf(bytes), table, i + 1, e)
      else Reject
  {
    var blocks := PatternBlocksOf(bytes);
    var cmp := PackBits(CompareEqual(blocks[i], LoadVector128(data, c + 16 * i + 1)));
    WalkBlockSpan(cmp, 16 * i, table, j, e);
    forall t | j <= t < e
      ensures Bit(cmp, table[t] - 16 * i) <==> HitAt(data, bytes, c, 1 + table[t])
    {
      BlockLane(data, bytes, c, i, table[t] - 16 * i);
    }
  }

  // ---------------------------------------------------------------------
  // The whole block loop
  // ---------------------------------------------------------------------

  /**
   * The shape `MatchTableShape` establishes, for a table of n slots whose
   * first k slots are used.
   */
  predicate Shaped(table: seq<int>, k: nat, n: nat)
  {
    |table| == n && k < n
    && (forall t :: 0 <= t < k ==> 0 <= table[t] < n - 1)
    && (forall a, b :: 0 <= a < b < k ==> table[a] < table[b])
    && (forall t :: k <= t < n ==> table[t] == 0)
  }

  /** Every used slot points into the first block. */
  predicate Low(table: seq<int>, k: nat)
    requires k <= |table|
  {
    forall t :: 0 <= t < k ==> table[t] < 16
  }

  /** The first used slot at or after j whose offset reaches `bound`, or k if there is none. */
  function NextSlot(table: seq<int>, k: nat, j: nat, bound: int): (e: nat)
    requires j <= k <= |table|
    ensures j <= e <= k
    ensures forall t :: j <= t < e ==> table[t] < bound
    ensures e < k ==> table[e] >= bound
    decreases k - j
  {
    if j == k || table[j] >= bound then j else NextSlot(table, k, j + 1, bound)
  }

  /** The cursor state on entry to block i: the used slots before j are behind the block, the rest are not. */
  predicate Entering(table: seq<int>, k: nat, i: nat, j: nat)
    requires k <= |table|
  {
    j <= k
    && (forall t :: 0 <= t < j ==> table[t] < 16 * i)
    && (forall t :: j <= t < k ==> table[t] >= 16 * i)
  }

  /** Every load of the block loop for a candidate at c stays inside `data`. */
  predicate LoadsFit(data: seq<bv8>, c: int, blockCount: nat)
  {
    blockCount == 0 || (0 <= c + 1 && c + 16 * blockCount + 1 <= |data|)
  }

  /** The pattern bytes named by slots j .. e - 1 are all found after c. */
  predicate SpanHits(data: seq<bv8>, bytes: seq<bv8>, c: int, table: seq<int>, j: nat, e: nat)
    requires e <= |table|
  {
    forall t :: j <= t < e ==> HitAt(data, bytes, c, 1 + table[t])
  }

  /** What the block loop demands from block i on, with the table cursor at j. */
  predicate Demands(data: seq<bv8>, bytes: seq<bv8>, c: int, table: seq<int>, k: nat, i: nat, j: nat)
    requires k <= |table|
  {
    SpanHits(data, bytes, c, table, j, k)
    && (i == 0 && |bytes| >= 2 && Low(table, k) ==> HitAt(data, bytes, c, 1))
  }

  /**
   * From block i on, with the cursor at the first used slot not behind the
   * block, the block loop accepts exactly when `Demands` holds, and rejects
   * otherwise.
   */
  lemma {:induction false} VerifyFrom(data: seq<bv8>, bytes: seq<bv8>, c: int, table: seq<int>, k: nat, i: nat, j: nat)
    requires |bytes| >= 1 && Shaped(table, k, |bytes|)
    requires LoadsFit(data, c, |PatternBlocksOf(bytes)|) && i <= |PatternBlocksOf(bytes)|
    requires Entering(table, k, i, j) || (j == |table| && i >= 1 && Low(table, k))
    ensures VerifyBlocks(data, c, PatternBlocksOf(bytes), table, i, j) ==
      if Demands(data, bytes, c, table, k, i, j) then Accept else Reject
    decreases |PatternBlocksOf(bytes)| - i
  {
    var blocks := PatternBlocksOf(bytes);
    if i == |blocks| {
      VerifyEnd(data, bytes, c, table, k, i, j);
    } else if j == |table| {
      VerifyFrom(data, bytes, c, table, k, i + 1, j);
      VerifyDrained(data, bytes, c, table, k, i);
    } else {
      var e := NextSlot(table, k, j, 16 * i + 16);
      if e < k || i > 0 {
        NextEntering(table, k, i, j, e);
        VerifyFrom(data, bytes, c, table, k, i + 1, e);
        VerifyMiddle(data, bytes, c, table, k, i, j, e);
      } else {
        FirstDrains(bytes, table, k, j);
        VerifyFrom(data, bytes, c, table, k, 1, |table|);
        VerifyFirst(data, bytes, c, table, k, j);
      }
    }
  }

  /** Past the last block nothing is left to demand, and the loop accepts. */
  lemma VerifyEnd(data: seq<bv8>, bytes: seq<bv8>, c: int, table: seq<int>, k: nat, i: nat, j: nat)
    requires |bytes| >= 1 && Shaped(table, k, |bytes|) && i == |PatternBlocksOf(bytes)|
    requires Entering(table, k, i, j) || (j == |table| && i >= 1 && Low(table, k))
    ensures Demands(data, bytes, c, table, k, i, j)
    ensures VerifyBlocks(data, c, PatternBlocksOf(bytes), table, i, j) == Accept
  {
    DivCeilBounds(|bytes| - 1);
  }

  /** Once the walk has reached the end of the table, a block only loads and passes. */
  lemma VerifyDrained(data: seq<bv8>, bytes: seq<bv8>, c: int, table: seq<int>, k: nat, i: nat)
    requires |bytes| >= 1 && Shaped(table, k, |bytes|)
    requires LoadsFit(data, c, |PatternBlocksOf(bytes)|) && 1 <= i < |PatternBlocksOf(bytes)|
    requires VerifyBlocks(data, c, PatternBlocksOf(bytes), table, i + 1, |table|) ==
      if Demands(data, bytes, c, table, k, i + 1, |table|) then Accept else Reject
    ensures VerifyBlocks(data, c, PatternBlocksOf(bytes), table, i, |table|) ==
      if Demands(data, bytes, c, table, k, i, |table|) then Accept else Reject
  {
    VerifyTurn(data, bytes, c, table, i, |table|, |table|);
  }

  /** Past the slots of block i, the cursor is where block i + 1 expects it. */
  lemma NextEntering(table: seq<int>, k: nat, i: nat, j: nat, e: nat)
    requires Shaped(table, k, |table|)
    requires Entering(table, k, i, j) && e == NextSlot(table, k, j, 16 * i + 16)
    ensures Entering(table, k, i + 1, e)
  {
    forall t | e <= t < k
      ensures table[t] >= 16 * (i + 1)
    {
      if t > e {
        assert table[e] < table[t];
      }
    }
  }

  /** A block whose walk stops inside the used slots, or any block after the first. */
  lemma VerifyMiddle(data: seq<bv8>, bytes: seq<bv8>, c: int, table: seq<int>, k: nat, i: nat, j: nat, e: nat)
    requires |bytes| >= 1 && Shaped(table, k, |bytes|)
    requires LoadsFit(data, c, |PatternBlocksOf(bytes)|) && i < |PatternBlocksOf(bytes)|
    requires Entering(table, k, i, j) && e == NextSlot(table, k, j, 16 * i + 16) && (e < k || i > 0)
    requires VerifyBlocks(data, c, PatternBlocksOf(bytes), table, i + 1, e) ==
      if Demands(data, bytes, c, table, k, i + 1, e) then Accept else Reject
    ensures VerifyBlocks(data, c, PatternBlocksOf(bytes), table, i, j) ==
      if Demands(data, bytes, c, table, k, i, j) then Accept else Reject
  {
    VerifyTurn(data, bytes, c, table, i, j, e);
    if i == 0 {
      assert !Low(table, k) by {
        assert table[e] >= 16;
      }
    }
    assert Demands(data, bytes, c, table, k, i, j) <==>
      SpanHits(data, bytes, c, table, j, e) && Demands(data, bytes, c, table, k, i + 1, e);
  }

  /** When every used slot from j on points into the first block, the walk of block 0 drains the table. */
  lemma FirstDrains(bytes: seq<bv8>, table: seq<int>, k: nat, j: nat)
    requires |bytes| >= 1 && Shaped(table, k, |bytes|) && 0 < |PatternBlocksOf(bytes)|
    requires Entering(table, k, 0, j) && NextSlot(table, k, j, 16) == k
    ensures |bytes| >= 2 && Low(table, k)
  {
    DivCeilBounds(|bytes| - 1);
  }

  /**
   * The first block when every used slot points into it: the walk runs on
   * through the zero slots, each of which names lane 0, and so ends at the
   * end of the table having also demanded pattern byte 1.
   */
  lemma VerifyFirst(data: seq<bv8>, bytes: seq<bv8>, c: int, table: seq<int>, k: nat, j: nat)
    requires |bytes| >= 2 && Shaped(table, k, |bytes|) && Low(table, k)
    requires LoadsFit(data, c, |PatternBlocksOf(bytes)|) && 0 < |PatternBlocksOf(bytes)|
    requires Entering(table, k, 0, j) && NextSlot(table, k, j, 16) == k
    requires VerifyBlocks(data, c, PatternBlocksOf(bytes), table, 1, |table|) ==
      if Demands(data, bytes, c, table, k, 1, |table|) then Accept else Reject
    ensures VerifyBlocks(data, c, PatternBlocksOf(bytes), table, 0, j) ==
      if Demands(data, bytes, c, table, k, 0, j) then Accept else Reject
  {
    DivCeilBounds(|bytes| - 1);
    VerifyTurn(data, bytes, c, table, 0, j, |table|);
    assert table[k] == 0;
    assert SpanHits(data, bytes, c, table, j, |table|) <==>
      SpanHits(data, bytes, c, table, j, k) && HitAt(data, bytes, c, 1);
  }

  // ---------------------------------------------------------------------
  // The verdict for a compiled pattern
  // ---------------------------------------------------------------------

  /** Every concrete byte after index 0 lies within the first block, at most 16 places after it. */
  predicate ShortTail(p: ScanData)
  {
    |p.bytes| >= 2 && forall idx :: 1 <= idx < |p.mask| && p.mask[idx] == 1 ==> idx <= 16
  }

  /**
   * What the candidate check compares for a candidate at c: every concrete
   * byte after index 0, and, for a pattern whose concrete bytes all lie in
   * the first block, pattern byte 1 as well, even where it is a wildcard.
   */
  predicate Verified(data: seq<bv8>, p: ScanData, c: int)
  {
    (forall idx :: 1 <= idx < |p.mask| && p.mask[idx] == 1 ==> HitAt(data, p.bytes, c, idx))
    && (ShortTail(p) ==> HitAt(data, p.bytes, c, 1))
  }

  /**
   * With all its loads inside `data`, the candidate check for a pattern of at
   * most 65537 bytes accepts exactly the candidates that pass `Verified`, and
   * rejects every other one.
   */
  lemma CandidateVerdict(data: seq<bv8>, p: ScanData, c: int)
    requires 1 <= |p.bytes| == |p.mask| <= 0x1_0001
    requires LoadsFit(data, c, |PatternBlocksOf(p.bytes)|)
    ensures VerifyBlocks(data, c, PatternBlocksOf(p.bytes), MatchTableOf(p.mask), 0, 0) ==
      if Verified(data, p, c) then Accept else Reject
  {
    var table, k := MatchTableOf(p.mask), |ConcreteOffsets(p.mask)|;
    MatchTableShape(p.mask);
    assert Shaped(table, k, |p.bytes|);
    VerifyFrom(data, p.bytes, c, table, k, 0, 0);
    UsedSlotsHit(data, p, c);
    UsedSlotsLow(p);
  }

  /** The used slots of the match table name exactly the concrete positions after index 0. */
  lemma UsedSlotsHit(data: seq<bv8>, p: ScanData, c: int)
    requires 1 <= |p.bytes| == |p.mask| <= 0x1_0001
    ensures var table, k := MatchTableOf(p.mask), |ConcreteOffsets(p.mask)|;
      k <= |table| &&
      (SpanHits(data, p.bytes, c, table, 0, k) <==>
        forall idx :: 1 <= idx < |p.mask| && p.mask[idx] == 1 ==> HitAt(data, p.bytes, c, idx))
  {
    var table, k := MatchTableOf(p.mask), |ConcreteOffsets(p.mask)|;
    MatchTableShape(p.mask);
    if SpanHits(data, p.bytes, c, table, 0, k) {
      forall idx | 1 <= idx < |p.mask| && p.mask[idx] == 1
        ensures HitAt(data, p.bytes, c, idx)
      {
        assert idx - 1 in table[..k];
        var t :| 0 <= t < k && table[..k][t] == idx - 1;
        assert table[t] == idx - 1;
      }
    }
  }

  /** The used slots all point into the first block exactly when the pattern has a short tail. */
  lemma UsedSlotsLow(p: ScanData)
    requires 1 <= |p.bytes| == |p.mask| <= 0x1_0001
    ensures var table, k := MatchTableOf(p.mask), |ConcreteOffsets(p.mask)|;
      k <= |table| && (ShortTail(p) <==> |p.bytes| >= 2 && Low(table, k))
  {
    var table, k := MatchTableOf(p.mask), |ConcreteOffsets(p.mask)|;
    MatchTableShape(p.mask);
    if |p.bytes| >= 2 && Low(table, k) {
      forall idx | 1 <= idx < |p.mask| && p.mask[idx] == 1
        ensures idx <= 16
      {
        assert idx - 1 in table[..k];
        var t :| 0 <= t < k && table[..k][t] == idx - 1;
        assert table[t] == idx - 1;
      }
    }
  }

  /** An accepted candidate had every one of its loads inside `data`. */
  lemma {:induction false} AcceptedFits(data: seq<bv8>, c: int, blocks: seq<Vector128>, table: seq<int>, i: nat, j: nat)
    requires VerifyBlocks(data, c, blocks, table, i, j) == Accept && i < |blocks|
    ensures 0 <= c + 16 * i + 1 && c + 16 * |blocks| + 1 <= |data|
    decreases |blocks| - i
  {
    var compareResult := PackBits(CompareEqual(blocks[i], LoadVector128(data, c + 16 * i + 1)));
    match WalkBlock(compareResult, 16 * i, table, j)
    case Mismatch =>
    case Pass(next) =>
      if i + 1 < |blocks| {
        AcceptedFits(data, c, blocks, table, i + 1, next);
      }
  }
}
