/**
 * The two tables that src/lib.rs derives from a compiled pattern before
 * scanning: the match table (`build_match_indexes`), which lists where the
 * concrete bytes after index 0 sit, and the pattern blocks (`pattern_to_vec`),
 * which cut `bytes[1..]` into 16-lane registers with a zero-padded last one.
 */
module Tables {
  import opened Vector
  import opened Pattern

  /** `NEON_REGISTER_LENGTH` */
  const RegisterLength: nat := 16

  // ---------------------------------------------------------------------
  // Match table
  // ---------------------------------------------------------------------

  /**
   * The offsets, relative to `bytes[1..]`, of the concrete positions
   * 1 <= i < hi of the mask, in increasing order.
   */
  function OffsetsBelow(mask: seq<bv8>, hi: nat): seq<nat>
    requires hi <= 1 || hi <= |mask|
  {
    if hi <= 1 then []
    else OffsetsBelow(mask, hi - 1) + (if mask[hi - 1] == 1 then [hi - 2] else [])
  }

  /** The offsets of every concrete byte after index 0. */
  function ConcreteOffsets(mask: seq<bv8>): seq<nat>
  {
    OffsetsBelow(mask, |mask|)
  }

  /**
   * The offsets below hi are strictly increasing, each names a concrete
   * position after index 0 and below hi, and every such position is named.
   */
  lemma OffsetsBelowSpec(mask: seq<bv8>, hi: nat)
    requires hi <= 1 || hi <= |mask|
    ensures var offs := OffsetsBelow(mask, hi);
      (|offs| == 0 || |offs| < hi)
      && (forall a, b :: 0 <= a < b < |offs| ==> offs[a] < offs[b])
      && (forall a :: 0 <= a < |offs| ==> offs[a] + 2 <= hi && mask[offs[a] + 1] == 1)
      && (forall i :: 1 <= i < hi && mask[i] == 1 ==> i - 1 in offs)
  {
    OffsetsBelowSorted(mask, hi);
    OffsetsBelowComplete(mask, hi);
  }

  lemma {:induction false} OffsetsBelowSorted(mask: seq<bv8>, hi: nat)
    requires hi <= 1 || hi <= |mask|
    ensures var offs := OffsetsBelow(mask, hi);
      (|offs| == 0 || |offs| < hi)
      && (forall a, b :: 0 <= a < b < |offs| ==> offs[a] < offs[b])
      && (forall a :: 0 <= a < |offs| ==> offs[a] + 2 <= hi && mask[offs[a] + 1] == 1)
  {
    OffsetsBelowElements(mask, hi);
    OffsetsBelowIncreasing(mask, hi);
  }

  lemma {:induction false} OffsetsBelowElements(mask: seq<bv8>, hi: nat)
    requires hi <= 1 || hi <= |mask|
    ensures var offs := OffsetsBelow(mask, hi);
      (|offs| == 0 || |offs| < hi)
      && (forall a :: 0 <= a < |offs| ==> offs[a] + 2 <= hi && mask[offs[a] + 1] == 1)
  {
    if hi > 1 {
      OffsetsBelowElements(mask, hi - 1);
      var prev := OffsetsBelow(mask, hi - 1);
      if mask[hi - 1] == 1 {
        var offs := prev + [hi - 2];
        assert OffsetsBelow(mask, hi) == offs;
        forall a | 0 <= a < |offs|
          ensures offs[a] + 2 <= hi && mask[offs[a] + 1] == 1
        {
          if a < |prev| {
            assert offs[a] == prev[a];
          }
        }
      } else {
        assert OffsetsBelow(mask, hi) == prev;
      }
    }
  }

  lemma {:induction false} OffsetsBelowIncreasing(mask: seq<bv8>, hi: nat)
    requires hi <= 1 || hi <= |mask|
    ensures var offs := OffsetsBelow(mask, hi);
      forall a, b :: 0 <= a < b < |offs| ==> offs[a] < offs[b]
  {
    if hi > 1 {
      OffsetsBelowIncreasing(mask, hi - 1);
      OffsetsBelowElements(mask, hi - 1);
      var prev := OffsetsBelow(mask, hi - 1);
      if mask[hi - 1] == 1 {
        var offs := prev + [hi - 2];
        assert OffsetsBelow(mask, hi) == offs;
        forall a, b | 0 <= a < b < |offs|
          ensures offs[a] < offs[b]
        {
          assert offs[a] == prev[a];
          if b < |prev| {
            assert offs[b] == prev[b];
          }
        }
      } else {
        assert OffsetsBelow(mask, hi) == prev;
      }
    }
  }

  lemma {:induction false} OffsetsBelowComplete(mask: seq<bv8>, hi: nat)
    requires hi <= 1 || hi <= |mask|
    ensures forall i :: 1 <= i < hi && mask[i] == 1 ==> i - 1 in OffsetsBelow(mask, hi)
  {
    if hi > 1 {
      OffsetsBelowComplete(mask, hi - 1);
      var prev := OffsetsBelow(mask, hi - 1);
      assert OffsetsBelow(mask, hi) == prev + (if mask[hi - 1] == 1 then [hi - 2] else []);
    }
  }

  /**
   * The `Vec<u16>` that `build_match_indexes` returns: as long as the mask,
   * the concrete offsets first (truncated to 16 bits, as `as u16` does), and
   * 0 in every slot after them.
   */
  function MatchTableOf(mask: seq<bv8>): seq<int>
  {
    var offs := ConcreteOffsets(mask);
    seq(|mask|, k requires 0 <= k < |mask| => if k < |offs| then offs[k] % 0x1_0000 else 0)
  }

  /**
   * `build_match_indexes`: walks the mask from index 1 and writes `i - 1` into
   * the next free slot of a zero-filled table for every concrete position i.
   */
  method BuildMatchIndexes(scanPattern: ScanData) returns (table: seq<int>)
    ensures table == MatchTableOf(scanPattern.mask)
  {
    var maskLength := |scanPattern.mask|;
    var fullMatchTable := new int[maskLength](_ => 0);
    var matchCount := 0;
    var i := 1;
    while i < maskLength
      invariant i == 1 || 1 <= i <= maskLength
      invariant matchCount == |OffsetsBelow(scanPattern.mask, i)| && matchCount < i
      invariant forall k :: 0 <= k < matchCount ==>
        fullMatchTable[k] == OffsetsBelow(scanPattern.mask, i)[k] % 0x1_0000
      invariant forall k :: matchCount <= k < maskLength ==> fullMatchTable[k] == 0
    {
      OffsetsBelowSpec(scanPattern.mask, i);
      if scanPattern.mask[i] != 1 {
        i := i + 1;
        continue;
      }
      // `i as u16 - 1`, wrapping as in a release build
      fullMatchTable[matchCount] := (i - 1) % 0x1_0000;
      matchCount := matchCount + 1;
      i := i + 1;
    }
    var offs := ConcreteOffsets(scanPattern.mask);
    assert offs == OffsetsBelow(scanPattern.mask, i) by {
      if maskLength == 0 {
        assert i == 1;
      }
    }
    table := fullMatchTable[..];
  }

  /**
   * The match table for a pattern of at most 65537 bytes: its first k slots,
   * k being the number of concrete positions after index 0, hold exactly those
   * positions minus one, strictly increasing and below `|mask| - 1`; every
   * other slot is 0, and there is always at least one such slot.
   */
  lemma MatchTableShape(mask: seq<bv8>)
    requires 1 <= |mask| <= 0x1_0001
    ensures var table, offs := MatchTableOf(mask), ConcreteOffsets(mask);
      |table| == |mask| && |offs| < |mask|
      && (forall k :: 0 <= k < |offs| ==> table[k] == offs[k] < |mask| - 1)
      && (forall a, b :: 0 <= a < b < |offs| ==> table[a] < table[b])
      && (forall k :: |offs| <= k < |table| ==> table[k] == 0)
      && (forall k :: 0 <= k < |offs| ==> mask[table[k] + 1] == 1)
      && (forall i :: 1 <= i < |mask| && mask[i] == 1 ==> i - 1 in table[..|offs|])
  {
    var offs := ConcreteOffsets(mask);
    OffsetsBelowSpec(mask, |mask|);
    var table := MatchTableOf(mask);
    assert forall k :: 0 <= k < |offs| ==> table[k] == offs[k];
    assert table[..|offs|] == offs;
  }

  // ---------------------------------------------------------------------
  // Pattern blocks
  // ---------------------------------------------------------------------

  /** `usize::div_ceil` */
  function DivCeil(n: nat, d: nat): nat
    requires d > 0
  {
    (n + d - 1) / d
  }

  lemma DivCeilBounds(n: nat)
    ensures n == 0 ==> DivCeil(n, 16) == 0
    ensures n > 0 ==> DivCeil(n, 16) >= 1 && 16 * (DivCeil(n, 16) - 1) < n <= 16 * DivCeil(n, 16)
  {
  }

  /** Block i: lanes 16i .. 16i + 15 of `bytes[1..]`, 0 past its end. */
  function BlockAt(bytes: seq<bv8>, i: nat): Vector128
    requires |bytes| >= 1
  {
    seq(16, l requires 0 <= l < 16 => if 16 * i + l < |bytes| - 1 then bytes[1 + 16 * i + l] else 0)
  }

  /** The registers `pattern_to_vec` builds: one block per started 16 bytes of `bytes[1..]`. */
  function PatternBlocksOf(bytes: seq<bv8>): seq<Vector128>
    requires |bytes| >= 1
  {
    seq(DivCeil(|bytes| - 1, 16), i requires 0 <= i < DivCeil(|bytes| - 1, 16) => BlockAt(bytes, i))
  }

  /**
   * `pattern_to_vec`: every block but the last is loaded straight from the
   * pattern bytes after index 0; the last is copied lane by lane into a zeroed
   * 16-byte array, lanes past the pattern left 0, and loaded from there.
   */
  method PatternToVec(cbPattern: ScanData) returns (patternVecs: seq<Vector128>)
    requires 1 <= |cbPattern.mask| == |cbPattern.bytes|
    ensures patternVecs == PatternBlocksOf(cbPattern.bytes)
  {
    var bytes := cbPattern.bytes;
    var patternLen := |cbPattern.mask|;
    var vectorCount := DivCeil(patternLen - 1, RegisterLength);
    DivCeilBounds(patternLen - 1);
    patternVecs := [];
    // `pattern` points at `bytes[1]`
    patternLen := patternLen - 1;
    for i := 0 to vectorCount
      invariant patternVecs == PatternBlocksOf(bytes)[..i]
    {
      if i < vectorCount - 1 {
        var v := LoadVector128(bytes, 1 + i * RegisterLength);
        assert v == BlockAt(bytes, i);
        patternVecs := patternVecs + [v];
      } else {
        var o := i * RegisterLength;
        var neon := new bv8[RegisterLength](_ => 0);
        neon[0] := bytes[1 + o];
        for l := 1 to RegisterLength
          invariant forall m :: 0 <= m < l ==> neon[m] == BlockAt(bytes, i)[m]
        {
          neon[l] := if o + l < patternLen then bytes[1 + o + l] else 0;
        }
        var v := LoadVector128(neon[..], 0);
        assert v == BlockAt(bytes, i);
        patternVecs := patternVecs + [v];
      }
      assert PatternBlocksOf(bytes)[..i + 1] == PatternBlocksOf(bytes)[..i] + [BlockAt(bytes, i)];
    }
    assert PatternBlocksOf(bytes)[..vectorCount] == PatternBlocksOf(bytes);
  }

  /** The lanes of all blocks, block 0 first. */
  function Flatten(blocks: seq<Vector128>): seq<bv8>
  {
    if |blocks| == 0 then [] else blocks[0] + Flatten(blocks[1..])
  }

  lemma {:induction false} FlattenAt(blocks: seq<Vector128>, e: nat)
    requires e < 16 * |blocks|
    ensures |Flatten(blocks)| == 16 * |blocks|
    ensures Flatten(blocks)[e] == blocks[e / 16][e % 16]
  {
    if e >= 16 {
      FlattenAt(blocks[1..], e - 16);
    } else {
      FlattenLength(blocks);
    }
  }

  lemma {:induction false} FlattenLength(blocks: seq<Vector128>)
    ensures |Flatten(blocks)| == 16 * |blocks|
  {
    if |blocks| > 0 {
      FlattenLength(blocks[1..]);
    }
  }

  /**
   * There are ceil((|bytes| - 1) / 16) blocks; laid end to end they give back
   * `bytes[1..]` followed by zero padding only, fewer than 16 bytes of it.
   */
  lemma PatternBlocksRoundTrip(bytes: seq<bv8>)
    requires |bytes| >= 1
    ensures var blocks := PatternBlocksOf(bytes); var flat := Flatten(blocks);
      |blocks| == DivCeil(|bytes| - 1, 16)
      && |bytes| - 1 <= |flat| < |bytes| - 1 + 16
      && flat[..|bytes| - 1] == bytes[1..]
      && forall e :: |bytes| - 1 <= e < |flat| ==> flat[e] == 0
  {
    var blocks := PatternBlocksOf(bytes);
    var flat := Flatten(blocks);
    DivCeilBounds(|bytes| - 1);
    FlattenLength(blocks);
    forall e | 0 <= e < |flat|
      ensures flat[e] == if e < |bytes| - 1 then bytes[1 + e] else 0
    {
      FlattenAt(blocks, e);
      assert 16 * (e / 16) + e % 16 == e;
    }
    assert flat[..|bytes| - 1] == bytes[1..];
  }
}
