/**
 * Four inputs on which `find_pattern_neon` (src/lib.rs), as written, does not
 * do what a pattern scanner is evidently meant to do, each set beside what the
 * mended loop of `ScanFixed` does on the same input.
 *
 * Each input is first stated on the compiled pattern (`SimdPatternScanData`);
 * a companion lemma then carries it back to the pattern text and the whole
 * call, through `Split` and `Classify`.
 */
module Findings {
  import opened Vector
  import opened Pattern
  import opened Tables
  import opened Scan
  import opened ScanFacts
  import opened ScanTheorems
  import opened ScanFixed

  function Zeros(n: nat): seq<bv8>
  {
    seq(n, _ => 0)
  }

  /** The scan as written over `data_len` bytes, for a compiled pattern. */
  function AsWritten(data: seq<bv8>, dataLen: nat, p: ScanData, fuel: nat): Outcome
    requires p.leadingIgnoreCount < |p.bytes|
  {
    RunAsWritten(data, SearchEnd(dataLen, p), p, PatternBlocksOf(p.bytes), MatchTableOf(p.mask), 0, fuel)
  }

  /** The mended scan over `data_len` bytes. */
  function Mended(data: seq<bv8>, dataLen: nat, p: ScanData): Outcome
    requires p.leadingIgnoreCount < |p.bytes|
  {
    FixedRun(data, dataLen, SearchEnd(dataLen, p), p, 0)
  }

  /** "ZZ" is not a byte: compiling it fails at token 0. */
  lemma BadTokenText()
    ensures !AllValid(Split("ZZ", ' ')) && FirstInvalid(Split("ZZ", ' ')) == 0
  {
    Tokens("ZZ", ["ZZ"]);
    assert HexDigit('Z').None?;
    assert TrimHexPrefixes("ZZ") == "ZZ";
    assert Classify("ZZ") == Invalid;
    FirstInvalidAt(["ZZ"], 0);
  }

  /** A two-digit token compiles to the byte it spells. */
  lemma HexToken(hi: nat, lo: nat, b: bv8)
    requires hi < 16 && lo < 16 && b as nat == hi * 16 + lo
    ensures Classify([HexChar(hi), HexChar(lo)]) == Byte(b)
  {
    ParseTwoDigits(hi, lo);
    ByteRoundTrip(b);
  }

  /** The pattern text splits into the given tokens. */
  lemma Tokens(text: string, tokens: seq<string>)
    requires |tokens| >= 1 && forall k :: 0 <= k < |tokens| ==> ' ' !in tokens[k]
    requires Join(tokens, ' ') == text
    ensures Split(text, ' ') == tokens
  {
    SplitJoin(tokens, ' ');
  }

  // ---------------------------------------------------------------------
  // 1. The zero slots of the match table
  // ---------------------------------------------------------------------

  /** "11 ?? 33" */
  const GapPattern := ScanData([0x11, 0x00, 0x33], [1, 0, 1], 0)

  /**
   * The match table of "11 ?? 33": slot 0 names position 2 (offset 1 after
   * the anchor), and the two slots after it are left at 0.
   */
  lemma GapTable()
    ensures MatchTableOf(GapPattern.mask) == [1, 0, 0]
  {
    var mask := GapPattern.mask;
    assert OffsetsBelow(mask, 2) == [];
    assert ConcreteOffsets(mask) == [1];
  }

  /** 00 11 22 33, then zeros: "11 ?? 33" matches at offset 1. */
  function GapData(): seq<bv8>
  {
    [0x00, 0x11, 0x22, 0x33] + Zeros(14)
  }

  /**
   * As written, the scan misses the match at offset 1: the zero slots of the
   * match table make the block loop demand `bytes[1]` (the wildcard's 0) at
   * offset 2, where 0x22 stands.
   */
  lemma GapMissed(fuel: nat)
    ensures MatchesAt(GapData(), GapPattern, 1)
    ensures AsWritten(GapData(), 17, GapPattern, fuel) == NotFound
  {
    var data, p := GapData(), GapPattern;
    Window(data, 0x11, 0);
    var m := PackBits(CompareEqual(Vector128Create(0x11), LoadVector128(data, 0)));
    assert data[0] != 0x11 && data[1] == 0x11;
    assert TrailingZeros(m) == 1;
    DivCeilBounds(2);
    CandidateVerdict(data, p, 1);
    assert ShortTail(p) && !HitAt(data, p.bytes, 1, 1);
    var blocks, table := PatternBlocksOf(p.bytes), MatchTableOf(p.mask);
    assert StepAsWritten(data, p, blocks, table, 0) == Advance(2);
    assert SearchEnd(17, p) == 1;
    RunMovesOn(data, 1, p, blocks, table, 0, fuel, 2);
  }

  /** "11 ?? 33" compiles to `GapPattern`. */
  lemma GapText()
    ensures AllValid(Split("11 ?? 33", ' ')) && PatternOf(Split("11 ?? 33", ' ')) == GapPattern
  {
    var tokens := ["11", "??", "33"];
    assert Join(tokens, ' ') == "11 ?? 33" by {
      assert Join(tokens[1..], ' ') == "?? 33" by {
        assert Join(tokens[2..], ' ') == "33";
      }
    }
    Tokens("11 ?? 33", tokens);
    GapTokens();
  }

  lemma GapTokens()
    ensures AllValid(["11", "??", "33"]) && PatternOf(["11", "??", "33"]) == GapPattern
  {
    var tokens := ["11", "??", "33"];
    HexToken(1, 1, 0x11);
    HexToken(3, 3, 0x33);
    assert [HexChar(1), HexChar(1)] == tokens[0] && [HexChar(3), HexChar(3)] == tokens[2];
    assert Classify(tokens[1]) == Wildcard;
    assert LeadingWildcards(tokens) == 0;
    var p := PatternOf(tokens);
    assert p.bytes == [0x11, 0x00, 0x33];
    assert p.mask == [1, 0, 1];
  }

  /**
   * `find_pattern_neon(data, 17, "11 ?? 33")` on the 18 bytes above: the
   * missed match, from the pattern text through the whole call.
   */
  lemma GapMissedText(fuel: nat)
    ensures FindSpec(GapData(), 17, "11 ?? 33", fuel) == NotFound
  {
    GapText();
    GapMissed(fuel);
  }

  /** The mended scan reports the match at offset 1. */
  lemma GapFound()
    ensures Mended(GapData(), 17, GapPattern) == Found(1)
  {
    var data := GapData();
    Window(data, 0x11, 0);
    var m := PackBits(CompareEqual(Vector128Create(0x11), LoadVector128(data, 0)));
    assert data[0] != 0x11 && data[1] == 0x11;
    assert TrailingZeros(m) == 1;
    assert MatchesAt(data, GapPattern, 1);
  }

  // ---------------------------------------------------------------------
  // 2. A rejected candidate behind the cursor
  // ---------------------------------------------------------------------

  /** "?? AA BB" */
  const StallPattern := ScanData([0x00, 0xAA, 0xBB], [0, 1, 1], 1)

  /** AA, then zeros. */
  function AnchorFirstData(): seq<bv8>
  {
    [0xAA] + Zeros(16)
  }

  /**
   * As written, the anchor at offset 0 leads to the candidate -1; it fails,
   * the cursor moves to -1 + 1 = 0, where it was, and the loop never ends.
   */
  lemma StallLoops(fuel: nat)
    ensures AsWritten(AnchorFirstData(), 17, StallPattern, fuel) == OutOfFuel
  {
    var data, p := AnchorFirstData(), StallPattern;
    StallTurn();
    assert SearchEnd(17, p) == 1;
    Stalled(data, 1, p, PatternBlocksOf(p.bytes), MatchTableOf(p.mask), fuel);
  }

  /** The one turn at cursor 0 rejects the candidate -1 and moves the cursor back to 0. */
  lemma StallTurn()
    ensures StepAsWritten(AnchorFirstData(), StallPattern, PatternBlocksOf(StallPattern.bytes),
                          MatchTableOf(StallPattern.mask), 0) == Advance(0)
  {
    var data, p := AnchorFirstData(), StallPattern;
    Window(data, 0xAA, 0);
    var m := PackBits(CompareEqual(Vector128Create(0xAA), LoadVector128(data, 0)));
    assert data[0] == 0xAA;
    assert TrailingZeros(m) == 0;
    DivCeilBounds(2);
    CandidateVerdict(data, p, -1);
    assert !HitAt(data, p.bytes, -1, 2);
  }

  /** A loop whose turn at cursor 0 leaves the cursor at 0 spends all its fuel there. */
  lemma {:induction false} Stalled(data: seq<bv8>, end: int, p: ScanData, blocks: seq<Vector128>, table: seq<int>, fuel: nat)
    requires p.leadingIgnoreCount < |p.bytes| && 0 < end
    requires StepAsWritten(data, p, blocks, table, 0) == Advance(0)
    ensures RunAsWritten(data, end, p, blocks, table, 0, fuel) == OutOfFuel
  {
    if fuel == 0 {
      RunStalls(data, end, p, blocks, table, 0, fuel, 0);
    } else {
      RunFallsBack(data, end, p, blocks, table, 0, fuel, 0);
      Stalled(data, end, p, blocks, table, fuel - 1);
    }
  }

  /** "?? AA BB" compiles to `StallPattern`. */
  lemma StallText()
    ensures AllValid(Split("?? AA BB", ' ')) && PatternOf(Split("?? AA BB", ' ')) == StallPattern
  {
    var tokens := ["??", "AA", "BB"];
    assert Join(tokens, ' ') == "?? AA BB" by {
      assert Join(tokens[1..], ' ') == "AA BB" by {
        assert Join(tokens[2..], ' ') == "BB";
      }
    }
    Tokens("?? AA BB", tokens);
    StallTokens();
  }

  lemma StallTokens()
    ensures AllValid(["??", "AA", "BB"]) && PatternOf(["??", "AA", "BB"]) == StallPattern
  {
    var tokens := ["??", "AA", "BB"];
    AnchorTokens();
    assert Classify(tokens[0]) == Wildcard;
    assert tokens[1..] == ["AA", "BB"];
    assert LeadingWildcards(tokens[1..]) == 0;
    var p := PatternOf(tokens);
    assert p.bytes == [0x00, 0xAA, 0xBB];
    assert p.mask == [0, 1, 1];
  }

  /** `find_pattern_neon(data, 17, "?? AA BB")`: the hang, from the pattern text through the whole call. */
  lemma StallLoopsText(fuel: nat)
    ensures FindSpec(AnchorFirstData(), 17, "?? AA BB", fuel) == OutOfFuel
  {
    StallText();
    StallLoops(fuel);
  }

  /** The mended scan skips the candidate before the data and ends with `None`. */
  lemma StallEnds()
    ensures Mended(AnchorFirstData(), 17, StallPattern) == NotFound
  {
    var data := AnchorFirstData();
    Window(data, 0xAA, 0);
    var m := PackBits(CompareEqual(Vector128Create(0xAA), LoadVector128(data, 0)));
    assert data[0] == 0xAA;
    assert TrailingZeros(m) == 0;
  }

  // ---------------------------------------------------------------------
  // 3. A reported offset before the data
  // ---------------------------------------------------------------------

  /** "?? AA" */
  const LeadPattern := ScanData([0x00, 0xAA], [0, 1], 1)

  /**
   * As written, the anchor at offset 0 is accepted as the match at offset -1,
   * which `data_ptr - data as usize` wraps to `usize::MAX`; no match exists.
   */
  lemma LeadBeforeData(fuel: nat)
    ensures forall s :: !MatchesAt(AnchorFirstData(), LeadPattern, s)
    ensures AsWritten(AnchorFirstData(), 17, LeadPattern, fuel) == Found(-1)
  {
    var data, p := AnchorFirstData(), LeadPattern;
    Window(data, 0xAA, 0);
    var m := PackBits(CompareEqual(Vector128Create(0xAA), LoadVector128(data, 0)));
    assert data[0] == 0xAA;
    assert TrailingZeros(m) == 0;
    DivCeilBounds(1);
    CandidateVerdict(data, p, -1);
    assert Verified(data, p, -1);
    forall s
      ensures !MatchesAt(data, p, s)
    {
      if 0 <= s && s + 2 <= |data| {
        assert data[s + 1] == 0;
      }
    }
  }

  /** "?? AA" compiles to `LeadPattern`. */
  lemma LeadText()
    ensures AllValid(Split("?? AA", ' ')) && PatternOf(Split("?? AA", ' ')) == LeadPattern
  {
    var tokens := ["??", "AA"];
    assert Join(tokens, ' ') == "?? AA" by {
      assert Join(tokens[1..], ' ') == "AA";
    }
    Tokens("?? AA", tokens);
    LeadTokens();
  }

  lemma LeadTokens()
    ensures AllValid(["??", "AA"]) && PatternOf(["??", "AA"]) == LeadPattern
  {
    var tokens := ["??", "AA"];
    AnchorTokens();
    assert Classify(tokens[0]) == Wildcard;
    assert tokens[1..] == ["AA"];
    assert LeadingWildcards(tokens[1..]) == 0;
    var p := PatternOf(tokens);
    assert p.bytes == [0x00, 0xAA];
    assert p.mask == [0, 1];
  }

  /**
   * `get_offset_neon(data, "?? AA")` on the 17 bytes above: the offset before
   * the data, from the pattern text through the whole call.
   */
  lemma LeadBeforeDataText(fuel: nat)
    ensures |AnchorFirstData()| == 17
    ensures FindSpec(AnchorFirstData(), |AnchorFirstData()|, "?? AA", fuel) == Found(-1)
  {
    LeadText();
    LeadBeforeData(fuel);
  }

  /** The mended scan finds nothing. */
  lemma LeadEnds()
    ensures Mended(AnchorFirstData(), 17, LeadPattern) == NotFound
  {
    var data := AnchorFirstData();
    Window(data, 0xAA, 0);
    var m := PackBits(CompareEqual(Vector128Create(0xAA), LoadVector128(data, 0)));
    assert data[0] == 0xAA;
    assert TrailingZeros(m) == 0;
  }

  // ---------------------------------------------------------------------
  // 4. Loads past the end of the slice
  // ---------------------------------------------------------------------

  /** "AA BB" */
  const TailPattern := ScanData([0xAA, 0xBB], [1, 1], 0)

  /** Fifteen zeros, AA, and one more zero: seventeen bytes. */
  function AnchorLateData(): seq<bv8>
  {
    Zeros(15) + [0xAA, 0x00]
  }

  /**
   * As written, `get_offset_neon` on these 17 bytes checks the candidate at
   * offset 15 with a 16-byte load at offset 16, reading 15 bytes past the
   * end of the slice.
   */
  lemma TailOverread(fuel: nat)
    ensures |AnchorLateData()| == 17
    ensures AsWritten(AnchorLateData(), 17, TailPattern, fuel) == Fault(16)
  {
    var data := AnchorLateData();
    Window(data, 0xAA, 0);
    var m := PackBits(CompareEqual(Vector128Create(0xAA), LoadVector128(data, 0)));
    assert data[15] == 0xAA;
    assert forall s :: 0 <= s < 15 ==> data[s] == 0;
    assert TrailingZeros(m) == 15;
  }

  /** "AA BB" compiles to `TailPattern`. */
  lemma TailText()
    ensures AllValid(Split("AA BB", ' ')) && PatternOf(Split("AA BB", ' ')) == TailPattern
  {
    var tokens := ["AA", "BB"];
    assert Join(tokens, ' ') == "AA BB" by {
      assert Join(tokens[1..], ' ') == "BB";
    }
    Tokens("AA BB", tokens);
    TailTokens();
  }

  /** The two tokens of the anchor bytes 0xAA and 0xBB. */
  lemma AnchorTokens()
    ensures Classify("AA") == Byte(0xAA) && Classify("BB") == Byte(0xBB)
  {
    HexToken(10, 10, 0xAA);
    HexToken(11, 11, 0xBB);
    assert [HexChar(10), HexChar(10)] == "AA" && [HexChar(11), HexChar(11)] == "BB";
  }

  lemma TailTokens()
    ensures AllValid(["AA", "BB"]) && PatternOf(["AA", "BB"]) == TailPattern
  {
    var tokens := ["AA", "BB"];
    AnchorTokens();
    assert LeadingWildcards(tokens) == 0;
    var p := PatternOf(tokens);
    assert p.bytes == [0xAA, 0xBB];
    assert p.mask == [1, 1];
  }

  /**
   * `get_offset_neon(data, "AA BB")` on the 17 bytes above: the over-read,
   * from the pattern text through the whole call.
   */
  lemma TailOverreadText(fuel: nat)
    ensures FindSpec(AnchorLateData(), |AnchorLateData()|, "AA BB", fuel) == Fault(16)
  {
    TailText();
    TailOverread(fuel);
  }

  /** The mended scan checks offset 15 inside the slice and ends with `None`. */
  lemma TailEnds()
    ensures Mended(AnchorLateData(), 17, TailPattern) == NotFound
  {
    var data := AnchorLateData();
    Window(data, 0xAA, 0);
    var m := PackBits(CompareEqual(Vector128Create(0xAA), LoadVector128(data, 0)));
    assert data[15] == 0xAA;
    assert forall s :: 0 <= s < 15 ==> data[s] == 0;
    assert TrailingZeros(m) == 15;
    assert !MatchesAt(data, TailPattern, 15) by {
      assert data[16] == 0;
      assert TailPattern.mask[1] == 1 && data[15 + 1] != TailPattern.bytes[1];
    }
  }

  /** "AA" and fifteen wildcards: sixteen bytes, anchored at index 0. */
  const WidePattern := ScanData([0xAA] + Zeros(15), [1] + Zeros(15), 0)

  /**
   * With `data_len` 17 and fifteen readable bytes of padding after AA, the
   * only place where every concrete byte of the pattern is in place is
   * offset 15, which would end past `data_len`: the mended scan returns
   * `None`.
   */
  lemma PaddingIgnored()
    ensures MatchesAt(AnchorLateData() + Zeros(14), WidePattern, 15)
    ensures Mended(AnchorLateData() + Zeros(14), 17, WidePattern) == NotFound
  {
    var data := AnchorLateData() + Zeros(14);
    Window(data, 0xAA, 0);
    var m := PackBits(CompareEqual(Vector128Create(0xAA), LoadVector128(data, 0)));
    assert data[15] == 0xAA;
    assert forall s :: 0 <= s < 15 ==> data[s] == 0;
    assert TrailingZeros(m) == 15;
  }
}
