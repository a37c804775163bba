/**
 * What the `'data` loop of `find_pattern_neon` (src/lib.rs) finds.
 *
 * Any offset it reports has every concrete byte of the pattern at its place.
 * For a pattern that starts with a concrete byte, and with enough readable
 * bytes past `data_len` for the loads that the candidate check makes, the loop
 * always ends, and it reports the first offset that the candidate check
 * admits, or `None` when no offset below the search length is admitted.
 */
module ScanTheorems {
  import opened Vector
  import opened Pattern
  import opened Tables
  import opened Scan
  import opened ScanFacts

  // ---------------------------------------------------------------------
  // The anchor search in one window
  // ---------------------------------------------------------------------

  /**
   * The anchor mask of the 16 bytes at c: zero exactly when none of them is
   * b, and otherwise its trailing-zero count is the first place where b is.
   */
  lemma Window(data: seq<bv8>, b: bv8, c: int)
    requires InBounds(data, c)
    ensures var m := PackBits(CompareEqual(Vector128Create(b), LoadVector128(data, c)));
      (m == 0 <==> forall s :: c <= s < c + 16 ==> data[s] != b)
      && (m != 0 ==> TrailingZeros(m) < 16 && data[c + TrailingZeros(m)] == b
                     && forall s :: c <= s < c + TrailingZeros(m) ==> data[s] != b)
  {
    var anchor, window := Vector128Create(b), LoadVector128(data, c);
    var m := PackBits(CompareEqual(anchor, window));
    forall s | c <= s < c + 16
      ensures Bit(m, s - c) <==> data[s] == b
    {
      CompareMaskBit(anchor, window, s - c);
    }
    if m == 0 {
      forall s | c <= s < c + 16
        ensures data[s] != b
      {
        BitOfZero(s - c);
      }
    } else {
      var tz := TrailingZeros(m);
      MaskBits(CompareEqual(anchor, window), tz);
      assert Bit(m, tz);
    }
  }

  // ---------------------------------------------------------------------
  // Any reported offset
  // ---------------------------------------------------------------------

  /** A turn that matches found the anchor at most 15 places past c and accepted the candidate it leads to. */
  lemma StepMatched(data: seq<bv8>, p: ScanData, blocks: seq<Vector128>, table: seq<int>, c: int)
    requires p.leadingIgnoreCount < |p.bytes|
    requires StepAsWritten(data, p, blocks, table, c).Matched?
    ensures var o := StepAsWritten(data, p, blocks, table, c).at;
      c <= o + p.leadingIgnoreCount < c + 16
      && HitAt(data, p.bytes, o, p.leadingIgnoreCount)
      && VerifyBlocks(data, o, blocks, table, 0, 0) == Accept
  {
    Window(data, p.bytes[p.leadingIgnoreCount], c);
  }

  /** Whatever the loop reports as found, some turn of it matched there. */
  lemma {:induction false} RunFound(data: seq<bv8>, end: int, p: ScanData, blocks: seq<Vector128>, table: seq<int>,
                                    c: int, fuel: nat)
    requires p.leadingIgnoreCount < |p.bytes|
    requires RunAsWritten(data, end, p, blocks, table, c, fuel).Found?
    ensures exists c' :: StepAsWritten(data, p, blocks, table, c')
                      == Matched(RunAsWritten(data, end, p, blocks, table, c, fuel).offset)
    decreases fuel, end - c
  {
    match StepAsWritten(data, p, blocks, table, c)
    case Matched(at) =>
    case StepFault(q) =>
    case Advance(next) =>
      if next > c {
        RunFound(data, end, p, blocks, table, next, fuel);
      } else {
        RunFound(data, end, p, blocks, table, next, fuel - 1);
      }
  }

  /**
   * Soundness of `find_pattern_neon` as written, for a compiled pattern of at
   * most 65537 bytes: at a reported offset every concrete byte of the pattern
   * is found in place. The offset may still be -1 (a wrapped `usize`), when a
   * leading wildcard sits before the start of `data`.
   */
  lemma FoundMatches(data: seq<bv8>, end: int, p: ScanData, fuel: nat)
    requires WellFormed(p) && |p.mask| <= 0x1_0001
    ensures var r := RunAsWritten(data, end, p, PatternBlocksOf(p.bytes), MatchTableOf(p.mask), 0, fuel);
      r.Found? ==>
        -1 <= r.offset && r.offset + |p.bytes| <= |data|
        && (forall idx :: 0 <= idx < |p.mask| && p.mask[idx] == 1 ==> HitAt(data, p.bytes, r.offset, idx))
        && Verified(data, p, r.offset)
  {
    var blocks, table := PatternBlocksOf(p.bytes), MatchTableOf(p.mask);
    var r := RunAsWritten(data, end, p, blocks, table, 0, fuel);
    if r.Found? {
      RunFound(data, end, p, blocks, table, 0, fuel);
      var c :| StepAsWritten(data, p, blocks, table, c) == Matched(r.offset);
      StepMatched(data, p, blocks, table, c);
      AcceptedMatches(data, p, r.offset);
    }
  }

  /** An accepted candidate whose anchor is in place has every concrete byte in place. */
  lemma AcceptedMatches(data: seq<bv8>, p: ScanData, o: int)
    requires WellFormed(p) && |p.mask| <= 0x1_0001
    requires VerifyBlocks(data, o, PatternBlocksOf(p.bytes), MatchTableOf(p.mask), 0, 0) == Accept
    requires HitAt(data, p.bytes, o, p.leadingIgnoreCount)
    ensures -1 <= o && o + |p.bytes| <= |data|
    ensures forall idx :: 0 <= idx < |p.mask| && p.mask[idx] == 1 ==> HitAt(data, p.bytes, o, idx)
    ensures Verified(data, p, o)
  {
    var blocks := PatternBlocksOf(p.bytes);
    DivCeilBounds(|p.bytes| - 1);
    if 0 < |blocks| {
      AcceptedFits(data, o, blocks, MatchTableOf(p.mask), 0, 0);
    }
    CandidateVerdict(data, p, o);
  }

  /**
   * Soundness of the whole call: when `find_pattern_neon` reports an offset
   * for a pattern text of at most 65537 tokens, the text compiled, and every
   * concrete byte of the compiled pattern is found in place at that offset
   * (which may be -1, as for `AcceptedMatches`).
   */
  lemma FoundInText(data: seq<bv8>, dataLen: nat, pattern: string, fuel: nat)
    requires |Split(pattern, ' ')| <= 0x1_0001
    requires FindSpec(data, dataLen, pattern, fuel).Found?
    ensures var tokens := Split(pattern, ' '); var p := PatternOf(tokens);
      var o := FindSpec(data, dataLen, pattern, fuel).offset;
      AllValid(tokens) && WellFormed(p)
      && -1 <= o && o + |p.bytes| <= |data|
      && forall idx :: 0 <= idx < |p.mask| && p.mask[idx] == 1 ==> HitAt(data, p.bytes, o, idx)
  {
    var tokens := Split(pattern, ' ');
    var p := PatternOf(tokens);
    PatternOfShape(tokens);
    LeadingWildcardsSpec(tokens);
    assert Classify(tokens[p.leadingIgnoreCount]).Byte?;
    FoundMatches(data, SearchEnd(dataLen, p), p, fuel);
  }

  // ---------------------------------------------------------------------
  // A pattern that starts with a concrete byte
  // ---------------------------------------------------------------------

  /** Every concrete byte of the pattern is in place at s, inside `data`. */
  predicate MatchesAt(data: seq<bv8>, p: ScanData, s: int)
  {
    0 <= s && s + |p.bytes| <= |data|
    && forall idx :: 0 <= idx < |p.bytes| && idx < |p.mask| && p.mask[idx] == 1 ==> data[s + idx] == p.bytes[idx]
  }

  /**
   * The offsets the scan as written can report: a match that, for a pattern
   * whose concrete bytes all lie in the first 17 places, also has `bytes[1]`
   * at s + 1.
   */
  predicate Admits(data: seq<bv8>, p: ScanData, s: int)
  {
    MatchesAt(data, p, s) && (ShortTail(p) ==> data[s + 1] == p.bytes[1])
  }

  /** For an anchor at index 0, admission is the anchor plus the candidate check. */
  lemma AdmitsAnchored(data: seq<bv8>, p: ScanData, s: int)
    requires WellFormed(p) && p.leadingIgnoreCount == 0
    requires 0 <= s && s + |p.bytes| <= |data|
    ensures Admits(data, p, s) <==> data[s] == p.bytes[0] && Verified(data, p, s)
  {
  }

  /** Outside the search, the loads a candidate check makes for a candidate at s. */
  lemma CandidateFits(data: seq<bv8>, dataLen: nat, p: ScanData, c: int, s: int)
    requires WellFormed(p) && dataLen + 29 <= |data|
    requires 0 <= c < SearchEnd(dataLen, p) && c <= s < c + 16
    ensures LoadsFit(data, s, |PatternBlocksOf(p.bytes)|) && s + |p.bytes| <= |data|
  {
    DivCeilBounds(|p.bytes| - 1);
  }

  /**
   * One turn at c with an anchor at index 0: it either matches at the first
   * admitted offset from c on, or moves the cursor forward past offsets
   * none of which is admitted.
   */
  lemma StepAnchored(data: seq<bv8>, dataLen: nat, p: ScanData, c: int)
    requires WellFormed(p) && p.leadingIgnoreCount == 0 && |p.mask| <= 0x1_0001
    requires dataLen + 29 <= |data| && 0 <= c < SearchEnd(dataLen, p)
    ensures var step := StepAsWritten(data, p, PatternBlocksOf(p.bytes), MatchTableOf(p.mask), c);
      (step.Matched? && c <= step.at && Admits(data, p, step.at)
         && forall s :: c <= s < step.at ==> !Admits(data, p, s))
      || (step.Advance? && c < step.next && forall s :: c <= s < step.next ==> !Admits(data, p, s))
  {
    Window(data, p.bytes[0], c);
    var m := PackBits(CompareEqual(Vector128Create(p.bytes[0]), LoadVector128(data, c)));
    if m == 0 {
      NoneAnchored(data, p, c, c + RegisterLength - 1);
    } else {
      var s0 := c + TrailingZeros(m);
      NoneAnchored(data, p, c, s0);
      CandidateAnchored(data, dataLen, p, c, s0);
      assert StepAsWritten(data, p, PatternBlocksOf(p.bytes), MatchTableOf(p.mask), c)
             == if Admits(data, p, s0) then Matched(s0) else Advance(s0 + 1);
      if !Admits(data, p, s0) {
        NoneUpTo(data, p, c, s0);
      }
    }
  }

  /** Where the first byte of the pattern is missing, no offset is admitted. */
  lemma NoneAnchored(data: seq<bv8>, p: ScanData, lo: int, hi: int)
    requires WellFormed(p) && p.leadingIgnoreCount == 0
    requires 0 <= lo && forall s :: lo <= s < hi ==> s < |data| && data[s] != p.bytes[0]
    ensures forall s :: lo <= s < hi ==> !Admits(data, p, s)
  {
  }

  /** A run of offsets none of which is admitted, extended by one more. */
  lemma NoneUpTo(data: seq<bv8>, p: ScanData, lo: int, hi: int)
    requires (forall s :: lo <= s < hi ==> !Admits(data, p, s)) && !Admits(data, p, hi)
    ensures forall s :: lo <= s < hi + 1 ==> !Admits(data, p, s)
  {
  }

  /** At an offset holding the first byte of the pattern, the candidate check accepts exactly the admitted offset. */
  lemma CandidateAnchored(data: seq<bv8>, dataLen: nat, p: ScanData, c: int, s0: int)
    requires WellFormed(p) && p.leadingIgnoreCount == 0 && |p.mask| <= 0x1_0001
    requires dataLen + 29 <= |data| && 0 <= c < SearchEnd(dataLen, p)
    requires c <= s0 < c + 16 && data[s0] == p.bytes[0]
    ensures VerifyBlocks(data, s0, PatternBlocksOf(p.bytes), MatchTableOf(p.mask), 0, 0)
            == (if Admits(data, p, s0) then Accept else Reject)
  {
    CandidateFits(data, dataLen, p, c, s0);
    CandidateVerdict(data, p, s0);
    AdmitsAnchored(data, p, s0);
  }

  /** The loop from cursor c, given that no offset before c is admitted. */
  lemma {:induction false} RunAnchored(data: seq<bv8>, dataLen: nat, p: ScanData, c: int, fuel: nat)
    requires WellFormed(p) && p.leadingIgnoreCount == 0 && |p.mask| <= 0x1_0001
    requires dataLen + 29 <= |data| && 0 <= c
    requires forall s :: 0 <= s < c ==> !Admits(data, p, s)
    ensures var r := RunAsWritten(data, SearchEnd(dataLen, p), p, PatternBlocksOf(p.bytes), MatchTableOf(p.mask), c, fuel);
      (r.Found? || r.NotFound?)
      && (r.Found? ==> Admits(data, p, r.offset) && forall s :: 0 <= s < r.offset ==> !Admits(data, p, s))
      && (r.NotFound? ==> forall s :: 0 <= s < SearchEnd(dataLen, p) ==> !Admits(data, p, s))
    decreases SearchEnd(dataLen, p) - c
  {
    if c < SearchEnd(dataLen, p) {
      StepAnchored(data, dataLen, p, c);
      var step := StepAsWritten(data, p, PatternBlocksOf(p.bytes), MatchTableOf(p.mask), c);
      if step.Advance? {
        RunAnchored(data, dataLen, p, step.next, fuel);
      }
    }
  }

  /**
   * `find_pattern_neon` as written, for a compiled pattern of at most 65537
   * bytes whose first byte is concrete, called with at least 29 readable
   * bytes past `data_len`: the loop ends without running out of fuel and
   * without an out-of-bounds load, and it reports the first admitted offset,
   * or `None` when no offset below the search length is admitted.
   */
  lemma FirstAdmitted(data: seq<bv8>, dataLen: nat, p: ScanData, fuel: nat)
    requires WellFormed(p) && p.leadingIgnoreCount == 0 && |p.mask| <= 0x1_0001
    requires dataLen + 29 <= |data|
    ensures var r := RunAsWritten(data, SearchEnd(dataLen, p), p, PatternBlocksOf(p.bytes), MatchTableOf(p.mask), 0, fuel);
      (r.Found? || r.NotFound?)
      && (r.Found? ==> Admits(data, p, r.offset) && forall s :: 0 <= s < r.offset ==> !Admits(data, p, s))
      && (r.NotFound? ==> forall s :: 0 <= s < SearchEnd(dataLen, p) ==> !Admits(data, p, s))
  {
    RunAnchored(data, dataLen, p, 0, fuel);
  }
}
