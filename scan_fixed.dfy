/**
 * The `'data` loop of `find_pattern_neon` (src/lib.rs) with its defects
 * mended, and what it then finds.
 *
 * The anchor search is kept as written: a 16-byte window at the cursor, the
 * anchor mask and its trailing-zero count. What changes is what happens at
 * the anchor found at a:
 *   - the candidate a - leading_ignore_count is skipped when it lies before
 *     the start of `data`, instead of being checked and reported there;
 *   - the candidate is checked byte by byte against every concrete byte of
 *     the pattern, inside `data`, instead of by the block loop, whose table
 *     walk reads the zero slots as "offset 0" and whose loads run past the
 *     end of `data`;
 *   - after a rejected candidate the cursor moves to a + 1, one past the
 *     anchor, instead of to one past the candidate, which can lie behind the
 *     cursor;
 *   - a match must end within the first `data_len` bytes: what lies past
 *     them is padding that may be read but is not part of the haystack.
 */
module ScanFixed {
  import opened Vector
  import opened Pattern
  import opened Tables
  import opened Scan
  import opened ScanTheorems

  /** Every concrete byte of the pattern is in place at s, within the first `dataLen` bytes of `data`. */
  predicate MatchesIn(data: seq<bv8>, dataLen: nat, p: ScanData, s: int)
  {
    MatchesAt(data, p, s) && s + |p.bytes| <= dataLen
  }

  /** The mended loop over `dataLen` bytes from cursor c while `c < end`. */
  function FixedRun(data: seq<bv8>, dataLen: nat, end: int, p: ScanData, c: int): Outcome
    requires p.leadingIgnoreCount < |p.bytes|
    decreases end - c
  {
    if c >= end then NotFound
    else if !InBounds(data, c) then Fault(c)
    else
      var anchorMask := PackBits(CompareEqual(Vector128Create(p.bytes[p.leadingIgnoreCount]), LoadVector128(data, c)));
      if anchorMask == 0 then FixedRun(data, dataLen, end, p, c + RegisterLength - 1)
      else
        var a := c + TrailingZeros(anchorMask);
        var candidate := a - p.leadingIgnoreCount;
        if 0 <= candidate && MatchesIn(data, dataLen, p, candidate) then Found(candidate)
        else FixedRun(data, dataLen, end, p, a + 1)
  }

  /** `find_pattern_neon` with the mended loop. */
  function FixedFind(data: seq<bv8>, dataLen: nat, pattern: string): Outcome
  {
    var tokens := Split(pattern, ' ');
    if !AllValid(tokens) then BadPattern(FirstInvalid(tokens))
    else
      var p := PatternOf(tokens);
      if p.leadingIgnoreCount >= |p.bytes| then NoAnchor
      else FixedRun(data, dataLen, SearchEnd(dataLen, p), p, 0)
  }

  /** A match has the anchor byte in place. */
  lemma MatchHasAnchor(data: seq<bv8>, p: ScanData, s: int)
    requires WellFormed(p) && MatchesAt(data, p, s)
    ensures data[s + p.leadingIgnoreCount] == p.bytes[p.leadingIgnoreCount]
  {
  }

  /** No offset whose anchor lies before `bound` is a match within `dataLen` bytes. */
  ghost predicate NoMatchBefore(data: seq<bv8>, dataLen: nat, p: ScanData, bound: int)
  {
    forall s :: s + p.leadingIgnoreCount < bound ==> !MatchesIn(data, dataLen, p, s)
  }

  /** The scan ended with the first match, or with none before the search length. */
  ghost predicate FirstMatchOutcome(data: seq<bv8>, dataLen: nat, p: ScanData, end: int, r: Outcome)
  {
    (r.Found? || r.NotFound?)
    && (r.Found? ==> MatchesIn(data, dataLen, p, r.offset) && forall s :: s < r.offset ==> !MatchesIn(data, dataLen, p, s))
    && (r.NotFound? ==> NoMatchBefore(data, dataLen, p, end))
  }

  /** Where the mended loop goes on after a turn at c that reports nothing. */
  function FixedNext(data: seq<bv8>, p: ScanData, c: int): int
    requires p.leadingIgnoreCount < |p.bytes| && InBounds(data, c)
  {
    var anchorMask := PackBits(CompareEqual(Vector128Create(p.bytes[p.leadingIgnoreCount]), LoadVector128(data, c)));
    if anchorMask == 0 then c + RegisterLength - 1 else c + TrailingZeros(anchorMask) + 1
  }

  /**
   * One turn of the mended loop at c, with no match anchored before c: it
   * reports the first match, or moves the cursor forward past anchors none
   * of which starts a match.
   */
  lemma FixedStep(data: seq<bv8>, dataLen: nat, p: ScanData, c: int)
    requires WellFormed(p) && dataLen <= |data|
    requires 0 <= c < SearchEnd(dataLen, p) && NoMatchBefore(data, dataLen, p, c)
    ensures InBounds(data, c)
    ensures var end := SearchEnd(dataLen, p); var r := FixedRun(data, dataLen, end, p, c);
      (r.Found? && FirstMatchOutcome(data, dataLen, p, end, r))
      || (r == FixedRun(data, dataLen, end, p, FixedNext(data, p, c)) && c < FixedNext(data, p, c)
          && NoMatchBefore(data, dataLen, p, FixedNext(data, p, c)))
  {
    if PackBits(CompareEqual(Vector128Create(p.bytes[p.leadingIgnoreCount]), LoadVector128(data, c))) == 0 {
      FixedStepQuiet(data, dataLen, p, c);
    } else {
      FixedStepAnchor(data, dataLen, p, c);
    }
  }

  /** The turn at a window without the anchor byte moves the cursor on. */
  lemma FixedStepQuiet(data: seq<bv8>, dataLen: nat, p: ScanData, c: int)
    requires WellFormed(p) && dataLen <= |data|
    requires 0 <= c < SearchEnd(dataLen, p) && NoMatchBefore(data, dataLen, p, c)
    requires PackBits(CompareEqual(Vector128Create(p.bytes[p.leadingIgnoreCount]), LoadVector128(data, c))) == 0
    ensures var end := SearchEnd(dataLen, p); var r := FixedRun(data, dataLen, end, p, c);
      (r.Found? && FirstMatchOutcome(data, dataLen, p, end, r))
      || (r == FixedRun(data, dataLen, end, p, FixedNext(data, p, c)) && c < FixedNext(data, p, c)
          && NoMatchBefore(data, dataLen, p, FixedNext(data, p, c)))
  {
    FixedQuiet(data, dataLen, p, c);
  }

  /** The turn at a window with the anchor byte reports the first match or moves the cursor on. */
  lemma FixedStepAnchor(data: seq<bv8>, dataLen: nat, p: ScanData, c: int)
    requires WellFormed(p) && dataLen <= |data|
    requires 0 <= c < SearchEnd(dataLen, p) && NoMatchBefore(data, dataLen, p, c)
    requires InBounds(data, c) && PackBits(CompareEqual(Vector128Create(p.bytes[p.leadingIgnoreCount]), LoadVector128(data, c))) != 0
    ensures var end := SearchEnd(dataLen, p); var r := FixedRun(data, dataLen, end, p, c);
      (r.Found? && FirstMatchOutcome(data, dataLen, p, end, r))
      || (r == FixedRun(data, dataLen, end, p, FixedNext(data, p, c)) && c < FixedNext(data, p, c)
          && NoMatchBefore(data, dataLen, p, FixedNext(data, p, c)))
  {
    FixedAnchor(data, dataLen, p, c);
    FixedAnchorTurn(data, dataLen, p, c);
    var candidate := FixedNext(data, p, c) - 1 - p.leadingIgnoreCount;
    if 0 <= candidate && MatchesIn(data, dataLen, p, candidate) {
      assert FixedRun(data, dataLen, SearchEnd(dataLen, p), p, c) == Found(candidate);
    }
  }

  /** A turn at an anchor reports the candidate when it is a match, and otherwise goes on one past the anchor. */
  lemma FixedAnchorTurn(data: seq<bv8>, dataLen: nat, p: ScanData, c: int)
    requires p.leadingIgnoreCount < |p.bytes| && c < SearchEnd(dataLen, p) && InBounds(data, c)
    requires PackBits(CompareEqual(Vector128Create(p.bytes[p.leadingIgnoreCount]), LoadVector128(data, c))) != 0
    ensures var a := FixedNext(data, p, c) - 1; var candidate := a - p.leadingIgnoreCount;
      var end := SearchEnd(dataLen, p);
      FixedRun(data, dataLen, end, p, c)
      == if 0 <= candidate && MatchesIn(data, dataLen, p, candidate) then Found(candidate)
         else FixedRun(data, dataLen, end, p, a + 1)
  {
  }

  /** A window without the anchor byte holds no anchor of a match. */
  lemma FixedQuiet(data: seq<bv8>, dataLen: nat, p: ScanData, c: int)
    requires WellFormed(p) && InBounds(data, c) && NoMatchBefore(data, dataLen, p, c)
    requires PackBits(CompareEqual(Vector128Create(p.bytes[p.leadingIgnoreCount]), LoadVector128(data, c))) == 0
    ensures c < FixedNext(data, p, c) && NoMatchBefore(data, dataLen, p, FixedNext(data, p, c))
  {
    var lic := p.leadingIgnoreCount;
    Window(data, p.bytes[lic], c);
    forall s | MatchesAt(data, p, s)
      ensures data[s + lic] == p.bytes[lic]
    {
      MatchHasAnchor(data, p, s);
    }
  }

  /** At the first anchor byte of the window, the candidate is the first match or none is anchored up to it. */
  lemma FixedAnchor(data: seq<bv8>, dataLen: nat, p: ScanData, c: int)
    requires WellFormed(p) && InBounds(data, c) && NoMatchBefore(data, dataLen, p, c)
    requires PackBits(CompareEqual(Vector128Create(p.bytes[p.leadingIgnoreCount]), LoadVector128(data, c))) != 0
    ensures var a := FixedNext(data, p, c) - 1; var candidate := a - p.leadingIgnoreCount;
      c <= a
      && (0 <= candidate && MatchesIn(data, dataLen, p, candidate) ==> FirstMatchOutcome(data, dataLen, p, SearchEnd(dataLen, p), Found(candidate)))
      && (!(0 <= candidate && MatchesIn(data, dataLen, p, candidate)) ==> NoMatchBefore(data, dataLen, p, a + 1))
  {
    var lic := p.leadingIgnoreCount;
    Window(data, p.bytes[lic], c);
    forall s | MatchesAt(data, p, s)
      ensures data[s + lic] == p.bytes[lic]
    {
      MatchHasAnchor(data, p, s);
    }
  }

  /** The mended loop from cursor c, given that no match is anchored before c. */
  lemma {:induction false} FixedFrom(data: seq<bv8>, dataLen: nat, p: ScanData, c: int)
    requires WellFormed(p) && dataLen <= |data| && 0 <= c && NoMatchBefore(data, dataLen, p, c)
    ensures FirstMatchOutcome(data, dataLen, p, SearchEnd(dataLen, p), FixedRun(data, dataLen, SearchEnd(dataLen, p), p, c))
    decreases SearchEnd(dataLen, p) - c
  {
    if c < SearchEnd(dataLen, p) {
      FixedStep(data, dataLen, p, c);
      var r := FixedRun(data, dataLen, SearchEnd(dataLen, p), p, c);
      if !(r.Found? && FirstMatchOutcome(data, dataLen, p, SearchEnd(dataLen, p), r)) {
        FixedFrom(data, dataLen, p, FixedNext(data, p, c));
      }
    }
  }

  /**
   * The mended scan of a compiled pattern with an anchor, given `data_len`
   * bytes of haystack and possibly more readable bytes after them: it ends,
   * never loads outside `data`, reports the first offset at which every
   * concrete byte of the pattern is in place within the haystack, and reports
   * `None` only when no such match is anchored below the search length.
   */
  lemma FixedFirstMatch(data: seq<bv8>, dataLen: nat, p: ScanData)
    requires WellFormed(p) && dataLen <= |data|
    ensures var r := FixedRun(data, dataLen, SearchEnd(dataLen, p), p, 0);
      (r.Found? || r.NotFound?)
      && (r.Found? ==> 0 <= r.offset && r.offset + |p.bytes| <= dataLen && MatchesAt(data, p, r.offset)
                       && forall s :: s < r.offset ==> !MatchesIn(data, dataLen, p, s))
      && (r.NotFound? ==> forall s :: s + p.leadingIgnoreCount < SearchEnd(dataLen, p) ==> !MatchesIn(data, dataLen, p, s))
  {
    FixedFrom(data, dataLen, p, 0);
  }
}
