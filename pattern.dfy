/**
 * The pattern compiler of src/lib.rs (`SimdPatternScanData::new`): a text
 * signature such as "?? AA 0xBB" is split on single spaces, each token is
 * stripped of leading "0x" prefixes, "??" becomes a wildcard (byte 0, mask 0)
 * and anything else is parsed as a base-16 `u8` (byte, mask 1). A token that
 * does not parse makes `unwrap` panic; the model returns `Err(BadToken(k))`
 * naming the first such token.
 */
module Pattern {
  import opened Wrappers

  // ---------------------------------------------------------------------
  // `str::split(' ')` and its inverse
  // ---------------------------------------------------------------------

  /** `s.split(sep)`: the maximal pieces between separators, empty pieces included. */
  function Split(s: string, sep: char): (parts: seq<string>)
    ensures |parts| >= 1
    ensures forall k :: 0 <= k < |parts| ==> sep !in parts[k]
  {
    if |s| == 0 then [""]
    else
      var rest := Split(s[1..], sep);
      if s[0] == sep then [""] + rest
      else [[s[0]] + rest[0]] + rest[1..]
  }

  /** The pieces glued back together with one separator between neighbours. */
  function Join(parts: seq<string>, sep: char): string
    requires |parts| >= 1
  {
    if |parts| == 1 then parts[0] else parts[0] + [sep] + Join(parts[1..], sep)
  }

  /** Splitting loses nothing: joining the pieces gives the text back. */
  lemma {:induction false} JoinSplit(s: string, sep: char)
    ensures Join(Split(s, sep), sep) == s
  {
    if |s| > 0 {
      JoinSplit(s[1..], sep);
      var rest := Split(s[1..], sep);
      if s[0] == sep {
        assert ([""] + rest)[1..] == rest;
      } else {
        var parts := [[s[0]] + rest[0]] + rest[1..];
        if |rest| == 1 {
          assert parts == [[s[0]] + rest[0]];
        } else {
          assert parts[1..] == rest[1..];
          assert Join(rest, sep) == rest[0] + [sep] + Join(rest[1..], sep);
        }
      }
    }
  }

  /** Pieces without separators are exactly what splitting their join gives. */
  lemma {:induction false} SplitJoin(parts: seq<string>, sep: char)
    requires |parts| >= 1
    requires forall k :: 0 <= k < |parts| ==> sep !in parts[k]
    ensures Split(Join(parts, sep), sep) == parts
  {
    if |parts| == 1 {
      SplitPiece(parts[0], [], sep);
      assert parts[0] + [] == parts[0];
    } else {
      SplitJoin(parts[1..], sep);
      var tail := [sep] + Join(parts[1..], sep);
      SplitPiece(parts[0], tail, sep);
      assert parts[0] + [sep] + Join(parts[1..], sep) == parts[0] + tail;
      assert tail[1..] == Join(parts[1..], sep);
      assert [parts[0]] + parts[1..] == parts;
    }
  }

  /**
   * A piece w without separators in front of `tail` joins the first piece of
   * `tail` (which is w alone when `tail` starts with the separator).
   */
  lemma {:induction false} SplitPiece(w: string, tail: string, sep: char)
    requires sep !in w
    ensures |tail| == 0 ==> Split(w + tail, sep) == [w]
    ensures |tail| > 0 && tail[0] == sep ==> Split(w + tail, sep) == [w] + Split(tail[1..], sep)
  {
    if |w| == 0 {
      assert w + tail == tail;
    } else {
      SplitPiece(w[1..], tail, sep);
      assert (w + tail)[1..] == w[1..] + tail;
      assert [w[0]] + w[1..] == w;
    }
  }

  // ---------------------------------------------------------------------
  // `trim_start_matches("0x")`
  // ---------------------------------------------------------------------

  /** `s.trim_start_matches("0x")` */
  function TrimHexPrefixes(s: string): string
  {
    if |s| >= 2 && s[0] == '0' && s[1] == 'x' then TrimHexPrefixes(s[2..]) else s
  }

  /**
   * What `trim_start_matches("0x")` leaves: the suffix of `s` after as many
   * leading "0x" as there are, which itself does not start with "0x".
   */
  lemma {:induction false} TrimHexPrefixesSpec(s: string)
    ensures var r := TrimHexPrefixes(s);
      |r| <= |s| && r == s[|s| - |r|..]
      && !(|r| >= 2 && r[0] == '0' && r[1] == 'x')
      && (|s| - |r|) % 2 == 0
      && forall k :: 0 <= k < |s| - |r| ==> s[k] == if k % 2 == 0 then '0' else 'x'
  {
    TrimmedSuffix(s);
    TrimmedPairs(s);
  }

  /** What is left is a suffix of `s`, shorter by an even count, and does not start with "0x". */
  lemma {:induction false} TrimmedSuffix(s: string)
    ensures var r := TrimHexPrefixes(s);
      |r| <= |s| && (|s| - |r|) % 2 == 0 && r == s[|s| - |r|..]
      && !(|r| >= 2 && r[0] == '0' && r[1] == 'x')
  {
    if |s| >= 2 && s[0] == '0' && s[1] == 'x' {
      TrimmedSuffix(s[2..]);
      var r := TrimHexPrefixes(s[2..]);
      assert s[2..][|s| - 2 - |r|..] == s[|s| - |r|..];
    }
  }

  /** What is cut off is a run of "0x" pairs. */
  lemma {:induction false} TrimmedPairs(s: string)
    ensures |TrimHexPrefixes(s)| <= |s|
    ensures forall k :: 0 <= k < |s| - |TrimHexPrefixes(s)| ==> s[k] == if k % 2 == 0 then '0' else 'x'
  {
    if |s| >= 2 && s[0] == '0' && s[1] == 'x' {
      TrimmedPairs(s[2..]);
      var n := |s| - |TrimHexPrefixes(s)|;
      forall k | 2 <= k < n
        ensures s[k] == if k % 2 == 0 then '0' else 'x'
      {
        assert s[k] == s[2..][k - 2];
        assert (k - 2) % 2 == k % 2;
      }
    }
  }

  // ---------------------------------------------------------------------
  // `u8::from_str_radix(s, 16)`
  // ---------------------------------------------------------------------

  /** `char::to_digit(16)` */
  function HexDigit(c: char): (r: Option<nat>)
    ensures r.Some? ==> r.value < 16
  {
    if '0' <= c <= '9' then Some(c as nat - '0' as nat)
    else if 'a' <= c <= 'f' then Some(c as nat - 'a' as nat + 10)
    else if 'A' <= c <= 'F' then Some(c as nat - 'A' as nat + 10)
    else None
  }

  predicate AllHex(digits: string)
  {
    forall k :: 0 <= k < |digits| ==> HexDigit(digits[k]).Some?
  }

  /** The value of a string of hex digits, most significant first. */
  function HexValue(digits: string): nat
    requires AllHex(digits)
  {
    if |digits| == 0 then 0
    else HexValue(digits[..|digits| - 1]) * 16 + HexDigit(digits[|digits| - 1]).value
  }

  /**
   * `u8::from_str_radix(s, 16)`: an optional leading '+', then one or more hex
   * digits whose value is below 256 (leading zeros allowed). The empty string,
   * a lone '+', any other character and an overflowing value are errors.
   */
  function ParseHexU8(s: string): Option<bv8>
  {
    if |s| == 0 then None
    else
      var digits := if s[0] == '+' then s[1..] else s;
      if |digits| == 0 || !AllHex(digits) then None
      else if HexValue(digits) >= 256 then None
      else Some(HexValue(digits) as bv8)
  }

  /** The conventional rendering of a byte: two upper-case hex digits. */
  function HexByte(b: bv8): string
  {
    [HexChar(b as nat / 16), HexChar(b as nat % 16)]
  }

  function HexChar(n: nat): char
    requires n < 16
  {
    if n < 10 then ('0' as nat + n) as char else ('A' as nat + n - 10) as char
  }

  /** Every byte written as two hex digits parses back to itself. */
  lemma ParseHexByte(b: bv8)
    ensures ParseHexU8(HexByte(b)) == Some(b)
  {
    var n := b as nat;
    Digits16(n);
    ParseTwoDigits(n / 16, n % 16);
    ByteRoundTrip(b);
  }

  /** Two rendered digits parse back to the value they encode. */
  lemma ParseTwoDigits(hi: nat, lo: nat)
    requires hi < 16 && lo < 16
    ensures ParseHexU8([HexChar(hi), HexChar(lo)]) == Some((hi * 16 + lo) as bv8)
  {
    var s := [HexChar(hi), HexChar(lo)];
    HexCharDigit(hi);
    HexCharDigit(lo);
    TwoDigits(s, hi, lo);
    ParseDigits(s);
  }

  lemma Digits16(n: nat)
    requires n < 256
    ensures n / 16 < 16 && n / 16 * 16 + n % 16 == n
  {
  }

  lemma ParseDigits(s: string)
    requires |s| > 0 && s[0] != '+' && AllHex(s) && HexValue(s) < 256
    ensures ParseHexU8(s) == Some(HexValue(s) as bv8)
  {
  }

  lemma ByteRoundTrip(b: bv8)
    ensures (b as nat) as bv8 == b
  {
  }

  lemma TwoDigits(s: string, hi: nat, lo: nat)
    requires |s| == 2 && HexDigit(s[0]) == Some(hi) && HexDigit(s[1]) == Some(lo)
    ensures s[0] != '+' && AllHex(s) && HexValue(s) == hi * 16 + lo
  {
    var first := s[..1];
    assert first == [s[0]] && first[..0] == [];
    assert HexValue(first) == HexValue(first[..0]) * 16 + hi == hi;
    assert s[..|s| - 1] == first;
  }

  lemma HexCharDigit(n: nat)
    requires n < 16
    ensures HexDigit(HexChar(n)) == Some(n)
  {
  }

  // ---------------------------------------------------------------------
  // Tokens and the compiled pattern
  // ---------------------------------------------------------------------

  datatype Token = Wildcard | Byte(value: bv8) | Invalid

  /** What one space-separated token means once its "0x" prefixes are gone. */
  function Classify(token: string): Token
  {
    var curr := TrimHexPrefixes(token);
    if curr == "??" then Wildcard
    else match ParseHexU8(curr)
      case Some(b) => Byte(b)
      case None => Invalid
  }

  /** `SimdPatternScanData`: pattern bytes, the parallel 0/1 mask and the leading wildcard count. */
  datatype ScanData = ScanData(bytes: seq<bv8>, mask: seq<bv8>, leadingIgnoreCount: nat)

  /** `unwrap` on the `k`-th token failed. */
  datatype ParseError = BadToken(index: nat)

  predicate AllValid(tokens: seq<string>)
  {
    forall k :: 0 <= k < |tokens| ==> !Classify(tokens[k]).Invalid?
  }

  /** The index of the first token that does not parse, where `unwrap` panics. */
  function FirstInvalid(tokens: seq<string>): (k: nat)
    requires !AllValid(tokens)
    ensures k < |tokens| && Classify(tokens[k]).Invalid?
    ensures forall j :: 0 <= j < k ==> !Classify(tokens[j]).Invalid?
  {
    if Classify(tokens[0]).Invalid? then 0
    else
      assert !AllValid(tokens[1..]) by {
        var j :| 0 <= j < |tokens| && Classify(tokens[j]).Invalid?;
        assert tokens[1..][j - 1] == tokens[j];
      }
      var k := 1 + FirstInvalid(tokens[1..]);
      assert forall j :: 1 <= j < k ==> tokens[j] == tokens[1..][j - 1];
      k
  }

  /** A token that does not parse, after only tokens that do, is the first invalid one. */
  lemma FirstInvalidAt(tokens: seq<string>, k: nat)
    requires k < |tokens| && AllValid(tokens[..k]) && Classify(tokens[k]).Invalid?
    ensures !AllValid(tokens) && FirstInvalid(tokens) == k
  {
    forall j | 0 <= j < k
      ensures !Classify(tokens[j]).Invalid?
    {
      assert tokens[..k][j] == tokens[j];
    }
  }

  /** The number of wildcard tokens before the first concrete one. */
  function LeadingWildcards(tokens: seq<string>): nat
  {
    if |tokens| == 0 || !Classify(tokens[0]).Wildcard? then 0
    else 1 + LeadingWildcards(tokens[1..])
  }

  /** The byte a token stands for: its value, or 0 for a wildcard. */
  function TokenByte(t: Token): bv8
  {
    if t.Byte? then t.value else 0
  }

  /** The compiled form of a list of valid tokens, position by position. */
  function PatternOf(tokens: seq<string>): ScanData
  {
    ScanData(
      seq(|tokens|, k requires 0 <= k < |tokens| => TokenByte(Classify(tokens[k]))),
      seq(|tokens|, k requires 0 <= k < |tokens| => if Classify(tokens[k]).Wildcard? then 0 else 1),
      LeadingWildcards(tokens))
  }

  /**
   * `SimdPatternScanData::new`: token by token, push (0, 0) for a wildcard,
   * counting it while no concrete byte has been seen, or push the parsed
   * byte with mask 1. The first token that does not parse is reported.
   */
  method ScanDataNew(pattern: string) returns (r: Result<ScanData, ParseError>)
    ensures r.Ok? <==> AllValid(Split(pattern, ' '))
    ensures r.Ok? ==> r.value == PatternOf(Split(pattern, ' '))
    ensures r.Err? ==> r.error.index == FirstInvalid(Split(pattern, ' '))
  {
    var leadingIgnoreCount := 0;
    var bytes: seq<bv8> := [];
    var mask: seq<bv8> := [];
    var foundNonIgnore := false;

    var iter := Split(pattern, ' ');
    var k := 0;
    assert iter[..0] == [];
    while k < |iter|
      invariant 0 <= k <= |iter|
      invariant AllValid(iter[..k])
      invariant ScanData(bytes, mask, leadingIgnoreCount) == PatternOf(iter[..k])
      invariant leadingIgnoreCount <= k
      invariant foundNonIgnore <==> leadingIgnoreCount < k
    {
      ghost var kind := Classify(iter[k]);
      PatternOfSnoc(iter[..k], iter[k]);
      assert iter[..k + 1] == iter[..k] + [iter[k]];
      var curr := TrimHexPrefixes(iter[k]);
      if curr == "??" {
        assert kind == Wildcard;
        mask := mask + [0];
        bytes := bytes + [0];
        if !foundNonIgnore {
          leadingIgnoreCount := leadingIgnoreCount + 1;
        }
      } else {
        var b := ParseHexU8(curr);
        if b.None? {
          assert kind == Invalid;
          FirstInvalidAt(iter, k);
          return Err(BadToken(k));
        }
        assert kind == Byte(b.value);
        bytes := bytes + [b.value];
        mask := mask + [1];
        foundNonIgnore := true;
      }
      k := k + 1;
    }
    assert iter[..k] == iter;
    r := Ok(ScanData(bytes, mask, leadingIgnoreCount));
  }

  /** Compiling one more token appends its byte and mask entry and may extend the leading count. */
  lemma PatternOfSnoc(tokens: seq<string>, t: string)
    ensures AllValid(tokens + [t]) <==> AllValid(tokens) && !Classify(t).Invalid?
    ensures
      var p := PatternOf(tokens);
      PatternOf(tokens + [t]) == ScanData(
        p.bytes + [TokenByte(Classify(t))],
        p.mask + [if Classify(t).Wildcard? then 0 else 1],
        if p.leadingIgnoreCount == |tokens| && Classify(t).Wildcard? then |tokens| + 1
        else p.leadingIgnoreCount)
  {
    LeadingWildcardsSnoc(tokens, t);
    assert forall j :: 0 <= j < |tokens| ==> (tokens + [t])[j] == tokens[j];
    assert (tokens + [t])[|tokens|] == t;
    var p, q := PatternOf(tokens), PatternOf(tokens + [t]);
    assert q.bytes == p.bytes + [TokenByte(Classify(t))];
    assert q.mask == p.mask + [if Classify(t).Wildcard? then 0 else 1];
  }

  lemma {:induction false} LeadingWildcardsSnoc(tokens: seq<string>, t: string)
    ensures LeadingWildcards(tokens) <= |tokens|
    ensures LeadingWildcards(tokens + [t]) ==
      if LeadingWildcards(tokens) == |tokens| && Classify(t).Wildcard? then |tokens| + 1
      else LeadingWildcards(tokens)
  {
    if |tokens| > 0 {
      assert (tokens + [t])[1..] == tokens[1..] + [t];
      LeadingWildcardsSnoc(tokens[1..], t);
    }
  }

  /** The leading count stops at the first concrete token. */
  lemma {:induction false} LeadingWildcardsSpec(tokens: seq<string>)
    ensures LeadingWildcards(tokens) <= |tokens|
    ensures forall j :: 0 <= j < LeadingWildcards(tokens) ==> Classify(tokens[j]).Wildcard?
    ensures LeadingWildcards(tokens) < |tokens| ==> !Classify(tokens[LeadingWildcards(tokens)]).Wildcard?
  {
    if |tokens| > 0 && Classify(tokens[0]).Wildcard? {
      LeadingWildcardsSpec(tokens[1..]);
      forall j | 0 <= j < LeadingWildcards(tokens)
        ensures Classify(tokens[j]).Wildcard?
      {
        if j > 0 {
          assert tokens[1..][j - 1] == tokens[j];
        }
      }
    }
  }

  // ---------------------------------------------------------------------
  // What the scanner relies on
  // ---------------------------------------------------------------------

  /**
   * A pattern the scanner can anchor on: parallel bytes and 0/1 mask, wildcard
   * bytes stored as 0, only wildcards before `leadingIgnoreCount` and a
   * concrete byte at it.
   */
  predicate WellFormed(p: ScanData)
  {
    |p.bytes| == |p.mask| && p.leadingIgnoreCount < |p.mask|
    && (forall j :: 0 <= j < |p.mask| ==> p.mask[j] == 0 || p.mask[j] == 1)
    && (forall j :: 0 <= j < |p.mask| && p.mask[j] == 0 ==> p.bytes[j] == 0)
    && (forall j :: 0 <= j < p.leadingIgnoreCount ==> p.mask[j] == 0)
    && p.mask[p.leadingIgnoreCount] == 1
  }

  /**
   * The compiled pattern has one byte and one mask entry per token; the
   * leading count is the number of wildcards before the first concrete token,
   * so the pattern is well formed exactly when some token is concrete.
   */
  lemma PatternOfShape(tokens: seq<string>)
    requires AllValid(tokens)
    ensures var p := PatternOf(tokens);
      |p.bytes| == |p.mask| == |tokens| && p.leadingIgnoreCount <= |tokens|
      && (forall j :: 0 <= j < p.leadingIgnoreCount ==> Classify(tokens[j]).Wildcard?)
      && (WellFormed(p) <==> exists j :: 0 <= j < |tokens| && Classify(tokens[j]).Byte?)
  {
    LeadingWildcardsSpec(tokens);
    var p := PatternOf(tokens);
    if exists j :: 0 <= j < |tokens| && Classify(tokens[j]).Byte? {
      assert p.leadingIgnoreCount < |tokens|;
    }
  }
}
