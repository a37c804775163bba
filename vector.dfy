/**
 * The 128-bit vector layer of the AArch64 backend (src/imp/aarch64.rs).
 *
 * A register is sixteen byte lanes. `Vector128Create`, `LoadVector128` and
 * `CompareEqual` are given the lane-wise meaning of the Neon intrinsics they
 * call (`vdupq_n_u8`, `vld1q_u8`, `vceqq_u8`); `Movemask` is written out step
 * by step as the backend computes it (AND with 0x80, a per-lane shift by a
 * constant shift vector, two horizontal byte sums) and is proved equal to the
 * bit-per-lane mask `PackBits`.
 */
module Vector {

  /** One Neon register: sixteen `u8` lanes, lane 0 first. */
  type Vector128 = v: seq<bv8> | |v| == 16
    witness [0, 0, 0, 0, 0, 0, 0, 0, 0, 0, 0, 0, 0, 0, 0, 0]

  // ---------------------------------------------------------------------
  // Bits of natural numbers
  // ---------------------------------------------------------------------

  function Pow2(k: nat): (r: nat)
    ensures r >= 1
  {
    if k == 0 then 1 else 2 * Pow2(k - 1)
  }

  /** Bit k of n, that is `(n >> k) & 1 == 1`. */
  predicate Bit(n: nat, k: nat)
  {
    if k == 0 then n % 2 == 1 else Bit(n / 2, k - 1)
  }

  /** `u32::trailing_zeros` of a non-zero value: the index of its lowest set bit. */
  function TrailingZeros(n: nat): (r: nat)
    requires n > 0
    ensures Bit(n, r)
    ensures forall k :: 0 <= k < r ==> !Bit(n, k)
  {
    if n % 2 == 1 then 0 else 1 + TrailingZeros(n / 2)
  }

  /** No bit at or above position m is set in a number below 2^m. */
  lemma {:induction false} BitAboveBound(n: nat, m: nat, k: nat)
    requires n < Pow2(m) && m <= k
    ensures !Bit(n, k)
  {
    if k == 0 {
      assert n == 0;
    } else if m == 0 {
      assert n == 0;
      BitOfZero(k);
    } else {
      BitAboveBound(n / 2, m - 1, k - 1);
    }
  }

  lemma {:induction false} BitOfZero(k: nat)
    ensures !Bit(0, k)
  {
    if k > 0 {
      BitOfZero(k - 1);
    }
  }

  // ---------------------------------------------------------------------
  // The reference mask: bit i is the top bit of lane i
  // ---------------------------------------------------------------------

  predicate TopBit(x: bv8)
  {
    x & 0x80 != 0
  }

  /** The number whose bit i is the top bit of lane i of v. */
  function PackBits(v: seq<bv8>): nat
  {
    if |v| == 0 then 0 else (if TopBit(v[0]) then 1 else 0) + 2 * PackBits(v[1..])
  }

  lemma {:induction false} PackBitsBound(v: seq<bv8>)
    ensures PackBits(v) < Pow2(|v|)
  {
    if |v| > 0 {
      PackBitsBound(v[1..]);
    }
  }

  lemma {:induction false} PackBitsBit(v: seq<bv8>, k: nat)
    requires k < |v|
    ensures Bit(PackBits(v), k) <==> TopBit(v[k])
  {
    if k > 0 {
      PackBitsBit(v[1..], k - 1);
      assert v[1..][k - 1] == v[k];
    }
  }

  lemma {:induction false} PackBitsAppend(a: seq<bv8>, b: seq<bv8>)
    ensures PackBits(a + b) == PackBits(a) + Pow2(|a|) * PackBits(b)
  {
    if |a| == 0 {
      assert a + b == b;
    } else {
      assert (a + b)[0] == a[0] && (a + b)[1..] == a[1..] + b;
      PackBitsAppend(a[1..], b);
      var t := if TopBit(a[0]) then 1 else 0;
      Regroup(t, PackBits(a[1..]), Pow2(|a| - 1), PackBits(b));
    }
  }

  /** The arithmetic step of `PackBitsAppend`. */
  lemma Regroup(t: nat, x: nat, q: nat, y: nat)
    ensures t + 2 * (x + q * y) == (t + 2 * x) + (2 * q) * y
  {
  }

  // ---------------------------------------------------------------------
  // The four primitives
  // ---------------------------------------------------------------------

  /** `vdupq_n_u8`: every lane holds `data`. */
  function Vector128Create(data: bv8): Vector128
  {
    seq(16, _ => data)
  }

  /**
   * `vld1q_u8`: the sixteen bytes of `mem` starting at `p`, with no alignment
   * requirement; the caller must make `[p, p + 16)` addressable.
   */
  function LoadVector128(mem: seq<bv8>, p: int): Vector128
    requires 0 <= p && p + 16 <= |mem|
  {
    mem[p..p + 16]
  }

  /** `vceqq_u8`: lane i is all ones when the lanes agree and zero otherwise. */
  function CompareEqual(left: Vector128, right: Vector128): Vector128
  {
    seq(16, i requires 0 <= i < 16 => if left[i] == right[i] then 0xFF else 0)
  }

  // ---------------------------------------------------------------------
  // Movemask, step by step
  // ---------------------------------------------------------------------

  /** The backend's `UC_SHIFT`: lane i is shifted right by 7 - (i mod 8). */
  const UcShift: seq<int> := [-7, -6, -5, -4, -3, -2, -1, 0, -7, -6, -5, -4, -3, -2, -1, 0]

  /** `vandq_u8` */
  function AndLanes(a: Vector128, b: Vector128): Vector128
  {
    seq(16, i requires 0 <= i < 16 => a[i] & b[i])
  }

  /**
   * One lane of `vshlq_u8`: a non-negative amount shifts left, a negative
   * one shifts right (logically, the lanes being unsigned); an amount of
   * eight or more either way clears the lane.
   */
  function ShiftLane(x: bv8, n: int): bv8
  {
    if 0 <= n < 8 then x << n
    else if -8 < n < 0 then x >> (-n)
    else 0
  }

  /** `vshlq_u8` with a vector of signed shift amounts. */
  function ShiftLanes(v: Vector128, shift: seq<int>): Vector128
    requires |shift| == 16
  {
    seq(16, i requires 0 <= i < 16 => ShiftLane(v[i], shift[i]))
  }

  /** The sum of the lanes, as an unbounded number. */
  function LaneSum(h: seq<bv8>): nat
  {
    if |h| == 0 then 0 else h[0] as nat + LaneSum(h[1..])
  }

  /** `vaddv_u8`: the horizontal sum of eight lanes, wrapping as a `u8`. */
  function AddAcross(h: seq<bv8>): (r: nat)
    requires |h| == 8
    ensures r < 256
  {
    LaneSum(h) % 256
  }

  /**
   * The backend's `movemask`, step by step: keep the top bit of every lane,
   * shift lane i right by 7 - (i mod 8) so that it lands on bit i mod 8, and
   * add up each half with `vaddv_u8`, the high half weighted by 256. The
   * result packs the top bit of lane i into bit i and fits in 16 bits.
   */
  method Movemask(data: Vector128) returns (out: nat)
    ensures out == PackBits(data)
    ensures out < 0x1_0000
  {
    var vshift := UcShift;
    var vmask := AndLanes(data, Vector128Create(0x80));
    vmask := ShiftLanes(vmask, vshift);
    out := AddAcross(vmask[..8]);
    // `(vaddv_u8(high) as u32) << 8`; the u32 sum cannot carry out of 16 bits
    out := out + AddAcross(vmask[8..]) * 256;
    MovemaskHalves(data, vmask);
  }

  /** The two halves of `Movemask`'s sum pack the top bits of the two halves of `data`. */
  lemma MovemaskHalves(data: Vector128, shifted: Vector128)
    requires shifted == ShiftLanes(AndLanes(data, Vector128Create(0x80)), UcShift)
    ensures AddAcross(shifted[..8]) + AddAcross(shifted[8..]) * 256 == PackBits(data)
    ensures PackBits(data) < 0x1_0000
  {
    HalfPack(data, shifted, 0);
    HalfPack(data, shifted, 8);
    assert shifted[..8] == shifted[0..8] && data[..8] == data[0..8];
    assert shifted[8..] == shifted[8..16] && data[8..] == data[8..16];
    PackHalves(data);
    SixteenBits(PackBits(data[..8]), PackBits(data[8..]));
  }

  /** One half's `vaddv_u8` packs the top bits of that half of `data`. */
  lemma HalfPack(data: Vector128, shifted: Vector128, start: nat)
    requires start == 0 || start == 8
    requires shifted == ShiftLanes(AndLanes(data, Vector128Create(0x80)), UcShift)
    ensures AddAcross(shifted[start..start + 8]) == PackBits(data[start..start + 8]) < 256
  {
    ShiftedLanes(data, shifted);
    HalfLanes(data, shifted, start);
    HalfSum(shifted[start..start + 8], data[start..start + 8]);
  }

  /** The packed bits of a register are the low half's plus 256 times the high half's. */
  lemma PackHalves(data: Vector128)
    ensures PackBits(data) == PackBits(data[..8]) + 256 * PackBits(data[8..])
  {
    PackBitsAppend(data[..8], data[8..]);
    assert data[..8] + data[8..] == data;
    Pow2Values();
  }

  /** The lane facts of `ShiftedLanes`, restated for one half of the register. */
  lemma HalfLanes(data: Vector128, shifted: Vector128, start: nat)
    requires start == 0 || start == 8
    requires forall i :: 0 <= i < 16 ==>
      shifted[i] as nat == if TopBit(data[i]) then Pow2(i % 8) else 0
    ensures forall k :: 0 <= k < 8 ==>
      shifted[start..start + 8][k] as nat == if TopBit(data[start..start + 8][k]) then Pow2(k) else 0
  {
    forall k | 0 <= k < 8
      ensures shifted[start..start + 8][k] as nat == if TopBit(data[start..start + 8][k]) then Pow2(k) else 0
    {
      assert shifted[start..start + 8][k] == shifted[start + k];
      assert data[start..start + 8][k] == data[start + k];
      assert (start + k) % 8 == k;
    }
  }

  lemma SixteenBits(low: nat, high: nat)
    requires low < 256 && high < 256
    ensures low + 256 * high < 0x1_0000
  {
  }

  /**
   * After the AND with 0x80 and the shift by `UcShift`, lane i holds either 0
   * or exactly 2^(i mod 8), according to the top bit of lane i.
   */
  lemma ShiftedLanes(data: Vector128, shifted: Vector128)
    requires shifted == ShiftLanes(AndLanes(data, Vector128Create(0x80)), UcShift)
    ensures forall i :: 0 <= i < 16 ==>
      shifted[i] as nat == if TopBit(data[i]) then Pow2(i % 8) else 0
  {
    forall i | 0 <= i < 16
      ensures shifted[i] as nat == if TopBit(data[i]) then Pow2(i % 8) else 0
    {
      assert UcShift[i] == i % 8 - 7;
      ShiftedLane(data[i], i % 8);
    }
  }

  lemma ShiftedLane(x: bv8, k: nat)
    requires k < 8
    ensures ShiftLane(x & 0x80, k - 7) as nat == if TopBit(x) then Pow2(k) else 0
  {
    Pow2Values();
    if TopBit(x) {
      assert x & 0x80 == 0x80;
    } else {
      assert x & 0x80 == 0;
    }
  }

  /**
   * A half's `vaddv_u8` is a sum of distinct powers of two below 2^8, so it
   * does not wrap, and it packs the top bits of that half.
   */
  lemma HalfSum(h: seq<bv8>, w: seq<bv8>)
    requires |h| == |w| == 8
    requires forall k :: 0 <= k < 8 ==> h[k] as nat == if TopBit(w[k]) then Pow2(k) else 0
    ensures AddAcross(h) == LaneSum(h) == PackBits(w) < 256
  {
    forall k | 0 <= k < 8
      ensures h[k] as nat == if TopBit(w[k]) then Pow2(k + 0) else 0
    {
    }
    WeightedSum(h, w, 0);
    PackBitsBound(w);
    Pow2Values();
  }

  /** Lanes weighted 2^(k + e) by the top bits of w sum to 2^e times the packed bits of w. */
  lemma {:induction false} WeightedSum(h: seq<bv8>, w: seq<bv8>, e: nat)
    requires |h| == |w|
    requires forall k :: 0 <= k < |h| ==> h[k] as nat == if TopBit(w[k]) then Pow2(k + e) else 0
    ensures LaneSum(h) == Pow2(e) * PackBits(w)
  {
    if |h| > 0 {
      forall k | 0 <= k < |h| - 1
        ensures h[1..][k] as nat == if TopBit(w[1..][k]) then Pow2(k + (e + 1)) else 0
      {
        assert h[1..][k] == h[k + 1] && w[1..][k] == w[k + 1];
      }
      WeightedSum(h[1..], w[1..], e + 1);
      var p, t, rest := Pow2(e), (if TopBit(w[0]) then 1 else 0), PackBits(w[1..]);
      assert Pow2(e + 1) == 2 * p;
      assert h[0] as nat == t * p;
      assert LaneSum(h) == t * p + (2 * p) * rest;
      assert PackBits(w) == t + 2 * rest;
      Distribute(p, t, rest);
    }
  }

  lemma Distribute(p: nat, t: nat, rest: nat)
    ensures t * p + (2 * p) * rest == p * (t + 2 * rest)
  {
  }

  lemma Pow2Values()
    ensures Pow2(1) == 2 && Pow2(2) == 4 && Pow2(3) == 8 && Pow2(4) == 16
    ensures Pow2(5) == 32 && Pow2(6) == 64 && Pow2(7) == 128 && Pow2(8) == 256
    ensures Pow2(16) == 0x1_0000
  {
    assert Pow2(8) == 256;
    assert Pow2(9) == 512 && Pow2(10) == 1024 && Pow2(11) == 2048 && Pow2(12) == 4096;
    assert Pow2(13) == 8192 && Pow2(14) == 16384 && Pow2(15) == 32768;
  }

  // ---------------------------------------------------------------------
  // What the scanner relies on
  // ---------------------------------------------------------------------

  /** The mask of a register is below 2^16, and bit i is set exactly when lane i's top bit is. */
  lemma MaskBits(v: Vector128, i: nat)
    ensures PackBits(v) < 0x1_0000
    ensures i < 16 ==> (Bit(PackBits(v), i) <==> TopBit(v[i]))
    ensures i >= 16 ==> !Bit(PackBits(v), i)
  {
    PackBitsBound(v);
    Pow2Values();
    if i < 16 {
      PackBitsBit(v, i);
    } else {
      BitAboveBound(PackBits(v), 16, i);
    }
  }

  /** For a `CompareEqual` result, bit i of the mask says whether lanes i agreed. */
  lemma CompareMaskBit(left: Vector128, right: Vector128, i: nat)
    requires i < 16
    ensures Bit(PackBits(CompareEqual(left, right)), i) <==> left[i] == right[i]
  {
    MaskBits(CompareEqual(left, right), i);
  }
}
