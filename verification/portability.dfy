/** The word-level primitives of `portability.h`.

    Each primitive has a Microsoft branch (`_MSC_VER`, built on compiler
    intrinsics) and a GCC/Clang branch (built on `__builtin_*`, or on the
    BMI/POPCNT intrinsics when `__BMI2__`/`__POPCOUNT__` is defined). The
    branch in effect is a `Toolchain` value here. The intrinsics are modelled
    by the instruction they compile to (the bit-scanning loops of TZCNT,
    LZCNT and POPCNT, a carry chain for ADC, a 128-bit product for MUL); the
    builtins by GCC's documented meaning. Every entry point is proved to agree
    with one plain arithmetic statement whatever the branch.
 */
module Portability {
  import opened Word

  /** Which side of the header's conditional compilation is in effect. */
  datatype Toolchain =
    | Msvc(win64: bool)                     // `_MSC_VER`; `_WIN64` picks the 64-bit popcount
    | GccClang(bmi2: bool, popcount: bool)  // `__BMI2__` and `__POPCOUNT__`

  /** The bit-scan primitives go through TZCNT/LZCNT, which are defined at 0. */
  predicate UsesBitScanIntrinsics(t: Toolchain)
  {
    t.Msvc? || t.bmi2
  }

  /** What `add_overflow`/`mul_overflow` produce: the returned flag and the
      value stored through `result`. */
  datatype Checked = Checked(overflow: bool, result: u64)

  /** The sum bits and carry out of a chain of adders. */
  datatype AdderOut = AdderOut(sum: nat, carry: bool)

  /** A 128-bit product as its low and high 64-bit words. */
  datatype Wide = Wide(lo: u64, hi: u64)

  // ---------------------------------------------------------------------------
  // add_overflow

  /** A carry flag as the number it adds. */
  function CarryValue(c: bool): nat
  {
    if c then 1 else 0
  }

  /** A chain of `w` full adders, least significant bit first: the `w` sum
      bits and the carry out of adding `a`, `b` and the carry-in `c`. */
  function RippleAdd(a: nat, b: nat, c: bool, w: nat): (out: AdderOut)
    requires a < Pow2(w) && b < Pow2(w)
    ensures out.sum < Pow2(w)
    ensures out.sum + (if out.carry then Pow2(w) else 0) == a + b + CarryValue(c)
    decreases w
  {
    if w == 0 then AdderOut(0, c)
    else
      var t := a % 2 + b % 2 + CarryValue(c);
      assert Pow2(w) == 2 * Pow2(w - 1);
      assert a == 2 * (a / 2) + a % 2 && b == 2 * (b / 2) + b % 2;
      assert t == 2 * CarryValue(t >= 2) + t % 2;
      var rest := RippleAdd(a / 2, b / 2, t >= 2, w - 1);
      AdderOut(2 * rest.sum + t % 2, rest.carry)
  }

  /** `_addcarry_u64(c_in, a, b, &sum)`: ADC on 64-bit operands. The carry it
      returns says whether `a + b + c_in` overflowed, and the stored sum is
      the total modulo 2^64. */
  function AddCarryU64(cIn: bool, a: u64, b: u64): (out: Checked)
    ensures out.overflow <==> a + b + CarryValue(cIn) >= TWO64
    ensures out.result + (if out.overflow then TWO64 else 0) == a + b + CarryValue(cIn)
  {
    Pow2Words();
    var s := RippleAdd(a, b, cIn, 64);
    Checked(s.carry, s.sum)
  }

  /** `__builtin_uaddll_overflow(a, b, &r)`: GCC computes the sum with
      infinite precision, stores it wrapped, and reports whether it wrapped. */
  function BuiltinUaddOverflow(a: u64, b: u64): (c: Checked)
    ensures c.overflow <==> c.result != a + b
    ensures c.result + (if c.overflow then TWO64 else 0) == a + b
  {
    Checked(a + b >= TWO64, Add64(a, b))
  }

  /** `add_overflow(value1, value2, &result)`: the stored result plus 2^64
      when the flag is set is the true sum, and the flag is set exactly when
      the true sum does not fit in 64 bits. */
  function AddOverflow(t: Toolchain, a: u64, b: u64): (c: Checked)
    ensures c.overflow <==> a + b >= TWO64
    ensures c.result + (if c.overflow then TWO64 else 0) == a + b
  {
    match t
    case Msvc(_) =>
      AddCarryU64(false, a, b)
    case GccClang(_, _) =>
      BuiltinUaddOverflow(a, b)
  }

  // ---------------------------------------------------------------------------
  // mul_overflow

  /** `_umul128(a, b, &high)`: the full 128-bit product of MUL, split into the
      returned low word and the high word stored through `high`. Computed
      here from 32-bit halves, schoolbook fashion. */
  function Umul128(a: u64, b: u64): (p: Wide)
    ensures p.hi * TWO64 + p.lo == a * b
  {
    var a0, a1 := a % TWO32, a / TWO32;
    var b0, b1 := b % TWO32, b / TWO32;
    var p00, p01, p10, p11 := a0 * b0, a0 * b1, a1 * b0, a1 * b1;
    var mid := p00 / TWO32 + p01 % TWO32 + p10 % TWO32;
    var lo := (mid % TWO32) * TWO32 + p00 % TWO32;
    var hi := p11 + p01 / TWO32 + p10 / TWO32 + mid / TWO32;
    SplitWord(a);
    SplitWord(b);
    Expand(a1, a0, b1, b0);
    Recombine(p00, p01, p10, p11);
    ProductBound(a, b);
    Wide(lo, hi)
  }

  /** A 64-bit word is its high 32-bit half times 2^32 plus its low half. */
  lemma SplitWord(a: u64)
    ensures a == (a / TWO32) * TWO32 + a % TWO32
  {
  }

  /** Propagating the carries of the four partial products. */
  lemma Recombine(p00: nat, p01: nat, p10: nat, p11: nat)
    ensures
      var mid := p00 / TWO32 + p01 % TWO32 + p10 % TWO32;
      var lo := (mid % TWO32) * TWO32 + p00 % TWO32;
      var hi := p11 + p01 / TWO32 + p10 / TWO32 + mid / TWO32;
      hi * TWO64 + lo == p11 * TWO64 + (p01 + p10) * TWO32 + p00 && lo < TWO64
  {
  }

  lemma Expand(a1: nat, a0: nat, b1: nat, b0: nat)
    ensures (a1 * TWO32 + a0) * (b1 * TWO32 + b0)
         == (a1 * b1) * TWO64 + (a0 * b1 + a1 * b0) * TWO32 + a0 * b0
  {
  }

  lemma ProductBound(a: u64, b: u64)
    ensures a * b < TWO64 * TWO64
  {
    MulMonotone(a, b, TWO64 - 1);
    MulMonotone(TWO64 - 1, a, TWO64 - 1);
  }

  /** The Microsoft branch returns the high word of `_umul128` as its flag:
      it is nonzero exactly when the product needs more than 64 bits, and
      the low word is the product modulo 2^64. */
  lemma HighWordFlagsOverflow(a: u64, b: u64)
    ensures Umul128(a, b).hi != 0 <==> a * b >= TWO64
    ensures Umul128(a, b).lo == (a * b) % TWO64
  {
    var p := Umul128(a, b);
    DivModUnique(a * b, TWO64, p.hi, p.lo);
  }

  /** `__builtin_umulll_overflow(a, b, &r)`: the exact product, stored
      wrapped, with a flag telling whether it wrapped. */
  function BuiltinUmulOverflow(a: u64, b: u64): (c: Checked)
    ensures c.overflow <==> c.result != a * b
  {
    Checked(a * b >= TWO64, (a * b) % TWO64)
  }

  /** `mul_overflow(value1, value2, &result)`: the stored result is the
      product modulo 2^64 and the flag is set exactly when the product does
      not fit in 64 bits. */
  function MulOverflow(t: Toolchain, a: u64, b: u64): (c: Checked)
    ensures c.overflow <==> a * b >= TWO64
    ensures c.result == (a * b) % TWO64
  {
    match t
    case Msvc(_) =>
      var p := Umul128(a, b);
      HighWordFlagsOverflow(a, b);
      Checked(p.hi != 0, p.lo)
    case GccClang(_, _) =>
      BuiltinUmulOverflow(a, b)
  }

  // ---------------------------------------------------------------------------
  // trailingzeroes

  /** A `w`-bit value with none of its `w` bits set is zero. */
  lemma {:induction false} NoBitsMeansZero(x: nat, w: nat)
    requires x < Pow2(w)
    requires forall j :: 0 <= j < w ==> !Bit(x, j)
    ensures x == 0
    decreases w
  {
    if w > 0 {
      assert !Bit(x, 0);
      forall j | 0 <= j < w - 1
        ensures !Bit(x / 2, j)
      {
        assert !Bit(x, j + 1);
      }
      NoBitsMeansZero(x / 2, w - 1);
    }
  }

  /** A 64-bit value with none of its 64 bits set is zero. */
  lemma NoBitsMeansZero64(x: u64)
    requires forall j :: 0 <= j < 64 ==> !Bit(x, j)
    ensures x == 0
  {
    Pow2Words();
    NoBitsMeansZero(x, 64);
  }

  /** The TZCNT loop from bit `i` on: step upward over clear bits and stop
      at the first set one, or at 64. */
  function TzcntFrom(x: u64, i: nat): (r: nat)
    requires i <= 64
    ensures i <= r <= 64
    ensures forall j :: i <= j < r ==> !Bit(x, j)
    ensures r < 64 ==> Bit(x, r)
    decreases 64 - i
  {
    if i == 64 then 64 else if Bit(x, i) then i else TzcntFrom(x, i + 1)
  }

  /** `_tzcnt_u64(x)`: the number of clear bits below the lowest set bit, or
      64 when `x` is zero. */
  function Tzcnt(x: u64): (r: nat)
    ensures r <= 64
    ensures forall j :: 0 <= j < r ==> !Bit(x, j)
    ensures r < 64 ==> Bit(x, r)
    ensures r == 64 <==> x == 0
  {
    var r := TzcntFrom(x, 0);
    if r == 64 then
      NoBitsMeansZero64(x);
      r
    else
      ZeroHasNoBits(r);
      r
  }

  /** `__builtin_ctzll(x)`: the index of the lowest set bit, found by
      halving; GCC leaves it undefined for 0. */
  function BuiltinCtz(x: u64): (r: nat)
    requires x != 0
    ensures Bit(x, r)
    ensures forall j :: 0 <= j < r ==> !Bit(x, j)
    decreases x
  {
    if x % 2 == 1 then 0 else 1 + BuiltinCtz(x / 2)
  }

  /** TZCNT and `__builtin_ctzll` find the same bit on nonzero input. */
  lemma TzcntMatchesCtz(x: u64)
    requires x != 0
    ensures Tzcnt(x) == BuiltinCtz(x)
  {
  }

  /** `trailingzeroes(x)`: for nonzero `x` the index of its lowest set bit
      (bit `r` set, every bit below clear); for zero, only the TZCNT
      branches are defined, and they give 64. */
  function TrailingZeroes(t: Toolchain, x: u64): (r: nat)
    requires x != 0 || UsesBitScanIntrinsics(t)
    ensures x != 0 ==> r < 64 && Bit(x, r) && forall j :: 0 <= j < r ==> !Bit(x, j)
    ensures x == 0 ==> r == 64
  {
    if UsesBitScanIntrinsics(t) then Tzcnt(x)
    else
      TzcntMatchesCtz(x);
      BuiltinCtz(x)
  }

  // ---------------------------------------------------------------------------
  // leadingzeroes

  /** The LZCNT loop after `n` clear bits have been counted from the top:
      examine bit `63 - n`, stop there if it is set, or at 64. */
  function LzcntFrom(x: u64, n: nat): (r: nat)
    requires n <= 64
    ensures n <= r <= 64
    ensures forall j: nat :: 63 - r < j < 64 - n ==> !Bit(x, j)
    ensures r < 64 ==> Bit(x, 63 - r)
    decreases 64 - n
  {
    if n == 64 then 64 else if Bit(x, 63 - n) then n else LzcntFrom(x, n + 1)
  }

  /** `_lzcnt_u64(x)`: the number of clear bits above the highest set bit,
      or 64 when `x` is zero. */
  function Lzcnt(x: u64): (r: nat)
    ensures r <= 64
    ensures forall j: nat :: 63 - r < j < 64 ==> !Bit(x, j)
    ensures r < 64 ==> Bit(x, 63 - r)
    ensures r == 64 <==> x == 0
  {
    var r := LzcntFrom(x, 0);
    if r == 64 then
      NoBitsMeansZero64(x);
      r
    else
      ZeroHasNoBits(63 - r);
      r
  }

  /** The index of the highest set bit, found by halving. */
  function HighestBit(x: nat): (h: nat)
    requires x != 0
    ensures Pow2(h) <= x < Pow2(h + 1)
    ensures Bit(x, h)
    decreases x
  {
    if x == 1 then 0 else 1 + HighestBit(x / 2)
  }

  /** `__builtin_clzll(x)`: 63 minus the index of the highest set bit; GCC
      leaves it undefined for 0. */
  function BuiltinClz(x: u64): (r: nat)
    requires x != 0
    ensures r < 64 && Bit(x, 63 - r) && forall j: nat :: 63 - r < j < 64 ==> !Bit(x, j)
    ensures Pow2(63 - r) <= x < Pow2(64 - r)
  {
    var h := HighestBit(x);
    Pow2Words();
    Pow2Order(h, 64);
    AllBitsAboveClear(x, h + 1);
    63 - h
  }

  /** LZCNT and `__builtin_clzll` agree on nonzero input. */
  lemma LzcntMatchesClz(x: u64)
    requires x != 0
    ensures Lzcnt(x) == BuiltinClz(x)
  {
  }

  /** `leadingzeroes(x)`: for nonzero `x`, bit `63 - r` is its highest set
      bit, so `2^(63-r) <= x < 2^(64-r)`; for zero, only the LZCNT branches
      are defined, and they give 64. */
  function LeadingZeroes(t: Toolchain, x: u64): (r: nat)
    requires x != 0 || UsesBitScanIntrinsics(t)
    ensures x != 0 ==> r < 64 && Bit(x, 63 - r) && forall j: nat :: 63 - r < j < 64 ==> !Bit(x, j)
    ensures x != 0 ==> Pow2(63 - r) <= x < Pow2(64 - r)
    ensures x == 0 ==> r == 64
  {
    if x == 0 then Lzcnt(x)
    else if UsesBitScanIntrinsics(t) then
      LzcntMatchesClz(x);
      Lzcnt(x)
    else
      BuiltinClz(x)
  }

  // ---------------------------------------------------------------------------
  // hamming

  /** The positions of the set bits among the `w` low bits of `x`. */
  ghost function SetBits(x: nat, w: nat): set<nat>
  {
    set i: nat | i < w && Bit(x, i)
  }

  /** The POPCNT loop over a `w`-bit operand: the count after visiting bits
      `0 .. w-1`. It is the number of set bits among them. */
  function Popcnt(x: nat, w: nat): (r: nat)
    ensures r <= w
    ensures r == |SetBits(x, w)|
    decreases w
  {
    if w == 0 then 0
    else
      var r := Popcnt(x, w - 1) + (if Bit(x, w - 1) then 1 else 0);
      assert SetBits(x, w) == SetBits(x, w - 1) + (if Bit(x, w - 1) then {w - 1} else {});
      r
  }

  /** `__builtin_popcountll(x)`: the number of one bits, by halving. */
  function BuiltinPopcount(x: nat): (r: nat)
    ensures r <= x
    ensures r == 0 <==> x == 0
    decreases x
  {
    if x == 0 then 0 else x % 2 + BuiltinPopcount(x / 2)
  }

  /** Counting from the low end: the POPCNT loop over `w` bits is bit 0 plus
      the loop over the `w - 1` bits of `x / 2`. */
  lemma {:induction false} PopcntLowBit(x: nat, w: nat)
    requires w >= 1
    ensures Popcnt(x, w) == x % 2 + Popcnt(x / 2, w - 1)
    decreases w
  {
    if w > 1 {
      PopcntLowBit(x, w - 1);
      assert Bit(x, w - 1) == Bit(x / 2, w - 2);
    }
  }

  /** For a `w`-bit value, the halving count equals the POPCNT loop. */
  lemma {:induction false} BuiltinPopcountMatchesPopcnt(x: nat, w: nat)
    requires x < Pow2(w)
    ensures BuiltinPopcount(x) == Popcnt(x, w)
    decreases w
  {
    if w > 0 {
      PopcntLowBit(x, w);
      BuiltinPopcountMatchesPopcnt(x / 2, w - 1);
    }
  }

  /** The halving count of `2y + b`. */
  lemma PopcountPush(y: nat, b: nat)
    requires b <= 1
    ensures BuiltinPopcount(2 * y + b) == b + BuiltinPopcount(y)
  {
    var z := 2 * y + b;
    if z != 0 {
      assert z % 2 == b && z / 2 == y;
    }
  }

  /** The one bits of `x` are those of its `k` low bits plus those above. */
  lemma {:induction false} PopcountSplit(x: nat, k: nat)
    ensures BuiltinPopcount(x) == BuiltinPopcount(Low(x, k)) + BuiltinPopcount(High(x, k))
    decreases k
  {
    if k > 0 {
      PopcountSplit(x / 2, k - 1);
      PopcountPush(Low(x / 2, k - 1), x % 2);
      PopcountPush(x / 2, x % 2);
    }
  }

  /** Counting the `k` low bits and the `w` bits above them separately gives
      the count over all `k + w` bits. */
  lemma PopcntSplitsAt(x: nat, k: nat, w: nat)
    requires x < Pow2(k + w)
    ensures Popcnt(Low(x, k), k) + Popcnt(High(x, k), w) == Popcnt(x, k + w)
  {
    PopcountSplit(x, k);
    HighBound(x, k, w);
    BuiltinPopcountMatchesPopcnt(x, k + w);
    BuiltinPopcountMatchesPopcnt(Low(x, k), k);
    BuiltinPopcountMatchesPopcnt(High(x, k), w);
  }

  /** The 32-bit Windows path `__popcnt((uint32_t)x) + __popcnt((uint32_t)(x >> 32))`
      counts the same bits as a 64-bit POPCNT. */
  lemma SplitPopcntIs64(x: u64)
    ensures Popcnt(Low(x, 32), 32) + Popcnt(High(x, 32), 32) == Popcnt(x, 64)
  {
    Pow2Words();
    PopcntSplitsAt(x, 32, 32);
  }

  /** `hamming(x)`: the number of set bits of `x`, between 0 and 64 and 0
      exactly for `x == 0`, on every branch. */
  function Hamming(t: Toolchain, x: u64): (r: nat)
    ensures r == |SetBits(x, 64)| && r <= 64
    ensures r == 0 <==> x == 0
  {
    SplitPopcntIs64(x);
    Pow2Words();
    BuiltinPopcountMatchesPopcnt(x, 64);
    ZeroIffNoSetBits(x);
    match t
    case Msvc(win64) =>
      if win64 then Popcnt(x, 64)
      else Popcnt(Low(x, 32), 32) + Popcnt(High(x, 32), 32)
    case GccClang(_, popcount) =>
      if popcount then Popcnt(x, 64) else BuiltinPopcount(x)
  }

  lemma ZeroIffNoSetBits(x: u64)
    ensures SetBits(x, 64) == {} <==> x == 0
  {
    Pow2Words();
    if SetBits(x, 64) == {} {
      forall j | 0 <= j < 64
        ensures !Bit(x, j)
      {
        assert j !in SetBits(x, 64);
      }
      NoBitsMeansZero(x, 64);
    }
    if x == 0 {
      forall j | 0 <= j < 64
        ensures !Bit(x, j)
      {
        ZeroHasNoBits(j);
      }
    }
  }
}
