/** Unsigned machine words and the bitwise operators the C headers use.

    `uint64_t` is modelled as a natural number below 2^64. The bitwise
    operators `&` and `~` are defined arithmetically, bit by bit from the
    least significant end, and the lemmas at the end of this module show
    that they act on each bit position as the C operators do.
 */
module Word {

  const TWO32: nat := 0x1_0000_0000
  const TWO64: nat := 0x1_0000_0000_0000_0000

  /** `uint64_t` (and `uintptr_t`/`size_t` on the 64-bit targets the headers are written for) */
  type u64 = x: nat | x < TWO64

  function Pow2(k: nat): (r: nat)
    ensures r >= 1
  {
    if k == 0 then 1 else 2 * Pow2(k - 1)
  }

  /** Unsigned 64-bit addition and subtraction wrap modulo 2^64. */
  function Add64(x: u64, y: u64): (r: u64)
    ensures x + y < TWO64 ==> r == x + y
    ensures x + y >= TWO64 ==> r == x + y - TWO64
  {
    (x + y) % TWO64
  }

  function Sub64(x: u64, y: u64): (r: u64)
    ensures y <= x ==> r == x - y
    ensures x < y ==> r == TWO64 + x - y
  {
    (x - y) % TWO64
  }

  /** Bit `i` of `x` (bit 0 is the least significant). */
  predicate Bit(x: nat, i: nat)
  {
    if i == 0 then x % 2 == 1 else Bit(x / 2, i - 1)
  }

  /** `x & y` */
  function And(x: nat, y: nat): (r: nat)
    ensures r <= x && r <= y
    decreases x
  {
    if x == 0 || y == 0 then 0
    else 2 * And(x / 2, y / 2) + (if x % 2 == 1 && y % 2 == 1 then 1 else 0)
  }

  /** `~x` on a 64-bit operand: each of the 64 bits flipped. */
  function Not64(x: u64): (r: u64)
    ensures forall i :: 0 <= i < 64 ==> (Bit(r, i) <==> !Bit(x, i))
  {
    assert forall i :: 0 <= i < 64 ==> (Bit(TWO64 - 1 - x, i) <==> !Bit(x, i)) by {
      Pow2Words();
      forall i | 0 <= i < 64
        ensures Bit(TWO64 - 1 - x, i) <==> !Bit(x, i)
      {
        ComplementBit(x, 64, i);
      }
    }
    TWO64 - 1 - x
  }

  /** The `k` low bits of `x`, as a cast to a `k`-bit unsigned type keeps them. */
  function Low(x: nat, k: nat): (r: nat)
    ensures r < Pow2(k)
    decreases k
  {
    if k == 0 then 0 else 2 * Low(x / 2, k - 1) + x % 2
  }

  /** `x >> k` */
  function High(x: nat, k: nat): (r: nat)
    ensures r <= x
    ensures x > 0 && k > 0 ==> r < x
    decreases k
  {
    if k == 0 then x else High(x / 2, k - 1)
  }

  // ---------------------------------------------------------------------------
  // Powers of two

  lemma {:induction false} Pow2Add(i: nat, j: nat)
    ensures Pow2(i + j) == Pow2(i) * Pow2(j)
    decreases i
  {
    if i > 0 {
      Pow2Add(i - 1, j);
      assert Pow2(i + j) == 2 * Pow2(i - 1 + j);
    }
  }

  lemma Pow2Words()
    ensures Pow2(32) == TWO32
    ensures Pow2(64) == TWO64
  {
    assert Pow2(8) == 256;
    Pow2Add(8, 8);
    Pow2Add(16, 16);
    Pow2Add(32, 32);
  }

  lemma {:induction false} Pow2Strict(i: nat, j: nat)
    requires i < j
    ensures Pow2(i) < Pow2(j)
    decreases j
  {
    if i < j - 1 {
      Pow2Strict(i, j - 1);
    }
  }

  lemma Pow2Order(i: nat, j: nat)
    requires Pow2(i) < Pow2(j)
    ensures i < j
  {
    if j <= i {
      Pow2Monotone(j, i);
    }
  }

  lemma Pow2Monotone(i: nat, j: nat)
    requires i <= j
    ensures Pow2(i) <= Pow2(j)
  {
    if i < j {
      Pow2Strict(i, j);
    }
  }

  // ---------------------------------------------------------------------------
  // Division and remainder

  lemma DivModUnique(x: int, d: int, q: int, r: int)
    requires d > 0 && 0 <= r < d && x == d * q + r
    ensures x / d == q && x % d == r
  {
    var q', r' := x / d, x % d;
    assert d * q' + r' == d * q + r;
    if q' < q {
      assert d * (q - q') == r' - r;
      MulAtLeast(d, q - q');
    } else if q < q' {
      assert d * (q' - q) == r - r';
      MulAtLeast(d, q' - q);
    }
  }

  lemma MulAtLeast(d: int, k: int)
    requires d > 0 && k >= 1
    ensures d * k >= d
  {
  }

  lemma MulMonotone(d: nat, a: int, b: int)
    requires a <= b
    ensures d * a <= d * b
  {
    assert d * b - d * a == d * (b - a);
  }

  /** A multiple of `d` leaves no remainder. */
  lemma MulMod(d: nat, q: nat)
    requires d > 0
    ensures (d * q) % d == 0 && (d * q) / d == q
  {
    DivModUnique(d * q, d, q, 0);
  }

  /** Two distinct numbers without remainder modulo `n` are at least `n`
      apart. */
  lemma ModMultiplesApart(x: nat, y: nat, n: nat)
    requires n > 0 && x % n == 0 && y % n == 0 && y < x
    ensures y + n <= x
  {
    var qx, qy := x / n, y / n;
    assert x == n * qx && y == n * qy;
    if qx <= qy {
      MulMonotone(n, qx, qy);
    }
    assert x - y == n * (qx - qy);
    MulAtLeast(n, qx - qy);
  }

  /** Peeling the lowest bit off a division by an even divisor. */
  lemma ModDouble(x: nat, m: nat)
    requires m > 0
    ensures x % (2 * m) == 2 * ((x / 2) % m) + x % 2
    ensures x / (2 * m) == (x / 2) / m
  {
    var q, s := (x / 2) / m, (x / 2) % m;
    assert x / 2 == m * q + s;
    assert x == (2 * m) * q + (2 * s + x % 2);
    DivModUnique(x, 2 * m, q, 2 * s + x % 2);
  }

  // ---------------------------------------------------------------------------
  // Truncation and shifts

  /** Truncating to `k` bits is reduction modulo 2^k, and shifting right by
      `k` is division by 2^k. */
  lemma {:induction false} LowHighAreModDiv(x: nat, k: nat)
    ensures Low(x, k) == x % Pow2(k)
    ensures High(x, k) == x / Pow2(k)
    decreases k
  {
    if k == 0 {
      DivModUnique(x, 1, x, 0);
    } else {
      LowHighAreModDiv(x / 2, k - 1);
      ModDouble(x, Pow2(k - 1));
    }
  }

  /** A value that fits in `k` bits survives truncation to `k` bits and is
      shifted out entirely by `>> k`. */
  lemma {:induction false} LowHighOfSmall(x: nat, k: nat)
    requires x < Pow2(k)
    ensures Low(x, k) == x && High(x, k) == 0
    decreases k
  {
    if k > 0 {
      LowHighOfSmall(x / 2, k - 1);
    }
  }

  /** Shifting a `(k + w)`-bit value right by `k` leaves a `w`-bit value. */
  lemma {:induction false} HighBound(x: nat, k: nat, w: nat)
    requires x < Pow2(k + w)
    ensures High(x, k) < Pow2(w)
    decreases k
  {
    if k > 0 {
      HighBound(x / 2, k - 1, w);
    }
  }

  // ---------------------------------------------------------------------------
  // Bits

  lemma {:induction false} ZeroHasNoBits(i: nat)
    ensures !Bit(0, i)
  {
    if i > 0 {
      ZeroHasNoBits(i - 1);
    }
  }

  /** A value below 2^m has no bit set at position m or above. */
  lemma {:induction false} BitsAboveClear(x: nat, m: nat, j: nat)
    requires x < Pow2(m) && m <= j
    ensures !Bit(x, j)
    decreases j
  {
    if j == 0 {
    } else if m == 0 {
      assert x == 0;
      ZeroHasNoBits(j);
    } else {
      BitsAboveClear(x / 2, m - 1, j - 1);
    }
  }

  /** A value below 2^m has every bit from m upward clear. */
  lemma AllBitsAboveClear(x: nat, m: nat)
    requires x < Pow2(m)
    ensures forall j: nat :: m <= j ==> !Bit(x, j)
  {
    forall j: nat | m <= j
      ensures !Bit(x, j)
    {
      BitsAboveClear(x, m, j);
    }
  }

  /** `&` acts on every bit position independently. */
  lemma {:induction false} AndBit(x: nat, y: nat, i: nat)
    ensures Bit(And(x, y), i) <==> Bit(x, i) && Bit(y, i)
    decreases x
  {
    if x == 0 || y == 0 {
      ZeroHasNoBits(i);
    } else {
      var r := And(x, y);
      var b := if x % 2 == 1 && y % 2 == 1 then 1 else 0;
      assert r == 2 * And(x / 2, y / 2) + b;
      assert r / 2 == And(x / 2, y / 2);
      if i > 0 {
        AndBit(x / 2, y / 2, i - 1);
      }
    }
  }

  /** Complementing a w-bit value flips exactly the bits below w. */
  lemma {:induction false} ComplementBit(x: nat, w: nat, i: nat)
    requires x < Pow2(w) && i < w
    ensures Bit(Pow2(w) - 1 - x, i) <==> !Bit(x, i)
    decreases w
  {
    var c := Pow2(w) - 1 - x;
    assert Pow2(w) == 2 * Pow2(w - 1);
    assert c == 2 * (Pow2(w - 1) - 1 - x / 2) + (1 - x % 2);
    if i > 0 {
      assert c / 2 == Pow2(w - 1) - 1 - x / 2;
      ComplementBit(x / 2, w - 1, i - 1);
    }
  }

  /** Masking with 2^k - 1 keeps the k low bits: `x & (2^k - 1)` is `x`
      truncated to k bits. */
  lemma {:induction false} AndLowMask(x: nat, k: nat)
    ensures And(x, Pow2(k) - 1) == Low(x, k)
    decreases k
  {
    if k == 0 {
    } else if x == 0 {
      AndLowMask(0, k - 1);
    } else {
      AndLowMask(x / 2, k - 1);
      AndLowMaskStep(x, k);
    }
  }

  /** The inductive step of `AndLowMask`: the mask's low bit keeps `x`'s. */
  lemma AndLowMaskStep(x: nat, k: nat)
    requires x > 0 && k > 0
    requires And(x / 2, Pow2(k - 1) - 1) == Low(x / 2, k - 1)
    ensures And(x, Pow2(k) - 1) == Low(x, k)
  {
    var p := Pow2(k - 1);
    AndOddMask(x, Pow2(k) - 1, p - 1);
  }

  /** Masking a w-bit value with m = 2^w - 2^k clears its k low bits:
      `x & ~(2^k - 1) == x - (x truncated to k bits)`. */
  lemma {:induction false} AndHighMask(x: nat, k: nat, w: nat, m: nat)
    requires k <= w && x < Pow2(w) && m + Pow2(k) == Pow2(w)
    ensures And(x, m) == x - Low(x, k)
    decreases k
  {
    if k == 0 {
      AndLowMask(x, w);
      LowHighOfSmall(x, w);
    } else if k == w {
      LowHighOfSmall(x, w);
    } else if x == 0 {
      LowHighOfSmall(0, k);
    } else {
      Pow2Strict(k, w);
      var m' := Pow2(w - 1) - Pow2(k - 1);
      AndHighMask(x / 2, k - 1, w - 1, m');
      AndHighMaskStep(x, k, m, m');
    }
  }

  /** The inductive step of `AndHighMask`: the mask's low bit is clear, so
      bit 0 of `x` is dropped along with the `k - 1` bits above it. */
  lemma AndHighMaskStep(x: nat, k: nat, m: nat, m': nat)
    requires x > 0 && k > 0 && m == 2 * m' && m' > 0
    requires And(x / 2, m') == x / 2 - Low(x / 2, k - 1)
    ensures And(x, m) == x - Low(x, k)
  {
    AndEvenMask(x, m, m');
  }

  /** One step of `&` against an odd mask. */
  lemma AndOddMask(x: nat, y: nat, y': nat)
    requires x > 0 && y == 2 * y' + 1
    ensures And(x, y) == 2 * And(x / 2, y') + x % 2
  {
    assert y % 2 == 1 && y / 2 == y';
  }

  /** One step of `&` against a nonzero even mask. */
  lemma AndEvenMask(x: nat, y: nat, y': nat)
    requires x > 0 && y > 0 && y == 2 * y'
    ensures And(x, y) == 2 * And(x / 2, y')
  {
    assert y % 2 == 0 && y / 2 == y';
  }
}
