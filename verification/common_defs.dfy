/** The alignment macros of `common_defs.h`.

    `ROUNDUP_N(a, n)`, `ROUNDDOWN_N(a, n)` and `ISALIGNED_N(ptr, n)` are the
    mask tricks for rounding to, and testing for, an `n`-byte boundary. They
    are only meaningful for `n` a power of two, and every operation here wraps
    modulo 2^64 exactly as the `uint64_t`/`uintptr_t` expressions do.
 */
module CommonDefs {
  import opened Word

  /** `n` is a power of two (1, 2, 4, ...). */
  predicate IsPow2(n: nat)
    decreases n
  {
    if n <= 1 then n == 1 else n % 2 == 0 && IsPow2(n / 2)
  }

  /** The remainder of `x` divided by `n`, by repeated subtraction. It is
      `x % n` (`RemIsMod`); the rounding contracts are stated with it. */
  function Rem(x: nat, n: nat): (r: nat)
    requires n > 0
    ensures r < n
    decreases x
  {
    if x < n then x else Rem(x - n, n)
  }

  /** `x` is a multiple of `n`. */
  predicate MultipleOf(x: nat, n: nat)
    requires n > 0
  {
    Rem(x, n) == 0
  }

  lemma RemIsMod(x: nat, n: nat)
    requires n > 0
    ensures Rem(x, n) == x % n
    decreases x
  {
    if x < n {
      DivModUnique(x, n, 0, x);
    } else {
      RemIsMod(x - n, n);
      DivModUnique(x, n, (x - n) / n + 1, (x - n) % n);
    }
  }

  /** The exponent of a power of two. */
  function Log2(n: nat): (k: nat)
    requires IsPow2(n)
    ensures Pow2(k) == n
    decreases n
  {
    if n == 1 then 0 else 1 + Log2(n / 2)
  }

  /** `ROUNDUP_N(a, n)`: `((a) + ((n)-1)) & ~((n)-1)`. For a power of two `n`
      it is the least multiple of `n` that is at least `a`, unless `a + n - 1`
      wraps past 2^64, in which case the sum's wrapped remainder is below `n`
      and the macro yields 0. */
  function RoundUpN(a: u64, n: u64): (r: u64)
    ensures IsPow2(n) && a + n <= TWO64 ==> MultipleOf(r, n) && a <= r < a + n
    ensures IsPow2(n) && a + n > TWO64 ==> r == 0
  {
    var s := Add64(a, Sub64(n, 1));
    MaskFloor(s, n);
    if IsPow2(n) then
      Floor(s, n);
      And(s, Not64(Sub64(n, 1)))
    else
      And(s, Not64(Sub64(n, 1)))
  }

  /** `ROUNDDOWN_N(a, n)`: `(a) & ~((n)-1)`. It never exceeds `a`; for a power
      of two `n` it is the greatest multiple of `n` that is at most `a`. */
  function RoundDownN(a: u64, n: u64): (r: u64)
    ensures r <= a
    ensures IsPow2(n) ==> MultipleOf(r, n) && a < r + n
  {
    MaskFloor(a, n);
    if IsPow2(n) then
      Floor(a, n);
      And(a, Not64(Sub64(n, 1)))
    else
      And(a, Not64(Sub64(n, 1)))
  }

  /** `ISALIGNED_N(ptr, n)`: `((uintptr_t)(ptr) & ((n)-1)) == 0`; for a power
      of two `n` it holds exactly when `ptr` is a multiple of `n`. */
  function IsAlignedN(ptr: u64, n: u64): (r: bool)
    ensures IsPow2(n) ==> (r <==> MultipleOf(ptr, n))
  {
    if IsPow2(n) then
      AndLowMask(ptr, Log2(n));
      LowHighAreModDiv(ptr, Log2(n));
      RemIsMod(ptr, n);
      And(ptr, Sub64(n, 1)) == 0
    else
      And(ptr, Sub64(n, 1)) == 0
  }

  // ---------------------------------------------------------------------------
  // The mask identity behind both rounding macros

  /** For a power of two `n < 2^64`, `~(n - 1)` clears exactly the bits below
      `log2 n`, so masking with it subtracts the remainder modulo `n`. */
  lemma MaskFloor(s: u64, n: u64)
    ensures IsPow2(n) ==> And(s, Not64(Sub64(n, 1))) == s - Rem(s, n)
  {
    if IsPow2(n) {
      var k := Log2(n);
      Pow2Words();
      if 64 <= k {
        Pow2Monotone(64, k);
      }
      AndHighMask(s, k, 64, Not64(Sub64(n, 1)));
      LowHighAreModDiv(s, k);
      RemIsMod(s, n);
    }
  }

  /** `s` less its remainder is a multiple of `n` lying in `(s - n, s]`. */
  lemma Floor(s: nat, n: nat)
    requires n > 0
    ensures MultipleOf(s - Rem(s, n), n) && s - Rem(s, n) <= s < s - Rem(s, n) + n
  {
    RemIsMod(s, n);
    RemIsMod(s - s % n, n);
    MulMod(n, s / n);
  }

  /** Two distinct multiples of `n` are at least `n` apart. */
  lemma MultiplesApart(x: nat, y: nat, n: nat)
    requires n > 0 && MultipleOf(x, n) && MultipleOf(y, n) && y < x
    ensures y + n <= x
  {
    RemIsMod(x, n);
    RemIsMod(y, n);
    ModMultiplesApart(x, y, n);
  }

  /** A power of two up to 2^64 divides 2^64, so a multiple of it below 2^64
      leaves room for one more step of `n`. */
  lemma RoomForOneMore(r: nat, n: u64)
    requires IsPow2(n) && MultipleOf(r, n) && r < TWO64
    ensures r + n <= TWO64
  {
    var k := Log2(n);
    Pow2Words();
    if 64 < k {
      Pow2Monotone(64, k);
    }
    Pow2Add(k, 64 - k);
    MulMod(n, Pow2(64 - k));
    RemIsMod(TWO64, n);
    MultiplesApart(TWO64, r, n);
  }

  // ---------------------------------------------------------------------------
  // Properties of the rounding macros

  /** Without wrap-around, `ROUNDUP_N(a, n)` is below or equal to every
      multiple of `n` that is at least `a`: it is the least one. */
  lemma RoundUpIsLeast(a: u64, n: u64, m: nat)
    requires IsPow2(n) && a + n <= TWO64
    requires MultipleOf(m, n) && a <= m
    ensures RoundUpN(a, n) <= m
  {
    var r := RoundUpN(a, n);
    if m < r {
      MultiplesApart(r, m, n);
    }
  }

  /** `ROUNDDOWN_N(a, n)` is at least every multiple of `n` that is at most
      `a`: it is the greatest one. */
  lemma RoundDownIsGreatest(a: u64, n: u64, m: nat)
    requires IsPow2(n)
    requires MultipleOf(m, n) && m <= a
    ensures m <= RoundDownN(a, n)
  {
    var r := RoundDownN(a, n);
    if r < m {
      MultiplesApart(m, r, n);
    }
  }

  /** `ROUNDDOWN_N(a, n) <= a`, and `a <= ROUNDUP_N(a, n)` while `a + n - 1`
      does not wrap. For every `a`, each rounding returns `a` itself, and the
      two roundings agree, exactly when `a` is already a multiple of `n`. */
  lemma RoundingBrackets(a: u64, n: u64)
    requires IsPow2(n)
    ensures RoundDownN(a, n) <= a
    ensures a + n <= TWO64 ==> a <= RoundUpN(a, n)
    ensures RoundDownN(a, n) == a <==> MultipleOf(a, n)
    ensures RoundUpN(a, n) == a <==> MultipleOf(a, n)
    ensures RoundDownN(a, n) == RoundUpN(a, n) <==> MultipleOf(a, n)
  {
    var down, up := RoundDownN(a, n), RoundUpN(a, n);
    if a + n <= TWO64 {
      if MultipleOf(a, n) {
        RoundUpIsLeast(a, n, a);
        RoundDownIsGreatest(a, n, a);
      }
    } else {
      // a lies above the last multiple of n below 2^64, and the sum wraps
      NotMultipleNearTop(a, n);
      RoomForOneMore(n, n);
      assert up == 0 && 0 < down;
    }
  }

  /** A value within `n` of 2^64 is not a multiple of `n`. */
  lemma NotMultipleNearTop(a: u64, n: u64)
    requires IsPow2(n) && a + n > TWO64
    ensures !MultipleOf(a, n)
  {
    if MultipleOf(a, n) {
      RoomForOneMore(a, n);
    }
  }

  /** Rounding up an already rounded value changes nothing, also when the
      first rounding wrapped to 0. */
  lemma RoundUpIdempotent(a: u64, n: u64)
    requires IsPow2(n)
    ensures RoundUpN(RoundUpN(a, n), n) == RoundUpN(a, n)
  {
    var r := RoundUpN(a, n);
    if r == 0 {
      RoundingBrackets(0, n);
    } else {
      assert a + n <= TWO64;
      RoomForOneMore(r, n);
      RoundingBrackets(r, n);
    }
  }

  /** Rounding down an already rounded value changes nothing. */
  lemma RoundDownIdempotent(a: u64, n: u64)
    requires IsPow2(n)
    ensures RoundDownN(RoundDownN(a, n), n) == RoundDownN(a, n)
  {
    var r := RoundDownN(a, n);
    RoundDownIsGreatest(r, n, r);
  }

  /** Both rounding macros always produce an `n`-aligned value. */
  lemma RoundedAreAligned(a: u64, n: u64)
    requires IsPow2(n)
    ensures IsAlignedN(RoundUpN(a, n), n)
    ensures IsAlignedN(RoundDownN(a, n), n)
  {
  }
}
