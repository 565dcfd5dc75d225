# simdcsv word arithmetic in Dafny

simdcsv's scanning kernel relies on a small layer of word-level primitives.
This project models that layer and proves what each primitive computes.

- `src/common_defs.h` holds the alignment macros. `ROUNDUP_N(a, n)` and
  `ROUNDDOWN_N(a, n)` round to an `n`-byte boundary. `ISALIGNED_N(ptr, n)`
  tests for one.
- `src/portability.h` holds the checked arithmetic (`add_overflow`,
  `mul_overflow`) and the bit scans (`trailingzeroes`, `leadingzeroes`,
  `hamming`). Each has a Microsoft branch built on compiler intrinsics and a
  GCC/Clang branch built on `__builtin_*` or on BMI/POPCNT intrinsics.

The model is laid out in three modules:

- `Word` (word.dfy) models `uint64_t` as a natural number below 2^64. It
  defines `&`, `~`, truncating casts and `>>` arithmetically, bit by bit. Its
  lemmas show that these act on each bit position as the C operators do.
- `CommonDefs` (common_defs.dfy) models the three macros. Every `+` and `-`
  wraps modulo 2^64, as it does on `uint64_t`/`uintptr_t`. "Multiple of
  `n`" is the predicate `MultipleOf`. It is defined by a remainder `Rem`,
  computed by repeated subtraction, and `RemIsMod` proves that `Rem` is
  Dafny's `%`.
- `Portability` (portability.dfy) models the primitives. The branch of the
  conditional compilation in effect is a `Toolchain` value:
  - `Msvc(win64)` for `_MSC_VER`, where `win64` is `_WIN64`;
  - `GccClang(bmi2, popcount)`, where the flags are `__BMI2__` and
    `__POPCOUNT__`.

  Each entry point is proved to meet one plain arithmetic statement whatever
  the branch.

How the intrinsics and builtins are modelled:

- The intrinsics are modelled by the instruction they compile to:
  - `_tzcnt_u64`, `_lzcnt_u64` and `__popcnt64` are bit-scanning loops;
  - `_addcarry_u64` is a ripple-carry adder;
  - `_umul128` is a schoolbook product on 32-bit halves.
- The GCC builtins are modelled by their documented meaning:
  - `__builtin_ctzll`, `__builtin_clzll` and `__builtin_popcountll` use
    halving recursions;
  - the overflow builtins report whether the exact result fits in 64 bits.

Some points the model makes explicit:

- The macros mean "round to a multiple of `n`" only when `n` is a power of
  two. Every rounding property below carries that hypothesis.
- `ROUNDUP_N(a, n)` is only correct while `a + n - 1` fits in 64 bits.
  Beyond that, the sum wraps and the macro returns 0. `RoundUpN` states
  this, and `RoundUpIdempotent` covers the wrapped case too.
- `__builtin_ctzll` and `__builtin_clzll` are undefined at 0. So
  `trailingzeroes` and `leadingzeroes` require a nonzero argument only on the
  GCC/Clang branch without `__BMI2__`. On the other branches, TZCNT and LZCNT
  return 64 for 0, and the model says so.
- The source comment above `hamming` warns that the result may be undefined
  at zero. Neither POPCNT nor `__builtin_popcountll` is undefined there:
  both return 0. `Hamming` therefore has no precondition, and it is proved
  to be 0 exactly for 0.

## Model

| member | source | states |
|---|---|---|
| CommonDefs.RoundUpN | src/common_defs.h:16-17 | For a power of two `n` with `a + n` within 2^64, the result is a multiple of `n` with `a <= r < a + n`. When `a + n - 1` wraps past 2^64, the result is 0. |
| CommonDefs.RoundDownN | src/common_defs.h:18 | The result never exceeds `a`. For a power of two `n` it is a multiple of `n` above `a - n`. |
| CommonDefs.IsAlignedN | src/common_defs.h:20 | For a power of two `n`, the mask test holds exactly when `ptr` is a multiple of `n`. |
| CommonDefs.MaskFloor | src/common_defs.h:17-18 | For a power of two `n`, masking with `~(n-1)` (wrapped to 64 bits) subtracts the remainder modulo `n`. |
| CommonDefs.RoundUpIsLeast | src/common_defs.h:17 | Without wrap-around, `ROUNDUP_N(a, n)` is at most every multiple of `n` that is at least `a`. |
| CommonDefs.RoundDownIsGreatest | src/common_defs.h:18 | `ROUNDDOWN_N(a, n)` is at least every multiple of `n` that is at most `a`. |
| CommonDefs.RoundingBrackets | src/common_defs.h:17-18 | For a power of two `n` and every `a`, `ROUNDDOWN_N(a, n) <= a`. `a <= ROUNDUP_N(a, n)` holds while `a + n` is within 2^64; past that the sum wraps and rounding up gives 0. For every `a`, each rounding returns `a`, and the two roundings agree, exactly when `a` is a multiple of `n`. |
| CommonDefs.NotMultipleNearTop | src/common_defs.h:17 | For a power of two `n`, no multiple of `n` lies within `n` below 2^64. These are exactly the inputs on which `ROUNDUP_N` wraps. |
| CommonDefs.RoundUpIdempotent | src/common_defs.h:17 | Rounding up twice gives the same value as rounding up once, for every `a`, including when the first rounding wrapped to 0. |
| CommonDefs.RoundDownIdempotent | src/common_defs.h:18 | Rounding down twice gives the same value as rounding down once. |
| CommonDefs.RoundedAreAligned | src/common_defs.h:17-20 | The results of both rounding macros always pass `ISALIGNED_N`. |
| Word.AndBit | src/common_defs.h:17-20 | `&` acts on each bit position independently: bit `i` of `x & y` is set iff it is set in both. |
| Word.Add64 | src/common_defs.h:17 | `uint64_t` addition wraps: the sum when it is below 2^64, the sum minus 2^64 otherwise. |
| Word.Sub64 | src/common_defs.h:17-18 | `uint64_t` subtraction, as in `n - 1`, wraps: the difference when `y <= x`, and 2^64 plus the difference otherwise. |
| Word.And | src/common_defs.h:17-20 | `x & y` never exceeds either operand. |
| Word.Not64 | src/common_defs.h:17-18 | `~` on a 64-bit operand flips each of the 64 bits. |
| Word.AndLowMask | src/common_defs.h:20 | `x & (2^k - 1)` is `x` truncated to its `k` low bits. |
| Word.AndHighMask | src/common_defs.h:17-18 | Masking a `w`-bit value with `2^w - 2^k` clears its `k` low bits and keeps the rest. |
| Word.Low | src/portability.h:34-35 | The truncating cast to `k` bits gives a value below 2^k. |
| Word.High | src/portability.h:35 | `x >> k` never exceeds `x`, and is strictly smaller for nonzero `x` and `k > 0`. |
| Word.LowHighAreModDiv | src/portability.h:34-35 | The `(uint32_t)` cast is reduction modulo 2^32, and `>> k` is division by 2^k. |
| Portability.RippleAdd | src/portability.h:11 | The carry chain behind ADC: the `w` sum bits plus the carry out, weighted 2^w, equal `a + b + c_in`. |
| Portability.AddCarryU64 | src/portability.h:10-12 | `_addcarry_u64` returns a carry exactly when `a + b + c_in >= 2^64`. It stores the total minus 2^64 when it carries, and the total otherwise. |
| Portability.BuiltinUaddOverflow | src/portability.h:48 | GCC's documented semantics of `__builtin_uaddll_overflow`, taken as the definition: the flag is set exactly when the stored result differs from the exact sum, and the stored result plus 2^64 on overflow is the exact sum. |
| Portability.AddOverflow | src/portability.h:47-49 | On both branches (the Microsoft one is at lines 10-12), the flag is set exactly when `v1 + v2 >= 2^64`, and the stored result is the sum modulo 2^64. |
| Portability.Umul128 | src/portability.h:14-17 | `_umul128` yields the full 128-bit product: high word times 2^64 plus low word equals `a * b`. |
| Portability.HighWordFlagsOverflow | src/portability.h:15-19 | The high word the Microsoft branch returns as its flag is nonzero exactly when `a * b >= 2^64`. The low word it stores is `a * b` modulo 2^64. |
| Portability.BuiltinUmulOverflow | src/portability.h:51 | GCC's documented semantics of `__builtin_umulll_overflow`, taken as the definition: the flag is set exactly when the stored result differs from the exact product. |
| Portability.MulOverflow | src/portability.h:50-52 | On both branches (the Microsoft one is at lines 15-19), the flag is set exactly when `v1 * v2 >= 2^64`, and the stored result is the product modulo 2^64. |
| Portability.Tzcnt | src/portability.h:22-24 | `_tzcnt_u64(x)` is at most 64. Bit `r` of `x` is set when `r < 64`, every bit below `r` is clear, and the result is 64 exactly when `x == 0`. |
| Portability.BuiltinCtz | src/portability.h:59 | For nonzero `x`, `__builtin_ctzll(x)` is the index of a set bit with every lower bit clear. |
| Portability.TzcntMatchesCtz | src/portability.h:55-61 | On nonzero input, the `__BMI2__` and plain branches of `trailingzeroes` return the same value. |
| Portability.TrailingZeroes | src/portability.h:54-61 | For nonzero `x` on every branch, the result is below 64, bit `r` is set and bits `0..r-1` are clear. Zero is accepted only where TZCNT is used, and there gives 64. |
| Portability.Lzcnt | src/portability.h:26-28 | `_lzcnt_u64(x)` is at most 64. Bit `63 - r` is set when `r < 64`, every bit above it is clear, and the result is 64 exactly when `x == 0`. |
| Portability.HighestBit | src/portability.h:68 | For nonzero `x`, the highest set bit `h` satisfies `2^h <= x < 2^(h+1)`. |
| Portability.BuiltinClz | src/portability.h:68 | For nonzero `x`, `__builtin_clzll(x)` is below 64, bit `63 - r` is set and every bit above it is clear, and `2^(63-r) <= x < 2^(64-r)`. |
| Portability.LzcntMatchesClz | src/portability.h:64-70 | On nonzero input, the `__BMI2__` and plain branches of `leadingzeroes` return the same value. |
| Portability.LeadingZeroes | src/portability.h:63-70 | For nonzero `x` on every branch, the result is below 64, bit `63 - r` is set and every bit above it is clear. Equivalently, `2^(63-r) <= x < 2^(64-r)`. Zero is accepted only where LZCNT is used, and there gives 64. |
| Portability.Popcnt | src/portability.h:32 | The POPCNT loop over a `w`-bit operand returns the size of the set of positions below `w` whose bit is set, which is at most `w`. |
| Portability.BuiltinPopcount | src/portability.h:77 | GCC's documented semantics of `__builtin_popcountll`, taken as the definition: the count is at most `x`, and is 0 exactly when `x == 0`. |
| Portability.BuiltinPopcountMatchesPopcnt | src/portability.h:74-78 | For a `w`-bit value, `__builtin_popcountll` and the POPCNT loop give the same count. |
| Portability.PopcountSplit | src/portability.h:34-35 | The one bits of `x` are those of its `k` low bits plus those of `x >> k`. |
| Portability.PopcntSplitsAt | src/portability.h:34-35 | For a `(k + w)`-bit value, counting the `k` low bits and the `w` bits of `x >> k` separately gives the count over all `k + w` bits. |
| Portability.SplitPopcntIs64 | src/portability.h:33-36 | The 32-bit Windows sum `__popcnt((uint32_t)x) + __popcnt((uint32_t)(x >> 32))` equals the 64-bit POPCNT of `x`. |
| Portability.Hamming | src/portability.h:72-79 | On all four branches (the Microsoft ones are at lines 30-37), the result is the number of set bits among the 64, at most 64, and 0 exactly when `x == 0`. |

## Left out

- The CSV scanning kernel is not part of this model. Its source (quote masking, separator masks, bit flattening) is not among the files modelled.
- `src/timing.h` is left out. It reads hardware performance counters through Linux system calls and has no pure behaviour.
- `src/main.cpp` and `src/io_util.h`/`src/io_util.cpp` are left out. They cover command-line parsing, file loading, aligned allocation and console output, which are all I/O.
- The compiler-hint macros in `src/common_defs.h` (`really_inline`, `never_inline`, `likely`, `unlikely`, `UNUSED`, `WARN_UNUSED`) are left out because they have no run-time meaning. So is the `SIMDCSV_PADDING` constant.
- The macros are type-generic in C. The model fixes their operands to 64-bit unsigned values, the width of `uintptr_t` and `size_t` on the 64-bit targets the code is built for. Narrower or signed operands are not modelled.
- On processors without BMI1/LZCNT, the TZCNT and LZCNT encodings execute as BSF and BSR, which differ at zero and (for BSR) in meaning. The model assumes a processor that implements TZCNT (BMI1) and LZCNT.
- The hardware multiplier behind `_umul128` is not modelled. The model computes the 128-bit product from 32-bit halves, and its contract is the full product, which is what the MUL instruction delivers.
- The conversions of the results to `int` or `uint64_t` are not modelled separately. Every result is at most 64 and fits either type unchanged.
