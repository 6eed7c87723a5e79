# FLINT: divide-and-conquer polynomial square root and sparse matrix columns

This project models two parts of FLINT, the number theory library. Each is
written in Dafny with proofs about it.

- **`fmpz_poly_sqrtrem_divconquer`** (`sqrtrem.dfy`, with the polynomial
  arithmetic it relies on in `poly_arith.dfy`). It takes an integer
  polynomial `a` of odd length `2n - 1`. It looks for a root `b` of length
  `n` and a remainder `r` of length at most `n - 1` (degree below `n - 1`)
  with `a = b^2 + r`, and either returns them or fails.
  - Polynomials are coefficient sequences, lowest degree first.
  - The worker `_fmpz_poly_sqrtrem_divconquer` is specified by the
    recursive function `SqrtRem`. It is also written imperatively as
    `Worker`, whose result is proved equal to `SqrtRem`.
  - The worker follows the source step by step:
    - inputs below the cutoff go to the classical algorithm;
    - an even length fails;
    - a parity scan of odd-index coefficients, which can fail;
    - a recursive call on the top `2 n2 - 1` coefficients;
    - a division by twice the top half of the root, with an exactness check;
    - the subtraction of the square of the new low half of the root and,
      when `n` is odd, of a cross term.
  - Every success is proved to be a square root with remainder
    (`SqrtRemSound`).
  - Three of the ways to fail are proved to rule out a root, for normalised
    inputs:
    - an even length (`EvenLengthRejectionJustified`);
    - the parity scan (`ParityRejectionJustified`);
    - an inexact division, which rules out every root whose top half is
      the root the recursive call found (`DivisionRejectionJustified`).
  - A failure of the recursive call itself is not proved to rule out a
    root (see "Left out").
  - The wrapper `fmpz_poly_sqrtrem_divconquer` is a method on `FmpzPoly`
    objects. It covers the even-length case and the case where `b` is the
    same object as `a` (a temporary and a swap). It also normalises `r`.
- **The self-contained parts of `siqs.h`** (`siqs.dfy`):
  - the sparse matrix column `la_col_t`, as a class over an array;
  - `insert_col_entry`, `swap_cols`, `clear_col` and `free_col`;
  - a ghost flag `live` for whether the column still owns an allocated
    buffer. With it, `free_col` on a cleared column is shown to leak the
    buffer;
  - the capacity rule (the buffer grows by 16 exactly when the weight is a
    multiple of 16);
  - the constant tuning table `qsieve_tune` with `QS_TUNE_SIZE`.

## Model

| member | source | states |
|---|---|---|
| Siqs.NeedsSpace | siqs.h:325 | the shift test `((w >> 4) << 4) == w` holds exactly when the weight is a multiple of 16 |
| Siqs.GrowKeepsFit | siqs.h:323-334 | one insertion into a column whose capacity is its weight rounded up to 16 leaves capacity equal to the new weight rounded up to 16, still holding every entry |
| Siqs.CapacityAfterInsertsIsRounded | siqs.h:323-334 | after k insertions into an empty column the capacity is k rounded up to a multiple of 16, so it lies in [k, k + 16) |
| Siqs.GrowsExactlyWhenFull | siqs.h:325-330 | for a nonempty column, an insertion adds 16 slots if and only if the weight is a multiple of 16, and otherwise keeps the capacity |
| Siqs.Column.constructor | siqs.h:51-56 | a column starts with weight 0, no buffer, no allocation it owns, and the given relation number |
| Siqs.Column.InsertEntry | siqs.h:323-334 | the weight grows by one; the entries are the old ones followed by the new entry; the relation number is unchanged; the capacity follows the growth rule; the buffer is fresh exactly when it grew; afterwards the column owns an allocated buffer |
| Siqs.Realloc | siqs.h:327-328 | reallocation gives a fresh buffer of the requested size that keeps the live prefix |
| Siqs.SwapCols | siqs.h:336-351 | the two columns exchange weight, buffer, relation number and buffer ownership |
| Siqs.SwapColsValid | siqs.h:336-351 | swapping keeps both columns well formed and exchanges their entries |
| Siqs.SwapTwice | siqs.h:336-351 | swapping twice restores both columns |
| Siqs.Column.ClearCol | siqs.h:353-356 | from any state, freed columns included, the weight becomes 0, the entries empty and the column well formed; the buffer, its ownership and the relation number stay |
| Siqs.ClearThenInsert | siqs.h:353-356 | an insertion after clearing allocates a fresh 16-slot buffer and leaves a one-entry column |
| Siqs.Column.FreeCol | siqs.h:358-361 | for a column whose nonzero weight still owns its buffer (a second release would be undefined in C), the buffer is released if and only if the weight on entry is nonzero; the column stops owning it exactly then; weight, pointer and relation number are left as they were |
| Siqs.FreeThenClear | siqs.h:353-361 | freeing a nonempty column releases its buffer; clearing it afterwards leaves a valid, empty column that owns nothing, which a second free leaves alone |
| Siqs.ClearThenFree | siqs.h:353-361 | freeing a cleared nonempty column releases nothing while its buffer is still allocated: the buffer leaks |
| Siqs.QsTuneSize | siqs.h:209-241 | the table has 27 rows |
| Siqs.AdjacentOrderedImpliesOrdered | siqs.h:209-238 | ordered neighbouring bit sizes make the whole column of bit sizes non-decreasing |
| Siqs.TuneRowsWellFormed | siqs.h:200-238 | in every row there are fewer small primes than factor base primes, and the sieve size is even |
| Siqs.TuneRowsFitLimb | siqs.h:209-238 | all five entries of every row fit an unsigned 64-bit `mp_limb_t` |
| Siqs.TuneTableShape | siqs.h:200-238 | 27 rows; every row consistent; bit sizes non-decreasing; every entry fits a 64-bit limb |
| SqrtremDivconquer.SqrtRem | fmpz_poly/sqrtrem_divconquer.c:17-69 | on an input of odd length a success has a root of (len + 1) / 2 coefficients and a remainder buffer of len entries |
| SqrtremDivconquer.Combine | fmpz_poly/sqrtrem_divconquer.c:43-46 | given a recursive result with the lengths of a success on the top 2 n2 - 1 coefficients, the result has the lengths of a success on the whole input |
| SqrtremDivconquer.CombineSound | fmpz_poly/sqrtrem_divconquer.c:43-68 | a correct square root with remainder of the top 2 n2 - 1 coefficients, or a failure, leads to a correct square root with remainder of the whole input, or a failure |
| SqrtremDivconquer.SqrtRemSound | fmpz_poly/sqrtrem_divconquer.c:17-69 | every success on an input of odd length satisfies a = root^2 + (low len / 2 entries of the remainder), given that the classical algorithm does |
| SqrtremDivconquer.FinishSound | fmpz_poly/sqrtrem_divconquer.c:48-66 | if the top satisfies top = s^2 + r1 and the division is exact, the root q + s and the final remainder satisfy a = root^2 + remainder |
| SqrtremDivconquer.Finish | fmpz_poly/sqrtrem_divconquer.c:48-68 | the step succeeds exactly when the division remainder is zero from index m - 1 on; a success has a root of n2 + m coefficients whose top n2 are the recursive root, and a buffer of len entries |
| SqrtremDivconquer.AfterRecursionSlices | fmpz_poly/sqrtrem_divconquer.c:40-43 | after the copy and the recursive call the buffer holds the low 2m coefficients of a followed by the recursive remainder |
| SqrtremDivconquer.DividendCoef | fmpz_poly/sqrtrem_divconquer.c:50-52 | the dividend of the division is the middle of a plus the low part of the recursive remainder, coefficient by coefficient |
| SqrtremDivconquer.RemainderAt | fmpz_poly/sqrtrem_divconquer.c:61-66 | each of the low n - 1 entries of the final buffer is (a below n2, the division remainder above) minus the square of the low root half, minus the cross term 2 s[0] t when n is odd |
| SqrtremDivconquer.RemainderHigh | fmpz_poly/sqrtrem_divconquer.c:52-66 | above the low n - 1 entries the final buffer holds the top m entries of the division remainder and then the top n2 entries of the recursive remainder, untouched by lines 61-66 |
| SqrtremDivconquer.CrossCoef | fmpz_poly/sqrtrem_divconquer.c:48-66 | 2 s t splits into the part divided by (2 s shifted by n2 - m) and, when n is odd, the cross term 2 s[0] t subtracted at line 66 |
| SqrtremDivconquer.RootLengthHalves | fmpz_poly/sqrtrem_divconquer.c:30-33 | n = (len + 1) / 2 gives len = 2n - 1 for an odd length and len = 2n for an even one; n2 = (n + 1) / 2 satisfies n <= 2 n2 <= n + 1 |
| SqrtremDivconquer.LowRootLength | fmpz_poly/sqrtrem_divconquer.c:30-33 | for odd len >= 3, m = n - n2 satisfies 1 <= m <= n2 <= m + 1 and len = 2 (n2 + m) - 1 |
| SqrtremDivconquer.DivisionStep | fmpz_poly/sqrtrem_divconquer.c:48-52 | the division gives m quotient coefficients and 2m - 1 remainder entries |
| SqrtremDivconquer.Worker | fmpz_poly/sqrtrem_divconquer.c:17-69 | the imperative worker, with its loops, returns exactly what `SqrtRem` specifies |
| SqrtremDivconquer.CombineStep | fmpz_poly/sqrtrem_divconquer.c:45-68 | the imperative combine step, with the exactness loop, returns exactly what `Combine` specifies |
| SqrtremDivconquer.ScanOddCoefs | fmpz_poly/sqrtrem_divconquer.c:36-38 | the scan from `lo \| 1` in steps of two accepts if and only if every odd-index coefficient in [lo, hi) is even |
| SqrtremDivconquer.ScanZero | fmpz_poly/sqrtrem_divconquer.c:55-59 | the exactness scan accepts if and only if every remainder entry from m - 1 on is zero |
| SqrtremDivconquer.OrOne | fmpz_poly/sqrtrem_divconquer.c:36 | `x \| 1` is the least odd number at or above x |
| SqrtremDivconquer.SquarePlusLength | fmpz_poly/sqrtrem_divconquer.c:26-30 | for a normalised a and a root with nonzero top, a = b^2 + r with r shorter than b forces len(a) = 2 len(b) - 1 |
| SqrtremDivconquer.EvenLengthRejectionJustified | fmpz_poly/sqrtrem_divconquer.c:26-28 | a nonempty normalised polynomial of even length is never b^2 + r with r shorter than a normalised b |
| SqrtremDivconquer.ParityNecessary | fmpz_poly/sqrtrem_divconquer.c:33-38 | if a = b^2 + r with r shorter than b, every odd-index coefficient of a from index len(b) - 1 on is even |
| SqrtremDivconquer.ParityRejectionJustified | fmpz_poly/sqrtrem_divconquer.c:33-38 | when the parity scan rejects a, no root of length n with a remainder of length below n gives a = b^2 + r |
| SqrtremDivconquer.DivisorLeadNonzero | fmpz_poly/sqrtrem_divconquer.c:48-52 | for a normalised input the divisor 2 s has m coefficients and a nonzero leading coefficient 2 s[n2 - 1] |
| SqrtremDivconquer.DividendExactAt | fmpz_poly/sqrtrem_divconquer.c:50-59 | if a = (t + x^m s)^2 + r with r of degree below n - 1, the dividend agrees with 2 s t from index m - 1 on |
| SqrtremDivconquer.DivisionRecoversRoot | fmpz_poly/sqrtrem_divconquer.c:48-59 | if a = b^2 + r with the top of b equal to the recursive root and r of degree below n - 1, the division returns the low half of b exactly, the exactness test passes and the step succeeds with root b |
| SqrtremDivconquer.DivisionRejectionJustified | fmpz_poly/sqrtrem_divconquer.c:54-59 | when the exactness test rejects, no root whose top half is the recursive root has a remainder of degree below n - 1 |
| SqrtremDivconquer.RootNormalised | fmpz_poly/sqrtrem_divconquer.c:95-100 | for a normalised input the root is normalised, and its top coefficient squared is the top coefficient of a |
| SqrtremDivconquer.FmpzPoly.constructor | fmpz_poly/sqrtrem_divconquer.c:87-88 | a freshly initialised polynomial is zero (no coefficients) |
| SqrtremDivconquer.SqrtRemPoly | fmpz_poly/sqrtrem_divconquer.c:71-112 | even length: b and r zero, success iff the length is 0. Odd length: success iff the worker succeeds on the entry value of a; on failure b is zero; on success b is the root of length len / 2 + 1, r is the normalised low half of the remainder (at most len / 2 coefficients), and a = b^2 + r. The outcome is the same when b is a |
| PolyArith.Mul | fmpz_poly/sqrtrem_divconquer.c:61 | the product has len(p) + len(q) - 1 coefficients, each the convolution of p and q |
| PolyArith.Scale | fmpz_poly/sqrtrem_divconquer.c:48 | c p has as many coefficients as p |
| PolyArith.ScaleCoef | fmpz_poly/sqrtrem_divconquer.c:48 | every coefficient of c p is c times that of p |
| PolyArith.OverwriteSlices | fmpz_poly/sqrtrem_divconquer.c:40-41 | writing a block at an offset leaves the block equal to w and everything before and after it unchanged |
| PolyArith.SubAtCoef | fmpz_poly/sqrtrem_divconquer.c:63 | subtracting w at offset off gives the polynomial v - x^off w |
| PolyArith.SubMulAtCoef | fmpz_poly/sqrtrem_divconquer.c:65-66 | subtracting c w at offset off gives the polynomial v - c x^off w |
| PolyArith.DivRem | fmpz_poly/sqrtrem_divconquer.c:52 | the quotient has len(a) - len(b) + 1 coefficients and the remainder len(a) entries |
| PolyArith.DivRemIdentity | fmpz_poly/sqrtrem_divconquer.c:52 | dividend = divisor * quotient + remainder, coefficient by coefficient |
| PolyArith.QuotientDigitExact | fmpz_poly/sqrtrem_divconquer.c:52 | dividing lead * x by a nonzero lead gives the quotient digit x |
| PolyArith.DivRemExact | fmpz_poly/sqrtrem_divconquer.c:52-59 | when the dividend agrees with b t from index len(b) - 1 on and b has a nonzero leading coefficient, the quotient is t and the remainder is zero from index len(b) - 1 on |
| PolyArith.Normalise | fmpz_poly/sqrtrem_divconquer.c:106 | the result is a prefix of the input with a nonzero last coefficient (or empty), and everything dropped is zero |
| PolyArith.NormaliseCoef | fmpz_poly/sqrtrem_divconquer.c:106 | normalising keeps every coefficient |
| PolyArith.SquareOddCoefEven | fmpz_poly/sqrtrem_divconquer.c:33-38 | every odd-index coefficient of b^2 is even |

## Left out

- The SIQS functions that siqs.h only declares (siqs.h:243-321, 363-371) are not modelled: sieving, Knuth-Schroeppel, polynomial generation, the hash table, relation merging, block Lanczos and the square root step. Their bodies are not part of this model.
- File I/O (`FILE * siqs`, `qsieve_write_to_file`, `qsieve_parse_relation`) is left out.
- `flint_malloc`, `flint_realloc` and `flint_free` are not real allocators here.
  - Allocation is `new`.
  - `Realloc` copies the live prefix into a fresh array.
  - `FreeCol` releases nothing. It returns whether the source would call `flint_free`, and clears the ghost flag `live` exactly then.
- An insertion after `clear_col` allocates a fresh buffer without freeing the old one, as the source does. The model does not follow the abandoned buffer; `live` describes only the buffer the column points to.
- Siqs.Column: the weight is a `nat`. A negative `slong` weight is not modelled. For it, the left shift in the growth test is undefined behaviour in C.
- `_fmpz_poly_sqrtrem_classical` is not part of this model. It is a function parameter `classical`.
  - `SqrtRem` and `Worker` only assume that its successes have the right lengths.
  - `SqrtRemSound` and `SqrtRemPoly` also assume that its successes are square roots with remainder.
- `_fmpz_poly_divrem` is not part of this model. `DivRem` is a schoolbook stand-in:
  - a quotient digit is 0 when the current top coefficient is smaller in absolute value than the divisor's leading coefficient;
  - otherwise the digit is the floor quotient.
  - Proved about it: the lengths, the identity dividend = divisor * quotient + remainder, and exact division (`DivRemExact`): when the top of the dividend is divisor * t, the quotient is t and the remainder is zero from index len(divisor) - 1 on.
  - Nothing is proved about inexact divisions beyond the identity, so the remainder the exactness test then inspects is that of this stand-in.
- `_fmpz_poly_mul` and the `_fmpz_vec_*` routines are pure functions on sequences (`Mul`, `Scale`, `Overwrite`, `SubAt`, `SubMulAt`).
- The layout of the shared `temp` buffer and the overlapping sub-slices of `r` are not modelled.
  - The worker works on values.
  - The recursive call writes its remainder over the top of a copy of `a`.
- SqrtremDivconquer.SqrtRem: successes are proved correct, but not every failure is proved to mean that no root exists. Failures at an even length, at the parity scan and at an inexact division are proved to rule out a root. A failure of the recursive call is not. That would need the same guarantee from the classical algorithm at the bottom of the recursion, which is not part of this model.
- SqrtremDivconquer.SqrtRem: the cutoff is a parameter with `cutoff >= 2`. With a cutoff of 1 the source would recurse on inputs of length 1 without end.
- SqrtremDivconquer.SqrtRemPoly: on failure, the contents of `r` are left unspecified. The source leaves a partially written buffer there.
- SqrtremDivconquer.SqrtRemPoly: `b` and `r` must be different objects.
- SqrtremDivconquer.SqrtRemPoly: the coefficient capacity of `b` and `r` (`fit_length`) is not modelled. Only the logical coefficient sequence is.
