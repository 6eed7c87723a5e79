/** Divide-and-conquer square root with remainder of an integer polynomial
    (fmpz_poly/sqrtrem_divconquer.c). Given `a` of odd length 2n - 1 it
    either finds `b` with n coefficients and `r` of degree below n - 1 such
    that a = b^2 + r, or fails. Every success is proved correct; the
    failures at an even length, at the parity scan and at an inexact
    division are proved to rule out such a root. */
module SqrtremDivconquer {
  import opened PolyArith

  /** Result of the worker: failure (the source returns 0), or a root and
      the contents of the remainder buffer (the source returns 1). */
  datatype Outcome = Fail | Ok(root: seq<int>, rem: seq<int>)

  /** a = b^2 + r, as an identity of integer polynomials. */
  ghost predicate SquarePlus(a: seq<int>, b: seq<int>, r: seq<int>) {
    forall k {:trigger Coef(a, k)} :: Coef(a, k) == Conv(b, b, k) + Coef(r, k)
  }

  /** What a successful worker call promises for an input of odd length
      2n - 1: a root of n coefficients, a remainder buffer of 2n - 1
      entries, and a = root^2 + (the low n - 1 entries of the buffer). */
  ghost predicate IsSqrtRem(a: seq<int>, out: Outcome) {
    out.Ok? ==>
      && Shaped(a, out)
      && SquarePlus(a, out.root, out.rem[..|a| / 2])
  }

  /** The lengths a successful call produces. */
  predicate Shaped(a: seq<int>, out: Outcome) {
    out.Ok? ==> |out.root| == (|a| + 1) / 2 && |out.rem| == |a|
  }

  /** The contract of `_fmpz_poly_sqrtrem_classical`, which is not part of
      this model: on inputs of odd length, whenever it reports success its
      result is a square root with remainder. */
  ghost predicate ClassicalSound(classical: seq<int> -> Outcome) {
    && ClassicalShaped(classical)
    && forall p :: |p| % 2 == 1 ==> IsSqrtRem(p, classical(p))
  }

  /** The part of that contract the worker itself relies on: the lengths
      of a successful result. */
  ghost predicate ClassicalShaped(classical: seq<int> -> Outcome) {
    forall p :: |p| % 2 == 1 ==> Shaped(p, classical(p))
  }

  /** Smallest odd number at or above x: the source's `x | 1`. */
  function OrOne(x: nat): (r: nat)
    ensures r % 2 == 1 && x <= r <= x + 1
  {
    if x % 2 == 1 then x else x + 1
  }

  /** Every odd-index coefficient of `a` in [lo, hi) is even. */
  predicate OddCoefsEven(a: seq<int>, lo: int, hi: int)
    requires hi <= |a|
  {
    forall j :: lo <= j < hi && 0 <= j && j % 2 == 1 ==> IsEven(a, j)
  }

  /** `fmpz_is_even(a + j)`. */
  predicate IsEven(a: seq<int>, j: int)
    requires 0 <= j < |a|
  {
    a[j] % 2 == 0
  }

  /** Every entry of `p` from `lo` on is zero. */
  predicate ZeroFrom(p: seq<int>, lo: int) {
    forall i :: lo <= i < |p| && 0 <= i ==> p[i] == 0
  }

  /** Shapes of the divide step for an input of length 2n - 1, n = n2 + m:
      the top 2 n2 - 1 coefficients are handled recursively, the low m
      root coefficients by division. */
  ghost predicate Split(a: seq<int>, n2: nat, m: nat, s: seq<int>, r1: seq<int>) {
    && m >= 1 && m <= n2 <= m + 1
    && |a| == 2 * (n2 + m) - 1
    && |s| == n2 && |r1| == 2 * n2 - 1
  }

  /** Remainder buffer after the recursive call: a copied into r, the top
      2 n2 - 1 entries then replaced by the recursive remainder. */
  function AfterRecursion(a: seq<int>, n2: nat, m: nat, s: seq<int>, r1: seq<int>): (r0: seq<int>)
    requires Split(a, n2, m, s, r1)
    ensures |r0| == |a|
  {
    Overwrite(a, 2 * m, r1)
  }

  /** After the recursive call the buffer holds the low 2m coefficients
      of `a` followed by the recursive remainder (lines 40-43). */
  lemma AfterRecursionSlices(a: seq<int>, n2: nat, m: nat, s: seq<int>, r1: seq<int>)
    requires Split(a, n2, m, s, r1)
    ensures var r0 := AfterRecursion(a, n2, m, s, r1);
      r0[..2 * m] == a[..2 * m] && r0[2 * m..] == r1
  {
    OverwriteSlices(a, 2 * m, r1);
  }

  /** Lines 48-52: divide the 2m - 1 entries of r from n2 on by the top m
      coefficients of 2 * (top half of the root). */
  function DivisionStep(a: seq<int>, n2: nat, m: nat, s: seq<int>, r1: seq<int>): (qr: QuoRem)
    requires Split(a, n2, m, s, r1)
    ensures |qr.q| == m && |qr.r| == 2 * m - 1
  {
    var r0 := AfterRecursion(a, n2, m, s, r1);
    DivRem(r0[n2 .. n2 + 2 * m - 1], Scale(2, s)[n2 - m..])
  }

  /** Lines 52 and 61-66: the division remainder written at r + n2, minus
      the square of the low half of the root, and, when n is odd, minus
      2 * s[0] times the low half at r + m. */
  function Remainder(a: seq<int>, n2: nat, m: nat, s: seq<int>, r1: seq<int>, qr: QuoRem): (r: seq<int>)
    requires Split(a, n2, m, s, r1) && |qr.q| == m && |qr.r| == 2 * m - 1
    ensures |r| == |a|
  {
    var r0 := AfterRecursion(a, n2, m, s, r1);
    var r1' := Overwrite(r0, n2, qr.r);
    var r2 := SubAt(r1', 0, Mul(qr.q, qr.q));
    if 2 * n2 > n2 + m then SubMulAt(r2, m, qr.q[..n2 - 1], Scale(2, s)[0]) else r2
  }

  /** Above the low n - 1 entries, the remainder buffer holds the top
      m entries of the division remainder (zero after an exact division)
      and then the top n2 entries of the recursive remainder; lines 61-66
      do not touch them. */
  lemma RemainderHigh(a: seq<int>, n2: nat, m: nat, s: seq<int>, r1: seq<int>, qr: QuoRem)
    requires Split(a, n2, m, s, r1) && |qr.q| == m && |qr.r| == 2 * m - 1
    ensures var r := Remainder(a, n2, m, s, r1, qr);
      && (forall i :: n2 + m - 1 <= i < n2 + 2 * m - 1 ==> r[i] == qr.r[i - n2])
      && r[n2 + 2 * m - 1..] == r1[n2 - 1..]
  {
  }

  /** Lines 48-68, once the recursive call has succeeded: divide, check
      that the division was exact, and form the remainder. */
  function Finish(a: seq<int>, n2: nat, m: nat, s: seq<int>, r1: seq<int>): (out: Outcome)
    requires Split(a, n2, m, s, r1)
    ensures out.Ok? <==> ZeroFrom(DivisionStep(a, n2, m, s, r1).r, m - 1)
    ensures out.Ok? ==> |out.root| == n2 + m && out.root[m..] == s && |out.rem| == |a|
  {
    var qr := DivisionStep(a, n2, m, s, r1);
    if ZeroFrom(qr.r, m - 1) then Ok(qr.q + s, Remainder(a, n2, m, s, r1, qr)) else Fail
  }

  /** Number of root coefficients for an input of length len: n = (len + 1) / 2. */
  function RootLength(len: nat): (n: nat)
  {
    (len + 1) / 2
  }

  /** Number of root coefficients found by the recursive call: n2 = (n + 1) / 2. */
  function TopRootLength(len: nat): (n2: nat)
  {
    (RootLength(len) + 1) / 2
  }

  /** Line 30 gives a root of n coefficients for a length of 2n - 1 (and
      n = len / 2 for an even length); line 33 splits n into a top part n2
      of at least half of it. */
  lemma RootLengthHalves(len: nat)
    ensures len % 2 == 1 ==> len == 2 * RootLength(len) - 1
    ensures len % 2 == 0 ==> len == 2 * RootLength(len)
    ensures RootLength(len) <= 2 * TopRootLength(len) <= RootLength(len) + 1
  {
  }

  /** Number of root coefficients found by division: m = n - n2. */
  function LowRootLength(len: nat): (m: nat)
    ensures len % 2 == 1 && len >= 3 ==> m >= 1 && m <= TopRootLength(len) <= m + 1 && len == 2 * (TopRootLength(len) + m) - 1
  {
    RootLength(len) - TopRootLength(len)
  }

  /** `_fmpz_poly_sqrtrem_divconquer` on a coefficient sequence. On an
      input of odd length a success has the lengths the source promises. */
  function SqrtRem(a: seq<int>, cutoff: nat, classical: seq<int> -> Outcome): (out: Outcome)
    requires cutoff >= 2 && ClassicalShaped(classical)
    ensures |a| % 2 == 1 ==> Shaped(a, out)
    decreases |a|
  {
    var len := |a|;
    if len < cutoff then classical(a)
    else if len % 2 == 0 then Fail
    else if !OddCoefsEven(a, RootLength(len) - 1, len - TopRootLength(len)) then Fail
    else
      // the top 2 n2 - 1 coefficients start at len - 2 n2 + 1 = 2 m
      Combine(a, TopRootLength(len), LowRootLength(len), SqrtRem(a[2 * LowRootLength(len)..], cutoff, classical))
  }

  /** Lines 43-68: fail when the recursive call failed, otherwise finish. */
  function Combine(a: seq<int>, n2: nat, m: nat, sub: Outcome): (out: Outcome)
    requires m >= 1 && m <= n2 <= m + 1 && |a| == 2 * (n2 + m) - 1
    requires Shaped(a[2 * m..], sub)
    ensures Shaped(a, out)
  {
    match sub
    case Fail => Fail
    case Ok(s, r1) => Finish(a, n2, m, s, r1)
  }

  /** Every success of the worker on an input of odd length is a square
      root with remainder: a = root^2 + (low half of the remainder buffer). */
  lemma {:induction false} SqrtRemSound(a: seq<int>, cutoff: nat, classical: seq<int> -> Outcome)
    requires cutoff >= 2 && ClassicalSound(classical)
    requires |a| % 2 == 1
    ensures IsSqrtRem(a, SqrtRem(a, cutoff, classical))
    decreases |a|
  {
    var len := |a|;
    if len >= cutoff && OddCoefsEven(a, RootLength(len) - 1, len - TopRootLength(len)) {
      var n2 := TopRootLength(len);
      var m := LowRootLength(len);
      var top := a[2 * m..];
      SqrtRemSound(top, cutoff, classical);
      CombineSound(a, n2, m, SqrtRem(top, cutoff, classical));
    }
  }

  /** Combining keeps soundness: a sound result on the top 2 n2 - 1
      coefficients gives a sound result on all of `a`. */
  lemma CombineSound(a: seq<int>, n2: nat, m: nat, sub: Outcome)
    requires m >= 1 && m <= n2 <= m + 1 && |a| == 2 * (n2 + m) - 1
    requires IsSqrtRem(a[2 * m..], sub)
    ensures IsSqrtRem(a, Combine(a, n2, m, sub))
  {
    if sub.Ok? {
      assert |a[2 * m..]| / 2 == n2 - 1;
      FinishSound(a, n2, m, sub.root, sub.rem);
    }
  }

  /** The combine step is correct: if the top of `a` is s^2 + (low part of
      r1) and the division was exact, then the root `q + s` and the new
      remainder satisfy a = root^2 + remainder. */
  lemma FinishSound(a: seq<int>, n2: nat, m: nat, s: seq<int>, r1: seq<int>)
    requires Split(a, n2, m, s, r1)
    requires SquarePlus(a[2 * m..], s, r1[..n2 - 1])
    ensures IsSqrtRem(a, Finish(a, n2, m, s, r1))
  {
    assert Shaped(a, Finish(a, n2, m, s, r1));
    var qr := DivisionStep(a, n2, m, s, r1);
    if ZeroFrom(qr.r, m - 1) {
      var rem := Remainder(a, n2, m, s, r1, qr);
      assert |a| / 2 == n2 + m - 1;
      forall k ensures Coef(a, k) == Conv(qr.q + s, qr.q + s, k) + Coef(rem[..n2 + m - 1], k) {
        FinishCoef(a, n2, m, s, r1, k);
      }
    }
  }

  /** The correction term of line 66: 2 s[0] times coefficient k - m of the
      low half t, present only when n is odd (n2 == m + 1). */
  function OddCorrection(n2: nat, m: nat, s: seq<int>, t: seq<int>, k: int): int
    requires |s| >= 1
  {
    if n2 == m + 1 then 2 * s[0] * Coef(t, k - m) else 0
  }

  /** a = (its low 2m coefficients) + x^(2m) (s^2 + low part of r1). */
  lemma TopSplitCoef(a: seq<int>, m: nat, s: seq<int>, r1lo: seq<int>, k: int)
    requires 2 * m <= |a|
    requires SquarePlus(a[2 * m..], s, r1lo)
    ensures Coef(a, k) == Coef(a[..2 * m], k) + Conv(s, s, k - 2 * m) + Coef(r1lo, k - 2 * m)
  {
    assert a == a[..2 * m] + a[2 * m..];
    CoefAppend(a[..2 * m], a[2 * m..], k);
    assert Coef(a[2 * m..], k - 2 * m) == Conv(s, s, k - 2 * m) + Coef(r1lo, k - 2 * m);
  }

  /** 2 s t, with 2 s split into its low e coefficients and its top part. */
  lemma CrossCoef(n2: nat, m: nat, s: seq<int>, t: seq<int>, k: int)
    requires m <= n2 <= m + 1 && |s| == n2 && n2 >= 1
    ensures 2 * Conv(s, t, k - m)
         == OddCorrection(n2, m, s, t, k) + Conv(Scale(2, s)[n2 - m..], t, k - n2)
  {
    var e := n2 - m;
    var twoS := Scale(2, s);
    var b := twoS[e..];
    ConvScaleLeft(2, s, t, k - m);
    assert twoS == twoS[..e] + b;
    ConvAppendLeft(twoS[..e], b, t, k - m);
    if e == 1 {
      assert twoS[..e] == [twoS[0]];
      ConvSymm([twoS[0]], t, k - m);
      ConvSingleRight(t, twoS[0], k - m);
    } else {
      assert twoS[..e] == [];
    }
  }

  /** a - (t + x^m s)^2, expanded with the recursive identity for the top
      of a and the split of 2 s. */
  lemma ErrorCoef(a: seq<int>, n2: nat, m: nat, s: seq<int>, r1: seq<int>, t: seq<int>, k: int)
    requires Split(a, n2, m, s, r1) && |t| == m
    requires SquarePlus(a[2 * m..], s, r1[..n2 - 1])
    ensures Coef(a, k) - Conv(t + s, t + s, k)
         == Coef(a[..2 * m], k) + Coef(r1[..n2 - 1], k - 2 * m) - Conv(t, t, k)
            - OddCorrection(n2, m, s, t, k) - Conv(Scale(2, s)[n2 - m..], t, k - n2)
  {
    TopSplitCoef(a, m, s, r1[..n2 - 1], k);
    SquareSplit(t, s, k);
    CrossCoef(n2, m, s, t, k);
  }

  /** The dividend of line 52 is the middle of a followed by the low part
      of the recursive remainder. */
  lemma DividendCoef(a: seq<int>, n2: nat, m: nat, s: seq<int>, r1: seq<int>, j: int)
    requires Split(a, n2, m, s, r1)
    requires 0 <= j < 2 * m - 1
    ensures var r0 := AfterRecursion(a, n2, m, s, r1);
      Coef(r0[n2 .. n2 + 2 * m - 1], j) == Coef(a[..2 * m], j + n2) + Coef(r1[..n2 - 1], j + n2 - 2 * m)
  {
  }

  /** The low n - 1 entries of the new remainder buffer, entry by entry. */
  lemma RemainderAt(a: seq<int>, n2: nat, m: nat, s: seq<int>, r1: seq<int>, qr: QuoRem, k: int)
    requires Split(a, n2, m, s, r1) && |qr.q| == m && |qr.r| == 2 * m - 1
    requires 0 <= k < n2 + m - 1
    ensures Remainder(a, n2, m, s, r1, qr)[k]
         == (if k < n2 then a[k] else qr.r[k - n2]) - Conv(qr.q, qr.q, k) - OddCorrection(n2, m, s, qr.q, k)
  {
    var p := Mul(qr.q, qr.q);
    assert Coef(p, k) == Conv(qr.q, qr.q, k);
    if k >= 2 * m - 1 {
      ConvOutside(qr.q, qr.q, k);
    }
  }

  /** FinishSound at one coefficient. */
  lemma FinishCoef(a: seq<int>, n2: nat, m: nat, s: seq<int>, r1: seq<int>, k: int)
    requires Split(a, n2, m, s, r1)
    requires SquarePlus(a[2 * m..], s, r1[..n2 - 1])
    requires ZeroFrom(DivisionStep(a, n2, m, s, r1).r, m - 1)
    ensures var qr := DivisionStep(a, n2, m, s, r1);
      Coef(a, k) == Conv(qr.q + s, qr.q + s, k) + Coef(Remainder(a, n2, m, s, r1, qr)[..n2 + m - 1], k)
  {
    var qr := DivisionStep(a, n2, m, s, r1);
    var b := Scale(2, s)[n2 - m..];
    var d := AfterRecursion(a, n2, m, s, r1)[n2 .. n2 + 2 * m - 1];
    DivRemIdentity(d, b, k - n2);
    if n2 <= k < n2 + 2 * m - 1 {
      FinishCoefMiddle(a, n2, m, s, r1, qr, k);
    } else {
      FinishCoefOutside(a, n2, m, s, r1, qr, k);
    }
  }

  /** FinishCoef for the coefficients the division covers,
      n2 <= k < n2 + 2m - 1, given the division identity there. */
  lemma FinishCoefMiddle(a: seq<int>, n2: nat, m: nat, s: seq<int>, r1: seq<int>, qr: QuoRem, k: int)
    requires Split(a, n2, m, s, r1) && |qr.q| == m && |qr.r| == 2 * m - 1
    requires SquarePlus(a[2 * m..], s, r1[..n2 - 1])
    requires ZeroFrom(qr.r, m - 1)
    requires n2 <= k < n2 + 2 * m - 1
    requires Coef(AfterRecursion(a, n2, m, s, r1)[n2 .. n2 + 2 * m - 1], k - n2)
          == Conv(Scale(2, s)[n2 - m..], qr.q, k - n2) + Coef(qr.r, k - n2)
    ensures Coef(a, k) == Conv(qr.q + s, qr.q + s, k) + Coef(Remainder(a, n2, m, s, r1, qr)[..n2 + m - 1], k)
  {
    var t := qr.q;
    ErrorCoef(a, n2, m, s, r1, t, k);
    DividendCoef(a, n2, m, s, r1, k - n2);
    if k < n2 + m - 1 {
      RemainderAt(a, n2, m, s, r1, qr, k);
    } else {
      assert qr.r[k - n2] == 0;
      ConvOutside(t, t, k);
    }
  }

  /** FinishCoef below n2 and from n2 + 2m - 1 on, where the division
      does not reach. */
  lemma FinishCoefOutside(a: seq<int>, n2: nat, m: nat, s: seq<int>, r1: seq<int>, qr: QuoRem, k: int)
    requires Split(a, n2, m, s, r1) && |qr.q| == m && |qr.r| == 2 * m - 1
    requires SquarePlus(a[2 * m..], s, r1[..n2 - 1])
    requires k < n2 || k >= n2 + 2 * m - 1
    ensures Coef(a, k) == Conv(qr.q + s, qr.q + s, k) + Coef(Remainder(a, n2, m, s, r1, qr)[..n2 + m - 1], k)
  {
    var t := qr.q;
    ErrorCoef(a, n2, m, s, r1, t, k);
    ConvOutside(Scale(2, s)[n2 - m..], t, k - n2);
    if 0 <= k < n2 {
      RemainderAt(a, n2, m, s, r1, qr, k);
    } else {
      ConvOutside(t, t, k);
    }
  }

  // ---------------------------------------------------------------------
  // The worker, imperatively
  // ---------------------------------------------------------------------

  /** `_fmpz_poly_sqrtrem_divconquer`: scans the coefficients with loops,
      recurses on the top 2 n2 - 1 of them and finishes by division. */
  method Worker(a: seq<int>, cutoff: nat, classical: seq<int> -> Outcome) returns (out: Outcome)
    requires cutoff >= 2 && ClassicalShaped(classical)
    ensures out == SqrtRem(a, cutoff, classical)
    decreases |a|
  {
    var len := |a|;
    if len < cutoff {
      return classical(a);
    }
    // the degree must be even
    if len % 2 == 0 {
      return Fail;
    }
    var n := RootLength(len);
    var n2 := TopRootLength(len);
    // a square root modulo 2 must exist; the recursive call checks the top
    var even := ScanOddCoefs(a, n - 1, len - n2);
    if !even {
      return Fail;
    }
    var m := LowRootLength(len);
    var sub := Worker(a[2 * m..], cutoff, classical);
    out := CombineStep(a, n2, m, sub);
  }

  /** Lines 45-68 of the worker: fail when the recursive call failed,
      otherwise divide, check exactness with a loop and form the remainder. */
  method CombineStep(a: seq<int>, n2: nat, m: nat, sub: Outcome) returns (out: Outcome)
    requires m >= 1 && m <= n2 <= m + 1 && |a| == 2 * (n2 + m) - 1
    requires Shaped(a[2 * m..], sub)
    ensures out == Combine(a, n2, m, sub)
  {
    if sub.Fail? {
      return Fail;
    }
    var qr := DivisionStep(a, n2, m, sub.root, sub.rem);
    // the division must have been exact
    var exact := ScanZero(qr.r, m - 1);
    if !exact {
      return Fail;
    }
    out := Ok(qr.q + sub.root, Remainder(a, n2, m, sub.root, sub.rem, qr));
  }

  /** Lines 36-38: test the odd-index coefficients in [lo, hi), starting
      at the odd number `lo | 1` and stepping by two. */
  method ScanOddCoefs(a: seq<int>, lo: nat, hi: int) returns (even: bool)
    requires hi <= |a|
    ensures even <==> OddCoefsEven(a, lo, hi)
  {
    var i := OrOne(lo);
    while i < hi
      invariant i % 2 == 1 && lo <= i
      invariant OddCoefsEven(a, lo, if i <= hi then i else hi)
    {
      if a[i] % 2 != 0 {
        assert !IsEven(a, i);
        return false;
      }
      i := i + 2;
    }
    return true;
  }

  /** Lines 55-59: test that every entry of p from lo on is zero. */
  method ScanZero(p: seq<int>, lo: nat) returns (zero: bool)
    ensures zero <==> ZeroFrom(p, lo)
  {
    var i := lo;
    while i < |p|
      invariant lo <= i
      invariant forall j :: lo <= j < i && j < |p| ==> p[j] == 0
    {
      if p[i] != 0 {
        return false;
      }
      i := i + 1;
    }
    return true;
  }

  /** Why the scan of lines 36-38 is sound: if a = b^2 + r with r shorter
      than b, every odd-index coefficient of a from index |b| - 1 on is
      even, because those of b^2 are. */
  lemma ParityNecessary(a: seq<int>, b: seq<int>, r: seq<int>)
    requires |b| >= 1 && |r| <= |b| - 1
    requires SquarePlus(a, b, r)
    ensures OddCoefsEven(a, |b| - 1, |a|)
  {
    forall j | |b| - 1 <= j < |a| && 0 <= j && j % 2 == 1
      ensures a[j] % 2 == 0
    {
      assert Coef(a, j) == Conv(b, b, j) + Coef(r, j);
      SquareOddCoefEven(b, j);
    }
  }

  /** When the scan rejects `a`, no root of the right length with a
      remainder of lower degree exists. */
  lemma ParityRejectionJustified(a: seq<int>, b: seq<int>, r: seq<int>)
    requires |a| % 2 == 1 && |b| == RootLength(|a|) && |r| < |b|
    requires !OddCoefsEven(a, RootLength(|a|) - 1, |a| - TopRootLength(|a|))
    ensures !SquarePlus(a, b, r)
  {
    if SquarePlus(a, b, r) {
      ParityNecessary(a, b, r);
    }
  }

  /** For a normalised `a` and a root `b` with nonzero top coefficient, a
      remainder shorter than `b` forces |a| = 2 |b| - 1: the top of b^2
      is the top of a. */
  lemma SquarePlusLength(a: seq<int>, b: seq<int>, r: seq<int>)
    requires Normalised(a) && |b| >= 1 && b[|b| - 1] != 0 && |r| < |b|
    requires SquarePlus(a, b, r)
    ensures |a| == 2 * |b| - 1
  {
    var top := 2 * |b| - 2;
    ConvTop(b, b);
    AbsMulAtLeast(b[|b| - 1], b[|b| - 1]);
    assert Coef(a, top) == Conv(b, b, top) + Coef(r, top);
    if |a| > 2 * |b| - 1 {
      assert Coef(a, |a| - 1) == Conv(b, b, |a| - 1) + Coef(r, |a| - 1);
      ConvOutside(b, b, |a| - 1);
    }
  }

  /** Why lines 27-28 may fail on an even length: a nonempty normalised
      polynomial of even length is never b^2 + r with r shorter than a
      normalised b. */
  lemma EvenLengthRejectionJustified(a: seq<int>, b: seq<int>, r: seq<int>)
    requires Normalised(a) && |a| > 0 && |a| % 2 == 0
    requires Normalised(b) && |r| < |b|
    ensures !SquarePlus(a, b, r)
  {
    if SquarePlus(a, b, r) {
      SquarePlusLength(a, b, r);
    }
  }

  /** The recursive root of a normalised input has a nonzero top
      coefficient, so the divisor 2 s of line 52 has one too. */
  lemma DivisorLeadNonzero(a: seq<int>, n2: nat, m: nat, s: seq<int>, r1: seq<int>)
    requires Split(a, n2, m, s, r1) && Normalised(a)
    requires SquarePlus(a[2 * m..], s, r1[..n2 - 1])
    ensures var twoS := Scale(2, s)[n2 - m..]; |twoS| == m && twoS[m - 1] == 2 * s[n2 - 1] != 0
  {
    var top := a[2 * m..];
    assert |top| == 2 * n2 - 1 && |top| / 2 == n2 - 1;
    assert top[|top| - 1] == a[|a| - 1];
    assert IsSqrtRem(top, Ok(s, r1));
    RootNormalised(top, Ok(s, r1));
    assert s[n2 - 1] != 0;
    assert Scale(2, s)[n2 - 1] == 2 * s[n2 - 1];
  }

  /** One coefficient of the dividend of line 52 at or above m - 1, when
      a = (t + x^m s)^2 + r with r of degree below n - 1: it is the
      coefficient of 2 s t, as in an exact division. */
  lemma DividendExactAt(a: seq<int>, n2: nat, m: nat, s: seq<int>, r1: seq<int>, t: seq<int>, r: seq<int>, k: int)
    requires Split(a, n2, m, s, r1)
    requires SquarePlus(a[2 * m..], s, r1[..n2 - 1])
    requires |t| == m && |r| <= n2 + m - 1
    requires SquarePlus(a, t + s, r)
    requires k >= m - 1
    ensures Coef(AfterRecursion(a, n2, m, s, r1)[n2 .. n2 + 2 * m - 1], k) == Conv(Scale(2, s)[n2 - m..], t, k)
  {
    if k < 2 * m - 1 {
      DividendCoef(a, n2, m, s, r1, k);
      ErrorCoef(a, n2, m, s, r1, t, k + n2);
      assert Coef(a, k + n2) == Conv(t + s, t + s, k + n2) + Coef(r, k + n2);
      ConvOutside(t, t, k + n2);
    } else {
      ConvOutside(Scale(2, s)[n2 - m..], t, k);
    }
  }

  /** Why the exactness test of lines 55-59 is sound. Let the top of `a`
      be s^2 + (low part of r1) as the recursive call found, with `a`
      normalised. If a = b^2 + r for a root `b` whose top n2 coefficients
      are `s` and a remainder of degree below n - 1, then the division
      finds the low half of `b` exactly, and the worker succeeds with
      root `b`. */
  lemma DivisionRecoversRoot(a: seq<int>, n2: nat, m: nat, s: seq<int>, r1: seq<int>, b: seq<int>, r: seq<int>)
    requires Split(a, n2, m, s, r1) && Normalised(a)
    requires SquarePlus(a[2 * m..], s, r1[..n2 - 1])
    requires |b| == n2 + m && b[m..] == s && |r| <= n2 + m - 1
    requires SquarePlus(a, b, r)
    ensures DivisionStep(a, n2, m, s, r1).q == b[..m]
    ensures ZeroFrom(DivisionStep(a, n2, m, s, r1).r, m - 1)
    ensures Finish(a, n2, m, s, r1).Ok? && Finish(a, n2, m, s, r1).root == b
  {
    var t := b[..m];
    assert b == t + s;
    var d := AfterRecursion(a, n2, m, s, r1)[n2 .. n2 + 2 * m - 1];
    var twoS := Scale(2, s)[n2 - m..];
    DivisorLeadNonzero(a, n2, m, s, r1);
    forall k {:trigger Coef(d, k)} | k >= m - 1
      ensures Coef(d, k) == Conv(twoS, t, k)
    {
      DividendExactAt(a, n2, m, s, r1, t, r, k);
    }
    DivRemExact(d, twoS, t);
  }

  /** When the exactness test rejects, no root whose top n2 coefficients
      are the recursive root `s` has a remainder of degree below n - 1. */
  lemma DivisionRejectionJustified(a: seq<int>, n2: nat, m: nat, s: seq<int>, r1: seq<int>, b: seq<int>, r: seq<int>)
    requires Split(a, n2, m, s, r1) && Normalised(a)
    requires SquarePlus(a[2 * m..], s, r1[..n2 - 1])
    requires !ZeroFrom(DivisionStep(a, n2, m, s, r1).r, m - 1)
    requires |b| == n2 + m && b[m..] == s && |r| <= n2 + m - 1
    ensures !SquarePlus(a, b, r)
  {
    if SquarePlus(a, b, r) {
      DivisionRecoversRoot(a, n2, m, s, r1, b, r);
    }
  }

  /** The root of a normalised polynomial is normalised: its top
      coefficient squares to the (nonzero) top coefficient of a. */
  lemma RootNormalised(a: seq<int>, out: Outcome)
    requires |a| % 2 == 1 && Normalised(a)
    requires out.Ok? && IsSqrtRem(a, out)
    ensures Normalised(out.root) && out.root[|out.root| - 1] * out.root[|out.root| - 1] == a[|a| - 1]
  {
    var b := out.root;
    var n := |b|;
    assert Coef(a, 2 * n - 2) == Conv(b, b, 2 * n - 2) + Coef(out.rem[..|a| / 2], 2 * n - 2);
    ConvTop(b, b);
  }

  // ---------------------------------------------------------------------
  // The wrapper on fmpz_poly objects
  // ---------------------------------------------------------------------

  /** An `fmpz_poly_t`: its first `length` coefficients. */
  class FmpzPoly {
    var coeffs: seq<int>

    constructor ()
      ensures coeffs == []
    {
      coeffs := [];
    }
  }

  /** `fmpz_poly_sqrtrem_divconquer(b, r, a)`. The outcome depends only on
      the value of `a` on entry, also when `b` or `r` is the same object as
      `a`. */
  method SqrtRemPoly(b: FmpzPoly, r: FmpzPoly, a: FmpzPoly, cutoff: nat, classical: seq<int> -> Outcome)
    returns (result: bool)
    requires b != r
    requires cutoff >= 2 && ClassicalSound(classical)
    modifies b, r
    ensures |old(a.coeffs)| % 2 == 0 ==>
              b.coeffs == [] && r.coeffs == [] && (result <==> |old(a.coeffs)| == 0)
    ensures |old(a.coeffs)| % 2 == 1 ==>
              (result <==> SqrtRem(old(a.coeffs), cutoff, classical).Ok?)
    ensures |old(a.coeffs)| % 2 == 1 && !result ==> b.coeffs == []
    ensures |old(a.coeffs)| % 2 == 1 && result ==>
              var out := SqrtRem(old(a.coeffs), cutoff, classical);
              b.coeffs == out.root && r.coeffs == Normalise(out.rem[..|old(a.coeffs)| / 2])
    ensures result ==>
              && |b.coeffs| == RootLength(|old(a.coeffs)|)
              && |r.coeffs| <= |old(a.coeffs)| / 2
              && Normalised(r.coeffs)
              && SquarePlus(old(a.coeffs), b.coeffs, r.coeffs)
    ensures result && Normalised(old(a.coeffs)) ==> Normalised(b.coeffs)
    decreases if b == a then 1 else 0
  {
    var len := |a.coeffs|;
    if len % 2 == 0 {
      b.coeffs := [];
      r.coeffs := [];
      return len == 0;
    }
    if b == a {
      var tmp := new FmpzPoly();
      result := SqrtRemPoly(tmp, r, a, cutoff, classical);
      b.coeffs, tmp.coeffs := tmp.coeffs, b.coeffs;
      return;
    }
    var coeffs := a.coeffs;
    var out := Worker(coeffs, cutoff, classical);
    if out.Fail? {
      b.coeffs := [];
      result := false;
    } else {
      b.coeffs := out.root;
      r.coeffs := Normalise(out.rem[..len / 2]);
      SqrtRemSound(coeffs, cutoff, classical);
      forall k ensures Coef(coeffs, k) == Conv(out.root, out.root, k) + Coef(r.coeffs, k) {
        NormaliseCoef(out.rem[..len / 2], k);
      }
      if Normalised(coeffs) {
        RootNormalised(coeffs, out);
      }
      result := true;
    }
  }
}
