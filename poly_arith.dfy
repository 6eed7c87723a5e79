/** Integer polynomials as coefficient sequences (lowest degree first), the
    coefficient-vector operations the divide-and-conquer square root calls,
    and the algebra needed to reason about products. Coefficients are
    arbitrary-precision integers, so Dafny's `int` is exact. */
module PolyArith {

  /** Coefficient `i` of `p`; zero outside the stored range (also for i < 0). */
  function Coef(p: seq<int>, i: int): int {
    if 0 <= i < |p| then p[i] else 0
  }

  /** Coefficient `k` of the product p * q: the sum of p[i] * q[k - i]. */
  function Conv(p: seq<int>, q: seq<int>, k: int): int
    decreases |p|
  {
    if |p| == 0 then 0 else p[0] * Coef(q, k) + Conv(p[1..], q, k - 1)
  }

  /** Polynomial product with the length `_fmpz_poly_mul` writes:
      len1 + len2 - 1 coefficients. */
  function Mul(p: seq<int>, q: seq<int>): (r: seq<int>)
    requires |p| >= 1 && |q| >= 1
    ensures |r| == |p| + |q| - 1
    ensures forall k {:trigger Coef(r, k)} :: Coef(r, k) == Conv(p, q, k)
  {
    var r := seq(|p| + |q| - 1, k requires 0 <= k < |p| + |q| - 1 => Conv(p, q, k));
    forall k ensures Coef(r, k) == Conv(p, q, k) {
      if k < 0 || k >= |r| { ConvOutside(p, q, k); }
    }
    r
  }

  /** `c * p`, coefficient by coefficient (`_fmpz_vec_scalar_mul_ui`). */
  function Scale(c: int, p: seq<int>): (r: seq<int>)
    ensures |r| == |p|
  {
    seq(|p|, i requires 0 <= i < |p| => c * p[i])
  }

  /** Scaling is coefficientwise: every coefficient of c p is c times that of p. */
  lemma ScaleCoef(c: int, p: seq<int>, k: int)
    ensures Coef(Scale(c, p), k) == c * Coef(p, k)
  {
  }

  /** `v` with the block `w` written at offset `off` (`_fmpz_vec_set` into `v + off`). */
  function Overwrite(v: seq<int>, off: nat, w: seq<int>): (u: seq<int>)
    requires off + |w| <= |v|
    ensures |u| == |v|
  {
    seq(|v|, i requires 0 <= i < |v| => if off <= i < off + |w| then w[i - off] else v[i])
  }

  /** `v` with `w` subtracted from the block at offset `off` (`_fmpz_vec_sub`). */
  function SubAt(v: seq<int>, off: nat, w: seq<int>): (u: seq<int>)
    requires off + |w| <= |v|
    ensures |u| == |v|
  {
    seq(|v|, i requires 0 <= i < |v| => if off <= i < off + |w| then v[i] - w[i - off] else v[i])
  }

  /** `v` with `c * w` subtracted from the block at offset `off`
      (`_fmpz_vec_scalar_submul_fmpz`). */
  function SubMulAt(v: seq<int>, off: nat, w: seq<int>, c: int): (u: seq<int>)
    requires off + |w| <= |v|
    ensures |u| == |v|
  {
    seq(|v|, i requires 0 <= i < |v| => if off <= i < off + |w| then v[i] - c * w[i - off] else v[i])
  }

  /** Writing a block keeps everything outside it and leaves exactly `w` inside. */
  lemma OverwriteSlices(v: seq<int>, off: nat, w: seq<int>)
    requires off + |w| <= |v|
    ensures var u := Overwrite(v, off, w);
      u[..off] == v[..off] && u[off..off + |w|] == w && u[off + |w|..] == v[off + |w|..]
  {
  }

  /** As polynomials, `SubAt` is v - x^off w. */
  lemma SubAtCoef(v: seq<int>, off: nat, w: seq<int>, k: int)
    requires off + |w| <= |v|
    ensures Coef(SubAt(v, off, w), k) == Coef(v, k) - Coef(w, k - off)
  {
  }

  /** As polynomials, `SubMulAt` is v - c x^off w. */
  lemma SubMulAtCoef(v: seq<int>, off: nat, w: seq<int>, c: int, k: int)
    requires off + |w| <= |v|
    ensures Coef(SubMulAt(v, off, w, c), k) == Coef(v, k) - c * Coef(w, k - off)
  {
  }

  /** A stored polynomial is normalised when it is empty or its top coefficient is nonzero. */
  predicate Normalised(p: seq<int>) {
    |p| == 0 || p[|p| - 1] != 0
  }

  /** `_fmpz_poly_normalise`: drop trailing zero coefficients. */
  function Normalise(p: seq<int>): (r: seq<int>)
    ensures |r| <= |p| && r == p[..|r|]
    ensures Normalised(r)
    ensures forall i :: |r| <= i < |p| ==> p[i] == 0
    decreases |p|
  {
    if |p| == 0 || p[|p| - 1] != 0 then p else Normalise(p[..|p| - 1])
  }

  /** Normalising does not change any coefficient. */
  lemma NormaliseCoef(p: seq<int>, k: int)
    ensures Coef(Normalise(p), k) == Coef(p, k)
  {
  }

  /** A quotient and a remainder. */
  datatype QuoRem = QuoRem(q: seq<int>, r: seq<int>)

  /** Floor of x / d, for either sign of d. */
  function FloorDiv(x: int, d: int): (q: int)
    requires d != 0
    ensures d > 0 ==> q * d <= x < q * d + d
    ensures d < 0 ==> q * d + d < x <= q * d
  {
    if d > 0 then x / d else (-x) / (-d)
  }

  /** Stand-in for `_fmpz_poly_divrem`: schoolbook division of `a` by `b`
      from the top, producing |a| - |b| + 1 quotient digits and a remainder
      of length |a|. A quotient digit is zero when the current top
      coefficient is smaller in absolute value than the divisor's leading
      coefficient and its floor quotient otherwise. */
  function DivRem(a: seq<int>, b: seq<int>): (res: QuoRem)
    requires |b| >= 1 && |a| >= |b| - 1
    ensures |res.q| == |a| - |b| + 1 && |res.r| == |a|
    decreases |a|
  {
    if |a| == |b| - 1 then QuoRem([], a)
    else
      var c := QuotientDigit(a[|a| - 1], b[|b| - 1]);
      var a' := SubShifted(a, c, b, |a| - |b|);
      var sub := DivRem(a'[..|a| - 1], b);
      QuoRem(sub.q + [c], sub.r + [a'[|a| - 1]])
  }

  /** One quotient digit of the schoolbook division. */
  function QuotientDigit(top: int, lead: int): int {
    if lead == 0 || Abs(top) < Abs(lead) then 0 else FloorDiv(top, lead)
  }

  /** a - c x^j b, keeping the length of a. */
  function SubShifted(a: seq<int>, c: int, b: seq<int>, j: int): (r: seq<int>)
    ensures |r| == |a|
  {
    seq(|a|, i requires 0 <= i < |a| => a[i] - c * Coef(b, i - j))
  }

  function Abs(x: int): nat {
    if x < 0 then -x else x
  }

  // ---------------------------------------------------------------------
  // Algebra of Conv
  // ---------------------------------------------------------------------

  /** The product has no coefficients below degree 0 or above |p| + |q| - 2. */
  lemma {:induction false} ConvOutside(p: seq<int>, q: seq<int>, k: int)
    requires k < 0 || k >= |p| + |q| - 1
    ensures Conv(p, q, k) == 0
    decreases |p|
  {
    if |p| > 0 {
      ConvOutside(p[1..], q, k - 1);
    }
  }

  /** Multiplying by the empty polynomial gives zero. */
  lemma {:induction false} ConvEmptyRight(p: seq<int>, k: int)
    ensures Conv(p, [], k) == 0
    decreases |p|
  {
    if |p| > 0 {
      ConvEmptyRight(p[1..], k - 1);
    }
  }

  lemma CoefAppend(t: seq<int>, s: seq<int>, k: int)
    ensures Coef(t + s, k) == Coef(t, k) + Coef(s, k - |t|)
  {
  }

  /** (t + x^|t| s) * q = t * q + x^|t| (s * q). */
  lemma {:induction false} ConvAppendLeft(t: seq<int>, s: seq<int>, q: seq<int>, k: int)
    ensures Conv(t + s, q, k) == Conv(t, q, k) + Conv(s, q, k - |t|)
    decreases |t|
  {
    if |t| == 0 {
      assert t + s == s;
    } else {
      assert (t + s)[0] == t[0];
      assert (t + s)[1..] == t[1..] + s;
      ConvAppendLeft(t[1..], s, q, k - 1);
    }
  }

  /** p * (t + x^|t| s) = p * t + x^|t| (p * s). */
  lemma {:induction false} ConvAppendRight(p: seq<int>, t: seq<int>, s: seq<int>, k: int)
    ensures Conv(p, t + s, k) == Conv(p, t, k) + Conv(p, s, k - |t|)
    decreases |p|
  {
    if |p| > 0 {
      CoefAppend(t, s, k);
      ConvAppendRight(p[1..], t, s, k - 1);
      assert p[0] * Coef(t + s, k) == p[0] * Coef(t, k) + p[0] * Coef(s, k - |t|);
    }
  }

  /** p * c = c p. */
  lemma {:induction false} ConvSingleRight(p: seq<int>, c: int, k: int)
    ensures Conv(p, [c], k) == c * Coef(p, k)
    decreases |p|
  {
    if |p| > 0 {
      ConvSingleRight(p[1..], c, k - 1);
      assert Coef(p, k) == if k == 0 then p[0] else Coef(p[1..], k - 1);
    }
  }

  /** Multiplication is commutative, coefficient by coefficient. */
  lemma {:induction false} ConvSymm(p: seq<int>, q: seq<int>, k: int)
    ensures Conv(p, q, k) == Conv(q, p, k)
    decreases |q|
  {
    if |q| == 0 {
      ConvEmptyRight(p, k);
    } else {
      assert q == [q[0]] + q[1..];
      ConvAppendRight(p, [q[0]], q[1..], k);
      ConvSingleRight(p, q[0], k);
      ConvSymm(p, q[1..], k - 1);
    }
  }

  /** (c p) * q = c (p * q). */
  lemma {:induction false} ConvScaleLeft(c: int, p: seq<int>, q: seq<int>, k: int)
    ensures Conv(Scale(c, p), q, k) == c * Conv(p, q, k)
    decreases |p|
  {
    if |p| > 0 {
      assert Scale(c, p)[1..] == Scale(c, p[1..]);
      ConvScaleLeft(c, p[1..], q, k - 1);
      calc {
        Conv(Scale(c, p), q, k);
        (c * p[0]) * Coef(q, k) + Conv(Scale(c, p[1..]), q, k - 1);
        (c * p[0]) * Coef(q, k) + c * Conv(p[1..], q, k - 1);
        { assert (c * p[0]) * Coef(q, k) == c * (p[0] * Coef(q, k)); }
        c * (p[0] * Coef(q, k) + Conv(p[1..], q, k - 1));
      }
    }
  }

  /** The top coefficient of a product is the product of the top coefficients. */
  lemma {:induction false} ConvTop(p: seq<int>, q: seq<int>)
    requires |p| >= 1 && |q| >= 1
    ensures Conv(p, q, |p| + |q| - 2) == p[|p| - 1] * q[|q| - 1]
    decreases |p|
  {
    if |p| == 1 {
      assert Conv(p[1..], q, |q| - 2) == 0;
    } else {
      ConvTop(p[1..], q);
    }
  }

  /** Squaring a split polynomial: (t + x^m s)^2 = t^2 + 2 x^m s t + x^(2m) s^2,
      where m = |t|. */
  lemma SquareSplit(t: seq<int>, s: seq<int>, k: int)
    ensures Conv(t + s, t + s, k)
         == Conv(t, t, k) + 2 * Conv(s, t, k - |t|) + Conv(s, s, k - 2 * |t|)
  {
    ConvAppendLeft(t, s, t + s, k);
    ConvAppendRight(t, t, s, k);
    ConvAppendRight(s, t, s, k - |t|);
    ConvSymm(t, s, k - |t|);
  }

  /** Every odd-index coefficient of the square of an integer polynomial is
      even: the cross terms b[i] b[j] and b[j] b[i] pair up, and no diagonal
      term b[i]^2 lands on an odd index. */
  lemma {:induction false} SquareOddCoefEven(b: seq<int>, k: int)
    requires k % 2 == 1
    ensures Conv(b, b, k) % 2 == 0
    decreases |b|
  {
    if k < 0 || |b| == 0 {
      ConvOutside(b, b, k);
    } else {
      var b' := b[1..];
      assert b == [b[0]] + b';
      ConvAppendRight(b', [b[0]], b', k - 1);
      ConvSingleRight(b', b[0], k - 1);
      assert Coef(b, k) == Coef(b', k - 1);
      SquareOddCoefEven(b', k - 2);
      var x := b[0] * Coef(b', k - 1);
      assert Conv(b, b, k) == 2 * x + Conv(b', b', k - 2);
    }
  }

  // ---------------------------------------------------------------------
  // Division
  // ---------------------------------------------------------------------

  /** The division identity a = b * q + r, coefficient by coefficient. */
  lemma {:induction false} DivRemIdentity(a: seq<int>, b: seq<int>, k: int)
    requires |b| >= 1 && |a| >= |b| - 1
    ensures Coef(a, k) == Conv(b, DivRem(a, b).q, k) + Coef(DivRem(a, b).r, k)
    decreases |a|
  {
    if |a| == |b| - 1 {
      ConvEmptyRight(b, k);
    } else {
      var j := |a| - |b|;
      var c := QuotientDigit(a[|a| - 1], b[|b| - 1]);
      var a' := SubShifted(a, c, b, j);
      var low := a'[..|a| - 1];
      var sub := DivRem(low, b);
      assert DivRem(a, b) == QuoRem(sub.q + [c], sub.r + [a'[|a| - 1]]);
      // the lower part, by induction
      DivRemIdentity(low, b, k);
      // b * (q' + x^j c) = b * q' + c x^j b
      ConvAppendRight(b, sub.q, [c], k);
      ConvSingleRight(b, c, k - j);
      if k >= |a| - 1 {
        ConvOutside(b, sub.q, k);
      }
      // the remainder and a' both split at the top coefficient
      CoefAppend(sub.r, [a'[|a| - 1]], k);
      assert a' == low + [a'[|a| - 1]];
      CoefAppend(low, [a'[|a| - 1]], k);
      // a' = a - c x^j b
      SubShiftedCoef(a, c, b, j, k);
    }
  }

  lemma SubShiftedCoef(a: seq<int>, c: int, b: seq<int>, j: int, k: int)
    requires 0 <= j && |a| == |b| + j
    ensures Coef(a, k) == Coef(SubShifted(a, c, b, j), k) + c * Coef(b, k - j)
  {
  }

  /** A quotient digit taken from an exact multiple of the leading
      coefficient is that multiple. */
  lemma QuotientDigitExact(lead: int, x: int)
    requires lead != 0
    ensures QuotientDigit(lead * x, lead) == x
  {
    if x != 0 {
      AbsMulAtLeast(lead, x);
      if lead > 0 {
        DivMulCancel(lead, x);
      } else {
        assert -(lead * x) == (-lead) * x;
        DivMulCancel(-lead, x);
      }
    }
  }

  /** |d x| >= |d| when x is nonzero. */
  lemma AbsMulAtLeast(d: int, x: int)
    requires x != 0
    ensures Abs(d * x) >= Abs(d)
  {
    if d >= 0 && x > 0 {
      assert d * x == d + d * (x - 1);
    } else if d >= 0 {
      assert -(d * x) == d + d * (-x - 1);
    } else if x > 0 {
      assert -(d * x) == -d + (-d) * (x - 1);
    } else {
      assert d * x == -d + (-d) * (-x - 1);
    }
  }

  /** (d x) / d == x for positive d. */
  lemma DivMulCancel(d: int, x: int)
    requires d > 0
    ensures (d * x) / d == x
  {
    var q, r := (d * x) / d, (d * x) % d;
    MulSmall(d, x - q, r);
  }

  /** A multiple of a positive d that lies in [0, d) is zero. */
  lemma MulSmall(d: int, e: int, r: int)
    requires d > 0 && 0 <= r < d && d * e == r
    ensures e == 0
  {
    MulMonotone(d, e);
  }

  /** d e is at least d for e >= 1 and at most -d for e <= -1. */
  lemma MulMonotone(d: int, e: int)
    requires d > 0
    ensures e >= 1 ==> d * e >= d
    ensures e <= -1 ==> d * e <= -d
  {
  }

  /** Exact division: when the top coefficients of a, from index |b| - 1
      on, are those of b * t and the divisor's leading coefficient is
      nonzero, DivRem finds the quotient t and leaves a remainder that is
      zero from index |b| - 1 on. */
  lemma {:induction false} DivRemExact(a: seq<int>, b: seq<int>, t: seq<int>)
    requires |b| >= 1 && b[|b| - 1] != 0
    requires |a| + 1 == |b| + |t|
    requires forall k {:trigger Coef(a, k)} :: k >= |b| - 1 ==> Coef(a, k) == Conv(b, t, k)
    ensures DivRem(a, b).q == t
    ensures forall i :: |b| - 1 <= i < |a| ==> DivRem(a, b).r[i] == 0
    decreases |a|
  {
    if |a| > |b| - 1 {
      var j := |a| - |b|;
      var lead, ttop := b[|b| - 1], t[|t| - 1];
      var t' := t[..|t| - 1];
      assert t == t' + [ttop];
      // the top coefficient is lead * ttop, so the digit is ttop
      assert a[|a| - 1] == Coef(a, |a| - 1) == Conv(b, t, |b| + |t| - 2);
      ConvTop(b, t);
      QuotientDigitExact(lead, ttop);
      var c := QuotientDigit(a[|a| - 1], lead);
      assert c == ttop;
      var a' := SubShifted(a, c, b, j);
      var low := a'[..|a| - 1];
      var sub := DivRem(low, b);
      assert DivRem(a, b) == QuoRem(sub.q + [c], sub.r + [a'[|a| - 1]]);
      // a' = a - c x^j b agrees with b * t' from index |b| - 1 on
      forall k | k >= |b| - 1
        ensures Coef(a', k) == Conv(b, t', k)
      {
        SubShiftedCoef(a, c, b, j, k);
        ConvAppendRight(b, t', [ttop], k);
        ConvSingleRight(b, ttop, k - j);
      }
      forall k {:trigger Coef(low, k)} | k >= |b| - 1
        ensures Coef(low, k) == Conv(b, t', k)
      {
        if k >= |a| - 1 {
          ConvOutside(b, t', k);
        } else {
          assert Coef(low, k) == Coef(a', k);
        }
      }
      DivRemExact(low, b, t');
      assert a'[|a| - 1] == Coef(a', |a| - 1) == Conv(b, t', |a| - 1);
      ConvOutside(b, t', |a| - 1);
    }
  }
}
