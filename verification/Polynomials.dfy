/** Dense univariate polynomials over an exact field, modelled with Dafny's
    `real`.  Coefficient `p[i]` belongs to `x^i`; trailing zero coefficients
    are allowed, so one polynomial has many representations and the degree is
    computed, with -1 for the zero polynomial (as in the kernel's
    `Polynomial::degree()`). */
module Polynomials {

  type Poly = seq<real>

  function Abs(x: real): (r: real)
    ensures r >= 0.0
    ensures r == x || r == -x
  {
    if x < 0.0 then -x else x
  }

  function Max(a: nat, b: nat): nat
  {
    if a < b then b else a
  }

  /** Coefficient of `x^i`, zero past the stored coefficients. */
  function Coef(p: Poly, i: int): real
  {
    if 0 <= i < |p| then p[i] else 0.0
  }

  /** The index of the highest non-zero coefficient, or -1 when there is none. */
  function Degree(p: Poly): (d: int)
    ensures -1 <= d < |p|
    ensures d >= 0 ==> p[d] != 0.0
    ensures forall i :: d < i < |p| ==> p[i] == 0.0
  {
    if |p| == 0 then -1
    else if p[|p| - 1] != 0.0 then |p| - 1
    else Degree(p[..|p| - 1])
  }

  predicate IsZero(p: Poly)
  {
    Degree(p) == -1
  }

  /** Leading coefficient `p[p.degree()]`. */
  function Lead(p: Poly): real
    requires !IsZero(p)
  {
    p[Degree(p)]
  }

  /** Multiplication of every coefficient by `c`. */
  function Scale(c: real, p: Poly): (r: Poly)
    ensures |r| == |p|
  {
    seq(|p|, i requires 0 <= i < |p| => c * p[i])
  }

  /** Unary minus of the kernel's polynomial type. */
  function Neg(p: Poly): Poly
  {
    Scale(-1.0, p)
  }

  /** Coefficient-wise sum of two polynomials of possibly different lengths. */
  function Add(a: Poly, b: Poly): (r: Poly)
    ensures |r| == Max(|a|, |b|)
  {
    seq(Max(|a|, |b|), i => Coef(a, i) + Coef(b, i))
  }

  function Sub(a: Poly, b: Poly): Poly
  {
    Add(a, Neg(b))
  }

  /** Multiplication by `x^k`: `k` zero coefficients in front. */
  function Shift(k: nat, p: Poly): (r: Poly)
    ensures |r| == k + |p|
  {
    seq(k + |p|, i => if i < k then 0.0 else Coef(p, i - k))
  }

  function Pow(x: real, k: nat): real
  {
    if k == 0 then 1.0 else x * Pow(x, k - 1)
  }

  /** Value of `p` at `x`, by Horner's rule. */
  function Eval(p: Poly, x: real): real
  {
    if |p| == 0 then 0.0 else p[0] + x * Eval(p[1..], x)
  }

  // ---------------------------------------------------------------------
  // Coefficients of the operations

  lemma ScaleCoef(c: real, p: Poly, i: int)
    ensures Coef(Scale(c, p), i) == c * Coef(p, i)
  {
  }

  lemma AddCoef(a: Poly, b: Poly, i: int)
    ensures Coef(Add(a, b), i) == Coef(a, i) + Coef(b, i)
  {
  }

  lemma ShiftCoef(k: nat, p: Poly, i: int)
    ensures Coef(Shift(k, p), i) == if i < k then 0.0 else Coef(p, i - k)
  {
  }

  // ---------------------------------------------------------------------
  // Degree facts

  /** The degree is the only index that has the shape `Degree` promises. */
  lemma DegreeUnique(p: Poly, d: int)
    requires -1 <= d < |p|
    requires d >= 0 ==> p[d] != 0.0
    requires forall i :: d < i < |p| ==> p[i] == 0.0
    ensures Degree(p) == d
  {
  }

  /** Every coefficient from index `n` on vanishes, so the degree is below `n`. */
  lemma DegreeBelow(p: Poly, n: nat)
    requires forall i :: n <= i < |p| ==> p[i] == 0.0
    ensures Degree(p) < n
  {
  }

  /** A non-zero factor changes neither the degree nor, up to that factor,
      the leading coefficient. */
  lemma ScaleDegree(c: real, p: Poly)
    requires c != 0.0
    ensures Degree(Scale(c, p)) == Degree(p)
    ensures !IsZero(p) ==> Lead(Scale(c, p)) == c * Lead(p)
  {
    var s := Scale(c, p);
    var d := Degree(p);
    forall i | d < i < |s|
      ensures s[i] == 0.0
    {
      ScaleCoef(c, p, i);
      assert p[i] == 0.0;
    }
    if d >= 0 {
      ScaleCoef(c, p, d);
    }
    DegreeUnique(s, d);
  }

  lemma NegDegree(p: Poly)
    ensures Degree(Neg(p)) == Degree(p)
    ensures IsZero(Neg(p)) <==> IsZero(p)
    ensures !IsZero(p) ==> Lead(Neg(p)) == -Lead(p)
  {
    ScaleDegree(-1.0, p);
  }

  lemma ScaleAt(c: real, p: Poly, i: nat)
    requires i < |p|
    ensures Scale(c, p)[i] == c * p[i]
  {
    ScaleCoef(c, p, i);
  }

  /** Scaling twice is scaling by the product. */
  lemma ScaleScale(a: real, b: real, p: Poly)
    ensures Scale(a, Scale(b, p)) == Scale(a * b, p)
  {
    forall i | 0 <= i < |p|
      ensures Scale(a, Scale(b, p))[i] == Scale(a * b, p)[i]
    {
      ScaleScaleAt(a, b, p, i);
    }
  }

  lemma ScaleScaleAt(a: real, b: real, p: Poly, i: nat)
    requires i < |p|
    ensures Scale(a, Scale(b, p))[i] == Scale(a * b, p)[i]
  {
    ScaleAt(b, p, i);
    ScaleAt(a, Scale(b, p), i);
    ScaleAt(a * b, p, i);
    Associate(a, b, p[i], Scale(b, p)[i], Scale(a, Scale(b, p))[i], Scale(a * b, p)[i]);
  }

  lemma Associate(a: real, b: real, x: real, y: real, z: real, w: real)
    requires y == b * x && z == a * y && w == (a * b) * x
    ensures z == w
  {
  }

  lemma AbsPositiveFactor(c: real, l: real)
    requires c > 0.0
    ensures Abs(c * l) == c * Abs(l)
  {
    if l < 0.0 {
      assert c * l < 0.0;
    } else {
      assert c * l >= 0.0;
    }
  }

  lemma ScaleScaleTo(a: real, b: real, p: Poly, d: real)
    requires a * b == d
    ensures Scale(a, Scale(b, p)) == Scale(d, p)
  {
    ScaleScale(a, b, p);
  }

  lemma LeadScale(c: real, r: Poly)
    requires c > 0.0
    requires !IsZero(r)
    ensures !IsZero(Scale(c, r))
    ensures Lead(Scale(c, r)) == c * Lead(r)
    ensures Lead(r) != 0.0
  {
    ScaleDegree(c, r);
  }

  // ---------------------------------------------------------------------
  // Evaluation respects the operations used here

  lemma {:induction false} EvalAdd(a: Poly, b: Poly, x: real)
    ensures Eval(Add(a, b), x) == Eval(a, x) + Eval(b, x)
    decreases |a|
  {
    var s := Add(a, b);
    if |a| == 0 {
      assert s == b;
    } else if |b| == 0 {
      assert s == a;
    } else {
      assert s[1..] == Add(a[1..], b[1..]);
      EvalAdd(a[1..], b[1..], x);
      SumStep(a[0], b[0], Eval(a[1..], x), Eval(b[1..], x), x);
    }
  }

  lemma SumStep(a0: real, b0: real, ea: real, eb: real, x: real)
    ensures (a0 + b0) + x * (ea + eb) == (a0 + x * ea) + (b0 + x * eb)
  {
  }

  lemma {:induction false} EvalScale(c: real, p: Poly, x: real)
    ensures Eval(Scale(c, p), x) == c * Eval(p, x)
    decreases |p|
  {
    if |p| > 0 {
      var s := Scale(c, p);
      forall j | 0 <= j < |p| - 1
        ensures s[1..][j] == Scale(c, p[1..])[j]
      {
        assert s[1..][j] == s[j + 1] == c * p[j + 1];
      }
      assert s[1..] == Scale(c, p[1..]);
      EvalScale(c, p[1..], x);
      ScaleStep(c, p[0], Eval(p[1..], x), x);
    }
  }

  lemma ScaleStep(c: real, p0: real, e: real, x: real)
    ensures c * p0 + x * (c * e) == c * (p0 + x * e)
  {
  }

  lemma EvalSub(a: Poly, b: Poly, x: real)
    ensures Eval(Sub(a, b), x) == Eval(a, x) - Eval(b, x)
  {
    EvalAdd(a, Neg(b), x);
    EvalScale(-1.0, b, x);
  }

  lemma {:induction false} EvalShift(k: nat, p: Poly, x: real)
    ensures Eval(Shift(k, p), x) == Pow(x, k) * Eval(p, x)
    decreases k
  {
    var s := Shift(k, p);
    if k == 0 {
      forall i | 0 <= i < |p|
        ensures s[i] == p[i]
      {
        ShiftCoef(k, p, i);
        assert Coef(s, i) == Coef(p, i);
      }
      assert s == p;
    } else {
      assert s[1..] == Shift(k - 1, p);
      EvalShift(k - 1, p, x);
      ShiftStep(Pow(x, k - 1), Eval(p, x), x);
    }
  }

  lemma ShiftStep(pk: real, e: real, x: real)
    ensures 0.0 + x * (pk * e) == (x * pk) * e
  {
  }

  /** Dividing the coefficients by a positive number keeps the sign of every
      value, which is all a Sturm sequence is read for. */
  lemma EvalScalePositive(c: real, p: Poly, x: real)
    requires c > 0.0
    ensures Eval(Scale(c, p), x) > 0.0 <==> Eval(p, x) > 0.0
    ensures Eval(Scale(c, p), x) < 0.0 <==> Eval(p, x) < 0.0
  {
    EvalScale(c, p, x);
  }

  // ---------------------------------------------------------------------
  // Euclidean division

  /** The factor that makes the leading terms of `a` and `b` agree. */
  function LeadRatio(a: Poly, b: Poly): (c: real)
    requires !IsZero(a) && !IsZero(b)
    ensures c * Lead(b) == Lead(a)
  {
    Lead(a) / Lead(b)
  }

  /** One step of long division: subtract `c * x^k * b` from `a`. */
  function Step(a: Poly, b: Poly, c: real, k: nat): Poly
  {
    Sub(a, Scale(c, Shift(k, b)))
  }

  lemma StepCoef(a: Poly, b: Poly, c: real, k: nat, i: int)
    ensures Coef(Step(a, b, c, k), i) == Coef(a, i) - c * (if i < k then 0.0 else Coef(b, i - k))
  {
    var s := Shift(k, b);
    AddCoef(a, Neg(Scale(c, s)), i);
    ScaleCoef(-1.0, Scale(c, s), i);
    ScaleCoef(c, s, i);
    ShiftCoef(k, b, i);
  }

  /** With the leading-term ratio and the degree gap, one step of long
      division cancels the leading term of `a`. */
  lemma StepDegree(a: Poly, b: Poly)
    requires !IsZero(b)
    requires Degree(a) >= Degree(b)
    ensures Degree(Step(a, b, LeadRatio(a, b), Degree(a) - Degree(b))) < Degree(a)
  {
    var k := Degree(a) - Degree(b);
    var c := LeadRatio(a, b);
    var r := Step(a, b, c, k);
    forall i | Degree(a) <= i < |r|
      ensures r[i] == 0.0
    {
      StepCoef(a, b, c, k, i);
      if i == Degree(a) {
        assert Coef(b, i - k) == Lead(b);
      } else {
        assert Coef(a, i) == 0.0;
        assert Coef(b, i - k) == 0.0;
      }
    }
    DegreeBelow(r, Degree(a));
  }

  /** Remainder of `a` divided by `b`, as the kernel's `remainder_object`
      computes it over an exact number type. */
  function Remainder(a: Poly, b: Poly): (r: Poly)
    requires !IsZero(b)
    ensures Degree(r) < Degree(b)
    decreases Degree(a) + 1
  {
    if Degree(a) < Degree(b) then a
    else
      StepDegree(a, b);
      Remainder(Step(a, b, LeadRatio(a, b), Degree(a) - Degree(b)), b)
  }

  /** At a root of the divisor, the remainder takes the value of the dividend:
      the property of polynomial remainders that Sturm sequences rely on. */
  lemma {:induction false} RemainderAtRoot(a: Poly, b: Poly, x: real)
    requires !IsZero(b)
    requires Eval(b, x) == 0.0
    ensures Eval(Remainder(a, b), x) == Eval(a, x)
    decreases Degree(a) + 1
  {
    if Degree(a) >= Degree(b) {
      var st := StepAtRoot(a, b, x);
      RemainderAtRoot(st, b, x);
    }
  }

  /** One step of the remainder computation, at a root of the divisor: the
      step lowers the degree, leads to the same remainder and keeps the value. */
  lemma StepAtRoot(a: Poly, b: Poly, x: real) returns (st: Poly)
    requires !IsZero(b)
    requires Degree(a) >= Degree(b)
    requires Eval(b, x) == 0.0
    ensures Degree(st) < Degree(a)
    ensures Remainder(a, b) == Remainder(st, b)
    ensures Eval(st, x) == Eval(a, x)
  {
    var c := LeadRatio(a, b);
    var k := Degree(a) - Degree(b);
    st := Step(a, b, c, k);
    assert Degree(st) < Degree(a) && Remainder(a, b) == Remainder(st, b) by {
      StepDegree(a, b);
    }
    assert Eval(st, x) == Eval(a, x) by {
      EvalStepAtRoot(a, b, c, k, x);
    }
  }

  lemma EvalStepAtRoot(a: Poly, b: Poly, c: real, k: nat, x: real)
    requires Eval(b, x) == 0.0
    ensures Eval(Step(a, b, c, k), x) == Eval(a, x)
  {
    EvalStep(a, b, c, k, x);
    ZeroProduct(c, Pow(x, k));
  }

  lemma ZeroProduct(c: real, pk: real)
    ensures c * (pk * 0.0) == 0.0
  {
  }

  lemma EvalStep(a: Poly, b: Poly, c: real, k: nat, x: real)
    ensures Eval(Step(a, b, c, k), x) == Eval(a, x) - c * (Pow(x, k) * Eval(b, x))
  {
    EvalSub(a, Scale(c, Shift(k, b)), x);
    EvalScaledShift(b, c, k, x);
  }

  lemma EvalScaledShift(b: Poly, c: real, k: nat, x: real)
    ensures Eval(Scale(c, Shift(k, b)), x) == c * (Pow(x, k) * Eval(b, x))
  {
    EvalScale(c, Shift(k, b), x);
    EvalShift(k, b, x);
  }
}
