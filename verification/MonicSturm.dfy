/** The monic Sturm sequence of two polynomials over an exact number type
    (`Monic_Sturm_sequence::compute_sequence`): `p` and `q`, each divided by
    the absolute value of its leading coefficient, then negated remainders of
    the last two entries, normalised the same way, until a remainder vanishes. */
module MonicSturm {
  import opened Polynomials

  // ---------------------------------------------------------------------
  // Normalisation by the absolute value of the leading coefficient

  /** `1 / abs(p[p.degree()])`, the factor that normalises `p`. */
  function Factor(p: Poly): (c: real)
    requires !IsZero(p)
    ensures c > 0.0
  {
    1.0 / Abs(Lead(p))
  }

  /** `p / abs(p[p.degree()])`: the same polynomial up to a positive factor,
      with leading coefficient +1 or -1 of the sign of `p`'s. */
  function Monic(p: Poly): (r: Poly)
    requires !IsZero(p)
    ensures Degree(r) == Degree(p)
    ensures !IsZero(r) && Abs(Lead(r)) == 1.0
    ensures Lead(r) > 0.0 <==> Lead(p) > 0.0
  {
    ScaleDegree(Factor(p), p);
    UnitRatio(Lead(p), Factor(p));
    Scale(Factor(p), p)
  }

  /** A polynomial whose leading coefficient is +1 or -1. */
  predicate UnitLead(p: Poly)
  {
    !IsZero(p) && Abs(Lead(p)) == 1.0
  }

  lemma UnitRatio(l: real, c: real)
    requires l != 0.0 && c == 1.0 / Abs(l)
    ensures Abs(c * l) == 1.0
    ensures c * l > 0.0 <==> l > 0.0
  {
  }

  lemma FactorScale(c: real, r: Poly)
    requires c > 0.0
    requires !IsZero(r)
    ensures !IsZero(Scale(c, r))
    ensures Factor(Scale(c, r)) * c == Factor(r)
  {
    LeadScale(c, r);
    InverseProduct(c, Lead(r), Lead(Scale(c, r)), Factor(Scale(c, r)), Factor(r));
  }

  lemma InverseProduct(c: real, l: real, cl: real, f: real, g: real)
    requires c > 0.0 && l != 0.0 && cl == c * l
    requires f == 1.0 / Abs(cl) && g == 1.0 / Abs(l)
    ensures f * c == g
  {
    AbsPositiveFactor(c, l);
  }

  /** Any positive rescaling before the division is undone by it: whatever
      positive factor `normalize` applies to the remainder, the appended entry
      is the same. */
  lemma MonicScaleInvariant(c: real, r: Poly)
    requires c > 0.0
    requires !IsZero(r)
    ensures !IsZero(Scale(c, r))
    ensures Monic(Scale(c, r)) == Monic(r)
  {
    FactorScale(c, r);
    assert Scale(Factor(Scale(c, r)), Scale(c, r)) == Scale(Factor(r), r) by {
      ScaleScaleTo(Factor(Scale(c, r)), c, r, Factor(r));
    }
    MonicIsScale(Scale(c, r));
    MonicIsScale(r);
  }

  lemma MonicIsScale(p: Poly)
    requires !IsZero(p)
    ensures Monic(p) == Scale(Factor(p), p)
  {
  }

  /** Normalising twice gives what normalising once gives. */
  lemma MonicIdempotent(p: Poly)
    requires !IsZero(p)
    ensures Monic(Monic(p)) == Monic(p)
  {
    MonicScaleInvariant(Factor(p), p);
  }

  /** Negation keeps a leading coefficient of absolute value one. */
  lemma NegUnitLead(p: Poly)
    requires UnitLead(p)
    ensures UnitLead(Neg(p))
    ensures Degree(Neg(p)) == Degree(p)
  {
    NegDegree(p);
  }

  // ---------------------------------------------------------------------
  // What the computed sequence is

  /** The entries added before the loop: `p` if it is not zero, then `q`,
      then the negated first entry when `deg p < deg q`. */
  function Prefix(p: Poly, q: Poly): (s: seq<Poly>)
    requires !IsZero(q)
  {
    var head := if IsZero(p) then [] else [Monic(p)];
    var s := head + [Monic(q)];
    if Degree(p) < Degree(q) then s + [Neg(s[0])] else s
  }

  /** `c` is the entry one loop step appends after `a` and `b`: the negated
      remainder of `a` by `b`, which is not zero, normalised. */
  predicate Follows(a: Poly, b: Poly, c: Poly)
  {
    && !IsZero(b)
    && !IsZero(Neg(Remainder(a, b)))
    && c == Monic(Neg(Remainder(a, b)))
  }

  /** Every entry from index `from` on was appended by a loop step. */
  predicate Continues(s: seq<Poly>, from: nat)
  {
    forall i :: 2 <= from <= i < |s| ==> Follows(s[i - 2], s[i - 1], s[i])
  }

  /** The loop's exit condition holds of the last two entries. */
  predicate Exhausted(s: seq<Poly>)
  {
    && |s| >= 2
    && !IsZero(s[|s| - 1])
    && IsZero(Neg(Remainder(s[|s| - 2], s[|s| - 1])))
  }

  /** `s` is what `compute_sequence(p, q)` leaves in the sequence. */
  predicate IsMonicSturm(p: Poly, q: Poly, s: seq<Poly>)
  {
    if IsZero(q) then
      s == (if IsZero(p) then [] else [Monic(p)])
    else
      var pre := Prefix(p, q);
      && |pre| <= |s|
      && s[..|pre|] == pre
      && Continues(s, |pre|)
      && Exhausted(s)
  }

  lemma PrefixShape(p: Poly, q: Poly)
    requires !IsZero(q)
    ensures 2 <= |Prefix(p, q)| <= 3
    ensures forall e :: e in Prefix(p, q) ==> UnitLead(e)
    ensures IsZero(p) ==> Prefix(p, q) == [Monic(q), Neg(Monic(q))]
    ensures !IsZero(p) ==> Prefix(p, q)[0] == Monic(p) && Prefix(p, q)[1] == Monic(q)
    ensures |Prefix(p, q)| == 3 <==> !IsZero(p) && Degree(p) < Degree(q)
  {
    if IsZero(p) {
      NegUnitLead(Monic(q));
    } else if Degree(p) < Degree(q) {
      NegUnitLead(Monic(p));
    }
  }

  // ---------------------------------------------------------------------
  // The computation

  /** An appended entry has a unit leading coefficient and a degree below
      that of the entry before it. */
  lemma FollowsDegree(a: Poly, b: Poly, c: Poly)
    requires Follows(a, b, c)
    ensures UnitLead(c)
    ensures Degree(c) < Degree(b)
  {
    NegDegree(Remainder(a, b));
  }

  /** One loop step keeps the prefix and the chain. */
  lemma ExtendChain(s: seq<Poly>, pre: seq<Poly>, c: Poly)
    requires 2 <= |pre| <= |s|
    requires s[..|pre|] == pre
    requires Continues(s, |pre|)
    requires Follows(s[|s| - 2], s[|s| - 1], c)
    ensures (s + [c])[..|pre|] == pre
    ensures Continues(s + [c], |pre|)
  {
    assert (s + [c])[..|pre|] == s[..|pre|];
  }

  /** The loop's exit establishes the characterisation. */
  lemma Conclude(p: Poly, q: Poly, s: seq<Poly>)
    requires !IsZero(q)
    requires 2 <= |Prefix(p, q)| <= |s|
    requires s[..|Prefix(p, q)|] == Prefix(p, q)
    requires Continues(s, |Prefix(p, q)|)
    requires Exhausted(s)
    ensures IsMonicSturm(p, q, s)
  {
  }

  /** The entries `compute_sequence(p, q)` adds before its loop, with `size_`. */
  method AddLeading(p: Poly, q: Poly) returns (s: seq<Poly>, size: nat)
    ensures size == |s|
    ensures IsZero(q) ==> s == (if IsZero(p) then [] else [Monic(p)])
    ensures !IsZero(q) ==> s == Prefix(p, q)
  {
    s, size := [], 0;
    if Degree(p) >= 0 {
      s := s + [Monic(p)];
      size := size + 1;
    }
    if Degree(q) == -1 {
      return;
    }
    s := s + [Monic(q)];
    size := size + 1;
    if Degree(p) < Degree(q) {
      var r := Neg(s[0]);
      s := s + [r];
      size := size + 1;
    }
  }

  /** `compute_sequence(p, q)` on a freshly built sequence; returns the
      entries and `size_`. `normalize` is the identity here (see
      `MonicScaleInvariant` for any positive rescaling). */
  method ComputeSequence(p: Poly, q: Poly) returns (s: seq<Poly>, size: nat)
    ensures size == |s|
    ensures IsMonicSturm(p, q, s)
    ensures forall i :: 0 <= i < |s| ==> UnitLead(s[i])
    ensures IsZero(q) ==> size == (if IsZero(p) then 0 else 1)
    ensures !IsZero(q) ==> size >= 2
  {
    s, size := AddLeading(p, q);
    if IsZero(q) {
      return;
    }
    PrefixShape(p, q);
    ghost var pre := s;
    while true
      invariant size == |s| && 2 <= |pre| <= |s|
      invariant pre == Prefix(p, q)
      invariant s[..|pre|] == pre
      invariant Continues(s, |pre|)
      invariant forall i :: 0 <= i < |s| ==> UnitLead(s[i])
      decreases Degree(s[|s| - 1]) + 1
    {
      var r := Neg(Remainder(s[size - 2], s[size - 1]));
      if IsZero(r) {
        Conclude(p, q, s);
        break;
      }
      ExtendChain(s, pre, Monic(r));
      FollowsDegree(s[size - 2], s[size - 1], Monic(r));
      s := s + [Monic(r)];
      size := size + 1;
    }
  }

  // ---------------------------------------------------------------------
  // Properties of the sequence

  /** Every entry is non-zero with leading coefficient +1 or -1. */
  lemma EntriesUnitLead(p: Poly, q: Poly, s: seq<Poly>)
    requires IsMonicSturm(p, q, s)
    ensures forall i :: 0 <= i < |s| ==> UnitLead(s[i])
  {
    if !IsZero(q) {
      var pre := Prefix(p, q);
      PrefixShape(p, q);
      forall i | 0 <= i < |s|
        ensures UnitLead(s[i])
      {
        if i < |pre| {
          assert s[i] == pre[i];
        } else {
          FollowsDegree(s[i - 2], s[i - 1], s[i]);
        }
      }
    }
  }

  /** From the second entry on, degrees strictly decrease. */
  lemma DegreesDecrease(p: Poly, q: Poly, s: seq<Poly>, i: nat)
    requires IsMonicSturm(p, q, s)
    requires 1 <= i && i + 1 < |s|
    ensures Degree(s[i + 1]) < Degree(s[i])
  {
    var pre := Prefix(p, q);
    PrefixShape(p, q);
    if i + 1 < |pre| {
      assert s[i + 1] == pre[2] == Neg(Monic(p)) && s[i] == pre[1] == Monic(q);
      NegDegree(Monic(p));
    } else {
      FollowsDegree(s[i - 1], s[i], s[i + 1]);
    }
  }

  lemma EvalNeg(a: Poly, x: real)
    ensures Eval(Neg(a), x) == -Eval(a, x)
  {
    EvalScale(-1.0, a, x);
  }

  /** At a root of `b`, the entry appended after `a` and `b` has the sign
      opposite to `a`'s. */
  lemma FollowsAtRoot(a: Poly, b: Poly, c: Poly, x: real)
    requires Follows(a, b, c)
    requires Eval(b, x) == 0.0
    ensures Eval(c, x) > 0.0 <==> Eval(a, x) < 0.0
    ensures Eval(c, x) < 0.0 <==> Eval(a, x) > 0.0
  {
    var r := Remainder(a, b);
    RemainderAtRoot(a, b, x);
    EvalNeg(r, x);
    MonicIsScale(Neg(r));
    EvalScalePositive(Factor(Neg(r)), Neg(r), x);
  }

  /** The Sturm condition: where an inner entry vanishes, its two neighbours
      have opposite signs. */
  lemma SturmChain(p: Poly, q: Poly, s: seq<Poly>, i: nat, x: real)
    requires IsMonicSturm(p, q, s)
    requires 1 <= i && i + 1 < |s|
    requires Eval(s[i], x) == 0.0
    ensures Eval(s[i + 1], x) > 0.0 <==> Eval(s[i - 1], x) < 0.0
    ensures Eval(s[i + 1], x) < 0.0 <==> Eval(s[i - 1], x) > 0.0
  {
    var pre := Prefix(p, q);
    PrefixShape(p, q);
    if i + 1 < |pre| {
      assert s[i + 1] == pre[2] == Neg(pre[0]) && s[i - 1] == pre[0];
      EvalNeg(s[i - 1], x);
    } else {
      FollowsAtRoot(s[i - 1], s[i], s[i + 1], x);
    }
  }

  lemma MinusOneRatio(l: real, m: real, c: real)
    requires l != 0.0 && m == -1.0 * l && c * m == l
    ensures c == -1.0
  {
    assert (c + 1.0) * l == c * l + l;
    assert c * m == -(c * l);
    assert (c + 1.0) * l == 0.0;
  }

  /** A polynomial divided by its own negation leaves no remainder. */
  lemma RemainderByNegation(b: Poly)
    requires !IsZero(b)
    ensures !IsZero(Neg(b))
    ensures IsZero(Remainder(b, Neg(b)))
  {
    NegDegree(b);
    NegRatio(b);
    var st := Step(b, Neg(b), -1.0, 0);
    forall i | 0 <= i < |st|
      ensures st[i] == 0.0
    {
      StepByNegationAt(b, i);
    }
    DegreeBelow(st, 0);
    assert Remainder(b, Neg(b)) == Remainder(st, Neg(b));
  }

  lemma NegRatio(b: Poly)
    requires !IsZero(b)
    ensures !IsZero(Neg(b))
    ensures LeadRatio(b, Neg(b)) == -1.0
  {
    NegDegree(b);
    ScaleDegree(-1.0, b);
    MinusOneRatio(Lead(b), Lead(Neg(b)), LeadRatio(b, Neg(b)));
  }

  lemma StepByNegationAt(b: Poly, i: nat)
    ensures Coef(Step(b, Neg(b), -1.0, 0), i) == 0.0
  {
    StepCoef(b, Neg(b), -1.0, 0, i);
    ScaleCoef(-1.0, b, i);
  }

  /** The case the authors single out, `p = 0` and `q != 0`, yields exactly
      the normalised `q` followed by its negation. */
  lemma ZeroFirstOperand(p: Poly, q: Poly, s: seq<Poly>)
    requires IsZero(p) && !IsZero(q)
    requires IsMonicSturm(p, q, s)
    ensures s == [Monic(q), Neg(Monic(q))]
  {
    PrefixShape(p, q);
    RemainderByNegation(Monic(q));
    NegDegree(Remainder(Monic(q), Neg(Monic(q))));
    assert s[0] == Monic(q) && s[1] == Neg(Monic(q)) by {
      assert s[..2][0] == s[0] && s[..2][1] == s[1];
    }
    ContinuesAt(s, 2, 2);
    assert |s| == 2;
    assert s == s[..2];
  }

  /** The chain condition at one index. */
  lemma ContinuesAt(s: seq<Poly>, from: nat, i: nat)
    requires Continues(s, from)
    requires 2 <= from <= i
    ensures i < |s| ==> Follows(s[i - 2], s[i - 1], s[i])
  {
  }

  /** Entries agree below `k` when two sequences share a prefix and both
      continue by loop steps. */
  lemma {:induction false} AgreeUpTo(s: seq<Poly>, t: seq<Poly>, pre: seq<Poly>, k: nat)
    requires 2 <= |pre| <= k <= |s| && k <= |t|
    requires s[..|pre|] == pre && t[..|pre|] == pre
    requires Continues(s, |pre|) && Continues(t, |pre|)
    ensures forall j :: 0 <= j < k ==> s[j] == t[j]
    decreases k
  {
    if k > |pre| {
      AgreeUpTo(s, t, pre, k - 1);
      ContinuesAt(s, |pre|, k - 1);
      ContinuesAt(t, |pre|, k - 1);
    } else {
      forall j | 0 <= j < k
        ensures s[j] == t[j]
      {
        assert s[j] == s[..|pre|][j] && t[j] == t[..|pre|][j];
      }
    }
  }

  /** A sequence whose loop has stopped is not a proper prefix of one that
      continues by loop steps from the same prefix. */
  lemma StopsTogether(s: seq<Poly>, t: seq<Poly>, pre: seq<Poly>)
    requires 2 <= |pre| <= |s| <= |t|
    requires s[..|pre|] == pre && t[..|pre|] == pre
    requires Continues(s, |pre|) && Continues(t, |pre|)
    requires Exhausted(s)
    ensures t == s
  {
    var n := |s|;
    AgreeUpTo(s, t, pre, n);
    ContinuesAt(t, |pre|, n);
    assert |t| == n;
  }

  /** `compute_sequence` has exactly one possible outcome: the
      characterisation determines the sequence. */
  lemma MonicSturmUnique(p: Poly, q: Poly, s: seq<Poly>, t: seq<Poly>)
    requires IsMonicSturm(p, q, s) && IsMonicSturm(p, q, t)
    ensures s == t
  {
    if !IsZero(q) {
      var pre := Prefix(p, q);
      PrefixShape(p, q);
      if |s| <= |t| {
        StopsTogether(s, t, pre);
      } else {
        StopsTogether(t, s, pre);
      }
    }
  }
}
