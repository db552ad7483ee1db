/** Lagrange coefficients at zero (src/utils.rs) and the interpolation theorem they serve. */
module Lagrange {
  import opened PrimeField
  import opened Sums
  import opened Polynomials

  /** An identifier as a scalar; distinct identifiers stay distinct because Q exceeds 65535. */
  function FromId(i: Identifier): Scalar {
    i
  }

  ghost function Over(a: Scalar, b: Scalar): Scalar {
    if b == 0 then 0 else Mul(a, Inverse(b))
  }

  /** The factor j / (j - i) that signer j contributes to the coefficient of signer i. */
  ghost function Factor(i: Identifier, j: Identifier): Scalar {
    if j == i then 1 else Over(FromId(j), Sub(FromId(j), FromId(i)))
  }

  /** The coefficient of signer i: the product of the quotients j / (j - i) over the other signers. */
  ghost function Coefficient(i: Identifier, ids: seq<Identifier>): Scalar
    decreases |ids|
  {
    if |ids| == 0 then 1
    else Mul(Coefficient(i, ids[..|ids| - 1]), Factor(i, ids[|ids| - 1]))
  }

  lemma CoefficientStep(i: Identifier, ids: seq<Identifier>, k: nat)
    requires k < |ids|
    ensures Coefficient(i, ids[..k + 1]) == Mul(Coefficient(i, ids[..k]), Factor(i, ids[k]))
  {
    hide Mul;
    assert ids[..k + 1][..k] == ids[..k];
  }

  lemma OverTimes(a: Scalar, b: Scalar)
    requires b != 0
    ensures Mul(b, Over(a, b)) == a
  {
    hide Mod, Mul, Inverse;
    var r := Inverse(b);
    MulComm(b, r);
    MulComm(a, r);
    MulAssoc(b, r, a);
    MulOne(a);
  }

  /** The single-inversion loop: the denominator never vanishes, so the inversion cannot fail. */
  method LagrangeCoefficient(i: Identifier, signerSet: seq<Identifier>) returns (r: Scalar)
    ensures r == Coefficient(i, signerSet)
  {
    hide Mod, Mul, Sub, Over;
    var iS := FromId(i);
    var num, den := 1, 1;
    MulOne(1);
    for k := 0 to |signerSet|
      invariant den != 0
      invariant Mul(den, Coefficient(i, signerSet[..k])) == num
    {
      var j := signerSet[k];
      CoefficientStep(i, signerSet, k);
      if j == i {
        MulOne(Coefficient(i, signerSet[..k]));
        continue;
      }
      var jS := FromId(j);
      SubZeroIffEqual(jS, iS);
      NoZeroDivisors(den, Sub(jS, iS));
      OverTimes(jS, Sub(jS, iS));
      QuotientStep(den, Coefficient(i, signerSet[..k]), Sub(jS, iS), Factor(i, j));
      num := Mul(num, jS);
      den := Mul(den, Sub(jS, iS));
    }
    TakeAll(signerSet);
    var inverse := Invert(den);
    r := Mul(num, inverse.value);
    MulComm(den, Coefficient(i, signerSet));
    MulAssoc(Coefficient(i, signerSet), den, inverse.value);
    MulOne(Coefficient(i, signerSet));
  }

  lemma QuotientStep(den: Scalar, p: Scalar, d: Scalar, t: Scalar)
    ensures Mul(Mul(den, d), Mul(p, t)) == Mul(Mul(den, p), Mul(d, t))
  {
    hide Mod, Mul;
    MulAssoc(den, d, Mul(p, t));
    MulAssoc(d, p, t);
    MulComm(d, p);
    MulAssoc(p, d, t);
    MulAssoc(den, p, Mul(d, t));
  }

  // ---------- interpolation at zero ----------

  ghost function Coefficients(ids: seq<Identifier>): Identifier -> Scalar {
    (i: Identifier) => Coefficient(i, ids)
  }

  /** The share of each signer under the polynomial c, weighted by its coefficient. */
  ghost function Weighted(ids: seq<Identifier>, c: seq<Scalar>): Identifier -> Scalar {
    (i: Identifier) => Mul(Coefficient(i, ids), Eval(c, FromId(i)))
  }

  function Points(ids: seq<Identifier>): (xs: seq<Scalar>)
    ensures |xs| == |ids|
  {
    seq(|ids|, k requires 0 <= k < |ids| => FromId(ids[k]))
  }

  /** Dividing by the last point leaves the same relation between the shorter list and the quotient. */
  lemma InterpolationStep(ids: seq<Identifier>, c: seq<Scalar>)
    requires Distinct(ids) && |ids| >= 1 && |c| >= 1
    ensures var n := |ids| - 1;
            var v, g, minusA := Eval(c, ids[n]), Quotient(c, ids[n]), Sub(0, ids[n]);
            && Sum(ids, Weighted(ids, c)) == Add(v, Mul(minusA, Sum(ids[..n], Weighted(ids[..n], g))))
            && Eval(c, 0) == Add(v, Mul(minusA, Eval(g, 0)))
    decreases |ids|, 1
  {
    hide Mod, Add, Sub, Mul, Coefficient, Over;
    var n := |ids| - 1;
    var init, a := ids[..n], ids[n];
    var v, g := Eval(c, a), Quotient(c, a);
    var minusA := Sub(0, a);
    DivisionIsExact(c, a);
    CoefficientsSumToOne(ids);
    EvalExpand(v, a, g, 0);
    // the part of each weighted share that does not come from the value at a
    var rest := (i: Identifier) => Mul(Coefficient(i, ids), Mul(Sub(i, a), Eval(g, i)));
    forall i | i in ids
      ensures Weighted(ids, c)(i) == Add(rest(i), Mul(v, Coefficients(ids)(i)))
    {
      EvalExpand(v, a, g, i);
      SplitTerm(Coefficient(i, ids), v, Mul(Sub(i, a), Eval(g, i)));
    }
    SumLinear(ids, Weighted(ids, c), rest, v, Coefficients(ids));
    forall i | i in init
      ensures rest(i) == Mul(minusA, Weighted(init, g)(i))
    {
      SplitCoefficient(ids, i);
      SubZeroIffEqual(a, i);
      OverTimes(a, Sub(a, i));
      RestTerm(Coefficient(i, init), a, i, Over(a, Sub(a, i)), Eval(g, i));
    }
    SumScale(init, rest, minusA, Weighted(init, g));
    SubZeroIffEqual(a, a);
    MulZero(Eval(g, a));
    MulZero(Coefficient(a, ids));
    AddZero(Sum(init, rest));
    MulOne(v);
    MulComm(v, 1);
    CommuteAdd(Sum(ids, rest), v);
  }

  /** Any signer set at least as large as the coefficient vector reconstructs the constant term. */
  lemma {:induction false} InterpolationAtZero(ids: seq<Identifier>, c: seq<Scalar>)
    requires Distinct(ids) && |c| <= |ids|
    ensures Sum(ids, Weighted(ids, c)) == Eval(c, 0)
    decreases |ids|, 2
  {
    hide Mod, Add, Sub, Mul, Coefficient, Over;
    if |c| == 0 {
      forall i | i in ids
        ensures Weighted(ids, c)(i) == 0
      {
        MulZero(Coefficient(i, ids));
      }
      SumZero(ids, Weighted(ids, c));
    } else {
      InterpolationStep(ids, c);
      InterpolationAtZero(ids[..|ids| - 1], Quotient(c, ids[|ids| - 1]));
    }
  }

  /** One signer short, the weighted shares miss the constant term, unless the leading coefficient is zero. */
  lemma {:induction false} OneShortOfInterpolation(ids: seq<Identifier>, c: seq<Scalar>)
    requires Distinct(ids) && 0 !in ids && |c| == |ids| + 1
    ensures Sum(ids, Weighted(ids, c)) == Eval(c, 0) <==> c[|ids|] == 0
  {
    hide Mod, Add, Sub, Mul, Coefficient, Over, Eval;
    if |ids| == 0 {
      EvalAtZero(c);
    } else {
      var n := |ids| - 1;
      var a, g := ids[n], Quotient(c, ids[n]);
      InterpolationStep(ids, c);
      OneShortOfInterpolation(ids[..n], g);
      LastOfQuotient(c, a);
      SubZeroIffEqual(0, a);
      if Sum(ids, Weighted(ids, c)) == Eval(c, 0) {
        CancelAffine(Eval(c, a), Sub(0, a), Sum(ids[..n], Weighted(ids[..n], g)), Eval(g, 0));
      }
    }
  }

  lemma CommuteAdd(a: Scalar, b: Scalar)
    ensures Add(a, b) == Add(b, a)
  {
  }

  lemma SplitTerm(l: Scalar, v: Scalar, w: Scalar)
    ensures Mul(l, Add(v, w)) == Add(Mul(l, w), Mul(v, l))
  {
    hide Mod, Add, Mul;
    Lift();
    Rep(l); Rep(v); Rep(w);
    assert l * (v + w) == l * w + v * l;
  }

  lemma SplitCoefficient(ids: seq<Identifier>, i: Identifier)
    requires |ids| > 0 && Distinct(ids) && i in ids[..|ids| - 1]
    ensures var a := ids[|ids| - 1];
            i != a && Coefficient(i, ids) == Mul(Coefficient(i, ids[..|ids| - 1]), Over(a, Sub(a, i)))
  {
    hide Mod, Sub, Mul, Over;
    CoefficientStep(i, ids, |ids| - 1);
    TakeAll(ids);
  }

  /** With t == a / (a - i): (m * t) * ((i - a) * e) == -a * (m * e). */
  lemma RestTerm(m: Scalar, a: Scalar, i: Scalar, t: Scalar, e: Scalar)
    requires Mul(Sub(a, i), t) == a
    ensures Mul(Mul(m, t), Mul(Sub(i, a), e)) == Mul(Sub(0, a), Mul(m, e))
  {
    hide Mod, Sub, Mul;
    QuotientStep(m, e, t, Sub(i, a));
    MulComm(Sub(i, a), e);
    assert Mul(t, Sub(i, a)) == Sub(0, a) by {
      Lift();
      Rep(a); Rep(i); Rep(t); Rep(0);
      assert t * (i - a) == 0 - (a - i) * t;
    }
    MulComm(Mul(m, e), Sub(0, a));
  }

  /** The coefficients of a nonempty signer set sum to one. */
  lemma {:induction false} CoefficientsSumToOne(ids: seq<Identifier>)
    requires Distinct(ids) && |ids| >= 1
    ensures Sum(ids, Coefficients(ids)) == 1
    decreases |ids|, 0
  {
    hide Mod, Add, Sub, Mul, Coefficient, Over;
    var n := |ids| - 1;
    var init, a := ids[..n], ids[n];
    var nodes := Vanishing(Points(init));
    var na, n0 := Eval(nodes, a), Eval(nodes, 0);
    var p := Quotient(nodes, a);
    DivisionIsExact(nodes, a);
    InterpolationAtZero(init, p);
    EvalExpand(na, a, p, 0);
    var terms := (i: Identifier) => Mul(na, Coefficient(i, ids));
    forall i | i in init
      ensures terms(i) == Mul(a, Weighted(init, p)(i))
    {
      SplitCoefficient(ids, i);
      SubZeroIffEqual(a, i);
      OverTimes(a, Sub(a, i));
      EvalExpand(na, a, p, i);
      assert Points(init)[IndexOf(init, i)] == i;
      VanishingZeroIff(Points(init), i);
      UnityTerm(na, Coefficient(i, init), a, i, Over(a, Sub(a, i)), Eval(p, i));
    }
    SumScale(init, terms, na, Coefficients(ids));
    SumScale(init, terms, a, Weighted(init, p));
    assert Coefficient(a, ids) == Coefficient(a, init) by {
      CoefficientStep(a, ids, n);
      assert ids[..n + 1] == ids;
      MulOne(Coefficient(a, init));
    }
    LastCoefficient(init, a);
    VanishingZeroIff(Points(init), a);
    assert na != 0;
    UnityTotal(na, n0, a, Eval(p, 0), Sum(init, Coefficients(ids)), Coefficient(a, ids));
  }

  function IndexOf(ids: seq<Identifier>, i: Identifier): (k: nat)
    requires i in ids
    ensures k < |ids| && ids[k] == i
  {
    if ids[0] == i then 0 else 1 + IndexOf(ids[1..], i)
  }

  /** With (a - i) * t == a and na + (i - a) * p == 0: na * (m * t) == a * (m * p). */
  lemma UnityTerm(na: Scalar, m: Scalar, a: Scalar, i: Scalar, t: Scalar, p: Scalar)
    requires Mul(Sub(a, i), t) == a && Add(na, Mul(Sub(i, a), p)) == 0
    ensures Mul(na, Mul(m, t)) == Mul(a, Mul(m, p))
  {
    hide Mod, Add, Sub, Mul;
    var d := Sub(a, i);
    RootValue(na, a, i, p);
    Regroup(d, p, m, t);
  }

  lemma RootValue(na: Scalar, a: Scalar, i: Scalar, p: Scalar)
    requires Add(na, Mul(Sub(i, a), p)) == 0
    ensures na == Mul(Sub(a, i), p)
  {
    hide Mod, Add, Sub, Mul;
    var e := Mul(Sub(i, a), p);
    assert Sub(Add(na, e), e) == na by { AddThenSub(na, e); }
    assert Sub(0, e) == Mul(Sub(a, i), p) by {
      Lift();
      Rep(a); Rep(i); Rep(p); Rep(0);
      assert 0 - (i - a) * p == (a - i) * p;
    }
  }

  lemma Regroup(d: Scalar, p: Scalar, m: Scalar, t: Scalar)
    ensures Mul(Mul(d, p), Mul(m, t)) == Mul(Mul(d, t), Mul(m, p))
  {
    hide Mod, Mul;
    Lift();
    Rep(d); Rep(p); Rep(m); Rep(t);
    assert (d * p) * (m * t) == (d * t) * (m * p);
  }

  lemma {:induction false} LastCoefficient(ids: seq<Identifier>, a: Identifier)
    requires a !in ids
    ensures Mul(Eval(Vanishing(Points(ids)), a), Coefficient(a, ids)) == Eval(Vanishing(Points(ids)), 0)
  {
    hide Mod, Add, Sub, Mul, Over;
    if |ids| == 0 {
      assert Vanishing([])[1..] == [];
      MulZero(a);
      MulZero(0);
      MulOne(Eval(Vanishing([]), a));
      assert Points(ids) == [];
    } else {
      var n := |ids| - 1;
      var j := ids[n];
      LastCoefficient(ids[..n], a);
      assert Points(ids)[..n] == Points(ids[..n]);
      VanishingStep(Points(ids), a);
      VanishingStep(Points(ids), 0);
      SubZeroIffEqual(j, a);
      OverTimes(j, Sub(j, a));
      var va, pr := Eval(Vanishing(Points(ids[..n])), a), Coefficient(a, ids[..n]);
      assert Mul(Sub(a, j), Over(j, Sub(j, a))) == Sub(0, j) by {
        var t := Over(j, Sub(j, a));
        Lift();
        Rep(a); Rep(j); Rep(t); Rep(0);
        assert (a - j) * t == 0 - (j - a) * t;
      }
      MulComm(pr, Over(j, Sub(j, a)));
      QuotientStep(Sub(a, j), Over(j, Sub(j, a)), va, pr);
    }
  }

  lemma UnityTotal(na: Scalar, n0: Scalar, a: Scalar, p0: Scalar, s: Scalar, la: Scalar)
    requires na != 0 && Mul(na, s) == Mul(a, p0) && Mul(na, la) == n0 && n0 == Add(na, Mul(Sub(0, a), p0))
    ensures Add(s, la) == 1
  {
    hide Mod, Add, Sub, Mul;
    Distribute(na, s, la);
    assert Add(Mul(a, p0), Add(na, Mul(Sub(0, a), p0))) == na by {
      Lift();
      Rep(a); Rep(p0); Rep(na); Rep(0);
      assert a * p0 + (na + (0 - a) * p0) == na;
    }
    MulOne(na);
    Cancel(na, Add(s, la), 1);
  }
}
