/** Polynomials as coefficient sequences, constant term first: division by a root, and interpolation. */
module Polynomials {
  import opened PrimeField

  /** Horner evaluation. */
  function Eval(c: seq<Scalar>, x: Scalar): Scalar {
    if |c| == 0 then 0 else Add(c[0], Mul(x, Eval(c[1..], x)))
  }

  /** The coefficients of v + (x - a) * g(x). */
  function Expand(v: Scalar, a: Scalar, g: seq<Scalar>): (c: seq<Scalar>)
    ensures |c| == |g| + 1
    decreases |g|
  {
    if |g| == 0 then [v]
    else [Sub(v, Mul(a, g[0]))] + Expand(g[0], a, g[1..])
  }

  /** Synthetic division: the quotient of c - c(a) by x - a. */
  function Quotient(c: seq<Scalar>, a: Scalar): (g: seq<Scalar>)
    requires |c| >= 1
    ensures |g| == |c| - 1
  {
    if |c| == 1 then [] else [Eval(c[1..], a)] + Quotient(c[1..], a)
  }

  lemma {:induction false} EvalExpand(v: Scalar, a: Scalar, g: seq<Scalar>, x: Scalar)
    ensures Eval(Expand(v, a, g), x) == Add(v, Mul(Sub(x, a), Eval(g, x)))
    decreases |g|
  {
    hide Mod, Add, Sub, Mul;
    var c := Expand(v, a, g);
    if |g| == 0 {
      assert c[1..] == [];
      MulZero(x);
      MulZero(Sub(x, a));
    } else {
      assert c[1..] == Expand(g[0], a, g[1..]);
      EvalExpand(g[0], a, g[1..], x);
      ExpandStep(v, a, g[0], x, Eval(g[1..], x));
    }
  }

  lemma ExpandStep(v: Scalar, a: Scalar, g: Scalar, x: Scalar, e: Scalar)
    ensures Add(Sub(v, Mul(a, g)), Mul(x, Add(g, Mul(Sub(x, a), e)))) == Add(v, Mul(Sub(x, a), Add(g, Mul(x, e))))
  {
    hide Mod, Add, Sub, Mul;
    var d := Sub(x, a);
    MulAssoc(x, d, e);
    MulComm(x, d);
    MulAssoc(d, x, e);
    Distribute(x, g, Mul(d, e));
    Distribute(d, g, Mul(x, e));
    ExpandLinear(v, a, g, x, Mul(d, Mul(x, e)));
  }

  lemma ExpandLinear(v: Scalar, a: Scalar, g: Scalar, x: Scalar, w: Scalar)
    ensures Add(Sub(v, Mul(a, g)), Add(Mul(x, g), w)) == Add(v, Add(Mul(Sub(x, a), g), w))
  {
    hide Mod, Add, Sub, Mul;
    Lift();
    Rep(v); Rep(a); Rep(g); Rep(x); Rep(w);
    assert (v - a * g) + (x * g + w) == v + ((x - a) * g + w);
  }

  lemma {:induction false} DivisionIsExact(c: seq<Scalar>, a: Scalar)
    requires |c| >= 1
    ensures c == Expand(Eval(c, a), a, Quotient(c, a))
  {
    hide Mod, Add, Sub, Mul;
    if |c| == 1 {
      MulZero(a);
      AddZero(c[0]);
    } else {
      DivisionIsExact(c[1..], a);
      var e := Mul(a, Eval(c[1..], a));
      AddThenSub(c[0], e);
      assert Quotient(c, a)[1..] == Quotient(c[1..], a);
    }
  }

  /** The leading coefficient survives the division. */
  lemma {:induction false} LastOfQuotient(c: seq<Scalar>, a: Scalar)
    requires |c| >= 2
    ensures Quotient(c, a)[|c| - 2] == c[|c| - 1]
  {
    hide Mod, Add, Mul;
    if |c| == 2 {
      assert Quotient(c, a)[0] == Eval(c[1..], a);
      assert Eval(c[1..][1..], a) == 0;
      MulZero(a);
      AddZero(c[1]);
    } else {
      LastOfQuotient(c[1..], a);
    }
  }

  lemma AddThenSub(a: Scalar, b: Scalar)
    ensures Sub(Add(a, b), b) == a
  {
    hide Mod, Add, Sub;
    Lift();
    Rep(a); Rep(b);
  }

  lemma EvalAtZero(c: seq<Scalar>)
    requires |c| >= 1
    ensures Eval(c, 0) == c[0]
  {
    MulZero(Eval(c[1..], 0));
    AddZero(c[0]);
  }

  // ---------- interpolation through distinct points ----------

  ghost predicate DistinctPoints(xs: seq<Scalar>) {
    forall a, b :: 0 <= a < b < |xs| ==> xs[a] != xs[b]
  }

  ghost predicate PassesThrough(c: seq<Scalar>, xs: seq<Scalar>, ys: seq<Scalar>)
    requires |xs| == |ys|
  {
    forall k :: 0 <= k < |xs| ==> Eval(c, xs[k]) == ys[k]
  }

  /** At most one polynomial with n coefficients takes given values at n distinct points. */
  lemma {:induction false} InterpolationUnique(c: seq<Scalar>, d: seq<Scalar>, xs: seq<Scalar>, ys: seq<Scalar>)
    requires |c| == |d| == |xs| == |ys| && DistinctPoints(xs)
    requires PassesThrough(c, xs, ys) && PassesThrough(d, xs, ys)
    ensures c == d
    decreases |xs|
  {
    hide Mod, Add, Sub, Mul;
    if |xs| == 0 {
    } else {
      var a := xs[0];
      var g, h := Quotient(c, a), Quotient(d, a);
      DivisionIsExact(c, a);
      DivisionIsExact(d, a);
      var rest := seq(|xs| - 1, k requires 0 <= k < |xs| - 1 => Eval(g, xs[k + 1]));
      forall k | 0 <= k < |xs| - 1
        ensures Eval(h, xs[1..][k]) == rest[k]
      {
        var x := xs[k + 1];
        EvalExpand(ys[0], a, g, x);
        EvalExpand(ys[0], a, h, x);
        SubZeroIffEqual(x, a);
        CancelAffine(ys[0], Sub(x, a), Eval(g, x), Eval(h, x));
      }
      InterpolationUnique(g, h, xs[1..], rest);
    }
  }

  lemma CancelAffine(v: Scalar, d: Scalar, e: Scalar, f: Scalar)
    requires d != 0 && Add(v, Mul(d, e)) == Add(v, Mul(d, f))
    ensures e == f
  {
    hide Mod, Add, Sub, Mul;
    AddCommSub(v, Mul(d, e));
    AddCommSub(v, Mul(d, f));
    Cancel(d, e, f);
  }

  lemma AddCommSub(a: Scalar, b: Scalar)
    ensures Sub(Add(a, b), a) == b
  {
    hide Mod, Add, Sub;
    Lift();
    Rep(a); Rep(b);
  }

  ghost predicate FirstApart(xs: seq<Scalar>) {
    forall k :: 1 <= k < |xs| ==> Sub(xs[k], xs[0]) != 0
  }

  lemma DistinctApart(xs: seq<Scalar>)
    requires DistinctPoints(xs)
    ensures FirstApart(xs)
  {
    hide Sub;
    forall k | 1 <= k < |xs|
      ensures Sub(xs[k], xs[0]) != 0
    {
      SubZeroIffEqual(xs[k], xs[0]);
    }
  }

  /** The values that the quotient by the first point takes at the others. */
  ghost function DividedDifferences(xs: seq<Scalar>, ys: seq<Scalar>): (d: seq<Scalar>)
    requires 0 < |xs| == |ys| && FirstApart(xs)
    ensures |d| == |xs| - 1
  {
    seq(|xs| - 1, k requires 0 <= k < |xs| - 1 => Mul(Inverse(Sub(xs[k + 1], xs[0])), Sub(ys[k + 1], ys[0])))
  }

  /** Newton interpolation: at least one polynomial with n coefficients takes given values at n distinct points. */
  lemma {:induction false} InterpolationExists(xs: seq<Scalar>, ys: seq<Scalar>) returns (c: seq<Scalar>)
    requires |xs| == |ys| && DistinctPoints(xs)
    ensures |c| == |xs| && PassesThrough(c, xs, ys)
  {
    if |xs| == 0 {
      c := [];
    } else {
      hide DividedDifferences, PassesThrough, Expand;
      DistinctApart(xs);
      var g := InterpolationExists(xs[1..], DividedDifferences(xs, ys));
      c := Expand(ys[0], xs[0], g);
      NewtonStep(xs, ys, g);
    }
  }

  lemma NewtonStep(xs: seq<Scalar>, ys: seq<Scalar>, g: seq<Scalar>)
    requires 0 < |xs| == |ys| && FirstApart(xs) && PassesThrough(g, xs[1..], DividedDifferences(xs, ys))
    ensures PassesThrough(Expand(ys[0], xs[0], g), xs, ys)
  {
    hide Mod, Add, Sub, Mul, Inverse, Eval, Expand;
    forall k | 0 <= k < |xs|
      ensures Eval(Expand(ys[0], xs[0], g), xs[k]) == ys[k]
    {
      if k == 0 {
        ExpandAtRoot(ys[0], xs[0], g);
      } else {
        assert Eval(g, xs[1..][k - 1]) == DividedDifferences(xs, ys)[k - 1];
        ExpandAtPoint(ys[0], xs[0], g, xs[k], ys[k]);
      }
    }
  }

  lemma ExpandAtRoot(v: Scalar, a: Scalar, g: seq<Scalar>)
    ensures Eval(Expand(v, a, g), a) == v
  {
    hide Mod, Add, Sub, Mul, Eval, Expand;
    EvalExpand(v, a, g, a);
    SubZeroIffEqual(a, a);
    MulZero(Eval(g, a));
    AddZero(v);
  }

  lemma ExpandAtPoint(v: Scalar, a: Scalar, g: seq<Scalar>, x: Scalar, y: Scalar)
    requires Sub(x, a) != 0 && Eval(g, x) == Mul(Inverse(Sub(x, a)), Sub(y, v))
    ensures Eval(Expand(v, a, g), x) == y
  {
    hide Mod, Add, Sub, Mul, Inverse, Eval, Expand;
    EvalExpand(v, a, g, x);
    SlopeStep(Sub(x, a), Inverse(Sub(x, a)), y, v);
  }

  lemma SlopeStep(d: Scalar, r: Scalar, y: Scalar, v: Scalar)
    requires Mul(d, r) == 1
    ensures Add(v, Mul(d, Mul(r, Sub(y, v)))) == y
  {
    hide Mod, Add, Sub, Mul;
    MulAssoc(d, r, Sub(y, v));
    MulOne(Sub(y, v));
    Lift();
    Rep(y); Rep(v);
  }

  // ---------- the polynomial that vanishes on given points ----------

  function Vanishing(xs: seq<Scalar>): (c: seq<Scalar>)
    ensures |c| == |xs| + 1
  {
    if |xs| == 0 then [1]
    else Expand(0, xs[|xs| - 1], Vanishing(xs[..|xs| - 1]))
  }

  lemma {:induction false} VanishingStep(xs: seq<Scalar>, x: Scalar)
    requires |xs| > 0
    ensures Eval(Vanishing(xs), x) == Mul(Sub(x, xs[|xs| - 1]), Eval(Vanishing(xs[..|xs| - 1]), x))
  {
    hide Mod, Add, Sub, Mul;
    var n := |xs| - 1;
    EvalExpand(0, xs[n], Vanishing(xs[..n]), x);
    AddZero(Mul(Sub(x, xs[n]), Eval(Vanishing(xs[..n]), x)));
  }

  lemma {:induction false} VanishingZeroIff(xs: seq<Scalar>, x: Scalar)
    ensures Eval(Vanishing(xs), x) == 0 <==> x in xs
  {
    hide Mod, Add, Sub, Mul;
    if |xs| == 0 {
      assert Vanishing(xs)[1..] == [];
      MulZero(x);
      AddZero(1);
    } else {
      var n := |xs| - 1;
      VanishingStep(xs, x);
      VanishingZeroIff(xs[..n], x);
      SubZeroIffEqual(x, xs[n]);
      NoZeroDivisors(Sub(x, xs[n]), Eval(Vanishing(xs[..n]), x));
      assert x in xs <==> x in xs[..n] || x == xs[n];
    }
  }
}
