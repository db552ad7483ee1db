/** Identifiers in map order, and finite sums and products over them. */
module Sums {
  import opened PrimeField

  /** A signer identifier, an unsigned 16-bit integer. */
  type Identifier = x: int | 0 <= x < 65536

  ghost predicate Ascending(ids: seq<Identifier>) {
    forall a, b :: 0 <= a < b < |ids| ==> ids[a] < ids[b]
  }

  /** ids lists the members of s in ascending order. */
  ghost predicate Lists(ids: seq<Identifier>, s: set<Identifier>) {
    Ascending(ids) && forall x :: x in ids <==> x in s
  }

  /** The members of s from lo on. */
  function ListedFrom(s: set<Identifier>, lo: nat): (ids: seq<Identifier>)
    requires lo <= 65536
    ensures Ascending(ids)
    ensures forall x :: x in ids <==> x in s && lo <= x
    ensures forall k :: 0 <= k < |ids| ==> lo <= ids[k]
    decreases 65536 - lo
  {
    if lo == 65536 then []
    else if lo in s then [lo] + ListedFrom(s, lo + 1)
    else ListedFrom(s, lo + 1)
  }

  lemma ListingExists(s: set<Identifier>)
    ensures exists ids :: Lists(ids, s)
  {
    assert Lists(ListedFrom(s, 0), s);
  }

  /** The order in which an ordered map with key set s visits its keys. */
  ghost function Sorted(s: set<Identifier>): (ids: seq<Identifier>)
    ensures forall x :: x in ids <==> x in s
  {
    ListingExists(s);
    var ids :| Lists(ids, s);
    ids
  }

  lemma SortedAscends(s: set<Identifier>)
    ensures Ascending(Sorted(s)) && Distinct(Sorted(s))
  {
    ListingExists(s);
  }

  /** keys().copied().collect() on an ordered map. */
  method Keys(s: set<Identifier>) returns (ids: seq<Identifier>)
    ensures ids == Sorted(s)
  {
    ids := ListedFrom(s, 0);
    SortedAscends(s);
    AscendingUnique(ids, Sorted(s));
  }

  /** The sorted listing has one entry per member. */
  lemma {:induction false} AscendingLength(ids: seq<Identifier>, s: set<Identifier>)
    requires Ascending(ids) && forall x :: x in ids <==> x in s
    ensures |ids| == |s|
  {
    if |ids| == 0 {
      assert s == {};
    } else {
      var a := ids[0];
      forall x
        ensures x in ids[1..] <==> x in s - {a}
      {
      }
      AscendingLength(ids[1..], s - {a});
      assert |s - {a}| == |s| - 1;
    }
  }

  lemma {:induction false} AscendingUnique(a: seq<Identifier>, b: seq<Identifier>)
    requires Ascending(a) && Ascending(b) && forall x :: x in a <==> x in b
    ensures a == b
  {
    assert |a| > 0 ==> a[0] in b;
    assert |b| > 0 ==> b[0] in a;
    if |a| == 0 {
    } else {
      forall x
        ensures x in a[1..] <==> x in b[1..]
      {
        assert x in a[1..] <==> x in a && x != a[0];
        assert x in b[1..] <==> x in b && x != b[0];
      }
      AscendingUnique(a[1..], b[1..]);
    }
  }

  ghost predicate Distinct(ids: seq<Identifier>) {
    forall a, b :: 0 <= a < b < |ids| ==> ids[a] != ids[b]
  }

  lemma TakeStep<T>(ids: seq<T>, k: nat)
    requires k < |ids|
    ensures ids[..k + 1] == ids[..k] + [ids[k]]
    ensures forall x :: x in ids[..k + 1] <==> x in ids[..k] || x == ids[k]
  {
  }

  lemma TakeAll<T>(ids: seq<T>)
    ensures ids[..|ids|] == ids
  {
  }

  // ---------- sums ----------

  function Sum(ids: seq<Identifier>, f: Identifier -> Scalar): Scalar {
    if |ids| == 0 then 0
    else Add(Sum(ids[..|ids| - 1], f), f(ids[|ids| - 1]))
  }

  lemma SumStep(ids: seq<Identifier>, k: nat, f: Identifier -> Scalar)
    requires k < |ids|
    ensures Sum(ids[..k + 1], f) == Add(Sum(ids[..k], f), f(ids[k]))
  {
    hide Add;
    assert ids[..k + 1][..k] == ids[..k];
  }

  lemma {:induction false} SumCong(ids: seq<Identifier>, f: Identifier -> Scalar, g: Identifier -> Scalar)
    requires forall i :: i in ids ==> f(i) == g(i)
    ensures Sum(ids, f) == Sum(ids, g)
  {
    hide Add;
    if |ids| == 0 {
    } else {
      SumCong(ids[..|ids| - 1], f, g);
    }
  }

  lemma {:induction false} SumZero(ids: seq<Identifier>, f: Identifier -> Scalar)
    requires forall i :: i in ids ==> f(i) == 0
    ensures Sum(ids, f) == 0
  {
    hide Add;
    if |ids| == 0 {
    } else {
      SumZero(ids[..|ids| - 1], f);
      AddZero(0);
    }
  }

  /** Pointwise h == f + c * g sums to Sum h == Sum f + c * Sum g. */
  lemma {:induction false} SumLinear(ids: seq<Identifier>, h: Identifier -> Scalar,
                                     f: Identifier -> Scalar, c: Scalar, g: Identifier -> Scalar)
    requires forall i :: i in ids ==> h(i) == Add(f(i), Mul(c, g(i)))
    ensures Sum(ids, h) == Add(Sum(ids, f), Mul(c, Sum(ids, g)))
  {
    hide Add, Mul;
    if |ids| == 0 {
      MulZero(c);
      AddZero(0);
    } else {
      var n := |ids| - 1;
      SumLinear(ids[..n], h, f, c, g);
      LinearStep(Sum(ids[..n], f), c, Sum(ids[..n], g), f(ids[n]), g(ids[n]));
    }
  }

  function Zero(): Identifier -> Scalar {
    _ => 0
  }

  /** Pointwise h == c * g sums to Sum h == c * Sum g. */
  lemma SumScale(ids: seq<Identifier>, h: Identifier -> Scalar, c: Scalar, g: Identifier -> Scalar)
    requires forall i :: i in ids ==> h(i) == Mul(c, g(i))
    ensures Sum(ids, h) == Mul(c, Sum(ids, g))
  {
    hide Mod, Add, Mul;
    forall i | i in ids
      ensures h(i) == Add(Zero()(i), Mul(c, g(i)))
    {
      AddZero(h(i));
    }
    SumLinear(ids, h, Zero(), c, g);
    SumZero(ids, Zero());
    AddZero(Mul(c, Sum(ids, g)));
  }

  /** Pointwise h == f + g sums to Sum h == Sum f + Sum g. */
  lemma SumAdd(ids: seq<Identifier>, h: Identifier -> Scalar, f: Identifier -> Scalar, g: Identifier -> Scalar)
    requires forall i :: i in ids ==> h(i) == Add(f(i), g(i))
    ensures Sum(ids, h) == Add(Sum(ids, f), Sum(ids, g))
  {
    hide Mod, Add, Mul;
    forall i | i in ids
      ensures h(i) == Add(f(i), Mul(1, g(i)))
    {
      MulOne(g(i));
    }
    SumLinear(ids, h, f, 1, g);
    MulOne(Sum(ids, g));
  }

  lemma LinearStep(f: Scalar, c: Scalar, g: Scalar, a: Scalar, b: Scalar)
    ensures Add(Add(f, Mul(c, g)), Add(a, Mul(c, b))) == Add(Add(f, a), Mul(c, Add(g, b)))
  {
    hide Mod, Add, Mul;
    Lift();
    Rep(f); Rep(c); Rep(g); Rep(a); Rep(b);
    assert (f + c * g) + (a + c * b) == (f + a) + c * (g + b);
  }

  /** A sum with one nonzero term is that term. */
  lemma {:induction false} SumSingle(ids: seq<Identifier>, f: Identifier -> Scalar, k: Identifier)
    requires Distinct(ids) && k in ids
    requires forall i :: i in ids && i != k ==> f(i) == 0
    ensures Sum(ids, f) == f(k)
  {
    hide Add;
    var n := |ids| - 1;
    if ids[n] == k {
      SumZero(ids[..n], f);
      AddZero(f(k));
    } else {
      SumSingle(ids[..n], f, k);
      AddZero(f(k));
    }
  }

  // ---------- double sums ----------

  function Row(g: (Identifier, Identifier) -> Scalar, i: Identifier): Identifier -> Scalar {
    (j: Identifier) => g(i, j)
  }

  function Column(g: (Identifier, Identifier) -> Scalar, j: Identifier): Identifier -> Scalar {
    (i: Identifier) => g(i, j)
  }

  function RowSums(ids: seq<Identifier>, g: (Identifier, Identifier) -> Scalar): Identifier -> Scalar {
    (i: Identifier) => Sum(ids, Row(g, i))
  }

  ghost predicate Antisymmetric(ids: seq<Identifier>, g: (Identifier, Identifier) -> Scalar) {
    forall i, j :: i in ids && j in ids ==> Add(g(i, j), g(j, i)) == 0
  }

  ghost predicate ZeroDiagonal(ids: seq<Identifier>, g: (Identifier, Identifier) -> Scalar) {
    forall i :: i in ids ==> g(i, i) == 0
  }

  /** The sum of an antisymmetric table is zero. */
  lemma {:induction false} AntisymmetricSum(ids: seq<Identifier>, g: (Identifier, Identifier) -> Scalar)
    requires Antisymmetric(ids, g) && ZeroDiagonal(ids, g)
    ensures Sum(ids, RowSums(ids, g)) == 0
  {
    hide Add, Mul, Mod;
    if |ids| == 0 {
    } else {
      var n := |ids| - 1;
      var init, a := ids[..n], ids[n];
      AntisymmetricSum(init, g);
      forall i | i in init
        ensures RowSums(ids, g)(i) == Add(RowSums(init, g)(i), Mul(1, Column(g, a)(i)))
      {
        MulOne(g(i, a));
      }
      SumLinear(init, RowSums(ids, g), RowSums(init, g), 1, Column(g, a));
      CrossTermsCancel(init, g, a);
      MulOne(Sum(init, Column(g, a)));
      AddZero(Sum(init, Column(g, a)));
      AddZero(Sum(init, Row(g, a)));
    }
  }

  lemma {:induction false} CrossTermsCancel(ids: seq<Identifier>, g: (Identifier, Identifier) -> Scalar, a: Identifier)
    requires forall i :: i in ids ==> Add(g(i, a), g(a, i)) == 0
    ensures Add(Sum(ids, Column(g, a)), Sum(ids, Row(g, a))) == 0
  {
    hide Add, Mul, Mod;
    if |ids| == 0 {
      AddZero(0);
    } else {
      var n := |ids| - 1;
      CrossTermsCancel(ids[..n], g, a);
      PairUp(Sum(ids[..n], Column(g, a)), g(ids[n], a), Sum(ids[..n], Row(g, a)), g(a, ids[n]));
      AddZero(0);
    }
  }

  lemma PairUp(a: Scalar, b: Scalar, c: Scalar, d: Scalar)
    ensures Add(Add(a, b), Add(c, d)) == Add(Add(a, c), Add(b, d))
  {
    hide Mod, Add;
    Lift();
    Rep(a); Rep(b); Rep(c); Rep(d);
  }
}
