/** The prime field of scalars: integers modulo an arbitrary prime above the identifier range. */
module PrimeField {
  import opened Wrappers

  ghost predicate IsPrime(n: int) {
    2 <= n && forall d :: 2 <= d < n ==> n % d != 0
  }

  type Prime = p: int | 65535 < p && IsPrime(p) witness (Prime65537(); 65537)

  /** The group order.  Nothing is known about it beyond its type, so every theorem holds for all such primes. */
  const Q: Prime

  type Scalar = x: int | 0 <= x < Q

  // ---------- arithmetic ----------

  /** The residue of an integer, by shifts of Q: the solver never meets a symbolic remainder operator. */
  function Mod(n: int): Scalar
    decreases if n < 0 then Q - n else n
  {
    if n < 0 then Mod(n + Q) else if n < Q then n else Mod(n - Q)
  }

  function Add(a: Scalar, b: Scalar): Scalar {
    if a + b < Q then a + b else a + b - Q
  }

  function Sub(a: Scalar, b: Scalar): Scalar {
    if a >= b then a - b else a - b + Q
  }

  function Neg(a: Scalar): Scalar {
    if a == 0 then 0 else Q - a
  }

  /** The residue of the product, by repeated addition: the solver never multiplies two unknowns either. */
  function Mul(a: Scalar, b: Scalar): Scalar
    decreases b
  {
    if b == 0 then 0 else Add(Mul(a, b - 1), a)
  }

  /** Field inversion; only zero has no inverse. */
  function Invert(a: Scalar): (r: Option<Scalar>)
    ensures r.None? <==> a == 0
    ensures r.Some? ==> Mul(a, r.value) == 1
  {
    if a == 0 then None else Some(Euclid(a))
  }

  /** Euclid's descent: from Q == k * a + r an inverse of r gives one of a. */
  function Euclid(a: Scalar): (r: Scalar)
    requires a != 0
    ensures Mul(a, r) == 1
    decreases a
  {
    hide Mod, Mul;
    if a == 1 then MulOne(1); 1
    else
      var k, r := Q / a, Q % a;
      assert r != 0;
      var s := Euclid(r);
      InverseStep(a, k, r, s);
      Mod(0 - k * s)
  }

  lemma InverseExists(a: Scalar)
    requires a != 0
    ensures exists r :: Mul(a, r) == 1
  {
    hide Mul, Euclid;
    assert Mul(a, Euclid(a)) == 1;
  }

  /** The inverse, named by what it is: the proofs never look at how it is found. */
  ghost function Inverse(a: Scalar): (r: Scalar)
    requires a != 0
    ensures Mul(a, r) == 1
  {
    InverseExists(a);
    var r :| Mul(a, r) == 1;
    r
  }

  lemma InverseStep(a: Scalar, k: int, r: Scalar, s: Scalar)
    requires Q == a * k + r && Mul(r, s) == 1
    ensures Mul(a, Mod(0 - k * s)) == 1
  {
    hide Mod, Mul;
    DescentIdentity(Q, a, k, r, s);
    Rep(a);
    ModMul(a, 0 - k * s);
    MulIsProduct(r, s);
    ModShift(r * s, 0 - s);
  }

  lemma DescentIdentity(q: int, a: int, k: int, r: int, s: int)
    requires q == a * k + r
    ensures a * (0 - k * s) == r * s + (0 - s) * q
  {
    assert s * q == s * (a * k) + s * r;
    assert a * (k * s) == s * (a * k);
  }

  // ---------- the residue map is a ring homomorphism ----------

  lemma {:induction false} Divide(n: int) returns (k: int)
    ensures n == k * Q + Mod(n)
    decreases if n < 0 then Q - n else n
  {
    if n < 0 {
      k := Divide(n + Q);
      k := k - 1;
    } else if n < Q {
      k := 0;
    } else {
      k := Divide(n - Q);
      k := k + 1;
    }
  }

  lemma ModSmall(r: int)
    requires 0 <= r < Q
    ensures Mod(r) == r
  {
  }

  lemma ModStep(n: int)
    ensures Mod(n + Q) == Mod(n)
    decreases if n < 0 then -n else 0
  {
    if n < 0 - Q { ModStep(n + Q); }
  }

  lemma {:induction false} ModShift(n: int, k: int)
    ensures Mod(n + k * Q) == Mod(n)
    decreases if k < 0 then -k else k
  {
    hide Mod;
    if k > 0 {
      ModShift(n, k - 1);
      ModStep(n + (k - 1) * Q);
    } else if k < 0 {
      ModShift(n, k + 1);
      ModStep(n + k * Q);
    }
  }

  /** Addition, subtraction and negation give the residue of what the integers give. */
  lemma ResidueOfOne(a: Scalar, b: Scalar)
    ensures Add(a, b) == Mod(a + b) && Sub(a, b) == Mod(a - b) && Neg(a) == Mod(0 - a)
  {
    if a + b >= Q { ModSmall(a + b - Q); }
    if a < b { ModSmall(a - b + Q); }
    if a > 0 { ModSmall(0 - a + Q); }
  }

  lemma ModAdd(m: int, n: int)
    ensures Add(Mod(m), Mod(n)) == Mod(m + n)
  {
    hide Mod, Add;
    var a := Divide(m);
    var b := Divide(n);
    ResidueOfOne(Mod(m), Mod(n));
    assert Mod(m) + Mod(n) == m + n + (0 - a - b) * Q;
    ModShift(m + n, 0 - a - b);
  }

  lemma ModSub(m: int, n: int)
    ensures Sub(Mod(m), Mod(n)) == Mod(m - n)
  {
    hide Mod, Sub;
    var a := Divide(m);
    var b := Divide(n);
    ResidueOfOne(Mod(m), Mod(n));
    assert Mod(m) - Mod(n) == m - n + (b - a) * Q;
    ModShift(m - n, b - a);
  }

  lemma ModNeg(m: int)
    ensures Neg(Mod(m)) == Mod(0 - m)
  {
    hide Mod, Neg;
    var a := Divide(m);
    ResidueOfOne(Mod(m), 0);
    assert 0 - Mod(m) == 0 - m + a * Q;
    ModShift(0 - m, a);
  }

  lemma {:induction false} MulIsProduct(a: Scalar, b: Scalar)
    ensures Mul(a, b) == Mod(a * b)
    decreases b
  {
    hide Mod, Add;
    Rep(0);
    if b == 0 {
    } else {
      MulIsProduct(a, b - 1);
      Rep(a);
      ModAdd(a * (b - 1), a);
      assert a * (b - 1) + a == a * b;
    }
  }

  lemma ModMul(m: int, n: int)
    ensures Mul(Mod(m), Mod(n)) == Mod(m * n)
  {
    hide Mod, Mul;
    var a := Divide(m);
    var b := Divide(n);
    MulIsProduct(Mod(m), Mod(n));
    var k := ProductRemainder(Q, a, Mod(m), b, Mod(n));
    ModShift(Mod(m) * Mod(n), k);
  }

  lemma ProductRemainder(q: int, a: int, x: int, b: int, y: int) returns (k: int)
    ensures (a * q + x) * (b * q + y) == x * y + k * q
  {
    k := a * (b * q) + a * y + x * b;
    assert (a * q) * (b * q) == (a * (b * q)) * q;
    assert (a * q) * y == (a * y) * q;
    assert x * (b * q) == (x * b) * q;
  }

  // ---------- proving ring identities ----------
  // A proof of an identity hides the operations, calls Lift() and Rep(x) for every variable x, and states
  // the identity of the underlying integer polynomials: both sides are then the residue of one polynomial.

  lemma Lift()
    ensures forall m: int, n: int {:trigger Add(Mod(m), Mod(n))} :: Add(Mod(m), Mod(n)) == Mod(m + n)
    ensures forall m: int, n: int {:trigger Sub(Mod(m), Mod(n))} :: Sub(Mod(m), Mod(n)) == Mod(m - n)
    ensures forall m: int, n: int {:trigger Mul(Mod(m), Mod(n))} :: Mul(Mod(m), Mod(n)) == Mod(m * n)
    ensures forall m: int {:trigger Neg(Mod(m))} :: Neg(Mod(m)) == Mod(0 - m)
  {
    hide Mod, Add, Sub, Mul, Neg;
    forall m: int, n: int
      ensures Add(Mod(m), Mod(n)) == Mod(m + n)
      ensures Sub(Mod(m), Mod(n)) == Mod(m - n)
      ensures Mul(Mod(m), Mod(n)) == Mod(m * n)
    {
      ModAdd(m, n);
      ModSub(m, n);
      ModMul(m, n);
    }
    forall m: int
      ensures Neg(Mod(m)) == Mod(0 - m)
    {
      ModNeg(m);
    }
  }

  lemma Rep(x: Scalar)
    ensures Mod(x) == x
  {
  }

  // ---------- field laws ----------

  lemma AddZero(a: Scalar)
    ensures Add(a, 0) == a && Add(0, a) == a
  {
  }

  lemma MulZero(a: Scalar)
    ensures Mul(a, 0) == 0 && Mul(0, a) == 0
  {
    hide Mul;
    MulIsProduct(a, 0);
    MulIsProduct(0, a);
  }

  lemma MulOne(a: Scalar)
    ensures Mul(a, 1) == a && Mul(1, a) == a
  {
    hide Mul;
    MulIsProduct(a, 1);
    MulIsProduct(1, a);
  }

  lemma MulComm(a: Scalar, b: Scalar)
    ensures Mul(a, b) == Mul(b, a)
  {
    hide Mod, Mul;
    MulIsProduct(a, b);
    MulIsProduct(b, a);
  }

  lemma MulAssoc(a: Scalar, b: Scalar, c: Scalar)
    ensures Mul(Mul(a, b), c) == Mul(a, Mul(b, c))
  {
    hide Mod, Mul;
    Lift();
    Rep(a); Rep(b); Rep(c);
    assert (a * b) * c == a * (b * c);
  }

  lemma Distribute(a: Scalar, b: Scalar, c: Scalar)
    ensures Mul(a, Add(b, c)) == Add(Mul(a, b), Mul(a, c))
    ensures Mul(a, Sub(b, c)) == Sub(Mul(a, b), Mul(a, c))
  {
    hide Mod, Add, Sub, Mul;
    Lift();
    Rep(a); Rep(b); Rep(c);
    assert a * (b + c) == a * b + a * c;
    assert a * (b - c) == a * b - a * c;
  }

  lemma NegIsTimesMinusOne(a: Scalar)
    ensures Neg(a) == Mul(a, Neg(1)) && Neg(a) == Mul(Neg(1), a)
  {
    hide Mod, Neg, Mul;
    Lift();
    Rep(a); Rep(1);
    assert a * (0 - 1) == 0 - a;
    assert (0 - 1) * a == 0 - a;
  }

  lemma NegValue(a: Scalar)
    ensures Neg(a) == if a == 0 then 0 else Q - a
  {
    if a != 0 {
      ModSmall(Q - a);
      assert 0 - a + Q == Q - a;
    }
  }

  lemma SubZeroIffEqual(a: Scalar, b: Scalar)
    ensures Sub(a, b) == 0 <==> a == b
    ensures a != b ==> Sub(a, b) != 0
  {
    if a - b >= 0 { ModSmall(a - b); } else { ModSmall(a - b + Q); }
  }

  /** A product is zero exactly when a factor is. */
  lemma NoZeroDivisors(a: Scalar, b: Scalar)
    ensures Mul(a, b) == 0 <==> a == 0 || b == 0
  {
    hide Mod, Mul, Inverse;
    MulZero(a);
    MulZero(b);
    if a != 0 && Mul(a, b) == 0 {
      var r := Inverse(a);
      MulComm(a, r);
      MulAssoc(r, a, b);
      MulOne(b);
      MulZero(r);
    }
  }

  lemma Cancel(a: Scalar, b: Scalar, c: Scalar)
    requires a != 0 && Mul(a, b) == Mul(a, c)
    ensures b == c
  {
    hide Mod, Mul, Sub;
    Distribute(a, b, c);
    SubZeroIffEqual(Mul(a, b), Mul(a, c));
    NoZeroDivisors(a, Sub(b, c));
    SubZeroIffEqual(b, c);
  }

  // ---------- 65537 is a prime, so the type Prime is inhabited ----------

  lemma ModOfMultiple(k: int, m: int)
    requires m > 0
    ensures (k * m) % m == 0
  {
    var n := k * m;
    var rest := k - n / m;
    assert rest * m == n % m;
    if rest >= 1 {
      MulAtLeast(rest, m);
      assert false;
    }
  }

  lemma MulAtLeast(k: int, m: int)
    requires k >= 1 && m >= 0
    ensures k * m >= m
  {
  }

  predicate NotDivisor(d: nat) {
    d == 0 || 65537 % d != 0
  }

  /** None of the eight odd numbers from d on divides 65537. */
  predicate NoDivisorAmongEight(d: nat) {
    && NotDivisor(d + 1) && NotDivisor(d + 3) && NotDivisor(d + 5) && NotDivisor(d + 7)
    && NotDivisor(d + 9) && NotDivisor(d + 11) && NotDivisor(d + 13) && NotDivisor(d + 15)
  }

  lemma NoDivisorInBlock(i: nat)
    requires i < 16
    ensures NoDivisorAmongEight(16 * i + 2)
  {
    match i {
      case 0 => case 1 => case 2 => case 3 => case 4 => case 5 => case 6 => case 7 =>
      case 8 => case 9 => case 10 => case 11 => case 12 => case 13 => case 14 => case 15 =>
    }
  }

  lemma NoOddDivisorTo257(d: nat)
    requires 3 <= d <= 257 && d % 2 == 1
    ensures NotDivisor(d)
  {
    hide NotDivisor;
    var i := (d - 3) / 16;
    NoDivisorInBlock(i);
    PickFromEight(16 * i + 2, d);
  }

  lemma PickFromEight(b: nat, d: nat)
    requires NoDivisorAmongEight(b) && b < d < b + 16 && (d - b) % 2 == 1
    ensures NotDivisor(d)
  {
    hide NotDivisor;
    match d - b {
      case 1 => case 3 => case 5 => case 7 => case 9 => case 11 => case 13 => case 15 =>
    }
  }

  lemma EvenProduct(k: nat, m: nat)
    requires k % 2 == 0
    ensures (k * m) % 2 == 0
  {
    assert k * m == 2 * (k / 2 * m);
  }

  lemma ProductAtLeast(k: nat, m: nat, low: nat)
    requires low <= k && low <= m
    ensures low * low <= k * m
  {
    assert low * low <= low * m <= k * m;
  }

  lemma NoProperFactorization(k: nat, m: nat)
    requires 2 <= k <= m
    ensures k * m != 65537
  {
    if k > 257 {
      ProductAtLeast(k, m, 258);
    } else if k % 2 == 0 {
      EvenProduct(k, m);
    } else {
      NoOddDivisorTo257(k);
      ModOfMultiple(m, k);
    }
  }

  lemma Prime65537()
    ensures IsPrime(65537)
  {
    forall m | 2 <= m < 65537
      ensures 65537 % m != 0
    {
      var k := 65537 / m;
      if k * m == 65537 {
        assert 2 <= k;
        if k <= m { NoProperFactorization(k, m); } else { NoProperFactorization(m, k); }
      }
    }
  }
}
