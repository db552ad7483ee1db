/** The laws assumed of a suite hold together: a concrete suite satisfies them. */
module LawfulSuite {
  import opened Wrappers
  import opened PrimeField
  import opened Ciphersuites
  import opened Sums
  import opened Lagrange
  import opened Wire
  import opened Hashing
  import opened Signing

  function Pow256(w: nat): nat {
    if w == 0 then 1 else 256 * Pow256(w - 1)
  }

  /** Fixed-width big-endian bytes. */
  function BigEndian(n: nat, w: nat): (b: bytes)
    ensures |b| == w
  {
    if w == 0 then [] else BigEndian(n / 256, w - 1) + [n % 256]
  }

  function Value(b: bytes): nat {
    if |b| == 0 then 0 else 256 * Value(b[..|b| - 1]) + b[|b| - 1]
  }

  lemma {:induction false} ValueOfBigEndian(n: nat, w: nat)
    requires n < Pow256(w)
    ensures Value(BigEndian(n, w)) == n
  {
    if w == 0 {
    } else {
      ValueOfBigEndian(n / 256, w - 1);
      assert BigEndian(n, w)[..w - 1] == BigEndian(n / 256, w - 1);
    }
  }

  lemma {:induction false} BigEndianOfValue(b: bytes)
    ensures BigEndian(Value(b), |b|) == b
  {
    if |b| == 0 {
    } else {
      var n := |b| - 1;
      BigEndianOfValue(b[..n]);
      assert Value(b) / 256 == Value(b[..n]) && Value(b) % 256 == b[n];
      assert b == b[..n] + [b[n]];
    }
  }

  function ScalarBytes(s: Scalar): bytes {
    BigEndian(s, 32)
  }

  function ScalarFromBytes(b: bytes): Option<Scalar> {
    if |b| == 32 && Value(b) < Q then Some(Value(b)) else None
  }

  function PointBytes(v: Variant, p: Point): bytes {
    if v.Ed25519? then BigEndian(p.log, 32) else [2] + BigEndian(p.log, 32)
  }

  function PointFromBytes(v: Variant, b: bytes): Option<Point> {
    var digits := if v.Ed25519? then b else if |b| > 0 && b[0] == 2 then b[1..] else [];
    match ScalarFromBytes(digits)
    case Some(s) => Some(Point(s))
    case None => None
  }

  function HasOddY(p: Point): bool {
    p.log % 2 == 1
  }

  /** The smaller of the logarithms of p and -p. */
  function Abscissa(p: Point): Scalar {
    if p.log <= Q / 2 then p.log else Q - p.log
  }

  function XOnly(p: Point): bytes {
    BigEndian(Abscissa(p), 32)
  }

  function LiftX(x: bytes): Option<Point> {
    if |x| == 32 && 0 < Value(x) <= Q / 2
    then Some(if Value(x) % 2 == 0 then Point(Value(x)) else Point(Q - Value(x)))
    else None
  }

  /** The separators of the crate; the two secp256k1 suites share one. */
  function DomainSeparator(v: Variant): bytes {
    match v
    case Secp256k1Plain => Ascii("FaFROST/secp256k1/SHA256")
    case Secp256k1Bip340 => Ascii("FaFROST/secp256k1/SHA256")
    case Ed25519 => Ascii("FaFROST/ed25519/SHA512")
  }

  function Example(v: Variant): Suite {
    Suite(v, DomainSeparator(v), Point(1),
          (b: bytes) => 0, (b: bytes) => 0, (b: bytes) => BigEndian(Value(b), 32), (t: seq<Entry>) => 0,
          (p: Point) => PointBytes(v, p), (b: bytes) => PointFromBytes(v, b), ScalarBytes, ScalarFromBytes, HasOddY,
          XOnly, LiftX)
  }

  lemma OrderIsOdd()
    ensures Q % 2 == 1
  {
    assert Q % 2 != 0;
  }

  lemma NegLog(p: Point)
    ensures PNeg(p).log == if p.log == 0 then 0 else Q - p.log
  {
    NegValue(p.log);
  }

  lemma ExampleCurve(v: Variant)
    requires Q < Pow256(32)
    ensures CurveLaws(Example(v))
  {
    hide Pow256, BigEndian, Value, PNeg;
    OrderIsOdd();
    var C := Example(v);
    forall p: Point
      ensures PNeg(p).log == if p.log == 0 then 0 else Q - p.log
    {
      NegLog(p);
    }
    forall p: Point | p != Identity()
      ensures |C.xOnly(p)| == 32 && C.liftX(C.xOnly(p)) == Some(if C.hasOddY(p) then PNeg(p) else p)
    {
      LiftOfXOnly(p);
    }
    forall x: bytes | C.liftX(x).Some?
      ensures C.xOnly(C.liftX(x).value) == x
    {
      BigEndianOfValue(x);
    }
  }

  lemma LiftOfXOnly(p: Point)
    requires Q < Pow256(32) && p != Identity()
    ensures LiftX(XOnly(p)) == Some(if HasOddY(p) then PNeg(p) else p)
  {
    hide Pow256, BigEndian, Value, PNeg;
    OrderIsOdd();
    NegLog(p);
    ValueOfBigEndian(Abscissa(p), 32);
  }

  lemma ExampleEncodings(v: Variant)
    requires Q < Pow256(32)
    ensures EncodingLaws(Example(v)) && DecodingLaw(Example(v))
  {
    hide Pow256, BigEndian, Value;
    var C := Example(v);
    forall p: Point, r: Point | C.pointBytes(p) == C.pointBytes(r)
      ensures p == r
    {
      ValueOfBigEndian(p.log, 32);
      ValueOfBigEndian(r.log, 32);
      if !v.Ed25519? {
        assert C.pointBytes(p)[1..] == BigEndian(p.log, 32) && C.pointBytes(r)[1..] == BigEndian(r.log, 32);
      }
    }
    forall p: Point
      ensures C.pointFromBytes(C.pointBytes(p)) == Some(p)
    {
      ValueOfBigEndian(p.log, 32);
      if !v.Ed25519? {
        assert C.pointBytes(p)[1..] == BigEndian(p.log, 32);
      }
    }
    forall s: Scalar
      ensures C.scalarFromBytes(C.scalarBytes(s)) == Some(s)
    {
      ValueOfBigEndian(s, 32);
    }
    forall b: bytes | C.scalarFromBytes(b).Some?
      ensures C.scalarBytes(C.scalarFromBytes(b).value) == b
    {
      BigEndianOfValue(b);
    }
  }

  lemma ExampleIsCanonical(v: Variant)
    requires Q < Pow256(32)
    ensures CanonicalLaw(Example(v))
  {
    hide Pow256, BigEndian, Value;
    var C := Example(v);
    forall b: bytes | C.pointFromBytes(b).Some?
      ensures C.pointBytes(C.pointFromBytes(b).value) == b
    {
      if v.Ed25519? {
        BigEndianOfValue(b);
      } else {
        BigEndianOfValue(b[1..]);
        assert b == [2] + b[1..];
      }
    }
  }

  /** Its challenges are all alike, so no nonce but the package nonce is consistent: every other one gets rejected. */
  lemma ExampleRejectsOtherNonces(v: Variant, vk: Point, pkg: SigningPackage, r: Point)
    requires r != PackageNonce(Example(v), vk, pkg)
    ensures !NonceConsistent(Example(v), vk, pkg, r)
  {
    hide RawNonce, Add;
    AddZero(r.log);
    AddZero(PackageNonce(Example(v), vk, pkg).log);
    MulZero(vk.log);
  }

  /** All blinding vanishes under the constant hash, so a response is no more than the first nonce. */
  lemma ExampleResponse(vk: Point, pkg: SigningPackage, kp: KeyPackage, n: SigningNonces)
    ensures var C := Example(Secp256k1Plain);
            HonestResponse(C, vk, pkg, kp, n, SigChallenge(C, vk, pkg)) == n.d
  {
    hide RawNonce, Mod, Add, Mul, Neg, Sum, Coefficient, PackagePrefix, Delta;
    var C := Example(Secp256k1Plain);
    var lambda := Coefficient(kp.identifier, Ids(pkg));
    forall j | j in Ids(pkg)
      ensures BlindTerms(C, kp, PackagePrefix(C, pkg))(j) == 0
    {
      MulZero(Delta(kp.identifier, j));
    }
    SumZero(Ids(pkg), BlindTerms(C, kp, PackagePrefix(C, pkg)));
    MulZero(lambda);
    MulZero(kp.signingShare);
    MulZero(n.e);
    AddZero(0);
    AddZero(n.d);
  }
}
