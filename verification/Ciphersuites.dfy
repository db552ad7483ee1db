/** The ciphersuite trait: a group of prime order, hash functions and the normalisation hooks. */
module Ciphersuites {
  import opened Wrappers
  import opened PrimeField

  type byte = x: int | 0 <= x < 256
  type bytes = seq<byte>

  /** A 32-byte array: a message digest, a pairwise key or a key commitment. */
  type Bytes32 = b: bytes | |b| == 32 witness seq(32, _ => 0)

  // ---------- the group ----------

  /**
    A group element, named by its discrete logarithm to the generator.  Every group of order Q is
    isomorphic to this one, so an equation between group elements holds here exactly when it holds there.
    Everything else about a point (its encoding, its parity) is a function the suite supplies.
  */
  datatype Point = Point(log: Scalar)

  function Identity(): Point {
    Point(0)
  }

  function Generator(): Point {
    Point(1)
  }

  function PAdd(p: Point, r: Point): Point {
    Point(Add(p.log, r.log))
  }

  function PSub(p: Point, r: Point): Point {
    Point(Sub(p.log, r.log))
  }

  function PNeg(p: Point): Point {
    Point(Neg(p.log))
  }

  function PMul(p: Point, s: Scalar): Point {
    Point(Mul(p.log, s))
  }

  function MulGenerator(s: Scalar): (p: Point)
    ensures p == Point(s)
  {
    MulOne(s);
    PMul(Generator(), s)
  }

  /** src/utils.rs: the Pedersen commitment to a value under the second generator h. */
  function PedersenCommit(value: Scalar, blinding: Scalar, h: Point): Point {
    PAdd(MulGenerator(value), PMul(h, blinding))
  }

  lemma NegInvolutive(p: Point)
    ensures PNeg(PNeg(p)) == p
    ensures PNeg(p) == Identity() <==> p == Identity()
  {
    hide Mod, Neg;
    NegValue(p.log);
    NegValue(Neg(p.log));
  }

  // ---------- the suites ----------

  datatype Variant = Secp256k1Plain | Secp256k1Bip340 | Ed25519

  /** The labels of the Fiat-Shamir transcript of src/ia.rs; the first is its protocol name. */
  datatype Label =
    | IaProof | Ctx | Signer | Msg | BindingB | SigC | ShareZ | ShareR | Vk | PedersenH | VkI | Commitments
    | BlindId | BlindCommit | TSig | TKey | TBlindId | TBlind

  /** One labelled message of a transcript. */
  datatype Entry = Entry(tag: Label, message: bytes)

  /**
    A ciphersuite.  The hash functions, the encodings and the affine view of a point are arbitrary
    functions; the theorems that need more of them say so with CurveLaws or EncodingLaws.
  */
  datatype Suite = Suite(
    variant: Variant,
    context: bytes,                      // domain separator of the internal hashes
    pedersenGenerator: Point,
    hash: bytes -> Scalar,               // finished hasher, reduced to a scalar
    taggedHash: bytes -> Scalar,         // the reduced BIP0340/challenge tagged hash
    hashCommitment: bytes -> Bytes32,    // commitment hash of a pairwise key
    transcript: seq<Entry> -> Scalar,    // Fiat-Shamir challenge of a transcript
    pointBytes: Point -> bytes,
    pointFromBytes: bytes -> Option<Point>,
    scalarBytes: Scalar -> bytes,
    scalarFromBytes: bytes -> Option<Scalar>,
    hasOddY: Point -> bool,
    xOnly: Point -> bytes,
    liftX: bytes -> Option<Point>)

  function Ascii(s: string): (b: bytes)
    ensures |b| == |s|
    ensures forall k :: 0 <= k < |s| ==> b[k] == s[k] as int % 256
  {
    seq(|s|, k requires 0 <= k < |s| => s[k] as int % 256)
  }

  /**
    The x-only view of the identity does not exist: the source's slice of its encoding panics.  The specification
    functions are total and take any bytes in its place; whoever computes a challenge has to rule that case out.
  */
  ghost predicate ChallengeDefined(C: Suite, vk: Point, r: Point) {
    C.variant.Secp256k1Bip340? ==> vk != Identity() && r != Identity()
  }

  function PlainChallengeInput(C: Suite, vk: Point, r: Point, msg: Bytes32): bytes {
    C.context + Ascii("/Hsig") + C.pointBytes(vk) + C.pointBytes(r) + msg
  }

  /** The challenge input of RFC 8032, without a context or a tag. */
  function Ed25519ChallengeInput(C: Suite, vk: Point, r: Point, msg: Bytes32): bytes {
    C.pointBytes(r) + C.pointBytes(vk) + msg
  }

  function Bip340ChallengeInput(rX: bytes, pX: bytes, msg: Bytes32): bytes {
    rX + pX + msg
  }

  function Bip340Challenge(C: Suite, rX: bytes, pX: bytes, msg: Bytes32): Scalar {
    C.taggedHash(Bip340ChallengeInput(rX, pX, msg))
  }

  function Challenge(C: Suite, vk: Point, r: Point, msg: Bytes32): Scalar {
    match C.variant
    case Secp256k1Plain => C.hash(PlainChallengeInput(C, vk, r, msg))
    case Secp256k1Bip340 => Bip340Challenge(C, C.xOnly(r), C.xOnly(vk), msg)
    case Ed25519 => C.hash(Ed25519ChallengeInput(C, vk, r, msg))
  }

  method ComputeChallenge(C: Suite, vk: Point, r: Point, msg: Bytes32) returns (c: Scalar)
    requires ChallengeDefined(C, vk, r)
    ensures c == Challenge(C, vk, r, msg)
  {
    c := Challenge(C, vk, r, msg);
  }

  function NormalizeKeygen(C: Suite, sk: Scalar, vk: Point): (Scalar, Point) {
    if C.variant.Secp256k1Bip340? && C.hasOddY(vk) then (Neg(sk), PNeg(vk)) else (sk, vk)
  }

  function NormalizeShareR(C: Suite, r: Point, nonce: Scalar): (Point, Scalar) {
    if C.variant.Secp256k1Bip340? && C.hasOddY(r) then (PNeg(r), Neg(nonce)) else (r, nonce)
  }

  function AcceptR(C: Suite, r: Point): bool {
    C.variant.Secp256k1Bip340? ==> !C.hasOddY(r)
  }

  // ---------- laws of a curve and of its encodings ----------

  /** The affine view: negation flips the parity of y and keeps x; x and the parity determine the point. */
  ghost predicate CurveLaws(C: Suite) {
    && !C.hasOddY(Identity())
    && (forall p: Point {:trigger PNeg(p)} :: p != Identity() ==> C.hasOddY(PNeg(p)) != C.hasOddY(p))
    && (forall p: Point {:trigger C.xOnly(PNeg(p))} :: p != Identity() ==> C.xOnly(PNeg(p)) == C.xOnly(p))
    && (forall p: Point {:trigger C.xOnly(p)} :: p != Identity() ==>
          |C.xOnly(p)| == 32 && C.liftX(C.xOnly(p)) == Some(if C.hasOddY(p) then PNeg(p) else p))
    && (forall x: bytes {:trigger C.liftX(x)} :: C.liftX(x).Some? ==>
          var p := C.liftX(x).value; p != Identity() && !C.hasOddY(p) && C.xOnly(p) == x)
  }

  ghost predicate EvenPoint(C: Suite, p: Point) {
    p != Identity() && !C.hasOddY(p)
  }

  /**
    Normalising a key pair negates it or leaves it alone.  Under BIP-340 the result is even and has the x-coordinate of
    the original key; the other suites change nothing.
  */
  lemma NormalizedKeyPair(C: Suite, sk: Scalar)
    ensures var (s, p) := NormalizeKeygen(C, sk, MulGenerator(sk));
            && p == MulGenerator(s) && (s == sk || s == Neg(sk))
            && (!C.variant.Secp256k1Bip340? ==> s == sk)
            && (C.variant.Secp256k1Bip340? && CurveLaws(C) && sk != 0 ==>
                  EvenPoint(C, p) && C.xOnly(p) == C.xOnly(MulGenerator(sk)))
  {
    hide Neg;
    NegInvolutive(MulGenerator(sk));
  }

  /** The parity of y is decided after normalisation, whatever it was before. */
  lemma NormalizedIsAccepted(C: Suite, r: Point, k: Scalar)
    requires C.variant.Secp256k1Bip340? ==> CurveLaws(C)
    ensures AcceptR(C, NormalizeShareR(C, r, k).0)
  {
  }

  /** The challenge does not see the sign of the nonce commitment. */
  lemma ChallengeIgnoresNormalization(C: Suite, vk: Point, r: Point, k: Scalar, msg: Bytes32)
    requires C.variant.Secp256k1Bip340? ==> CurveLaws(C)
    requires ChallengeDefined(C, vk, r)
    ensures ChallengeDefined(C, vk, NormalizeShareR(C, r, k).0)
    ensures Challenge(C, vk, NormalizeShareR(C, r, k).0, msg) == Challenge(C, vk, r, msg)
  {
    NegInvolutive(r);
  }

  /** The compressed encoding has 33 bytes on secp256k1 and 32 on edwards25519. */
  function PointLen(C: Suite): nat {
    if C.variant.Ed25519? then 32 else 33
  }

  /** An encoded point decodes to itself; nothing is said about other inputs of the decoder. */
  ghost predicate DecodingLaw(C: Suite) {
    forall p: Point {:trigger C.pointBytes(p)} :: C.pointFromBytes(C.pointBytes(p)) == Some(p)
  }

  /** The decoder of points accepts nothing but encodings, as that of compressed secp256k1 points does. */
  ghost predicate CanonicalLaw(C: Suite) {
    forall b: bytes {:trigger C.pointFromBytes(b)} :: C.pointFromBytes(b).Some? ==>
      C.pointBytes(C.pointFromBytes(b).value) == b
  }

  /** Fixed widths, and no two values share an encoding. */
  ghost predicate EncodingLaws(C: Suite) {
    && (forall p: Point :: |C.pointBytes(p)| == PointLen(C))
    && (forall p: Point, r: Point :: C.pointBytes(p) == C.pointBytes(r) ==> p == r)
    && (forall s: Scalar :: |C.scalarBytes(s)| == 32)
    && (forall s: Scalar :: C.scalarFromBytes(C.scalarBytes(s)) == Some(s))
    && (forall b: bytes :: C.scalarFromBytes(b).Some? ==> C.scalarBytes(C.scalarFromBytes(b).value) == b)
  }

  // ---------- the hash accumulator ----------

  /** src/ciphersuite/mod.rs: an accumulator whose clone branches off a shared prefix. */
  class ScalarHasher {
    var absorbed: bytes

    constructor ()
      ensures absorbed == []
    {
      absorbed := [];
    }

    method Update(data: bytes)
      modifies this
      ensures absorbed == old(absorbed) + data
    {
      absorbed := absorbed + data;
    }

    method Clone() returns (h: ScalarHasher)
      ensures fresh(h) && h.absorbed == absorbed
    {
      h := new ScalarHasher();
      h.absorbed := absorbed;
    }

    method Finish(C: Suite) returns (s: Scalar)
      ensures s == C.hash(absorbed)
    {
      s := C.hash(absorbed);
    }

    method FinishWith(C: Suite, data: bytes) returns (s: Scalar)
      modifies this
      ensures s == C.hash(old(absorbed) + data)
    {
      Update(data);
      s := Finish(C);
    }
  }
}
