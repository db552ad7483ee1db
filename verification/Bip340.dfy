/** The BIP-340 wire format and its stand-alone verifier (src/ciphersuite/bip340.rs). */
module Bip340 {
  import opened Wrappers
  import opened PrimeField
  import opened Ciphersuites
  import opened Wire
  import opened Signing

  function SignatureEncoding(C: Suite, sig: Signature): bytes {
    C.xOnly(sig.R) + C.scalarBytes(sig.z)
  }

  /** The x-coordinate of the nonce comes first, then the response. */
  lemma SignatureLayout(C: Suite, sig: Signature)
    requires CurveLaws(C) && EncodingLaws(C) && sig.R != Identity()
    ensures var b := SignatureEncoding(C, sig);
            |b| == 64 && b[..32] == C.xOnly(sig.R) && b[32..] == C.scalarBytes(sig.z)
  {
  }

  /** Fill the two halves of a 64-byte buffer; the source insists on an even nonce. */
  method SignatureToBytes(C: Suite, sig: Signature) returns (out: array<byte>)
    requires CurveLaws(C) && EncodingLaws(C)
    requires sig.R != Identity() && !C.hasOddY(sig.R)
    ensures fresh(out) && out.Length == 64 && out[..] == SignatureEncoding(C, sig)
  {
    var rX := C.xOnly(sig.R);
    var sBytes := C.scalarBytes(sig.z);
    assert |rX| == 32 && |sBytes| == 32;
    hide CurveLaws, EncodingLaws;
    out := new byte[64](_ => 0);
    for k := 0 to 32
      invariant out[..k] == rX[..k]
    {
      out[k] := rX[k];
    }
    for k := 0 to 32
      invariant out[..32] == rX && out[32..32 + k] == sBytes[..k]
    {
      out[32 + k] := sBytes[k];
    }
    assert out[..] == out[..32] + out[32..64];
  }

  /** G * s - P * c, what the byte verifier compares with the nonce. */
  function RecomputedNonce(s: Scalar, p: Point, c: Scalar): Point {
    PAdd(MulGenerator(s), PMul(p, Neg(c)))
  }

  /** bip340_verify_bytes, with its early returns. */
  predicate VerifyBytes(C: Suite, sig: bytes, msg: Bytes32, pubkeyX: bytes)
    requires |sig| == 64
  {
    match C.scalarFromBytes(sig[32..])
    case None => false
    case Some(s) =>
      match C.liftX(pubkeyX)
      case None => false
      case Some(p) =>
        var r := RecomputedNonce(s, p, Bip340Challenge(C, sig[..32], pubkeyX, msg));
        if r == Identity() || C.hasOddY(r) then false
        else C.xOnly(r) == sig[..32]
  }

  /** G * z == R + P * c exactly when R == G * z - P * c. */
  lemma Rearranged(r: Point, z: Scalar, p: Point, c: Scalar)
    ensures MulGenerator(z) == PAdd(r, PMul(p, c)) <==> r == RecomputedNonce(z, p, c)
  {
    hide Mod, Add, Sub, Mul, Neg;
    var t := Mul(p.log, c);
    assert Add(z, Mul(p.log, Neg(c))) == Sub(z, t) by {
      Lift();
      Rep(z); Rep(p.log); Rep(c);
      assert z + p.log * (0 - c) == z - p.log * c;
    }
    SumVersusDifference(r.log, z, t);
  }

  lemma SumVersusDifference(r: Scalar, z: Scalar, t: Scalar)
    ensures z == Add(r, t) <==> r == Sub(z, t)
  {
    hide Mod, Add, Sub;
    Lift();
    Rep(r); Rep(z); Rep(t);
    assert Sub(Add(r, t), t) == r;
    assert Add(Sub(z, t), t) == z;
  }

  /** x-coordinate and parity determine a point. */
  lemma EvenPointDetermined(C: Suite, p: Point, r: Point)
    requires CurveLaws(C) && p != Identity() && r != Identity() && !C.hasOddY(p) && !C.hasOddY(r)
    ensures C.xOnly(p) == C.xOnly(r) <==> p == r
  {
    assert C.liftX(C.xOnly(p)) == Some(p);
    assert C.liftX(C.xOnly(r)) == Some(r);
  }

  /** On an even nonce and an even key the byte verifier and the generic verifier agree. */
  lemma ByteVerifierAgrees(C: Suite, sig: Signature, msg: Bytes32, pk: PublicKeyPackage)
    requires C.variant.Secp256k1Bip340? && CurveLaws(C) && EncodingLaws(C)
    requires EvenPoint(C, sig.R) && EvenPoint(C, pk.verifyingKey)
    ensures |SignatureEncoding(C, sig)| == 64
    ensures VerifyBytes(C, SignatureEncoding(C, sig), msg, C.xOnly(pk.verifyingKey)) <==> Verify(C, sig, msg, pk)
  {
    var b := SignatureEncoding(C, sig);
    assert b[..32] == C.xOnly(sig.R) && b[32..] == C.scalarBytes(sig.z);
    assert C.scalarFromBytes(b[32..]) == Some(sig.z);
    assert C.liftX(C.xOnly(pk.verifyingKey)) == Some(pk.verifyingKey);
    var c := Bip340Challenge(C, C.xOnly(sig.R), C.xOnly(pk.verifyingKey), msg);
    var r := RecomputedNonce(sig.z, pk.verifyingKey, c);
    Rearranged(sig.R, sig.z, pk.verifyingKey, c);
    if r != Identity() && !C.hasOddY(r) {
      EvenPointDetermined(C, r, sig.R);
    }
  }

  /**
    Every byte string that is accepted encodes a signature that the generic verifier accepts, and the x-coordinate of
    the key lies on the curve.
  */
  lemma AcceptedBytesDecode(C: Suite, b: bytes, msg: Bytes32, pubkeyX: bytes, pk: PublicKeyPackage)
    returns (sig: Signature)
    requires C.variant.Secp256k1Bip340? && CurveLaws(C) && EncodingLaws(C)
    requires |b| == 64 && VerifyBytes(C, b, msg, pubkeyX)
    ensures C.liftX(pubkeyX).Some? && EvenPoint(C, C.liftX(pubkeyX).value)
    ensures EvenPoint(C, sig.R) && b == SignatureEncoding(C, sig)
    ensures Verify(C, sig, msg, pk.(verifyingKey := C.liftX(pubkeyX).value))
  {
    var p := C.liftX(pubkeyX).value;
    var s := C.scalarFromBytes(b[32..]).value;
    var c := Bip340Challenge(C, b[..32], pubkeyX, msg);
    sig := Signature(RecomputedNonce(s, p, c), s);
    assert b == b[..32] + b[32..];
    assert C.xOnly(p) == pubkeyX;
    Rearranged(sig.R, s, p, c);
  }

  /**
    The byte verifier, exactly: it accepts the encodings of those signatures with an even nonce that the generic
    verifier accepts under the key that the x-coordinate lifts to, and nothing for a coordinate off the curve.
  */
  lemma VerifyBytesIff(C: Suite, b: bytes, msg: Bytes32, pubkeyX: bytes, pk: PublicKeyPackage)
    requires C.variant.Secp256k1Bip340? && CurveLaws(C) && EncodingLaws(C) && |b| == 64
    ensures VerifyBytes(C, b, msg, pubkeyX)
        <==> C.liftX(pubkeyX).Some?
             && exists sig :: EncodesAccepted(C, b, sig, msg, pk.(verifyingKey := C.liftX(pubkeyX).value))
  {
    hide VerifyBytes, Verify, SignatureEncoding, CurveLaws, EncodingLaws;
    if VerifyBytes(C, b, msg, pubkeyX) {
      var sig := AcceptedBytesDecode(C, b, msg, pubkeyX, pk);
      assert EncodesAccepted(C, b, sig, msg, pk.(verifyingKey := C.liftX(pubkeyX).value));
    }
    if C.liftX(pubkeyX).Some? {
      var lifted := pk.(verifyingKey := C.liftX(pubkeyX).value);
      LiftedIsEven(C, pubkeyX);
      forall sig | EncodesAccepted(C, b, sig, msg, lifted)
        ensures VerifyBytes(C, b, msg, pubkeyX)
      {
        ByteVerifierAgrees(C, sig, msg, lifted);
      }
    }
  }

  ghost predicate EncodesAccepted(C: Suite, b: bytes, sig: Signature, msg: Bytes32, pk: PublicKeyPackage) {
    EvenPoint(C, sig.R) && b == SignatureEncoding(C, sig) && VerifyDefined(C, sig, pk) && Verify(C, sig, msg, pk)
  }

  lemma LiftedIsEven(C: Suite, x: bytes)
    requires CurveLaws(C) && C.liftX(x).Some?
    ensures EvenPoint(C, C.liftX(x).value) && C.xOnly(C.liftX(x).value) == x
  {
  }

  /** An odd nonce is rejected under BIP-340, and only there. */
  lemma NonceParityMatters(C: Suite, sig: Signature, msg: Bytes32, pk: PublicKeyPackage)
    requires VerifyDefined(C, sig, pk)
    ensures Verify(C, sig, msg, pk)
        <==> && (C.variant.Secp256k1Bip340? ==> !C.hasOddY(sig.R))
             && sig.R == RecomputedNonce(sig.z, pk.verifyingKey, Challenge(C, pk.verifyingKey, sig.R, msg))
  {
    hide Challenge, Add, Mul, RecomputedNonce;
    Rearranged(sig.R, sig.z, pk.verifyingKey, Challenge(C, pk.verifyingKey, sig.R, msg));
  }
}
