/** The fixed-width wire messages: to_bytes and from_bytes of src/wire.rs. */
module WireFormat {
  import opened Wrappers
  import opened PrimeField
  import opened Sums
  import opened Ciphersuites
  import opened Wire

  // ---------- encoding ----------

  function CommitmentsEncoded(C: Suite, c: SigningCommitments): bytes {
    C.pointBytes(c.D) + C.pointBytes(c.E)
  }

  function SignatureEncoded(C: Suite, sig: Signature): bytes {
    C.pointBytes(sig.R) + C.scalarBytes(sig.z)
  }

  /** A share on the wire is the record that the abort view holds for it. */
  method ShareToBytes(C: Suite, share: SignatureShare) returns (out: bytes)
    ensures out == ShareRecord(C, share.identifier, share)
  {
    out := IdBytes(share.identifier);
    out := out + C.pointBytes(share.R);
    out := out + C.scalarBytes(share.z);
  }

  // ---------- decoding ----------

  const SCALAR_LEN: nat := 32

  function PointFromBytes(C: Suite, b: bytes): Option<Point> {
    if |b| != PointLen(C) then None else C.pointFromBytes(b)
  }

  function ScalarFromBytes(C: Suite, b: bytes): Option<Scalar> {
    if |b| != SCALAR_LEN then None else C.scalarFromBytes(b)
  }

  function IdFromBytes(b: bytes): Identifier
    requires |b| == 2
  {
    256 * (b[0] as int) + (b[1] as int)
  }

  function CommitmentsFromBytes(C: Suite, b: bytes): Result<SigningCommitments, Error> {
    var w := PointLen(C);
    if |b| != 2 * w then Err(MalformedEncoding)
    else match (PointFromBytes(C, b[..w]), PointFromBytes(C, b[w..]))
      case (Some(D), Some(E)) => Ok(SigningCommitments(D, E))
      case _ => Err(MalformedEncoding)
  }

  function ShareFromBytes(C: Suite, b: bytes): Result<SignatureShare, Error> {
    var w := PointLen(C);
    if |b| != 2 + w + SCALAR_LEN then Err(MalformedEncoding)
    else match (PointFromBytes(C, b[2..2 + w]), ScalarFromBytes(C, b[2 + w..]))
      case (Some(R), Some(z)) => Ok(SignatureShare(IdFromBytes(b[..2]), R, z))
      case _ => Err(MalformedEncoding)
  }

  function SignatureFromBytes(C: Suite, b: bytes): Result<Signature, Error> {
    var w := PointLen(C);
    if |b| != w + SCALAR_LEN then Err(MalformedEncoding)
    else match (PointFromBytes(C, b[..w]), ScalarFromBytes(C, b[w..]))
      case (Some(R), Some(z)) => Ok(Signature(R, z))
      case _ => Err(MalformedEncoding)
  }

  // ---------- round trips ----------

  lemma CommitmentsRoundTrip(C: Suite, c: SigningCommitments)
    requires EncodingLaws(C) && DecodingLaw(C)
    ensures CommitmentsFromBytes(C, CommitmentsEncoded(C, c)) == Ok(c)
  {
    var b, w := CommitmentsEncoded(C, c), PointLen(C);
    assert b[..w] == C.pointBytes(c.D) && b[w..] == C.pointBytes(c.E);
  }

  lemma ShareRoundTrip(C: Suite, share: SignatureShare)
    requires EncodingLaws(C) && DecodingLaw(C)
    ensures ShareFromBytes(C, ShareRecord(C, share.identifier, share)) == Ok(share)
  {
    var b, w := ShareRecord(C, share.identifier, share), PointLen(C);
    assert b[..2] == IdBytes(share.identifier);
    assert b[2..2 + w] == C.pointBytes(share.R);
    assert b[2 + w..] == C.scalarBytes(share.z);
  }

  lemma SignatureRoundTrip(C: Suite, sig: Signature)
    requires EncodingLaws(C) && DecodingLaw(C)
    ensures SignatureFromBytes(C, SignatureEncoded(C, sig)) == Ok(sig)
  {
    var b, w := SignatureEncoded(C, sig), PointLen(C);
    assert b[..w] == C.pointBytes(sig.R) && b[w..] == C.scalarBytes(sig.z);
  }

  /**
    Two byte strings that decode to the same share agree on the identifier and on the response; so the wire
    form of a share is unique as soon as the decoder of points is.
  */
  lemma ShareDecodingUnique(C: Suite, b: bytes, b': bytes)
    requires EncodingLaws(C)
    requires ShareFromBytes(C, b).Ok? && ShareFromBytes(C, b) == ShareFromBytes(C, b')
    ensures var w := PointLen(C);
            && |b| == |b'| == 34 + w && b[..2] == b'[..2] && b[2 + w..] == b'[2 + w..]
            && C.pointFromBytes(b[2..2 + w]) == C.pointFromBytes(b'[2..2 + w])
  {
    var w, share := PointLen(C), ShareFromBytes(C, b).value;
    assert b[2 + w..] == C.scalarBytes(share.z) == b'[2 + w..];
    SameId(b[..2], b'[..2]);
  }

  lemma SameId(a: bytes, b: bytes)
    requires |a| == 2 && |b| == 2 && IdFromBytes(a) == IdFromBytes(b)
    ensures a == b
  {
    assert a[0] == b[0] && a[1] == b[1];
  }

  // ---------- with a canonical point decoder, decoding and encoding are inverse ----------

  lemma CommitmentsDecodeIff(C: Suite, b: bytes, c: SigningCommitments)
    requires EncodingLaws(C) && DecodingLaw(C) && CanonicalLaw(C)
    ensures CommitmentsFromBytes(C, b) == Ok(c) <==> b == CommitmentsEncoded(C, c)
  {
    CommitmentsRoundTrip(C, c);
    if CommitmentsFromBytes(C, b) == Ok(c) {
      assert b == b[..PointLen(C)] + b[PointLen(C)..];
    }
  }

  lemma ShareDecodeIff(C: Suite, b: bytes, share: SignatureShare)
    requires EncodingLaws(C) && DecodingLaw(C) && CanonicalLaw(C)
    ensures ShareFromBytes(C, b) == Ok(share) <==> b == ShareRecord(C, share.identifier, share)
  {
    ShareRoundTrip(C, share);
    var w := PointLen(C);
    if ShareFromBytes(C, b) == Ok(share) {
      assert b == b[..2] + b[2..2 + w] + b[2 + w..];
      SameId(b[..2], IdBytes(share.identifier));
    }
  }

  lemma SignatureDecodeIff(C: Suite, b: bytes, sig: Signature)
    requires EncodingLaws(C) && DecodingLaw(C) && CanonicalLaw(C)
    ensures SignatureFromBytes(C, b) == Ok(sig) <==> b == SignatureEncoded(C, sig)
  {
    SignatureRoundTrip(C, sig);
    if SignatureFromBytes(C, b) == Ok(sig) {
      assert b == b[..PointLen(C)] + b[PointLen(C)..];
    }
  }

  /** What cannot be decoded is reported as malformed. */
  lemma DecodingErrors(C: Suite, b: bytes)
    ensures CommitmentsFromBytes(C, b).Err? ==> CommitmentsFromBytes(C, b).error == MalformedEncoding
    ensures ShareFromBytes(C, b).Err? ==> ShareFromBytes(C, b).error == MalformedEncoding
    ensures SignatureFromBytes(C, b).Err? ==> SignatureFromBytes(C, b).error == MalformedEncoding
  {
  }

  /** The record of a signer in the commitment encoding is its identifier and its wire form. */
  lemma CommitmentRecordDecodes(C: Suite, id: Identifier, c: SigningCommitments)
    requires EncodingLaws(C) && DecodingLaw(C)
    ensures var r := CommitmentRecord(C, id, c);
            IdFromBytes(r[..2]) == id && CommitmentsFromBytes(C, r[2..]) == Ok(c)
  {
    var r := CommitmentRecord(C, id, c);
    assert r[..2] == IdBytes(id) && r[2..] == CommitmentsEncoded(C, c);
    CommitmentsRoundTrip(C, c);
  }

  /** Encoded identifiers compare byte by byte as the identifiers do. */
  lemma IdBytesOrdered(a: Identifier, b: Identifier)
    ensures var x, y := IdBytes(a), IdBytes(b);
            a < b <==> x[0] < y[0] || (x[0] == y[0] && x[1] < y[1])
  {
  }
}
