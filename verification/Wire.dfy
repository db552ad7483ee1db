/** The protocol records and their byte encodings (src/keygen.rs, src/sign.rs, src/wire.rs). */
module Wire {
  import opened PrimeField
  import opened Sums
  import opened Ciphersuites

  // ---------- records ----------

  datatype KeyPackage = KeyPackage(
    identifier: Identifier,
    signingShare: Scalar,
    signingShareBlinding: Scalar,
    pairwiseKeys: map<Identifier, Bytes32>)

  datatype PartialVerificationKey = PartialVerificationKey(
    signingShareCommitment: Point,
    pairwiseKeyCommitments: map<Identifier, Bytes32>)

  datatype PublicKeyPackage = PublicKeyPackage(
    verifyingKey: Point,
    maxSigners: Identifier,
    minSigners: Identifier,
    pedersenH: Point,
    partialVerificationKeys: map<Identifier, PartialVerificationKey>)

  datatype SigningNonces = SigningNonces(d: Scalar, e: Scalar)

  datatype SigningCommitments = SigningCommitments(D: Point, E: Point)

  datatype SigningPackage = SigningPackage(
    message: Bytes32,
    signingCommitments: map<Identifier, SigningCommitments>)

  datatype SignatureShare = SignatureShare(identifier: Identifier, R: Point, z: Scalar)

  datatype Signature = Signature(R: Point, z: Scalar)

  datatype Error =
    | UnknownSigner(signer: Identifier)
    | NonceCommitmentMismatch(signer: Identifier)
    | InconsistentAggregateNonce
    | ShareCountMismatch(expected: nat, got: nat)
    | NoSignatureShares
    | MissingIa1Message(signer: Identifier)
    | MissingBlindingCommitment(from: Identifier, about: Identifier)
    | MissingPairwiseKey(peer: Identifier)
    | MalformedEncoding

  /** The signer set of a package, in ascending order. */
  ghost function Ids(pkg: SigningPackage): (ids: seq<Identifier>)
    ensures forall x :: x in ids <==> x in pkg.signingCommitments
  {
    Sorted(pkg.signingCommitments.Keys)
  }

  method SignerIds(pkg: SigningPackage) returns (ids: seq<Identifier>)
    ensures ids == Ids(pkg)
  {
    ids := Keys(pkg.signingCommitments.Keys);
  }

  // ---------- encodings ----------

  /** Two bytes, most significant first. */
  function IdBytes(id: Identifier): (b: bytes)
    ensures |b| == 2
  {
    [id / 256, id % 256]
  }

  lemma IdBytesInjective(a: Identifier, b: Identifier)
    requires IdBytes(a) == IdBytes(b)
    ensures a == b
  {
    assert IdBytes(a)[0] == IdBytes(b)[0] && IdBytes(a)[1] == IdBytes(b)[1];
  }

  function CommitmentRecord(C: Suite, id: Identifier, c: SigningCommitments): bytes {
    IdBytes(id) + C.pointBytes(c.D) + C.pointBytes(c.E)
  }

  function CommitmentRecords(C: Suite, ids: seq<Identifier>, m: map<Identifier, SigningCommitments>): (r: seq<bytes>)
    requires forall x :: x in ids ==> x in m
    ensures |r| == |ids|
  {
    seq(|ids|, k requires 0 <= k < |ids| => CommitmentRecord(C, ids[k], m[ids[k]]))
  }

  /** The records of the listed signers, one after the other. */
  function EncodedCommitments(C: Suite, ids: seq<Identifier>, m: map<Identifier, SigningCommitments>): bytes
    requires forall x :: x in ids ==> x in m
  {
    if |ids| == 0 then []
    else EncodedCommitments(C, ids[..|ids| - 1], m) + CommitmentRecord(C, ids[|ids| - 1], m[ids[|ids| - 1]])
  }

  ghost function CommitmentsEncoding(C: Suite, m: map<Identifier, SigningCommitments>): bytes {
    EncodedCommitments(C, Sorted(m.Keys), m)
  }

  function SignerSetRecords(ids: seq<Identifier>): (r: seq<bytes>)
    ensures |r| == |ids|
  {
    seq(|ids|, k requires 0 <= k < |ids| => IdBytes(ids[k]))
  }

  function SignerSetEncoding(ids: seq<Identifier>): bytes {
    if |ids| == 0 then [] else SignerSetEncoding(ids[..|ids| - 1]) + IdBytes(ids[|ids| - 1])
  }

  function ShareRecord(C: Suite, id: Identifier, share: SignatureShare): bytes {
    IdBytes(id) + C.pointBytes(share.R) + C.scalarBytes(share.z)
  }

  function ShareRecords(C: Suite, ids: seq<Identifier>, m: map<Identifier, SignatureShare>): (r: seq<bytes>)
    requires forall x :: x in ids ==> x in m
    ensures |r| == |ids|
  {
    seq(|ids|, k requires 0 <= k < |ids| => ShareRecord(C, ids[k], m[ids[k]]))
  }

  function EncodedShares(C: Suite, ids: seq<Identifier>, m: map<Identifier, SignatureShare>): bytes
    requires forall x :: x in ids ==> x in m
  {
    if |ids| == 0 then []
    else EncodedShares(C, ids[..|ids| - 1], m) + ShareRecord(C, ids[|ids| - 1], m[ids[|ids| - 1]])
  }

  ghost function SharesEncoding(C: Suite, m: map<Identifier, SignatureShare>): bytes {
    EncodedShares(C, Sorted(m.Keys), m)
  }

  /** One record after the other, in identifier order. */
  method EncodeCommitments(C: Suite, commitments: map<Identifier, SigningCommitments>) returns (out: bytes)
    ensures out == CommitmentsEncoding(C, commitments)
  {
    out := [];
    var ids := Keys(commitments.Keys);
    for k := 0 to |ids|
      invariant out == EncodedCommitments(C, ids[..k], commitments)
    {
      var c := commitments[ids[k]];
      assert ids[..k + 1][..k] == ids[..k];
      AppendAssoc(out, IdBytes(ids[k]), C.pointBytes(c.D), C.pointBytes(c.E));
      out := out + IdBytes(ids[k]);
      out := out + C.pointBytes(c.D);
      out := out + C.pointBytes(c.E);
    }
    TakeAll(ids);
  }

  method EncodeSignerSet(ids: seq<Identifier>) returns (out: bytes)
    ensures out == SignerSetEncoding(ids)
  {
    out := [];
    for k := 0 to |ids|
      invariant out == SignerSetEncoding(ids[..k])
    {
      assert ids[..k + 1][..k] == ids[..k];
      out := out + IdBytes(ids[k]);
    }
    TakeAll(ids);
  }

  /** src/ia.rs: what every signer saw, commitments first and then the shares. */
  method IaViewBytes(C: Suite, pkg: SigningPackage, shares: map<Identifier, SignatureShare>) returns (out: bytes)
    ensures out == CommitmentsEncoding(C, pkg.signingCommitments) + SharesEncoding(C, shares)
  {
    out := EncodeCommitments(C, pkg.signingCommitments);
    ghost var prefix := out;
    var ids := Keys(shares.Keys);
    for k := 0 to |ids|
      invariant out == prefix + EncodedShares(C, ids[..k], shares)
    {
      var share := shares[ids[k]];
      assert ids[..k + 1][..k] == ids[..k];
      AppendRecord(prefix, EncodedShares(C, ids[..k], shares), IdBytes(ids[k]), C.pointBytes(share.R),
          C.scalarBytes(share.z));
      out := out + IdBytes(ids[k]);
      out := out + C.pointBytes(share.R);
      out := out + C.scalarBytes(share.z);
    }
    TakeAll(ids);
  }

  lemma AppendAssoc(out: bytes, a: bytes, b: bytes, c: bytes)
    ensures out + a + b + c == out + (a + b + c)
  {
  }

  lemma AppendRecord(prefix: bytes, out: bytes, a: bytes, b: bytes, c: bytes)
    ensures prefix + out + a + b + c == prefix + (out + (a + b + c))
  {
  }

  // ---------- a concatenation of records of one width can be taken apart ----------

  function Concat(parts: seq<bytes>): bytes {
    if |parts| == 0 then [] else Concat(parts[..|parts| - 1]) + parts[|parts| - 1]
  }

  lemma {:induction false} CommitmentsConcat(C: Suite, ids: seq<Identifier>, m: map<Identifier, SigningCommitments>)
    requires forall x :: x in ids ==> x in m
    ensures EncodedCommitments(C, ids, m) == Concat(CommitmentRecords(C, ids, m))
  {
    hide CommitmentRecord;
    if |ids| == 0 {
    } else {
      var n := |ids| - 1;
      CommitmentsConcat(C, ids[..n], m);
      assert CommitmentRecords(C, ids, m)[..n] == CommitmentRecords(C, ids[..n], m);
    }
  }

  lemma {:induction false} SignerSetConcat(ids: seq<Identifier>)
    ensures SignerSetEncoding(ids) == Concat(SignerSetRecords(ids))
  {
    hide IdBytes;
    if |ids| == 0 {
    } else {
      var n := |ids| - 1;
      SignerSetConcat(ids[..n]);
      assert SignerSetRecords(ids)[..n] == SignerSetRecords(ids[..n]);
    }
  }

  lemma {:induction false} SharesConcat(C: Suite, ids: seq<Identifier>, m: map<Identifier, SignatureShare>)
    requires forall x :: x in ids ==> x in m
    ensures EncodedShares(C, ids, m) == Concat(ShareRecords(C, ids, m))
  {
    hide ShareRecord;
    if |ids| == 0 {
    } else {
      var n := |ids| - 1;
      SharesConcat(C, ids[..n], m);
      assert ShareRecords(C, ids, m)[..n] == ShareRecords(C, ids[..n], m);
    }
  }

  ghost predicate AllOfWidth(parts: seq<bytes>, w: nat) {
    forall k :: 0 <= k < |parts| ==> |parts[k]| == w
  }

  lemma {:induction false} ConcatLength(parts: seq<bytes>, w: nat)
    requires AllOfWidth(parts, w)
    ensures |Concat(parts)| == |parts| * w
  {
    if |parts| == 0 {
    } else {
      ConcatLength(parts[..|parts| - 1], w);
      assert (|parts| - 1) * w + w == |parts| * w;
    }
  }

  lemma {:induction false} ConcatInjective(a: seq<bytes>, b: seq<bytes>, w: nat)
    requires w > 0 && AllOfWidth(a, w) && AllOfWidth(b, w) && Concat(a) == Concat(b)
    ensures a == b
  {
    ConcatLength(a, w);
    ConcatLength(b, w);
    SameCount(|a|, |b|, w);
    if |a| == 0 {
    } else {
      var n := |a| - 1;
      SplitTail(Concat(a[..n]), a[n], Concat(b[..n]), b[n]);
      ConcatInjective(a[..n], b[..n], w);
      assert a == a[..n] + [a[n]] && b == b[..n] + [b[n]];
    }
  }

  /** The k-th record starts at k times the width. */
  lemma {:induction false} ConcatAt(parts: seq<bytes>, w: nat, k: nat)
    requires AllOfWidth(parts, w) && k < |parts|
    ensures k * w + w <= |Concat(parts)| && Concat(parts)[k * w..k * w + w] == parts[k]
  {
    var n := |parts| - 1;
    ConcatLength(parts[..n], w);
    ConcatLength(parts, w);
    assert n * w + w == |parts| * w;
    if k == n {
    } else {
      ConcatAt(parts[..n], w, k);
      assert Concat(parts)[..|Concat(parts[..n])|] == Concat(parts[..n]);
    }
  }

  lemma SameCount(m: nat, n: nat, w: nat)
    requires w > 0 && m * w == n * w
    ensures m == n
  {
    if m < n { MulAtLeast(n - m, w); }
    if n < m { MulAtLeast(m - n, w); }
  }

  lemma SplitTail(a: bytes, b: bytes, c: bytes, d: bytes)
    requires a + b == c + d && |b| == |d|
    ensures a == c && b == d
  {
    assert a == (a + b)[..|a|] && c == (c + d)[..|c|];
    assert b == (a + b)[|a|..] && d == (c + d)[|c|..];
  }

  lemma SplitHead(a: bytes, b: bytes, c: bytes, d: bytes)
    requires a + b == c + d && |a| == |c|
    ensures a == c && b == d
  {
    assert a == (a + b)[..|a|] && c == (c + d)[..|c|];
    assert b == (a + b)[|a|..] && d == (c + d)[|c|..];
  }

  lemma SignerSetInjective(a: seq<Identifier>, b: seq<Identifier>)
    requires SignerSetEncoding(a) == SignerSetEncoding(b)
    ensures a == b
  {
    var ra, rb := SignerSetRecords(a), SignerSetRecords(b);
    SignerSetConcat(a);
    SignerSetConcat(b);
    ConcatInjective(ra, rb, 2);
    forall k | 0 <= k < |a|
      ensures a[k] == b[k]
    {
      assert ra[k] == rb[k];
      IdBytesInjective(a[k], b[k]);
    }
  }

  lemma CommitmentsLength(C: Suite, m: map<Identifier, SigningCommitments>)
    requires EncodingLaws(C)
    ensures |CommitmentsEncoding(C, m)| == |m| * (2 + 2 * PointLen(C))
    ensures |SignerSetEncoding(Sorted(m.Keys))| == |m| * 2
  {
    var ids := Sorted(m.Keys);
    SortedAscends(m.Keys);
    AscendingLength(ids, m.Keys);
    CommitmentsConcat(C, ids, m);
    SignerSetConcat(ids);
    CommitmentRecordsWidth(C, ids, m);
    hide Concat, CommitmentRecords;
    ConcatLength(CommitmentRecords(C, Sorted(m.Keys), m), 2 + 2 * PointLen(C));
    ConcatLength(SignerSetRecords(Sorted(m.Keys)), 2);
  }

  /** Signers are encoded in ascending order, one record after the other. */
  lemma CommitmentsLayout(C: Suite, m: map<Identifier, SigningCommitments>, k: nat)
    requires EncodingLaws(C) && k < |m|
    ensures var ids, w := Sorted(m.Keys), 2 + 2 * PointLen(C);
            && Ascending(ids) && |ids| == |m| && k * w + w <= |CommitmentsEncoding(C, m)|
            && ids[k] in m && CommitmentsEncoding(C, m)[k * w..k * w + w] == CommitmentRecord(C, ids[k], m[ids[k]])
  {
    hide Concat, CommitmentRecord, Ascending, EncodingLaws;
    var ids := Sorted(m.Keys);
    SortedAscends(m.Keys);
    AscendingLength(ids, m.Keys);
    CommitmentsConcat(C, ids, m);
    CommitmentRecordsWidth(C, ids, m);
    ConcatAt(CommitmentRecords(C, ids, m), 2 + 2 * PointLen(C), k);
    assert ids[k] in ids;
  }

  lemma SharesLayout(C: Suite, m: map<Identifier, SignatureShare>, k: nat)
    requires EncodingLaws(C) && k < |m|
    ensures var ids, w := Sorted(m.Keys), 34 + PointLen(C);
            && Ascending(ids) && |ids| == |m| && k * w + w <= |SharesEncoding(C, m)|
            && ids[k] in m && SharesEncoding(C, m)[k * w..k * w + w] == ShareRecord(C, ids[k], m[ids[k]])
  {
    hide Concat, ShareRecord, Ascending, EncodingLaws;
    var ids := Sorted(m.Keys);
    SortedAscends(m.Keys);
    AscendingLength(ids, m.Keys);
    SharesConcat(C, ids, m);
    ShareRecordsWidth(C, ids, m);
    ConcatAt(ShareRecords(C, ids, m), 34 + PointLen(C), k);
    assert ids[k] in ids;
  }

  lemma SignerSetLayout(ids: seq<Identifier>, k: nat)
    requires k < |ids|
    ensures k * 2 + 2 <= |SignerSetEncoding(ids)| && SignerSetEncoding(ids)[k * 2..k * 2 + 2] == IdBytes(ids[k])
  {
    hide Concat;
    SignerSetConcat(ids);
    ConcatAt(SignerSetRecords(ids), 2, k);
  }

  lemma CommitmentRecordInjective(C: Suite, i: Identifier, x: SigningCommitments, j: Identifier, y: SigningCommitments)
    requires EncodingLaws(C) && CommitmentRecord(C, i, x) == CommitmentRecord(C, j, y)
    ensures i == j && x == y
  {
    SplitTail(IdBytes(i) + C.pointBytes(x.D), C.pointBytes(x.E), IdBytes(j) + C.pointBytes(y.D), C.pointBytes(y.E));
    SplitTail(IdBytes(i), C.pointBytes(x.D), IdBytes(j), C.pointBytes(y.D));
    IdBytesInjective(i, j);
  }

  lemma ShareRecordInjective(C: Suite, i: Identifier, x: SignatureShare, j: Identifier, y: SignatureShare)
    requires EncodingLaws(C) && ShareRecord(C, i, x) == ShareRecord(C, j, y)
    ensures i == j && x.R == y.R && x.z == y.z
  {
    SplitTail(IdBytes(i) + C.pointBytes(x.R), C.scalarBytes(x.z), IdBytes(j) + C.pointBytes(y.R), C.scalarBytes(y.z));
    SplitTail(IdBytes(i), C.pointBytes(x.R), IdBytes(j), C.pointBytes(y.R));
    IdBytesInjective(i, j);
    assert C.scalarFromBytes(C.scalarBytes(x.z)) == C.scalarFromBytes(C.scalarBytes(y.z));
  }

  /** The commitment map can be read back from its encoding. */
  lemma CommitmentsInjective(C: Suite, a: map<Identifier, SigningCommitments>, b: map<Identifier, SigningCommitments>)
    requires EncodingLaws(C) && CommitmentsEncoding(C, a) == CommitmentsEncoding(C, b)
    ensures a == b
  {
    hide CommitmentRecord, IdBytes, EncodingLaws, Sorted, Concat;
    var ia, ib := Sorted(a.Keys), Sorted(b.Keys);
    var ra, rb := CommitmentRecords(C, ia, a), CommitmentRecords(C, ib, b);
    CommitmentRecordsWidth(C, ia, a);
    CommitmentRecordsWidth(C, ib, b);
    CommitmentsConcat(C, ia, a);
    CommitmentsConcat(C, ib, b);
    ConcatInjective(ra, rb, 2 + 2 * PointLen(C));
    forall k | 0 <= k < |ia|
      ensures ia[k] == ib[k] && a[ia[k]] == b[ib[k]]
    {
      assert ra[k] == rb[k];
      CommitmentRecordInjective(C, ia[k], a[ia[k]], ib[k], b[ib[k]]);
    }
    assert ia == ib;
    assert forall i :: i in a <==> i in ia;
    assert forall i :: i in b <==> i in ib;
    assert a.Keys == b.Keys;
  }

  lemma CommitmentRecordsWidth(C: Suite, ids: seq<Identifier>, m: map<Identifier, SigningCommitments>)
    requires EncodingLaws(C) && forall x :: x in ids ==> x in m
    ensures AllOfWidth(CommitmentRecords(C, ids, m), 2 + 2 * PointLen(C))
  {
  }

  lemma ShareRecordsWidth(C: Suite, ids: seq<Identifier>, m: map<Identifier, SignatureShare>)
    requires EncodingLaws(C) && forall x :: x in ids ==> x in m
    ensures AllOfWidth(ShareRecords(C, ids, m), 34 + PointLen(C))
  {
  }

  /** So can the identifier, nonce and response of every signature share. */
  lemma SharesInjective(C: Suite, a: map<Identifier, SignatureShare>, b: map<Identifier, SignatureShare>)
    requires EncodingLaws(C) && SharesEncoding(C, a) == SharesEncoding(C, b)
    ensures a.Keys == b.Keys
    ensures forall i :: i in a && i in b ==> a[i].R == b[i].R && a[i].z == b[i].z
  {
    hide ShareRecord, IdBytes, EncodingLaws, Sorted, Concat;
    var ia, ib := Sorted(a.Keys), Sorted(b.Keys);
    var ra, rb := ShareRecords(C, ia, a), ShareRecords(C, ib, b);
    ShareRecordsWidth(C, ia, a);
    ShareRecordsWidth(C, ib, b);
    SharesConcat(C, ia, a);
    SharesConcat(C, ib, b);
    ConcatInjective(ra, rb, 34 + PointLen(C));
    forall k | 0 <= k < |ia|
      ensures ia[k] == ib[k] && a[ia[k]].R == b[ib[k]].R && a[ia[k]].z == b[ib[k]].z
    {
      assert ra[k] == rb[k];
      ShareRecordInjective(C, ia[k], a[ia[k]], ib[k], b[ib[k]]);
    }
    assert ia == ib;
    assert forall i :: i in a <==> i in ia;
    assert forall i :: i in b <==> i in ib;
    assert a.Keys == b.Keys;
  }
}
