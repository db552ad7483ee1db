/** The domain-separated hash inputs and the values derived from them (src/utils.rs). */
module Hashing {
  import opened PrimeField
  import opened Sums
  import opened Ciphersuites
  import opened Wire

  /** The input of the binding factor. */
  function NonceInput(C: Suite, vk: Point, signerSet: bytes, message: Bytes32, commitments: bytes): bytes {
    C.context + Ascii("/Hnon") + C.pointBytes(vk) + signerSet + message + commitments
  }

  /** The prefix that all blinding values of a session share; the pairwise key is appended last. */
  function BlindingPrefix(C: Suite, commitments: bytes, message: Bytes32, signerSet: bytes): bytes {
    C.context + Ascii("/Hs") + commitments + message + signerSet
  }

  function RandomizerInput(C: Suite, key: Bytes32, view: bytes): bytes {
    C.context + Ascii("/HIA") + key + view
  }

  function KeyCommitmentInput(C: Suite, key: Bytes32): bytes {
    C.context + Ascii("/Hvk") + key
  }

  function KeyCommitment(C: Suite, key: Bytes32): Bytes32 {
    C.hashCommitment(KeyCommitmentInput(C, key))
  }

  /** The sign of signer i towards signer j. */
  function Delta(i: Identifier, j: Identifier): Scalar {
    if i > j then 1 else Neg(1)
  }

  // ---------- values of one signing package ----------

  ghost function PackagePrefix(C: Suite, pkg: SigningPackage): bytes {
    BlindingPrefix(C, CommitmentsEncoding(C, pkg.signingCommitments), pkg.message, SignerSetEncoding(Ids(pkg)))
  }

  /** The binding factor b of a package. */
  ghost function NonceChallenge(C: Suite, vk: Point, pkg: SigningPackage): Scalar {
    C.hash(NonceInput(C, vk, SignerSetEncoding(Ids(pkg)), pkg.message, CommitmentsEncoding(C, pkg.signingCommitments)))
  }

  /** The view that fixes the randomness of the identifiable-abort commitments. */
  ghost function View(C: Suite, pkg: SigningPackage, shares: map<Identifier, SignatureShare>): bytes {
    CommitmentsEncoding(C, pkg.signingCommitments) + SharesEncoding(C, shares)
  }

  method BindingFactor(C: Suite, vk: Point, signerSet: bytes, message: Bytes32, commitments: bytes) returns (b: Scalar)
    ensures b == C.hash(NonceInput(C, vk, signerSet, message, commitments))
  {
    var h := new ScalarHasher();
    h.Update(C.context);
    h.Update(Ascii("/Hnon"));
    h.Update(C.pointBytes(vk));
    h.Update(signerSet);
    h.Update(message);
    h.Update(commitments);
    b := h.Finish(C);
    assert [] + C.context == C.context;
  }

  method BlindingBase(C: Suite, commitments: bytes, message: Bytes32, signerSet: bytes) returns (base: ScalarHasher)
    ensures fresh(base) && base.absorbed == BlindingPrefix(C, commitments, message, signerSet)
  {
    base := new ScalarHasher();
    base.Update(C.context);
    base.Update(Ascii("/Hs"));
    base.Update(commitments);
    base.Update(message);
    base.Update(signerSet);
    assert [] + C.context == C.context;
  }

  // ---------- the aggregate nonce ----------

  function CommitmentOf(m: map<Identifier, SigningCommitments>, i: Identifier): SigningCommitments {
    if i in m then m[i] else SigningCommitments(Identity(), Identity())
  }

  /** Both sums of nonce commitments over the listed signers. */
  function TotalCommitments(ids: seq<Identifier>, m: map<Identifier, SigningCommitments>): SigningCommitments {
    if |ids| == 0 then SigningCommitments(Identity(), Identity())
    else
      var total, last := TotalCommitments(ids[..|ids| - 1], m), CommitmentOf(m, ids[|ids| - 1]);
      SigningCommitments(PAdd(total.D, last.D), PAdd(total.E, last.E))
  }

  lemma TotalStep(ids: seq<Identifier>, k: nat, m: map<Identifier, SigningCommitments>)
    requires k < |ids|
    ensures var total, last := TotalCommitments(ids[..k], m), CommitmentOf(m, ids[k]);
            TotalCommitments(ids[..k + 1], m) == SigningCommitments(PAdd(total.D, last.D), PAdd(total.E, last.E))
  {
    hide Add;
    assert ids[..k + 1][..k] == ids[..k];
  }

  function LogD(m: map<Identifier, SigningCommitments>): Identifier -> Scalar {
    (i: Identifier) => CommitmentOf(m, i).D.log
  }

  function LogE(m: map<Identifier, SigningCommitments>): Identifier -> Scalar {
    (i: Identifier) => CommitmentOf(m, i).E.log
  }

  lemma {:induction false} TotalLogs(ids: seq<Identifier>, m: map<Identifier, SigningCommitments>)
    ensures TotalCommitments(ids, m) == SigningCommitments(Point(Sum(ids, LogD(m))), Point(Sum(ids, LogE(m))))
  {
    hide Add;
    if |ids| == 0 {
    } else {
      TotalLogs(ids[..|ids| - 1], m);
    }
  }

  /** The aggregate nonce before normalisation. */
  ghost function RawNonce(C: Suite, vk: Point, pkg: SigningPackage): Point {
    var total := TotalCommitments(Ids(pkg), pkg.signingCommitments);
    PAdd(total.D, PMul(total.E, NonceChallenge(C, vk, pkg)))
  }

  /** The aggregate nonce that every share of the package should carry. */
  ghost function PackageNonce(C: Suite, vk: Point, pkg: SigningPackage): Point {
    NormalizeShareR(C, RawNonce(C, vk, pkg), 1).0
  }

  /** The sign that normalisation gives the nonces, recovered by probing with one. */
  ghost function NonceSign(C: Suite, vk: Point, pkg: SigningPackage): Scalar {
    NormalizeShareR(C, RawNonce(C, vk, pkg), 1).1
  }

  ghost predicate PackageDefined(C: Suite, vk: Point, pkg: SigningPackage) {
    ChallengeDefined(C, vk, RawNonce(C, vk, pkg))
  }

  /** The signature challenge c of a package, computed on the nonce before normalisation. */
  ghost function SigChallenge(C: Suite, vk: Point, pkg: SigningPackage): Scalar {
    Challenge(C, vk, RawNonce(C, vk, pkg), pkg.message)
  }

  /** Normalisation multiplies the nonce by the probed sign, and the aggregate nonce likewise. */
  lemma ProbeRecoversSign(C: Suite, vk: Point, pkg: SigningPackage, nonce: Scalar)
    ensures NormalizeShareR(C, RawNonce(C, vk, pkg), nonce)
         == (PackageNonce(C, vk, pkg), Mul(NonceSign(C, vk, pkg), nonce))
    ensures PackageNonce(C, vk, pkg).log == Mul(NonceSign(C, vk, pkg), RawNonce(C, vk, pkg).log)
  {
    hide Mod, Mul, Neg, RawNonce;
    NegIsTimesMinusOne(nonce);
    NegIsTimesMinusOne(RawNonce(C, vk, pkg).log);
    MulOne(nonce);
    MulOne(RawNonce(C, vk, pkg).log);
  }

  /** The loop that adds up all nonce commitments. */
  method AggregateNonces(pkg: SigningPackage) returns (D: Point, E: Point)
    ensures SigningCommitments(D, E) == TotalCommitments(Ids(pkg), pkg.signingCommitments)
  {
    hide Add;
    D, E := Identity(), Identity();
    var ids := SignerIds(pkg);
    for k := 0 to |ids|
      invariant SigningCommitments(D, E) == TotalCommitments(ids[..k], pkg.signingCommitments)
    {
      var c := pkg.signingCommitments[ids[k]];
      TotalStep(ids, k, pkg.signingCommitments);
      D := PAdd(D, c.D);
      E := PAdd(E, c.E);
    }
    TakeAll(ids);
  }

  /** Everybody's commitments but those of x. */
  function WithoutCommitment(m: map<Identifier, SigningCommitments>, x: Identifier): map<Identifier, SigningCommitments>
  {
    m[x := SigningCommitments(Identity(), Identity())]
  }

  /**
    A signer that commits last to the negated sums of all the others makes the aggregate nonce the identity, the
    point at which a BIP-340 challenge is not defined.
  */
  lemma NegatedSumsCancelTheNonce(C: Suite, vk: Point, pkg: SigningPackage, x: Identifier)
    requires x in pkg.signingCommitments
    requires var others := TotalCommitments(Ids(pkg), WithoutCommitment(pkg.signingCommitments, x));
             pkg.signingCommitments[x] == SigningCommitments(PNeg(others.D), PNeg(others.E))
    ensures RawNonce(C, vk, pkg) == Identity()
    ensures C.variant.Secp256k1Bip340? ==> !PackageDefined(C, vk, pkg)
  {
    hide Add, Mul, Neg, NonceChallenge;
    var ids, m := Ids(pkg), pkg.signingCommitments;
    var rest := WithoutCommitment(m, x);
    SortedAscends(m.Keys);
    TotalLogs(ids, m);
    TotalLogs(ids, rest);
    SumWithEntry(ids, LogD(m), LogD(rest), x);
    SumWithEntry(ids, LogE(m), LogE(rest), x);
    NegCancels(Sum(ids, LogD(rest)));
    NegCancels(Sum(ids, LogE(rest)));
    MulZero(NonceChallenge(C, vk, pkg));
    AddZero(0);
  }

  lemma SumWithEntry(ids: seq<Identifier>, f: Identifier -> Scalar, g: Identifier -> Scalar, x: Identifier)
    requires Distinct(ids) && x in ids && g(x) == 0 && forall i :: i in ids && i != x ==> f(i) == g(i)
    ensures Sum(ids, f) == Add(Sum(ids, g), f(x))
  {
    hide Add;
    var entry := (i: Identifier) => if i == x then f(x) else 0;
    forall i | i in ids
      ensures f(i) == Add(g(i), entry(i))
    {
      AddZero(f(i));
    }
    SumAdd(ids, f, g, entry);
    SumSingle(ids, entry, x);
  }

  lemma NegCancels(a: Scalar)
    ensures Add(a, Neg(a)) == 0
  {
  }
}
