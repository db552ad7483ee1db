/** Two-round signing, aggregation and verification (src/sign.rs, src/verify.rs). */
module Signing {
  import opened Wrappers
  import opened PrimeField
  import opened Sums
  import opened Lagrange
  import opened Ciphersuites
  import opened Wire
  import opened Hashing

  method Commit(d: Scalar, e: Scalar) returns (nonces: SigningNonces, commitments: SigningCommitments)
    ensures nonces == SigningNonces(d, e) && OwnCommitment(commitments, nonces)
  {
    nonces := SigningNonces(d, e);
    commitments := SigningCommitments(MulGenerator(d), MulGenerator(e));
  }

  predicate OwnCommitment(c: SigningCommitments, n: SigningNonces) {
    c.D == MulGenerator(n.d) && c.E == MulGenerator(n.e)
  }

  // ---------- blinding ----------

  predicate LacksKey(kp: KeyPackage, j: Identifier) {
    j != kp.identifier && j !in kp.pairwiseKeys
  }

  /** The first peer, in the order of ids, that the package holds no key for. */
  function FirstMissingKey(kp: KeyPackage, ids: seq<Identifier>): (r: Option<Identifier>)
    ensures r.None? <==> forall j :: j in ids ==> !LacksKey(kp, j)
    ensures r.Some? ==> r.value in ids && LacksKey(kp, r.value)
  {
    if |ids| == 0 then None
    else if LacksKey(kp, ids[0]) then Some(ids[0])
    else FirstMissingKey(kp, ids[1..])
  }

  lemma FirstMissingKeyAt(kp: KeyPackage, ids: seq<Identifier>, k: nat)
    requires k < |ids|
    ensures FirstMissingKey(kp, ids[k..])
         == if LacksKey(kp, ids[k]) then Some(ids[k]) else FirstMissingKey(kp, ids[k + 1..])
  {
    assert ids[k..][1..] == ids[k + 1..];
  }

  function PairwiseKey(kp: KeyPackage, j: Identifier): Bytes32 {
    if j in kp.pairwiseKeys then kp.pairwiseKeys[j] else seq(32, _ => 0)
  }

  /** delta(i, j) * B_ij, where B_ij hashes the pairwise key behind the session prefix. */
  function BlindTerm(C: Suite, kp: KeyPackage, prefix: bytes, j: Identifier): Scalar {
    if j == kp.identifier then 0
    else Mul(Delta(kp.identifier, j), C.hash(prefix + PairwiseKey(kp, j)))
  }

  function BlindTerms(C: Suite, kp: KeyPackage, prefix: bytes): Identifier -> Scalar {
    (j: Identifier) => BlindTerm(C, kp, prefix, j)
  }

  /** KeyPackage::blinding_scalar; the additions and subtractions amount to a sum of signed terms. */
  method BlindingScalar(C: Suite, kp: KeyPackage, ids: seq<Identifier>, commitments: bytes, msg: Bytes32)
    returns (r: Result<Scalar, Error>)
    ensures var prefix := BlindingPrefix(C, commitments, msg, SignerSetEncoding(ids));
            match FirstMissingKey(kp, ids)
            case Some(j) => r == Err(MissingPairwiseKey(j))
            case None => r == Ok(Sum(ids, BlindTerms(C, kp, prefix)))
  {
    hide Mod, Add, Sub, Mul, Neg, BlindingPrefix;
    var signerSet := EncodeSignerSet(ids);
    var base := BlindingBase(C, commitments, msg, signerSet);
    ghost var prefix := base.absorbed;
    var blind := 0;
    for k := 0 to |ids|
      invariant base.absorbed == prefix
      invariant blind == Sum(ids[..k], BlindTerms(C, kp, prefix))
      invariant FirstMissingKey(kp, ids) == FirstMissingKey(kp, ids[k..])
    {
      var j := ids[k];
      SumStep(ids, k, BlindTerms(C, kp, prefix));
      assert ids[k..][1..] == ids[k + 1..];
      if j == kp.identifier {
        AddZero(blind);
        continue;
      }
      if j !in kp.pairwiseKeys {
        return Err(MissingPairwiseKey(j));
      }
      var branch := base.Clone();
      var b := branch.FinishWith(C, kp.pairwiseKeys[j]);
      SignedTerm(blind, b);
      if kp.identifier > j {
        blind := Add(blind, b);
      } else {
        blind := Sub(blind, b);
      }
    }
    TakeAll(ids);
    r := Ok(blind);
  }

  lemma SignedTerm(x: Scalar, b: Scalar)
    ensures Add(x, b) == Add(x, Mul(1, b))
    ensures Sub(x, b) == Add(x, Mul(Neg(1), b))
  {
    hide Mod, Add, Sub, Mul, Neg;
    MulOne(b);
    NegIsTimesMinusOne(b);
    Lift();
    Rep(x); Rep(b);
    assert x - b == x + (0 - b);
  }

  // ---------- one signature share ----------

  /** The share a signer forms from its nonce and the rest of the response. */
  function NewShare(C: Suite, i: Identifier, r: Point, nonce: Scalar, zRest: Scalar): SignatureShare {
    var (r', nonce') := NormalizeShareR(C, r, nonce);
    SignatureShare(i, r', Add(zRest, nonce'))
  }

  predicate KnowsOwnNonce(pkg: SigningPackage, nonces: SigningNonces, kp: KeyPackage) {
    && kp.identifier in pkg.signingCommitments
    && OwnCommitment(pkg.signingCommitments[kp.identifier], nonces)
  }

  /** c * lambda_i * sk_i plus the blinding. */
  ghost function ResponseRest(C: Suite, pkg: SigningPackage, kp: KeyPackage, c: Scalar): Scalar {
    Add(Mul(Mul(c, Coefficient(kp.identifier, Ids(pkg))), kp.signingShare),
        Sum(Ids(pkg), BlindTerms(C, kp, PackagePrefix(C, pkg))))
  }

  /** What sign returns. */
  ghost function ShareOf(C: Suite, pkg: SigningPackage, nonces: SigningNonces, kp: KeyPackage, vk: Point)
    : Result<SignatureShare, Error>
  {
    if kp.identifier !in pkg.signingCommitments then Err(UnknownSigner(kp.identifier))
    else if !KnowsOwnNonce(pkg, nonces, kp) then Err(NonceCommitmentMismatch(kp.identifier))
    else match FirstMissingKey(kp, Ids(pkg))
      case Some(j) => Err(MissingPairwiseKey(j))
      case None =>
        Ok(NewShare(C, kp.identifier, RawNonce(C, vk, pkg),
                    Add(nonces.d, Mul(NonceChallenge(C, vk, pkg), nonces.e)),
                    ResponseRest(C, pkg, kp, SigChallenge(C, vk, pkg))))
  }

  method Sign(C: Suite, pkg: SigningPackage, nonces: SigningNonces, kp: KeyPackage, pk: PublicKeyPackage)
    returns (r: Result<SignatureShare, Error>)
    requires KnowsOwnNonce(pkg, nonces, kp) ==> PackageDefined(C, pk.verifyingKey, pkg)
    ensures r == ShareOf(C, pkg, nonces, kp, pk.verifyingKey)
  {
    hide Mod, Add, Sub, Mul, Neg, Sum, TotalCommitments, Coefficient;
    var ids := SignerIds(pkg);
    var i := kp.identifier;
    var commitments := EncodeCommitments(C, pkg.signingCommitments);
    if i !in pkg.signingCommitments {
      return Err(UnknownSigner(i));
    }
    if !OwnCommitment(pkg.signingCommitments[i], nonces) {
      return Err(NonceCommitmentMismatch(i));
    }
    var D, E := AggregateNonces(pkg);
    var signerSet := EncodeSignerSet(ids);
    var b := BindingFactor(C, pk.verifyingKey, signerSet, pkg.message, commitments);
    var R := PAdd(D, PMul(E, b));
    var c := ComputeChallenge(C, pk.verifyingKey, R, pkg.message);
    var lambda := LagrangeCoefficient(i, ids);
    var blind := BlindingScalar(C, kp, ids, commitments, pkg.message);
    if blind.Err? {
      return Err(blind.error);
    }
    var nonce := Add(nonces.d, Mul(b, nonces.e));
    var zRest := Add(Mul(Mul(c, lambda), kp.signingShare), blind.value);
    r := Ok(NewShare(C, i, R, nonce, zRest));
  }

  // ---------- aggregation and verification ----------

  function Responses(shares: map<Identifier, SignatureShare>): Identifier -> Scalar {
    (i: Identifier) => if i in shares then shares[i].z else 0
  }

  ghost predicate OneNonce(shares: map<Identifier, SignatureShare>) {
    forall i, j :: i in shares && j in shares ==> shares[i].R == shares[j].R
  }

  /** sig is the aggregate of the shares. */
  ghost predicate AggregatesTo(pkg: SigningPackage, shares: map<Identifier, SignatureShare>, sig: Signature) {
    && |pkg.signingCommitments| == |shares| != 0
    && (forall i :: i in shares ==> shares[i].R == sig.R)
    && sig.z == Sum(Sorted(shares.Keys), Responses(shares))
  }

  /** Aggregation adds the responses, and refuses a wrong count, no share, or shares with different nonces. */
  method Aggregate(pkg: SigningPackage, shares: map<Identifier, SignatureShare>)
    returns (r: Result<Signature, Error>)
    ensures |pkg.signingCommitments| != |shares| ==>
              r == Err(ShareCountMismatch(|pkg.signingCommitments|, |shares|))
    ensures |pkg.signingCommitments| == |shares| == 0 ==> r == Err(NoSignatureShares)
    ensures |pkg.signingCommitments| == |shares| != 0 ==>
              if OneNonce(shares)
              then r.Ok? && AggregatesTo(pkg, shares, r.value)
              else r == Err(InconsistentAggregateNonce)
  {
    hide Mod, Add, Ascending;
    var expected, got := |pkg.signingCommitments|, |shares|;
    if expected != got {
      return Err(ShareCountMismatch(expected, got));
    }
    var z := 0;
    var rOpt: Option<Point> := None;
    var ids := Keys(shares.Keys);
    for k := 0 to |ids|
      invariant z == Sum(ids[..k], Responses(shares))
      invariant rOpt.None? <==> k == 0
      invariant rOpt.Some? ==> forall x :: x in ids[..k] ==> shares[x].R == rOpt.value
    {
      TakeStep(ids, k);
      var share := shares[ids[k]];
      SumStep(ids, k, Responses(shares));
      z := Add(z, share.z);
      match rOpt {
        case Some(R) =>
          if R != share.R {
            assert ids[0] in ids[..k] && shares[ids[0]].R != shares[ids[k]].R;
            return Err(InconsistentAggregateNonce);
          }
        case None => rOpt := Some(share.R);
      }
    }
    TakeAll(ids);
    AscendingLength(ids, shares.Keys);
    if rOpt.None? {
      return Err(NoSignatureShares);
    }
    forall i | i in shares
      ensures shares[i].R == rOpt.value
    {
      assert i in ids;
    }
    r := Ok(Signature(rOpt.value, z));
  }

  ghost predicate VerifyDefined(C: Suite, sig: Signature, pk: PublicKeyPackage) {
    AcceptR(C, sig.R) ==> ChallengeDefined(C, pk.verifyingKey, sig.R)
  }

  predicate Verify(C: Suite, sig: Signature, message: Bytes32, pk: PublicKeyPackage)
    requires VerifyDefined(C, sig, pk)
  {
    && AcceptR(C, sig.R)
    && MulGenerator(sig.z) == PAdd(sig.R, PMul(pk.verifyingKey, Challenge(C, pk.verifyingKey, sig.R, message)))
  }

  /** Verification is defined on sig and accepts it. */
  ghost predicate Accepted(C: Suite, pk: PublicKeyPackage, pkg: SigningPackage, sig: Signature) {
    VerifyDefined(C, sig, pk) && Verify(C, sig, pkg.message, pk)
  }

  /** Aggregation returns a signature for these shares. */
  ghost predicate Aggregable(pkg: SigningPackage, shares: map<Identifier, SignatureShare>) {
    |pkg.signingCommitments| == |shares| != 0 && OneNonce(shares)
  }

  /** Aggregation returns a signature for these shares, and it is accepted. */
  ghost predicate Succeeds(C: Suite, pk: PublicKeyPackage, pkg: SigningPackage, shares: map<Identifier, SignatureShare>)
  {
    exists sig :: AggregatesTo(pkg, shares, sig) && Accepted(C, pk, pkg, sig)
  }

  ghost predicate CommonNonce(shares: map<Identifier, SignatureShare>, r: Point) {
    forall i :: i in shares ==> shares[i].R == r
  }

  // ---------- what a session of signers satisfies ----------

  /** Every signer holds its package, and pairwise keys are shared. */
  ghost predicate KeysShared(kps: map<Identifier, KeyPackage>, ids: seq<Identifier>) {
    && (forall i :: i in ids ==> i in kps && kps[i].identifier == i)
    && (forall i, j :: i in ids && j in ids && i != j ==>
          && j in kps[i].pairwiseKeys && i in kps[j].pairwiseKeys
          && kps[i].pairwiseKeys[j] == kps[j].pairwiseKeys[i])
  }

  ghost predicate NoncesMatch(pkg: SigningPackage, nonces: map<Identifier, SigningNonces>) {
    forall i :: i in pkg.signingCommitments ==> i in nonces && OwnCommitment(pkg.signingCommitments[i], nonces[i])
  }

  ghost function WeightedShares(kps: map<Identifier, KeyPackage>, ids: seq<Identifier>): Identifier -> Scalar {
    (i: Identifier) => if i in kps then Mul(Coefficient(i, ids), kps[i].signingShare) else 0
  }

  ghost function SharedSecret(kps: map<Identifier, KeyPackage>, ids: seq<Identifier>): Scalar {
    Sum(ids, WeightedShares(kps, ids))
  }

  /** The signers of the package share the secret key of vk. */
  ghost predicate SharesOf(kps: map<Identifier, KeyPackage>, pkg: SigningPackage, vk: Point) {
    KeysShared(kps, Ids(pkg)) && vk == MulGenerator(SharedSecret(kps, Ids(pkg)))
  }

  // ---------- the blinding cancels ----------

  function BlindTable(C: Suite, kps: map<Identifier, KeyPackage>, prefix: bytes): (Identifier, Identifier) -> Scalar {
    (i: Identifier, j: Identifier) => if i in kps then BlindTerm(C, kps[i], prefix, j) else 0
  }

  function Blindings(C: Suite, kps: map<Identifier, KeyPackage>, ids: seq<Identifier>, prefix: bytes)
    : Identifier -> Scalar
  {
    (i: Identifier) => if i in kps then Sum(ids, BlindTerms(C, kps[i], prefix)) else 0
  }

  /** The blinding scalars of a signer set add up to zero, whatever the hash. */
  lemma BlindingCancels(C: Suite, kps: map<Identifier, KeyPackage>, ids: seq<Identifier>, prefix: bytes)
    requires KeysShared(kps, ids)
    ensures Sum(ids, Blindings(C, kps, ids, prefix)) == 0
  {
    hide Mod, Add, Mul, Neg;
    var g := BlindTable(C, kps, prefix);
    forall i, j | i in ids && j in ids
      ensures Add(g(i, j), g(j, i)) == 0
    {
      if i == j {
        AddZero(0);
      } else {
        OppositeTerms(C.hash(prefix + PairwiseKey(kps[i], j)));
      }
    }
    AntisymmetricSum(ids, g);
    forall i | i in ids
      ensures Blindings(C, kps, ids, prefix)(i) == RowSums(ids, g)(i)
    {
      SumCong(ids, BlindTerms(C, kps[i], prefix), Row(g, i));
    }
    SumCong(ids, Blindings(C, kps, ids, prefix), RowSums(ids, g));
  }

  lemma OppositeTerms(b: Scalar)
    ensures Add(Mul(1, b), Mul(Neg(1), b)) == 0
    ensures Add(Mul(Neg(1), b), Mul(1, b)) == 0
  {
    hide Mod, Add, Mul, Neg;
    Lift();
    Rep(b); Rep(1); Rep(0);
    assert 1 * b + (0 - 1) * b == 0;
    assert (0 - 1) * b + 1 * b == 0;
  }

  // ---------- the signing equation ----------

  /** The nonce of one signer under the binding factor. */
  function NonceScalar(n: SigningNonces, b: Scalar): Scalar {
    Add(n.d, Mul(b, n.e))
  }

  function NonceScalars(nonces: map<Identifier, SigningNonces>, b: Scalar): Identifier -> Scalar {
    (i: Identifier) => if i in nonces then NonceScalar(nonces[i], b) else 0
  }

  /** The response of an honest signer under the challenge c. */
  ghost function HonestResponse(C: Suite, vk: Point, pkg: SigningPackage, kp: KeyPackage, n: SigningNonces, c: Scalar)
    : Scalar
  {
    NewShare(C, kp.identifier, RawNonce(C, vk, pkg), NonceScalar(n, NonceChallenge(C, vk, pkg)),
             ResponseRest(C, pkg, kp, c)).z
  }

  ghost function ResponsesUnder(C: Suite, vk: Point, pkg: SigningPackage, kps: map<Identifier, KeyPackage>,
                          nonces: map<Identifier, SigningNonces>, c: Scalar): Identifier -> Scalar {
    (i: Identifier) => if i in kps && i in nonces then HonestResponse(C, vk, pkg, kps[i], nonces[i], c) else 0
  }

  ghost function HonestResponses(C: Suite, vk: Point, pkg: SigningPackage, kps: map<Identifier, KeyPackage>,
                           nonces: map<Identifier, SigningNonces>): Identifier -> Scalar
  {
    ResponsesUnder(C, vk, pkg, kps, nonces, SigChallenge(C, vk, pkg))
  }

  /** The share of an honest signer whose response is off by error. */
  ghost function ShiftedShare(C: Suite, vk: Point, pkg: SigningPackage, kp: KeyPackage, n: SigningNonces,
                              error: Scalar): SignatureShare
  {
    SignatureShare(kp.identifier, PackageNonce(C, vk, pkg),
                   Add(HonestResponse(C, vk, pkg, kp, n, SigChallenge(C, vk, pkg)), error))
  }

  /** A signer with its own nonce in the package and a key for every peer signs without error. */
  lemma HonestSign(C: Suite, vk: Point, pkg: SigningPackage, kp: KeyPackage, n: SigningNonces)
    requires KnowsOwnNonce(pkg, n, kp) && FirstMissingKey(kp, Ids(pkg)).None?
    ensures ShareOf(C, pkg, n, kp, vk) == Ok(ShiftedShare(C, vk, pkg, kp, n, 0))
  {
    hide Mod, Add, Mul, Neg, Sum, RawNonce, ResponseRest, FirstMissingKey, SigChallenge;
    AddZero(HonestResponse(C, vk, pkg, kp, n, SigChallenge(C, vk, pkg)));
  }

  lemma NonceLog(C: Suite, vk: Point, pkg: SigningPackage, nonces: map<Identifier, SigningNonces>)
    requires NoncesMatch(pkg, nonces)
    ensures RawNonce(C, vk, pkg).log == Sum(Ids(pkg), NonceScalars(nonces, NonceChallenge(C, vk, pkg)))
  {
    hide Mod, Add, Mul, NonceChallenge;
    var ids, b := Ids(pkg), NonceChallenge(C, vk, pkg);
    TotalLogs(ids, pkg.signingCommitments);
    SumLinear(ids, NonceScalars(nonces, b), LogD(pkg.signingCommitments), b, LogE(pkg.signingCommitments));
    MulComm(Sum(ids, LogE(pkg.signingCommitments)), b);
  }

  /** c * lambda_i * sk_i and the blinding, the two parts of the response that normalisation leaves alone. */
  ghost function Rests(C: Suite, pkg: SigningPackage, kps: map<Identifier, KeyPackage>, c: Scalar): Identifier -> Scalar
  {
    (i: Identifier) => if i in kps then ResponseRest(C, pkg, kps[i], c) else 0
  }

  lemma RestsSum(C: Suite, pkg: SigningPackage, kps: map<Identifier, KeyPackage>, c: Scalar)
    requires KeysShared(kps, Ids(pkg))
    ensures Sum(Ids(pkg), Rests(C, pkg, kps, c)) == Mul(c, SharedSecret(kps, Ids(pkg)))
  {
    hide Mod, Add, Mul, Neg, BlindTerms, Coefficient, PackagePrefix;
    var ids, prefix := Ids(pkg), PackagePrefix(C, pkg);
    var blinds := Blindings(C, kps, ids, prefix);
    forall i | i in ids
      ensures Rests(C, pkg, kps, c)(i) == Add(blinds(i), Mul(c, WeightedShares(kps, ids)(i)))
    {
      MulAssoc(c, Coefficient(i, ids), kps[i].signingShare);
      CommuteAdd(Mul(c, WeightedShares(kps, ids)(i)), blinds(i));
    }
    SumLinear(ids, Rests(C, pkg, kps, c), blinds, c, WeightedShares(kps, ids));
    BlindingCancels(C, kps, ids, prefix);
    AddZero(Mul(c, SharedSecret(kps, ids)));
  }

  /** The responses of the signers sum to r + c * sk, where r is the log of the normalised nonce. */
  lemma SigningEquation(C: Suite, vk: Point, pkg: SigningPackage, kps: map<Identifier, KeyPackage>,
                        nonces: map<Identifier, SigningNonces>)
    requires KeysShared(kps, Ids(pkg)) && NoncesMatch(pkg, nonces)
    ensures Sum(Ids(pkg), HonestResponses(C, vk, pkg, kps, nonces))
         == Add(PackageNonce(C, vk, pkg).log, Mul(SigChallenge(C, vk, pkg), SharedSecret(kps, Ids(pkg))))
  {
    hide Mod, Add, Mul, Neg, RawNonce, NonceChallenge, PackageNonce, NonceSign, ResponseRest, SigChallenge,
         SharedSecret;
    var ids, b, c, sign := Ids(pkg), NonceChallenge(C, vk, pkg), SigChallenge(C, vk, pkg), NonceSign(C, vk, pkg);
    forall i | i in ids
      ensures HonestResponses(C, vk, pkg, kps, nonces)(i)
           == Add(Rests(C, pkg, kps, c)(i), Mul(sign, NonceScalars(nonces, b)(i)))
    {
      ProbeRecoversSign(C, vk, pkg, NonceScalars(nonces, b)(i));
    }
    SumLinear(ids, HonestResponses(C, vk, pkg, kps, nonces), Rests(C, pkg, kps, c), sign, NonceScalars(nonces, b));
    RestsSum(C, pkg, kps, c);
    NonceLog(C, vk, pkg, nonces);
    ProbeRecoversSign(C, vk, pkg, 0);
    CommuteAdd(Sum(ids, Rests(C, pkg, kps, c)), PackageNonce(C, vk, pkg).log);
  }

  // ---------- sessions with arbitrary errors in the responses ----------

  /** The shares of a session in which the response of signer i is off by errors(i). */
  ghost predicate ShiftedShares(C: Suite, vk: Point, pkg: SigningPackage, kps: map<Identifier, KeyPackage>,
                                nonces: map<Identifier, SigningNonces>, errors: Identifier -> Scalar,
                                shares: map<Identifier, SignatureShare>)
  {
    && shares.Keys == pkg.signingCommitments.Keys
    && forall i :: i in pkg.signingCommitments ==>
         i in kps && i in nonces && shares[i] == ShiftedShare(C, vk, pkg, kps[i], nonces[i], errors(i))
  }

  /**
    Aggregation of a session whose responses carry arbitrary errors yields a signature that verifies
    exactly when the errors add up to zero; with no errors this is the correctness of threshold signing.
  */
  lemma SessionVerifiesIff(C: Suite, pk: PublicKeyPackage, pkg: SigningPackage, kps: map<Identifier, KeyPackage>,
                           nonces: map<Identifier, SigningNonces>, errors: Identifier -> Scalar,
                           shares: map<Identifier, SignatureShare>)
    requires C.variant.Secp256k1Bip340? ==> CurveLaws(C)
    requires PackageDefined(C, pk.verifyingKey, pkg)
    requires SharesOf(kps, pkg, pk.verifyingKey) && NoncesMatch(pkg, nonces)
    requires ShiftedShares(C, pk.verifyingKey, pkg, kps, nonces, errors, shares)
    ensures var sig := Signature(PackageNonce(C, pk.verifyingKey, pkg), Sum(Sorted(shares.Keys), Responses(shares)));
            && (forall i :: i in shares ==> shares[i].R == sig.R)
            && VerifyDefined(C, sig, pk)
            && (Verify(C, sig, pkg.message, pk) <==> Sum(Ids(pkg), errors) == 0)
  {
    hide Mod, Add, Mul, Neg, RawNonce, SharedSecret, HonestResponse, SigChallenge, PackageNonce, PackageDefined;
    var vk, ids := pk.verifyingKey, Ids(pkg);
    SumAdd(ids, Responses(shares), HonestResponses(C, vk, pkg, kps, nonces), errors);
    SigningEquation(C, vk, pkg, kps, nonces);
    VerifiesIffNoOffset(C, pk, pkg, SharedSecret(kps, ids), Sum(ids, Responses(shares)), Sum(ids, errors));
  }

  /** A response r + c * s + d under the package nonce verifies for the key of s exactly when d is zero. */
  lemma VerifiesIffNoOffset(C: Suite, pk: PublicKeyPackage, pkg: SigningPackage, s: Scalar, z: Scalar, d: Scalar)
    requires C.variant.Secp256k1Bip340? ==> CurveLaws(C)
    requires PackageDefined(C, pk.verifyingKey, pkg) && pk.verifyingKey == MulGenerator(s)
    requires z == Add(Add(PackageNonce(C, pk.verifyingKey, pkg).log, Mul(SigChallenge(C, pk.verifyingKey, pkg), s)), d)
    ensures var sig := Signature(PackageNonce(C, pk.verifyingKey, pkg), z);
            VerifyDefined(C, sig, pk) && (Verify(C, sig, pkg.message, pk) <==> d == 0)
  {
    hide Mod, Add, Mul, Neg, RawNonce, SigChallenge;
    var vk := pk.verifyingKey;
    var raw := RawNonce(C, vk, pkg);
    NormalizedIsAccepted(C, raw, 1);
    ChallengeIgnoresNormalization(C, vk, raw, 1, pkg.message);
    ChallengeOfRaw(C, vk, pkg);
    MulComm(s, SigChallenge(C, vk, pkg));
    OffsetIsZeroIff(Add(PackageNonce(C, vk, pkg).log, Mul(SigChallenge(C, vk, pkg), s)), d);
  }

  /**
    The nonce r serves a package as well as the package nonce R: it is acceptable, and r plus its challenge times
    the key is R plus the challenge of the package times the key.
  */
  ghost predicate NonceConsistent(C: Suite, vk: Point, pkg: SigningPackage, r: Point) {
    && AcceptR(C, r)
    && PAdd(r, PMul(vk, Challenge(C, vk, r, pkg.message)))
       == PAdd(PackageNonce(C, vk, pkg), PMul(vk, SigChallenge(C, vk, pkg)))
  }

  /** All shares carry the nonce r, verification is defined on it, and it is consistent. */
  ghost predicate NonceServes(C: Suite, pk: PublicKeyPackage, pkg: SigningPackage,
                              shares: map<Identifier, SignatureShare>, r: Point)
  {
    && CommonNonce(shares, r)
    && VerifyDefined(C, Signature(r, 0), pk)
    && NonceConsistent(C, pk.verifyingKey, pkg, r)
  }

  /** The response that the package calls for verifies with the nonce in sig exactly when that nonce is consistent. */
  lemma VerifiesIffConsistent(C: Suite, pk: PublicKeyPackage, pkg: SigningPackage, s: Scalar, sig: Signature)
    requires pk.verifyingKey == MulGenerator(s) && VerifyDefined(C, sig, pk)
    requires sig.z == Add(PackageNonce(C, pk.verifyingKey, pkg).log, Mul(SigChallenge(C, pk.verifyingKey, pkg), s))
    ensures Verify(C, sig, pkg.message, pk) <==> NonceConsistent(C, pk.verifyingKey, pkg, sig.R)
  {
    hide Add, Mul, Challenge, SigChallenge, PackageNonce, AcceptR;
    MulComm(s, SigChallenge(C, pk.verifyingKey, pkg));
  }

  /** The package nonce is consistent, under every normalisation. */
  lemma PackageNonceConsistent(C: Suite, pk: PublicKeyPackage, pkg: SigningPackage, z: Scalar)
    requires C.variant.Secp256k1Bip340? ==> CurveLaws(C)
    requires PackageDefined(C, pk.verifyingKey, pkg)
    ensures NonceConsistent(C, pk.verifyingKey, pkg, PackageNonce(C, pk.verifyingKey, pkg))
    ensures VerifyDefined(C, Signature(PackageNonce(C, pk.verifyingKey, pkg), z), pk)
  {
    hide Add, Mul, Neg, RawNonce;
    var raw := RawNonce(C, pk.verifyingKey, pkg);
    NormalizedIsAccepted(C, raw, 1);
    ChallengeIgnoresNormalization(C, pk.verifyingKey, raw, 1, pkg.message);
  }

  /**
    The threshold in the code: an error-free session of signers with shared keys verifies under the key of s exactly
    when their shares recombine to s, or the challenge is zero.
  */
  lemma ErrorFreeVerifiesIff(C: Suite, pk: PublicKeyPackage, pkg: SigningPackage, kps: map<Identifier, KeyPackage>,
                             nonces: map<Identifier, SigningNonces>, s: Scalar)
    requires C.variant.Secp256k1Bip340? ==> CurveLaws(C)
    requires PackageDefined(C, pk.verifyingKey, pkg) && pk.verifyingKey == MulGenerator(s)
    requires KeysShared(kps, Ids(pkg)) && NoncesMatch(pkg, nonces)
    ensures var vk := pk.verifyingKey;
            var sig := Signature(PackageNonce(C, vk, pkg), Sum(Ids(pkg), HonestResponses(C, vk, pkg, kps, nonces)));
            && VerifyDefined(C, sig, pk)
            && (Verify(C, sig, pkg.message, pk)
                <==> SigChallenge(C, vk, pkg) == 0 || SharedSecret(kps, Ids(pkg)) == s)
  {
    hide Mod, Add, Sub, Mul, RawNonce, SigChallenge, PackageNonce, PackageDefined, HonestResponses, SharedSecret,
         KeysShared, Verify, VerifyDefined;
    var vk, c, t := pk.verifyingKey, SigChallenge(C, pk.verifyingKey, pkg), SharedSecret(kps, Ids(pkg));
    SigningEquation(C, vk, pkg, kps, nonces);
    SplitOffset(PackageNonce(C, vk, pkg).log, c, s, t);
    VerifiesIffNoOffset(C, pk, pkg, s, Sum(Ids(pkg), HonestResponses(C, vk, pkg, kps, nonces)), Mul(c, Sub(t, s)));
    NoZeroDivisors(c, Sub(t, s));
    SubZeroIffEqual(t, s);
  }

  lemma SplitOffset(r: Scalar, c: Scalar, s: Scalar, t: Scalar)
    ensures Add(r, Mul(c, t)) == Add(Add(r, Mul(c, s)), Mul(c, Sub(t, s)))
  {
    hide Mod, Add, Sub, Mul;
    Lift();
    Rep(r); Rep(c); Rep(s); Rep(t);
    assert r + c * t == (r + c * s) + c * (t - s);
  }

  lemma ChallengeOfRaw(C: Suite, vk: Point, pkg: SigningPackage)
    ensures SigChallenge(C, vk, pkg) == Challenge(C, vk, RawNonce(C, vk, pkg), pkg.message)
  {
  }

  lemma OffsetIsZeroIff(a: Scalar, d: Scalar)
    ensures Add(a, d) == a <==> d == 0
  {
    if a + d < Q { ModSmall(a + d); } else { ModSmall(a + d - Q); }
  }
}
