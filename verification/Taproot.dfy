/** The taproot key-path tweak of the spending demo (src/bin/spenddemo.rs) around threshold signing. */
module Taproot {
  import opened PrimeField
  import opened Sums
  import opened Lagrange
  import opened Ciphersuites
  import opened Wire
  import opened Hashing
  import opened Signing
  import opened Bip340

  function RawTweakedKey(internal: Point, tweak: Scalar): Point {
    PAdd(internal, PMul(Generator(), tweak))
  }

  /** The tweaked key with even y. */
  function TweakedKey(C: Suite, internal: Point, tweak: Scalar): Point {
    var q := RawTweakedKey(internal, tweak);
    if C.hasOddY(q) then PNeg(q) else q
  }

  function EffectiveTweak(C: Suite, internal: Point, tweak: Scalar): Scalar {
    if C.hasOddY(RawTweakedKey(internal, tweak)) then Neg(tweak) else tweak
  }

  function NegatedShare(kp: KeyPackage): KeyPackage {
    kp.(signingShare := Neg(kp.signingShare))
  }

  function NegatedShares(kps: map<Identifier, KeyPackage>): map<Identifier, KeyPackage> {
    map i | i in kps :: NegatedShare(kps[i])
  }

  /** The packages the demo signs with. */
  function SpendingShares(C: Suite, kps: map<Identifier, KeyPackage>, internal: Point, tweak: Scalar)
    : map<Identifier, KeyPackage>
  {
    if C.hasOddY(RawTweakedKey(internal, tweak)) then NegatedShares(kps) else kps
  }

  /** The loop that negates every signing share in place. */
  method NegateShares(kps: map<Identifier, KeyPackage>) returns (r: map<Identifier, KeyPackage>)
    ensures r == NegatedShares(kps)
  {
    hide Neg, Sorted;
    r := kps;
    var ids := Keys(kps.Keys);
    for k := 0 to |ids|
      invariant r.Keys == kps.Keys
      invariant forall i :: i in kps ==> r[i] == if i in ids[..k] then NegatedShare(kps[i]) else kps[i]
    {
      TakeStep(ids, k);
      SortedAscends(kps.Keys);
      assert ids[k] !in ids[..k];
      r := r[ids[k] := r[ids[k]].(signingShare := Neg(r[ids[k]].signingShare))];
    }
    TakeAll(ids);
  }

  /** The negated shares cancel the dealt ones, and nothing else in a package changes. */
  lemma NegationKeepsTheRest(kps: map<Identifier, KeyPackage>, i: Identifier)
    requires i in kps
    ensures NegatedShares(kps).Keys == kps.Keys
    ensures var a, b := kps[i], NegatedShares(kps)[i];
            && Add(a.signingShare, b.signingShare) == 0
            && b == a.(signingShare := b.signingShare)
  {
    hide Neg;
    NegCancels(kps[i].signingShare);
  }

  lemma NegationKeepsKeys(kps: map<Identifier, KeyPackage>, ids: seq<Identifier>)
    requires KeysShared(kps, ids)
    ensures KeysShared(NegatedShares(kps), ids)
  {
    hide Neg;
  }

  /** Negating the shares negates the shared secret and leaves the pairwise keys alone. */
  lemma NegatedSecret(kps: map<Identifier, KeyPackage>, ids: seq<Identifier>)
    requires forall i :: i in ids ==> i in kps
    ensures SharedSecret(NegatedShares(kps), ids) == Neg(SharedSecret(kps, ids))
  {
    hide Mod, Mul, Neg, Coefficient;
    var f, g := WeightedShares(NegatedShares(kps), ids), WeightedShares(kps, ids);
    forall i | i in ids
      ensures f(i) == Mul(Neg(1), g(i))
    {
      NegatedTerm(Coefficient(i, ids), kps[i].signingShare);
    }
    SumScale(ids, f, Neg(1), g);
    NegIsTimesMinusOne(SharedSecret(kps, ids));
  }

  lemma NegatedTerm(l: Scalar, s: Scalar)
    ensures Mul(l, Neg(s)) == Mul(Neg(1), Mul(l, s))
  {
    hide Mod, Mul, Neg;
    NegIsTimesMinusOne(s);
    MulAssoc(l, Neg(1), s);
    MulComm(l, Neg(1));
    MulAssoc(Neg(1), l, s);
  }

  lemma SharedHas(kps: map<Identifier, KeyPackage>, ids: seq<Identifier>)
    requires KeysShared(kps, ids)
    ensures forall i :: i in ids ==> i in kps
  {
  }

  /** The spending shares and the effective tweak add up to the key behind the evened point, for either parity. */
  lemma SpendingKey(C: Suite, kps: map<Identifier, KeyPackage>, ids: seq<Identifier>, internal: Point, tweak: Scalar)
    requires KeysShared(kps, ids) && internal == MulGenerator(SharedSecret(kps, ids))
    ensures var spending := SpendingShares(C, kps, internal, tweak);
            && KeysShared(spending, ids)
            && TweakedKey(C, internal, tweak)
                == MulGenerator(Add(SharedSecret(spending, ids), EffectiveTweak(C, internal, tweak)))
  {
    hide Mod, Add, Mul, Neg, SharedSecret, KeysShared;
    MulOne(tweak);
    SharedHas(kps, ids);
    NegationKeepsKeys(kps, ids);
    NegatedSecret(kps, ids);
    NegOfSum(SharedSecret(kps, ids), tweak);
  }

  lemma NegOfSum(a: Scalar, b: Scalar)
    ensures Neg(Add(a, b)) == Add(Neg(a), Neg(b))
  {
    hide Mod, Add, Neg;
    Lift();
    Rep(a); Rep(b);
    assert 0 - (a + b) == (0 - a) + (0 - b);
  }

  /**
    Signing with the spending shares under the evened tweaked key and adding c times the effective tweak
    afterwards verifies under that key: for all four parities of the tweaked key and of the nonce.
  */
  lemma TweakedSessionVerifies(C: Suite, pk: PublicKeyPackage, pkg: SigningPackage, kps: map<Identifier, KeyPackage>,
                               nonces: map<Identifier, SigningNonces>, tweak: Scalar)
    requires C.variant.Secp256k1Bip340? && CurveLaws(C)
    requires SharesOf(kps, pkg, pk.verifyingKey) && NoncesMatch(pkg, nonces)
    requires PackageDefined(C, TweakedKey(C, pk.verifyingKey, tweak), pkg)
    ensures var q := TweakedKey(C, pk.verifyingKey, tweak);
            var spending := SpendingShares(C, kps, pk.verifyingKey, tweak);
            var z := Sum(Ids(pkg), HonestResponses(C, q, pkg, spending, nonces));
            var c := SigChallenge(C, q, pkg);
            var sig := Signature(PackageNonce(C, q, pkg), Add(z, Mul(c, EffectiveTweak(C, pk.verifyingKey, tweak))));
            && EvenPoint(C, q) && EvenPoint(C, sig.R)
            && VerifyDefined(C, sig, pk.(verifyingKey := q))
            && Verify(C, sig, pkg.message, pk.(verifyingKey := q))
  {
    hide Mod, Add, Mul, Neg, RawNonce, SharedSecret, HonestResponses, SigChallenge, KeysShared, TweakedKey,
         EffectiveTweak, SpendingShares;
    var q, ids := TweakedKey(C, pk.verifyingKey, tweak), Ids(pkg);
    var spending, t := SpendingShares(C, kps, pk.verifyingKey, tweak), EffectiveTweak(C, pk.verifyingKey, tweak);
    var c, s := SigChallenge(C, q, pkg), SharedSecret(spending, ids);
    SpendingKey(C, kps, ids, pk.verifyingKey, tweak);
    SigningEquation(C, q, pkg, spending, nonces);
    var r := PackageNonce(C, q, pkg).log;
    Distribute(c, s, t);
    TweakedSum(r, Mul(c, s), Mul(c, t));
    VerifiesIffNoOffset(C, pk.(verifyingKey := q), pkg, Add(s, t),
                        Add(Sum(ids, HonestResponses(C, q, pkg, spending, nonces)), Mul(c, t)), 0);
    TweakedKeyIsEven(C, pk.verifyingKey, tweak);
    NonceIsEven(C, q, pkg);
  }

  lemma TweakedSum(r: Scalar, a: Scalar, b: Scalar)
    ensures Add(Add(r, a), b) == Add(Add(r, Add(a, b)), 0)
  {
    hide Mod, Add;
    Lift();
    Rep(r); Rep(a); Rep(b); Rep(0);
  }

  lemma TweakedKeyIsEven(C: Suite, internal: Point, tweak: Scalar)
    requires CurveLaws(C) && TweakedKey(C, internal, tweak) != Identity()
    ensures EvenPoint(C, TweakedKey(C, internal, tweak))
  {
    hide RawTweakedKey;
    NegInvolutive(RawTweakedKey(internal, tweak));
  }

  /** The key that the demo spends from: even, with the x-coordinate of the point behind secret plus tweak. */
  lemma TweakedKeyAbscissa(C: Suite, secret: Scalar, tweak: Scalar)
    requires CurveLaws(C) && Add(secret, tweak) != 0
    ensures var q := TweakedKey(C, MulGenerator(secret), tweak);
            EvenPoint(C, q) && C.xOnly(q) == C.xOnly(MulGenerator(Add(secret, tweak)))
  {
    hide Mod, Add, Mul, Neg;
    MulOne(tweak);
    NegInvolutive(MulGenerator(Add(secret, tweak)));
  }

  lemma NonceIsEven(C: Suite, vk: Point, pkg: SigningPackage)
    requires C.variant.Secp256k1Bip340? && CurveLaws(C) && PackageDefined(C, vk, pkg)
    ensures EvenPoint(C, PackageNonce(C, vk, pkg))
  {
    hide RawNonce;
    NegInvolutive(RawNonce(C, vk, pkg));
  }

  // ---------- the spending flow ----------

  /** Every signer of the package signs with the given packages. */
  method SignAll(C: Suite, pkg: SigningPackage, nonces: map<Identifier, SigningNonces>,
                 kps: map<Identifier, KeyPackage>, pk: PublicKeyPackage)
    returns (shares: map<Identifier, SignatureShare>)
    requires PackageDefined(C, pk.verifyingKey, pkg) && KeysShared(kps, Ids(pkg)) && NoncesMatch(pkg, nonces)
    ensures ShiftedShares(C, pk.verifyingKey, pkg, kps, nonces, Zero(), shares)
  {
    hide PackageDefined, ShiftedShare, FirstMissingKey, Ascending, Distinct, ShareOf, KnowsOwnNonce, KeysShared,
         NoncesMatch;
    shares := map[];
    var ids := SignerIds(pkg);
    for k := 0 to |ids|
      invariant forall x :: x in shares <==> x in ids[..k]
      invariant forall x :: x in shares ==>
        x in kps && x in nonces && shares[x] == ShiftedShare(C, pk.verifyingKey, pkg, kps[x], nonces[x], 0)
    {
      var id := ids[k];
      TakeStep(ids, k);
      assert id in ids;
      SignerReady(pkg, nonces, kps, id);
      var share := Sign(C, pkg, nonces[id], kps[id], pk);
      HonestSign(C, pk.verifyingKey, pkg, kps[id], nonces[id]);
      shares := shares[id := share.value];
    }
    TakeAll(ids);
    assert shares.Keys == pkg.signingCommitments.Keys;
  }

  lemma SignerReady(pkg: SigningPackage, nonces: map<Identifier, SigningNonces>, kps: map<Identifier, KeyPackage>,
                    i: Identifier)
    requires KeysShared(kps, Ids(pkg)) && NoncesMatch(pkg, nonces) && i in Ids(pkg)
    ensures i in nonces && i in kps && kps[i].identifier == i
    ensures KnowsOwnNonce(pkg, nonces[i], kps[i]) && FirstMissingKey(kps[i], Ids(pkg)).None?
  {
  }

  /**
    The arithmetic of the demo: tweak, negate, sign, aggregate, add c times the tweak.  The bytes it ends with
    satisfy the stand-alone verifier for the x-only tweaked key.
  */
  method Spend(C: Suite, pk: PublicKeyPackage, pkg: SigningPackage, kps: map<Identifier, KeyPackage>,
               nonces: map<Identifier, SigningNonces>, tweak: Scalar) returns (out: array<byte>)
    requires C.variant.Secp256k1Bip340? && CurveLaws(C) && EncodingLaws(C)
    requires SharesOf(kps, pkg, pk.verifyingKey) && NoncesMatch(pkg, nonces) && |pkg.signingCommitments| > 0
    requires PackageDefined(C, TweakedKey(C, pk.verifyingKey, tweak), pkg)
    ensures fresh(out) && out.Length == 64
    ensures VerifyBytes(C, out[..], pkg.message, C.xOnly(TweakedKey(C, pk.verifyingKey, tweak)))
  {
    hide Mod, Add, Mul, Neg, RawTweakedKey, SharedSecret, KeysShared, HonestResponse, ResponsesUnder, PackageNonce,
         Verify,
         VerifyBytes, SignatureEncoding, CurveLaws, EncodingLaws, RawNonce, EvenPoint;
    var qRaw := RawTweakedKey(pk.verifyingKey, tweak);
    var signingPk := pk.(verifyingKey := TweakedKey(C, pk.verifyingKey, tweak));
    var spending := kps;
    var tweakEff := tweak;
    if C.hasOddY(qRaw) {
      spending := NegateShares(kps);
      tweakEff := Neg(tweak);
    }
    SpendingKey(C, kps, Ids(pkg), pk.verifyingKey, tweak);
    var shares := SignAll(C, pkg, nonces, spending, signingPk);
    var aggregated := Aggregate(pkg, shares);
    AggregateOfSession(C, signingPk.verifyingKey, pkg, spending, nonces, shares);
    var sig := aggregated.value;
    var c := Bip340Challenge(C, C.xOnly(sig.R), C.xOnly(signingPk.verifyingKey), pkg.message);
    NonceChallengeKept(C, signingPk.verifyingKey, pkg);
    sig := sig.(z := Add(sig.z, Mul(c, tweakEff)));
    TweakedSessionVerifies(C, pk, pkg, kps, nonces, tweak);
    ByteVerifierAgrees(C, sig, pkg.message, signingPk);
    assert EvenPoint(C, sig.R);
    EvenPointParts(C, sig.R);
    out := SignatureToBytes(C, sig);
  }

  lemma EvenPointParts(C: Suite, p: Point)
    requires EvenPoint(C, p)
    ensures p != Identity() && !C.hasOddY(p)
  {
  }

  /** The shares of an error-free session aggregate to the sum of the honest responses under the package nonce. */
  lemma AggregateOfSession(C: Suite, vk: Point, pkg: SigningPackage, kps: map<Identifier, KeyPackage>,
                           nonces: map<Identifier, SigningNonces>, shares: map<Identifier, SignatureShare>)
    requires ShiftedShares(C, vk, pkg, kps, nonces, Zero(), shares)
    requires |pkg.signingCommitments| > 0
    ensures OneNonce(shares) && |shares| == |pkg.signingCommitments|
    ensures forall sig :: AggregatesTo(pkg, shares, sig) ==>
              sig == Signature(PackageNonce(C, vk, pkg), Sum(Ids(pkg), HonestResponses(C, vk, pkg, kps, nonces)))
  {
    hide Mod, Add, PackageNonce, HonestResponse, SigChallenge, Sorted;
    assert |shares.Keys| == |pkg.signingCommitments.Keys|;
    var ids := Ids(pkg);
    forall i | i in ids
      ensures Responses(shares)(i) == HonestResponses(C, vk, pkg, kps, nonces)(i)
    {
      AddZero(HonestResponse(C, vk, pkg, kps[i], nonces[i], SigChallenge(C, vk, pkg)));
    }
    SumCong(ids, Responses(shares), HonestResponses(C, vk, pkg, kps, nonces));
    forall sig | AggregatesTo(pkg, shares, sig)
      ensures sig.R == PackageNonce(C, vk, pkg)
    {
      var i :| i in shares;
    }
  }

  /** The challenge recomputed from the normalised nonce is the one the signers used. */
  lemma NonceChallengeKept(C: Suite, vk: Point, pkg: SigningPackage)
    requires C.variant.Secp256k1Bip340? && CurveLaws(C) && PackageDefined(C, vk, pkg)
    ensures Bip340Challenge(C, C.xOnly(PackageNonce(C, vk, pkg)), C.xOnly(vk), pkg.message) == SigChallenge(C, vk, pkg)
  {
    hide RawNonce;
    ChallengeIgnoresNormalization(C, vk, RawNonce(C, vk, pkg), 1, pkg.message);
  }
}
