/** From the dealer to the verifier: the theorems on dealt keys. */
module EndToEnd {
  import opened Wrappers
  import opened PrimeField
  import opened Sums
  import opened Ciphersuites
  import opened Wire
  import opened Hashing
  import opened Signing
  import opened Keygen
  import opened Sigma
  import opened IdentifiableAbort
  import opened Accountability
  import opened Identification
  import opened NonFraming
  import opened Bip340

  /** A package of dealt signers, however many, with any nonce commitments. */
  ghost predicate DealtMembers(max: Identifier, min: Identifier, coins: DealerCoins, pkg: SigningPackage) {
    && min <= max <= 65534 && CoinsFit(coins, min)
    && forall i :: i in pkg.signingCommitments ==> 1 <= i <= max
  }

  /** At least min_signers of them. */
  ghost predicate DealtSigners(max: Identifier, min: Identifier, coins: DealerCoins, pkg: SigningPackage) {
    && DealtMembers(max, min, coins, pkg)
    && |pkg.signingCommitments| >= 1 && |pkg.signingCommitments| >= min
  }

  /** Everybody's own nonce commitments are in the package, and its challenge is defined. */
  ghost predicate DealtPackage(C: Suite, secretKey: Scalar, max: Identifier, min: Identifier, coins: DealerCoins,
                               pkg: SigningPackage, nonces: map<Identifier, SigningNonces>)
  {
    && DealtSigners(max, min, coins, pkg) && NoncesMatch(pkg, nonces)
    && PackageDefined(C, DealtPublicKeys(C, secretKey, max, min, coins).verifyingKey, pkg)
  }

  /** Dealt signers are equipped for signing and for both identifiable-abort rounds, even below the threshold. */
  lemma DealtMembersAreEquipped(C: Suite, secretKey: Scalar, max: Identifier, min: Identifier, coins: DealerCoins,
                                pkg: SigningPackage, nonces: map<Identifier, SigningNonces>)
    requires DealtMembers(max, min, coins, pkg) && NoncesMatch(pkg, nonces)
    ensures SessionEquipped(C, pkg, DealtPublicKeys(C, secretKey, max, min, coins),
                            DealtShares(C, secretKey, max, coins), nonces)
  {
    hide DealtShares, DealtPublicKeys, RecordMatches, KeysShared, SameKey, OwnCommitment;
    DealtKeysShared(C, secretKey, max, min, coins, Ids(pkg));
    DealerTables(C, secretKey, max, min, coins);
  }

  /** At or above the threshold they also share the key. */
  lemma DealtIsEquipped(C: Suite, secretKey: Scalar, max: Identifier, min: Identifier, coins: DealerCoins,
                        pkg: SigningPackage, nonces: map<Identifier, SigningNonces>)
    requires DealtPackage(C, secretKey, max, min, coins, pkg, nonces)
    ensures var kps, pk := DealtShares(C, secretKey, max, coins), DealtPublicKeys(C, secretKey, max, min, coins);
            SharesOf(kps, pkg, pk.verifyingKey) && SessionEquipped(C, pkg, pk, kps, nonces)
  {
    hide DealtShares, DealtPublicKeys, SharedSecret, PackageDefined, OwnCommitment, SessionEquipped;
    DealtSession(C, secretKey, max, min, coins, pkg);
    DealtMembersAreEquipped(C, secretKey, max, min, coins, pkg, nonces);
  }

  ghost predicate AllSucceed(C: Suite, vk: Point, pkg: SigningPackage, kps: map<Identifier, KeyPackage>,
                             nonces: map<Identifier, SigningNonces>)
  {
    forall i :: i in pkg.signingCommitments ==> i in nonces && i in kps && ShareOf(C, pkg, nonces[i], kps[i], vk).Ok?
  }

  /** shares holds what sign returned to each signer of the package. */
  ghost predicate AllSigned(C: Suite, vk: Point, pkg: SigningPackage, kps: map<Identifier, KeyPackage>,
                            nonces: map<Identifier, SigningNonces>, shares: map<Identifier, SignatureShare>)
    requires AllSucceed(C, vk, pkg, kps, nonces)
  {
    && shares.Keys == pkg.signingCommitments.Keys
    && forall i :: i in pkg.signingCommitments ==> ShareOf(C, pkg, nonces[i], kps[i], vk) == Ok(shares[i])
  }

  /** In an equipped session every signer succeeds. */
  lemma EquippedSucceed(C: Suite, pk: PublicKeyPackage, pkg: SigningPackage, kps: map<Identifier, KeyPackage>,
                        nonces: map<Identifier, SigningNonces>)
    requires SessionEquipped(C, pkg, pk, kps, nonces)
    ensures AllSucceed(C, pk.verifyingKey, pkg, kps, nonces)
  {
    hide ShareOf, SessionEquipped;
    forall i | i in pkg.signingCommitments
      ensures i in nonces && i in kps && ShareOf(C, pkg, nonces[i], kps[i], pk.verifyingKey).Ok?
    {
      SignerSucceeds(C, pkg, pk, kps, nonces, i);
    }
  }

  /** And the aggregate of what they return verifies. */
  lemma EquippedVerify(C: Suite, pk: PublicKeyPackage, pkg: SigningPackage, kps: map<Identifier, KeyPackage>,
                       nonces: map<Identifier, SigningNonces>, shares: map<Identifier, SignatureShare>)
    requires C.variant.Secp256k1Bip340? ==> CurveLaws(C)
    requires |pkg.signingCommitments| > 0
    requires PackageDefined(C, pk.verifyingKey, pkg) && SessionEquipped(C, pkg, pk, kps, nonces)
    requires SharesOf(kps, pkg, pk.verifyingKey)
    requires AllSucceed(C, pk.verifyingKey, pkg, kps, nonces) && AllSigned(C, pk.verifyingKey, pkg, kps, nonces, shares)
    ensures Aggregable(pkg, shares)
    ensures forall sig :: AggregatesTo(pkg, shares, sig) ==> Accepted(C, pk, pkg, sig)
  {
    hide PackageDefined, ShareOf, SessionEquipped, SharesOf, ShiftedShare, Verify, VerifyDefined, PackageNonce, Mod,
         Add, Mul;
    forall i | i in pkg.signingCommitments
      ensures shares[i] == ShiftedShare(C, pk.verifyingKey, pkg, kps[i], nonces[i], 0)
    {
      SignerSucceeds(C, pkg, pk, kps, nonces, i);
    }
    assert ShiftedShares(C, pk.verifyingKey, pkg, kps, nonces, Zero(), shares);
    assert NoncesMatch(pkg, nonces) by { EquippedNonces(C, pk, pkg, kps, nonces); }
    SessionVerifiesIff(C, pk, pkg, kps, nonces, Zero(), shares);
    SumZero(Ids(pkg), Zero());
    assert |shares.Keys| == |pkg.signingCommitments.Keys|;
    forall sig | AggregatesTo(pkg, shares, sig)
      ensures Accepted(C, pk, pkg, sig)
    {
      AggregateShape(pkg, shares, sig, PackageNonce(C, pk.verifyingKey, pkg));
    }
  }

  lemma EquippedNonces(C: Suite, pk: PublicKeyPackage, pkg: SigningPackage, kps: map<Identifier, KeyPackage>,
                       nonces: map<Identifier, SigningNonces>)
    requires SessionEquipped(C, pkg, pk, kps, nonces)
    ensures NoncesMatch(pkg, nonces)
  {
  }

  /**
    Threshold signing is correct: under every suite, for every secret, polynomial, pairwise keys, nonces,
    message and signer set of at least the threshold, every signer succeeds and the aggregate verifies.
  */
  lemma ThresholdSigning(C: Suite, secretKey: Scalar, max: Identifier, min: Identifier, coins: DealerCoins,
                         pkg: SigningPackage, nonces: map<Identifier, SigningNonces>)
    requires C.variant.Secp256k1Bip340? ==> CurveLaws(C)
    requires DealtPackage(C, secretKey, max, min, coins, pkg, nonces)
    ensures var kps, pk := DealtShares(C, secretKey, max, coins), DealtPublicKeys(C, secretKey, max, min, coins);
            && AllSucceed(C, pk.verifyingKey, pkg, kps, nonces)
            && forall shares :: AllSigned(C, pk.verifyingKey, pkg, kps, nonces, shares) ==>
                 Aggregable(pkg, shares) && forall sig :: AggregatesTo(pkg, shares, sig) ==> Accepted(C, pk, pkg, sig)
  {
    hide DealtShares, DealtPublicKeys, PackageDefined, AllSucceed, AllSigned, AggregatesTo, Accepted, SessionEquipped,
         SharesOf;
    var kps, pk := DealtShares(C, secretKey, max, coins), DealtPublicKeys(C, secretKey, max, min, coins);
    DealtIsEquipped(C, secretKey, max, min, coins, pkg, nonces);
    EquippedSucceed(C, pk, pkg, kps, nonces);
    forall shares | AllSigned(C, pk.verifyingKey, pkg, kps, nonces, shares)
      ensures Aggregable(pkg, shares) && forall sig :: AggregatesTo(pkg, shares, sig) ==> Accepted(C, pk, pkg, sig)
    {
      EquippedVerify(C, pk, pkg, kps, nonces, shares);
    }
  }

  /**
    The same in bytes: on dealt BIP-340 keys, what every signer returns aggregates to a signature whose 64 bytes the
    stand-alone verifier accepts for the x-coordinate of the key, which is that of the secret the dealer was given.
  */
  lemma ThresholdBytes(C: Suite, secretKey: Scalar, max: Identifier, min: Identifier, coins: DealerCoins,
                       pkg: SigningPackage, nonces: map<Identifier, SigningNonces>,
                       shares: map<Identifier, SignatureShare>, sig: Signature)
    requires C.variant.Secp256k1Bip340? && CurveLaws(C) && EncodingLaws(C)
    requires DealtPackage(C, secretKey, max, min, coins, pkg, nonces)
    requires var kps, pk := DealtShares(C, secretKey, max, coins), DealtPublicKeys(C, secretKey, max, min, coins);
             && AllSucceed(C, pk.verifyingKey, pkg, kps, nonces)
             && AllSigned(C, pk.verifyingKey, pkg, kps, nonces, shares)
    requires AggregatesTo(pkg, shares, sig)
    ensures EvenPoint(C, sig.R) && |SignatureEncoding(C, sig)| == 64
    ensures var x := C.xOnly(DealtPublicKeys(C, secretKey, max, min, coins).verifyingKey);
            x == C.xOnly(MulGenerator(secretKey)) && VerifyBytes(C, SignatureEncoding(C, sig), pkg.message, x)
  {
    hide DealtShares, DealtPublicKeys, AllSucceed, AllSigned, AggregatesTo, Verify, VerifyBytes, CurveLaws,
         EncodingLaws, SignatureEncoding, NoncesMatch, CoinsFit, RawNonce;
    var pk := DealtPublicKeys(C, secretKey, max, min, coins);
    ThresholdSigning(C, secretKey, max, min, coins, pkg, nonces);
    DealtKeyPair(C, secretKey, max, min, coins);
    NegInvolutive(MulGenerator(secretKey));
    assert secretKey != 0;
    AcceptedNonceIsEven(C, sig, pkg.message, pk);
    ByteVerifierAgrees(C, sig, pkg.message, pk);
  }

  lemma AcceptedNonceIsEven(C: Suite, sig: Signature, msg: Bytes32, pk: PublicKeyPackage)
    requires C.variant.Secp256k1Bip340? && VerifyDefined(C, sig, pk) && Verify(C, sig, msg, pk)
    ensures EvenPoint(C, sig.R)
  {
    hide Challenge, Add, Mul;
  }

  lemma SignerSucceeds(C: Suite, pkg: SigningPackage, pk: PublicKeyPackage, kps: map<Identifier, KeyPackage>,
                       nonces: map<Identifier, SigningNonces>, i: Identifier)
    requires SessionEquipped(C, pkg, pk, kps, nonces) && i in pkg.signingCommitments
    ensures i in kps && i in nonces && kps[i].identifier == i
    ensures ShareOf(C, pkg, nonces[i], kps[i], pk.verifyingKey)
         == Ok(ShiftedShare(C, pk.verifyingKey, pkg, kps[i], nonces[i], 0))
  {
    hide ShareOf, ShiftedShare, RecordMatches, KeysShared, FirstMissingKey;
    SignerEquipped(C, pkg, pk, kps, nonces, i);
    HonestSign(C, pk.verifyingKey, pkg, kps[i], nonces[i]);
  }

  lemma AggregateShape(pkg: SigningPackage, shares: map<Identifier, SignatureShare>, sig: Signature, r: Point)
    requires AggregatesTo(pkg, shares, sig) && forall i :: i in shares ==> shares[i].R == r
    ensures sig == Signature(r, Sum(Sorted(shares.Keys), Responses(shares)))
  {
    var i :| i in shares;
  }

  /** Dealt signers that follow both rounds on their own shares: nobody is named. */
  lemma HonestRunNamesNobody(C: Suite, secretKey: Scalar, max: Identifier, min: Identifier, coins: DealerCoins,
                             ev: Evidence, nonces: map<Identifier, SigningNonces>,
                             proverCoins: Identifier -> ProverCoins, x: Identifier)
    requires DealtPackage(C, secretKey, max, min, coins, ev.pkg, nonces)
    requires ev.pk == DealtPublicKeys(C, secretKey, max, min, coins)
    requires ev.decisions.Keys == ev.pkg.signingCommitments.Keys
    requires forall i :: i in ev.pkg.signingCommitments ==>
               i in DealtShares(C, secretKey, max, coins) && i in nonces
               && FollowsRounds(C, ev, DealtShares(C, secretKey, max, coins)[i], nonces[i], 0, proverCoins(i))
    ensures !Blamed(C, ev, x)
  {
    hide DealtShares, DealtPublicKeys, PackageDefined, SharesOf, SessionEquipped, FollowsRounds, Blamed;
    DealtIsEquipped(C, secretKey, max, min, coins, ev.pkg, nonces);
    SessionVerdict(C, ev, DealtShares(C, secretKey, max, coins), nonces, Zero(), proverCoins, x);
  }

  /** The dealer's keys are what identification needs. */
  lemma DealerDealsKeys(C: Suite, secretKey: Scalar, max: Identifier, min: Identifier, coins: DealerCoins, ev: Evidence)
    requires DealtSigners(max, min, coins, ev.pkg) && ev.pk == DealtPublicKeys(C, secretKey, max, min, coins)
    ensures KeysDealt(C, ev, DealtShares(C, secretKey, max, coins))
  {
    hide DealtShares, DealtPublicKeys, RecordMatches, SharesOf, SameKey;
    DealtSession(C, secretKey, max, min, coins, ev.pkg);
    DealerTables(C, secretKey, max, min, coins);
  }

  /**
    On dealt keys, whatever the signers sent: shares sit under their own identifiers, there are no more of them than
    signers, and they carry one nonce that serves the package; every accepted proof can be rewound.  If then
    aggregation fails or its signature is not accepted, decide names a signer, or the extracted witnesses break a
    commitment.
  */
  lemma RejectedMeansSomebodyNamed(C: Suite, secretKey: Scalar, max: Identifier, min: Identifier, coins: DealerCoins,
                                   ev: Evidence, forks: map<Identifier, Fork>, r: Point)
    returns (ws: map<Identifier, Witness>)
    requires DealtSigners(max, min, coins, ev.pkg) && ev.pk == DealtPublicKeys(C, secretKey, max, min, coins)
    requires OwnIdentifiers(ev) && AcceptedForked(C, ev, forks)
    requires |ev.shares| <= |ev.pkg.signingCommitments| && NonceServes(C, ev.pk, ev.pkg, ev.shares, r)
    requires !Succeeds(C, ev.pk, ev.pkg, ev.shares)
    ensures || (exists x :: x in ev.pkg.signingCommitments && Blamed(C, ev, x))
            || (AllExtracted(C, ev, forks, ws) && CommitmentBroken(C, ev, DealtShares(C, secretKey, max, coins), ws))
  {
    hide AllForked, AcceptedForked, AllExtracted, CommitmentBroken, Blamed, DealtShares, DealtPublicKeys, KeysDealt,
         NobodyNamed, NonceServes, Succeeds, OwnIdentifiers;
    ws := map[];
    if NobodyNamed(C, ev) {
      DealerDealsKeys(C, secretKey, max, min, coins, ev);
      SilenceForksAll(C, ev, forks);
      AggregationSucceedsIff(C, ev);
      ws := IdentificationTheorem(C, ev, DealtShares(C, secretKey, max, coins), forks);
    } else {
      SomebodyNamed(C, ev);
    }
  }

  /**
    The same the other way round, under the package nonce: if nobody is named and all shares lie inside the signer
    set, then aggregation returns a signature that is accepted, or the extracted witnesses break a commitment.
  */
  lemma SilentSessionSucceeds(C: Suite, secretKey: Scalar, max: Identifier, min: Identifier, coins: DealerCoins,
                              ev: Evidence, forks: map<Identifier, Fork>) returns (ws: map<Identifier, Witness>)
    requires C.variant.Secp256k1Bip340? ==> CurveLaws(C)
    requires DealtSigners(max, min, coins, ev.pkg) && ev.pk == DealtPublicKeys(C, secretKey, max, min, coins)
    requires ev.Defined(C) && OwnIdentifiers(ev) && AcceptedForked(C, ev, forks) && NobodyNamed(C, ev)
    requires ev.shares.Keys <= ev.pkg.signingCommitments.Keys
    requires CommonNonce(ev.shares, PackageNonce(C, ev.pk.verifyingKey, ev.pkg))
    ensures AllExtracted(C, ev, forks, ws)
    ensures || Succeeds(C, ev.pk, ev.pkg, ev.shares)
            || CommitmentBroken(C, ev, DealtShares(C, secretKey, max, coins), ws)
  {
    hide CurveLaws, PackageDefined, AllForked, AcceptedForked, AllExtracted, CommitmentBroken, NobodyNamed, DealtShares,
         DealtPublicKeys, KeysDealt, NonceServes, Succeeds, OwnIdentifiers, CommonNonce, PackageNonce;
    DealerDealsKeys(C, secretKey, max, min, coins, ev);
    SilenceForksAll(C, ev, forks);
    PackageNonceServes(C, ev);
    ws := IdentificationTheorem(C, ev, DealtShares(C, secretKey, max, coins), forks);
  }

  /** Signer x ran the protocol with its own package, for some nonces and randomness. */
  ghost predicate RanHonestly(C: Suite, ev: Evidence, kps: map<Identifier, KeyPackage>, x: Identifier) {
    x in kps && kps[x].identifier == x && exists n, coins :: Honest(C, ev, kps[x], n, coins)
  }

  /** Somebody opened towards a signer a key that collides with the one in its package. */
  ghost predicate KeyHashBroken(C: Suite, ev: Evidence, kps: map<Identifier, KeyPackage>) {
    exists x, a :: x in kps && CollidingOpening(C, ev, kps[x], a)
  }

  /**
    Both guarantees together: when only signers of the package submit decisions, such a failed session names a
    signer that is not honest, or a commitment or the key commitment hash is broken.
  */
  lemma RejectedNamesDishonest(C: Suite, secretKey: Scalar, max: Identifier, min: Identifier, coins: DealerCoins,
                               ev: Evidence, forks: map<Identifier, Fork>, r: Point)
    returns (ws: map<Identifier, Witness>)
    requires DealtSigners(max, min, coins, ev.pkg) && ev.pk == DealtPublicKeys(C, secretKey, max, min, coins)
    requires OwnIdentifiers(ev) && AcceptedForked(C, ev, forks)
    requires ev.decisions.Keys <= ev.pkg.signingCommitments.Keys
    requires |ev.shares| <= |ev.pkg.signingCommitments| && NonceServes(C, ev.pk, ev.pkg, ev.shares, r)
    requires !Succeeds(C, ev.pk, ev.pkg, ev.shares)
    ensures || (exists x :: x in ev.pkg.signingCommitments && Blamed(C, ev, x)
                         && !RanHonestly(C, ev, DealtShares(C, secretKey, max, coins), x))
            || (AllExtracted(C, ev, forks, ws) && CommitmentBroken(C, ev, DealtShares(C, secretKey, max, coins), ws))
            || KeyHashBroken(C, ev, DealtShares(C, secretKey, max, coins))
  {
    hide AcceptedForked, AllExtracted, CommitmentBroken, Blamed, DealtShares, DealtPublicKeys, NonceServes, Succeeds,
         OwnIdentifiers, DealtSigners, Honest, CollidingOpening;
    ws := RejectedMeansSomebodyNamed(C, secretKey, max, min, coins, ev, forks, r);
    if x :| x in ev.pkg.signingCommitments && Blamed(C, ev, x) {
      var kps := DealtShares(C, secretKey, max, coins);
      if RanHonestly(C, ev, kps, x) {
        var n, proverCoins :| Honest(C, ev, kps[x], n, proverCoins);
        NonFramingTheorem(C, ev, kps[x], n, proverCoins);
      }
    }
  }

  lemma SomebodyNamed(C: Suite, ev: Evidence)
    requires !NobodyNamed(C, ev)
    ensures exists x :: x in ev.pkg.signingCommitments && Blamed(C, ev, x)
  {
    hide Blamed;
  }

  /**
    One tampered response in an otherwise honest session: the aggregate is rejected, and the adjudicator
    names the tampering signer alone, unless the Fiat-Shamir challenge of its proof is zero.
  */
  lemma OneTamperedShare(C: Suite, ev: Evidence, kps: map<Identifier, KeyPackage>,
                         nonces: map<Identifier, SigningNonces>, errors: Identifier -> Scalar,
                         coins: Identifier -> ProverCoins, k: Identifier)
    requires C.variant.Secp256k1Bip340? ==> CurveLaws(C)
    requires ev.Defined(C) && FollowsProtocol(C, ev, kps, nonces, errors, coins)
    requires SharesOf(kps, ev.pkg, ev.pk.verifyingKey)
    requires ShiftedShares(C, ev.pk.verifyingKey, ev.pkg, kps, nonces, errors, ev.shares)
    requires k in ev.pkg.signingCommitments && errors(k) != 0
    requires forall i :: i in ev.pkg.signingCommitments && i != k ==> errors(i) == 0
    ensures forall sig :: AggregatesTo(ev.pkg, ev.shares, sig) ==> !Accepted(C, ev.pk, ev.pkg, sig)
    ensures forall x :: Blamed(C, ev, x) <==> x == k && NonzeroChallenge(C, ev, k)
  {
    hide PackageDefined, FollowsProtocol, ShiftedShares, Blamed, NonzeroChallenge, Accepted, AggregatesTo, SharesOf;
    assert NoncesMatch(ev.pkg, nonces) by { ProtocolNonces(C, ev, kps, nonces, errors, coins); }
    assert k in Ids(ev.pkg);
    SumSingle(Ids(ev.pkg), errors, k);
    forall sig | AggregatesTo(ev.pkg, ev.shares, sig)
      ensures !Accepted(C, ev.pk, ev.pkg, sig)
    {
      NonzeroSumRejected(C, ev.pk, ev.pkg, kps, nonces, errors, ev.shares, sig);
    }
    forall x
      ensures Blamed(C, ev, x) <==> x == k && NonzeroChallenge(C, ev, k)
    {
      SessionVerdict(C, ev, kps, nonces, errors, coins, x);
    }
  }

  lemma ProtocolNonces(C: Suite, ev: Evidence, kps: map<Identifier, KeyPackage>, nonces: map<Identifier, SigningNonces>,
                       errors: Identifier -> Scalar, coins: Identifier -> ProverCoins)
    requires FollowsProtocol(C, ev, kps, nonces, errors, coins)
    ensures NoncesMatch(ev.pkg, nonces)
  {
    hide FollowsRounds;
  }

  lemma NonzeroSumRejected(C: Suite, pk: PublicKeyPackage, pkg: SigningPackage, kps: map<Identifier, KeyPackage>,
                           nonces: map<Identifier, SigningNonces>, errors: Identifier -> Scalar,
                           shares: map<Identifier, SignatureShare>, sig: Signature)
    requires C.variant.Secp256k1Bip340? ==> CurveLaws(C)
    requires PackageDefined(C, pk.verifyingKey, pkg) && SharesOf(kps, pkg, pk.verifyingKey) && NoncesMatch(pkg, nonces)
    requires ShiftedShares(C, pk.verifyingKey, pkg, kps, nonces, errors, shares) && Sum(Ids(pkg), errors) != 0
    requires AggregatesTo(pkg, shares, sig)
    ensures !Accepted(C, pk, pkg, sig)
  {
    hide PackageDefined, ShiftedShares, SharesOf, NoncesMatch, Verify, VerifyDefined, PackageNonce;
    SessionVerifiesIff(C, pk, pkg, kps, nonces, errors, shares);
    AggregateShape(pkg, shares, sig, PackageNonce(C, pk.verifyingKey, pkg));
  }
}
