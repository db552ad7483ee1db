/** Runs that abort, or end in an invalid signature, although decide names nobody. */
module Counterexamples {
  import opened Wrappers
  import opened PrimeField
  import opened Sums
  import opened Ciphersuites
  import opened Wire
  import opened Hashing
  import opened Signing
  import opened Keygen
  import opened Sigma
  import opened IdentifiableAbort
  import opened Accountability
  import opened NonFraming
  import opened EndToEnd
  import opened LawfulSuite
  import opened Session

  // ---------- shares that carry the honest responses ----------

  /** The share of every signer holds its honest response; its nonce is arbitrary, and there may be other shares. */
  ghost predicate ErrorFree(C: Suite, pkg: SigningPackage, vk: Point, kps: map<Identifier, KeyPackage>,
                            nonces: map<Identifier, SigningNonces>, shares: map<Identifier, SignatureShare>)
  {
    forall i :: i in pkg.signingCommitments ==>
      && i in kps && i in nonces && i in shares
      && shares[i] == ShiftedShare(C, vk, pkg, kps[i], nonces[i], 0).(R := shares[i].R)
  }

  ghost function HonestMessages(C: Suite, pkg: SigningPackage, pk: PublicKeyPackage, kps: map<Identifier, KeyPackage>,
                                shares: map<Identifier, SignatureShare>, coins: Identifier -> ProverCoins)
    : map<Identifier, IA1Message>
  {
    map i | i in pkg.signingCommitments && i in shares && i in kps ::
      HonestMessage(C, pkg, shares[i], kps[i], pk, shares, coins(i))
  }

  /** What decide sees when the signers of the package run both rounds on these shares. */
  ghost function RunOn(C: Suite, pkg: SigningPackage, pk: PublicKeyPackage, kps: map<Identifier, KeyPackage>,
                       shares: map<Identifier, SignatureShare>, coins: Identifier -> ProverCoins): (ev: Evidence)
    ensures ev.pkg == pkg && ev.pk == pk && ev.shares == shares
  {
    var messages := HonestMessages(C, pkg, pk, kps, shares, coins);
    Evidence(pkg, pk, shares, messages, ExpectedDecisions(pkg, kps, messages))
  }

  lemma EquippedHas(C: Suite, pkg: SigningPackage, pk: PublicKeyPackage, kps: map<Identifier, KeyPackage>,
                    nonces: map<Identifier, SigningNonces>)
    requires SessionEquipped(C, pkg, pk, kps, nonces)
    ensures forall i :: i in pkg.signingCommitments ==> i in kps && i in nonces && kps[i].identifier == i
  {
    hide RecordMatches, KeysShared, OwnCommitment;
    forall i | i in pkg.signingCommitments
      ensures i in kps && i in nonces && kps[i].identifier == i
    {
      assert i in Ids(pkg);
      SharedPackage(kps, Ids(pkg), i);
    }
  }

  /** On such shares the protocol is followed without error, and nobody is named. */
  lemma ErrorFreeIsNotNamed(C: Suite, pkg: SigningPackage, pk: PublicKeyPackage, kps: map<Identifier, KeyPackage>,
                            nonces: map<Identifier, SigningNonces>, shares: map<Identifier, SignatureShare>,
                            coins: Identifier -> ProverCoins)
    requires SessionEquipped(C, pkg, pk, kps, nonces) && ErrorFree(C, pkg, pk.verifyingKey, kps, nonces, shares)
    ensures var ev := RunOn(C, pkg, pk, kps, shares, coins);
            FollowsProtocol(C, ev, kps, nonces, Zero(), coins) && forall x :: !Blamed(C, ev, x)
  {
    hide HonestMessage, OpenedKeys, ShiftedShare, FollowsRounds, SessionEquipped, Blamed;
    var ev := RunOn(C, pkg, pk, kps, shares, coins);
    EquippedHas(C, pkg, pk, kps, nonces);
    assert ev.decisions.Keys == pkg.signingCommitments.Keys;
    forall i | i in pkg.signingCommitments
      ensures FollowsRounds(C, ev, kps[i], nonces[i], 0, coins(i))
    {
      SignerFollows(C, pkg, pk, kps, nonces, shares, coins, i);
    }
    forall x
      ensures !Blamed(C, ev, x)
    {
      WrongNonceIsNotNamed(C, ev, kps, nonces, coins, x);
    }
  }

  lemma SignerFollows(C: Suite, pkg: SigningPackage, pk: PublicKeyPackage, kps: map<Identifier, KeyPackage>,
                      nonces: map<Identifier, SigningNonces>, shares: map<Identifier, SignatureShare>,
                      coins: Identifier -> ProverCoins, i: Identifier)
    requires ErrorFree(C, pkg, pk.verifyingKey, kps, nonces, shares)
    requires i in pkg.signingCommitments && kps[i].identifier == i
    ensures FollowsRounds(C, RunOn(C, pkg, pk, kps, shares, coins), kps[i], nonces[i], 0, coins(i))
  {
    hide HonestMessage, OpenedKeys, HonestResponse, SigChallenge, PackageNonce, Add;
  }

  /** Their responses add up to what the package calls for. */
  lemma ErrorFreeSum(C: Suite, pkg: SigningPackage, vk: Point, kps: map<Identifier, KeyPackage>,
                     nonces: map<Identifier, SigningNonces>, shares: map<Identifier, SignatureShare>)
    requires ErrorFree(C, pkg, vk, kps, nonces, shares)
    ensures Sum(Ids(pkg), Responses(shares)) == Sum(Ids(pkg), HonestResponses(C, vk, pkg, kps, nonces))
  {
    hide HonestResponse, SigChallenge, PackageNonce, Add, Sum;
    forall i | i in Ids(pkg)
      ensures Responses(shares)(i) == HonestResponses(C, vk, pkg, kps, nonces)(i)
    {
      AddZero(HonestResponse(C, vk, pkg, kps[i], nonces[i], SigChallenge(C, vk, pkg)));
    }
    SumCong(Ids(pkg), Responses(shares), HonestResponses(C, vk, pkg, kps, nonces));
  }

  /** The shares of an error-free session, except that signer i puts the point points(i) into its share. */
  ghost function SharesWithNonces(C: Suite, pkg: SigningPackage, vk: Point, kps: map<Identifier, KeyPackage>,
                                  nonces: map<Identifier, SigningNonces>, points: Identifier -> Point)
    : map<Identifier, SignatureShare>
  {
    map i | i in pkg.signingCommitments && i in kps && i in nonces ::
      ShiftedShare(C, vk, pkg, kps[i], nonces[i], 0).(R := points(i))
  }

  lemma NoncesAreErrorFree(C: Suite, pkg: SigningPackage, pk: PublicKeyPackage, kps: map<Identifier, KeyPackage>,
                           nonces: map<Identifier, SigningNonces>, points: Identifier -> Point)
    requires SessionEquipped(C, pkg, pk, kps, nonces)
    ensures var shares := SharesWithNonces(C, pkg, pk.verifyingKey, kps, nonces, points);
            && shares.Keys == pkg.signingCommitments.Keys && |shares| == |pkg.signingCommitments|
            && ErrorFree(C, pkg, pk.verifyingKey, kps, nonces, shares)
            && forall i :: i in shares ==> shares[i].identifier == i && shares[i].R == points(i)
  {
    hide SessionEquipped, HonestResponse, SigChallenge, PackageNonce, Add;
    var shares := SharesWithNonces(C, pkg, pk.verifyingKey, kps, nonces, points);
    EquippedHas(C, pkg, pk, kps, nonces);
    assert shares.Keys == pkg.signingCommitments.Keys;
    assert |shares| == |shares.Keys| && |pkg.signingCommitments| == |pkg.signingCommitments.Keys|;
  }

  /** Different nonces: aggregation refuses the shares, and nobody is named. */
  lemma WrongNonceRun(C: Suite, pkg: SigningPackage, pk: PublicKeyPackage, kps: map<Identifier, KeyPackage>,
                      nonces: map<Identifier, SigningNonces>, coins: Identifier -> ProverCoins,
                      a: Identifier, b: Identifier, r: Point) returns (ev: Evidence)
    requires SessionEquipped(C, pkg, pk, kps, nonces)
    requires a in pkg.signingCommitments && b in pkg.signingCommitments && a != b
    requires r != PackageNonce(C, pk.verifyingKey, pkg)
    ensures ev.pkg == pkg && ev.pk == pk && ev.shares.Keys == pkg.signingCommitments.Keys
    ensures !OneNonce(ev.shares) && FollowsProtocol(C, ev, kps, nonces, Zero(), coins)
    ensures forall x :: !Blamed(C, ev, x)
  {
    hide FollowsProtocol, SharesWithNonces, ErrorFree, PackageNonce, SessionEquipped, Blamed;
    var points := (i: Identifier) => if i == a then r else PackageNonce(C, pk.verifyingKey, pkg);
    var shares := SharesWithNonces(C, pkg, pk.verifyingKey, kps, nonces, points);
    NoncesAreErrorFree(C, pkg, pk, kps, nonces, points);
    ErrorFreeIsNotNamed(C, pkg, pk, kps, nonces, shares, coins);
    ev := RunOn(C, pkg, pk, kps, shares, coins);
    assert shares[a].R != shares[b].R;
  }

  lemma OutsiderLeavesRest(C: Suite, pkg: SigningPackage, vk: Point, kps: map<Identifier, KeyPackage>,
                           nonces: map<Identifier, SigningNonces>, shares: map<Identifier, SignatureShare>,
                           o: Identifier, share: SignatureShare)
    requires ErrorFree(C, pkg, vk, kps, nonces, shares) && o !in pkg.signingCommitments
    ensures ErrorFree(C, pkg, vk, kps, nonces, shares[o := share])
  {
    hide ShiftedShare;
  }

  lemma OneMoreShare(shares: map<Identifier, SignatureShare>, o: Identifier, share: SignatureShare)
    requires o !in shares
    ensures shares[o := share].Keys == shares.Keys + {o} && |shares[o := share]| == |shares| + 1
  {
    assert shares[o := share].Keys == shares.Keys + {o};
  }

  lemma OutsiderShares(C: Suite, pkg: SigningPackage, pk: PublicKeyPackage, kps: map<Identifier, KeyPackage>,
                       nonces: map<Identifier, SigningNonces>, o: Identifier, z: Scalar)
    returns (shares: map<Identifier, SignatureShare>)
    requires SessionEquipped(C, pkg, pk, kps, nonces) && o !in pkg.signingCommitments
    ensures ErrorFree(C, pkg, pk.verifyingKey, kps, nonces, shares)
    ensures shares.Keys == pkg.signingCommitments.Keys + {o} && |shares| == |pkg.signingCommitments| + 1
    ensures CommonNonce(shares, PackageNonce(C, pk.verifyingKey, pkg))
    ensures forall i :: i in shares ==> shares[i].identifier == i
  {
    hide SharesWithNonces, ErrorFree, PackageNonce, SessionEquipped;
    var R := PackageNonce(C, pk.verifyingKey, pkg);
    var points := (i: Identifier) => R;
    var inside := SharesWithNonces(C, pkg, pk.verifyingKey, kps, nonces, points);
    NoncesAreErrorFree(C, pkg, pk, kps, nonces, points);
    shares := inside[o := SignatureShare(o, R, z)];
    OutsiderLeavesRest(C, pkg, pk.verifyingKey, kps, nonces, inside, o, SignatureShare(o, R, z));
    OneMoreShare(inside, o, SignatureShare(o, R, z));
  }

  /**
    A share from outside: everybody follows the protocol under the package nonce, and one more share is filed under an
    identifier o that is not in the package.  Aggregation refuses the count, and nobody is named.
  */
  lemma OutsiderShareRun(C: Suite, pkg: SigningPackage, pk: PublicKeyPackage, kps: map<Identifier, KeyPackage>,
                         nonces: map<Identifier, SigningNonces>, coins: Identifier -> ProverCoins, o: Identifier,
                         z: Scalar) returns (ev: Evidence)
    requires SessionEquipped(C, pkg, pk, kps, nonces) && o !in pkg.signingCommitments
    ensures ev.pkg == pkg && ev.pk == pk && ev.shares.Keys == pkg.signingCommitments.Keys + {o}
    ensures CommonNonce(ev.shares, PackageNonce(C, pk.verifyingKey, pkg))
    ensures forall i :: i in ev.shares ==> ev.shares[i].identifier == i
    ensures FollowsProtocol(C, ev, kps, nonces, Zero(), coins) && forall x :: !Blamed(C, ev, x)
    ensures |ev.shares| == |pkg.signingCommitments| + 1 && !Aggregable(pkg, ev.shares)
  {
    hide FollowsProtocol, ErrorFree, PackageNonce, SessionEquipped, Blamed, RunOn, CommonNonce, OneNonce;
    var shares := OutsiderShares(C, pkg, pk, kps, nonces, o, z);
    ErrorFreeIsNotNamed(C, pkg, pk, kps, nonces, shares, coins);
    ev := RunOn(C, pkg, pk, kps, shares, coins);
  }

  /**
    One common point r: aggregation returns a signature, verify accepts it exactly when r is consistent, and nobody is
    named.
  */
  lemma CommonNonceRun(C: Suite, pkg: SigningPackage, pk: PublicKeyPackage, kps: map<Identifier, KeyPackage>,
                       nonces: map<Identifier, SigningNonces>, coins: Identifier -> ProverCoins, r: Point)
    returns (ev: Evidence, sig: Signature)
    requires Equipment(C, pkg, pk, kps, nonces) && |pkg.signingCommitments| > 0
    ensures ev.pkg == pkg && ev.pk == pk && FollowsProtocol(C, ev, kps, nonces, Zero(), coins)
    ensures forall x :: !Blamed(C, ev, x)
    ensures AggregatesTo(pkg, ev.shares, sig) && sig.R == r
    ensures VerifyDefined(C, sig, pk) ==>
              (Verify(C, sig, pkg.message, pk) <==> NonceConsistent(C, pk.verifyingKey, pkg, r))
  {
    hide FollowsProtocol, ErrorFree, SigChallenge, PackageNonce, SessionEquipped, Blamed, Mul, Verify, VerifyDefined,
         NonceConsistent, SharedSecret, KeysShared, HonestResponses, SharesWithNonces;
    ev, sig := CommonPoint(C, pkg, pk, kps, nonces, coins, r);
    SessionSums(C, pkg, pk, kps, nonces);
    if VerifyDefined(C, sig, pk) {
      VerifiesIffConsistent(C, pk, pkg, SharedSecret(kps, Ids(pkg)), sig);
    }
  }

  lemma CommonPoint(C: Suite, pkg: SigningPackage, pk: PublicKeyPackage, kps: map<Identifier, KeyPackage>,
                    nonces: map<Identifier, SigningNonces>, coins: Identifier -> ProverCoins, r: Point)
    returns (ev: Evidence, sig: Signature)
    requires SessionEquipped(C, pkg, pk, kps, nonces) && |pkg.signingCommitments| > 0
    ensures ev.pkg == pkg && ev.pk == pk && FollowsProtocol(C, ev, kps, nonces, Zero(), coins)
    ensures forall x :: !Blamed(C, ev, x)
    ensures AggregatesTo(pkg, ev.shares, sig)
    ensures sig == Signature(r, Sum(Ids(pkg), HonestResponses(C, pk.verifyingKey, pkg, kps, nonces)))
  {
    hide FollowsProtocol, ErrorFree, SessionEquipped, Blamed, HonestResponses, SharesWithNonces;
    var points := (i: Identifier) => r;
    var shares := SharesWithNonces(C, pkg, pk.verifyingKey, kps, nonces, points);
    NoncesAreErrorFree(C, pkg, pk, kps, nonces, points);
    ErrorFreeIsNotNamed(C, pkg, pk, kps, nonces, shares, coins);
    ErrorFreeSum(C, pkg, pk.verifyingKey, kps, nonces, shares);
    ev := RunOn(C, pkg, pk, kps, shares, coins);
    sig := Signature(r, Sum(Ids(pkg), Responses(shares)));
  }

  lemma SessionSums(C: Suite, pkg: SigningPackage, pk: PublicKeyPackage, kps: map<Identifier, KeyPackage>,
                    nonces: map<Identifier, SigningNonces>)
    requires SessionEquipped(C, pkg, pk, kps, nonces)
    ensures Sum(Ids(pkg), HonestResponses(C, pk.verifyingKey, pkg, kps, nonces))
         == Add(PackageNonce(C, pk.verifyingKey, pkg).log,
                Mul(SigChallenge(C, pk.verifyingKey, pkg), SharedSecret(kps, Ids(pkg))))
  {
    hide HonestResponses, SigChallenge, PackageNonce, Add, Mul, SharedSecret, KeysShared, NoncesMatch, RecordMatches;
    SigningEquation(C, pk.verifyingKey, pkg, kps, nonces);
  }

  /** Under every lawful BIP-340 suite such a point exists: the negated package nonce has odd y, so verify rejects. */
  lemma NegatedNonceRun(C: Suite, pkg: SigningPackage, pk: PublicKeyPackage, kps: map<Identifier, KeyPackage>,
                        nonces: map<Identifier, SigningNonces>, coins: Identifier -> ProverCoins)
    returns (ev: Evidence, sig: Signature)
    requires C.variant.Secp256k1Bip340? && CurveLaws(C) && PackageDefined(C, pk.verifyingKey, pkg)
    requires Equipment(C, pkg, pk, kps, nonces) && |pkg.signingCommitments| > 0
    ensures ev.pkg == pkg && ev.pk == pk && FollowsProtocol(C, ev, kps, nonces, Zero(), coins)
    ensures forall x :: !Blamed(C, ev, x)
    ensures AggregatesTo(pkg, ev.shares, sig) && VerifyDefined(C, sig, pk) && !Verify(C, sig, pkg.message, pk)
  {
    hide FollowsProtocol, SessionEquipped, Equipment, Blamed, AggregatesTo, RawNonce, PNeg;
    var raw := RawNonce(C, pk.verifyingKey, pkg);
    NegInvolutive(raw);
    NegInvolutive(PackageNonce(C, pk.verifyingKey, pkg));
    ev, sig := CommonNonceRun(C, pkg, pk, kps, nonces, coins, PNeg(PackageNonce(C, pk.verifyingKey, pkg)));
  }

  /**
    Keys that need not recombine, as below the threshold: everybody follows the protocol, aggregation succeeds, nobody
    is named, and verify accepts exactly when the shares of the session recombine to the secret s of the verifying key,
    or the challenge is zero.
  */
  lemma BelowThresholdRun(C: Suite, pkg: SigningPackage, pk: PublicKeyPackage, kps: map<Identifier, KeyPackage>,
                          nonces: map<Identifier, SigningNonces>, coins: Identifier -> ProverCoins, s: Scalar)
    returns (ev: Evidence, sig: Signature)
    requires C.variant.Secp256k1Bip340? ==> CurveLaws(C)
    requires PackageDefined(C, pk.verifyingKey, pkg) && |pkg.signingCommitments| > 0
    requires SessionEquipped(C, pkg, pk, kps, nonces) && pk.verifyingKey == MulGenerator(s)
    ensures ev.pkg == pkg && ev.pk == pk && FollowsProtocol(C, ev, kps, nonces, Zero(), coins)
    ensures forall x :: !Blamed(C, ev, x)
    ensures AggregatesTo(pkg, ev.shares, sig) && sig.R == PackageNonce(C, pk.verifyingKey, pkg)
    ensures VerifyDefined(C, sig, pk)
    ensures Verify(C, sig, pkg.message, pk)
        <==> SigChallenge(C, pk.verifyingKey, pkg) == 0 || SharedSecret(kps, Ids(pkg)) == s
  {
    hide CurveLaws, PackageDefined, FollowsProtocol, SigChallenge, PackageNonce, SessionEquipped, Blamed, Verify,
         VerifyDefined, AggregatesTo, SharedSecret, HonestResponses;
    ev, sig := CommonPoint(C, pkg, pk, kps, nonces, coins, PackageNonce(C, pk.verifyingKey, pkg));
    KeysAreShared(C, pkg, pk, kps, nonces);
    EquippedNonces(C, pk, pkg, kps, nonces);
    ErrorFreeVerifiesIff(C, pk, pkg, kps, nonces, s);
  }

  /**
    One dealt signer short of the threshold: everybody follows the protocol, aggregation succeeds, nobody is named, and
    verify accepts exactly when the challenge or the leading coefficient of the dealer is zero.
  */
  lemma OneSignerShortRun(C: Suite, secretKey: Scalar, max: Identifier, min: Identifier, dealerCoins: DealerCoins,
                          pkg: SigningPackage, nonces: map<Identifier, SigningNonces>,
                          coins: Identifier -> ProverCoins) returns (ev: Evidence, sig: Signature)
    requires C.variant.Secp256k1Bip340? ==> CurveLaws(C)
    requires DealtMembers(max, min, dealerCoins, pkg) && NoncesMatch(pkg, nonces)
    requires 0 < |pkg.signingCommitments| == min - 1
    requires PackageDefined(C, DealtPublicKeys(C, secretKey, max, min, dealerCoins).verifyingKey, pkg)
    ensures ev.pkg == pkg && ev.pk == DealtPublicKeys(C, secretKey, max, min, dealerCoins)
    ensures FollowsProtocol(C, ev, DealtShares(C, secretKey, max, dealerCoins), nonces, Zero(), coins)
    ensures forall x :: !Blamed(C, ev, x)
    ensures AggregatesTo(pkg, ev.shares, sig) && VerifyDefined(C, sig, ev.pk)
    ensures Verify(C, sig, pkg.message, ev.pk)
        <==> SigChallenge(C, ev.pk.verifyingKey, pkg) == 0 || dealerCoins.coefficients[min - 2] == 0
  {
    hide CurveLaws, PackageDefined, FollowsProtocol, SigChallenge, PackageNonce, SessionEquipped, Blamed, Verify,
         VerifyDefined, AggregatesTo, SharedSecret, DealtShares, DealtPublicKeys, NoncesMatch;
    var kps, pk := DealtShares(C, secretKey, max, dealerCoins), DealtPublicKeys(C, secretKey, max, min, dealerCoins);
    DealtMembersAreEquipped(C, secretKey, max, min, dealerCoins, pkg, nonces);
    DealerTables(C, secretKey, max, min, dealerCoins);
    OneSignerShort(C, secretKey, max, min, dealerCoins, pkg);
    ev, sig := BelowThresholdRun(C, pkg, pk, kps, nonces, coins, NormalizedSecret(C, secretKey));
  }

  // ---------- a share filed under another identifier ----------

  /** The package of a with the pairwise keys of b, the one between the two filed under b. */
  function MixedPackage(a: KeyPackage, b: KeyPackage): KeyPackage {
    a.(pairwiseKeys := b.pairwiseKeys[b.identifier := PairwiseKey(b, a.identifier)])
  }

  /** All shares are honest but the one under b, which is a second share with the identifier of a. */
  ghost function MisfiledShares(C: Suite, pkg: SigningPackage, vk: Point, kps: map<Identifier, KeyPackage>,
                                nonces: map<Identifier, SigningNonces>, a: Identifier, b: Identifier)
    : map<Identifier, SignatureShare>
    requires a in kps && b in kps && a in nonces
  {
    map i | i in pkg.signingCommitments && i in kps && i in nonces ::
      if i == b then ShiftedShare(C, vk, pkg, MixedPackage(kps[a], kps[b]), nonces[a], 0)
      else ShiftedShare(C, vk, pkg, kps[i], nonces[i], 0)
  }

  /** The commitments of b to all its peers, in a message that carries the identifier of a. */
  ghost function MisfiledCommitments(C: Suite, pkg: SigningPackage, pk: PublicKeyPackage, a: KeyPackage, b: KeyPackage,
                                     shares: map<Identifier, SignatureShare>): map<Identifier, Point>
  {
    BlindingCommitmentsOf(C, pkg, MixedPackage(a, b), shares, pk.pedersenH)
      [a.identifier := KeyedCommitment(C, pkg, shares, pk.pedersenH, PairwiseKey(b, a.identifier))]
  }

  ghost function MisfiledMessage(C: Suite, pkg: SigningPackage, pk: PublicKeyPackage, a: KeyPackage, b: KeyPackage,
                                 share: SignatureShare, shares: map<Identifier, SignatureShare>, coins: ProverCoins)
    : (m: IA1Message)
    ensures m.blindingCommitments == MisfiledCommitments(C, pkg, pk, a, b, shares)
  {
    MessageWith(C, pkg, share, MixedPackage(a, b), pk, shares, MisfiledCommitments(C, pkg, pk, a, b, shares), coins)
  }

  ghost function MisfiledMessages(C: Suite, pkg: SigningPackage, pk: PublicKeyPackage, kps: map<Identifier, KeyPackage>,
                                  shares: map<Identifier, SignatureShare>, coins: Identifier -> ProverCoins,
                                  a: Identifier, b: Identifier): map<Identifier, IA1Message>
    requires a in kps && b in kps
  {
    map i | i in pkg.signingCommitments && i in shares && i in kps ::
      if i == b then MisfiledMessage(C, pkg, pk, kps[a], kps[b], shares[b], shares, coins(b))
      else HonestMessage(C, pkg, shares[i], kps[i], pk, shares, coins(i))
  }

  ghost function MisfiledEvidence(C: Suite, pkg: SigningPackage, pk: PublicKeyPackage, kps: map<Identifier, KeyPackage>,
                                  nonces: map<Identifier, SigningNonces>, coins: Identifier -> ProverCoins,
                                  a: Identifier, b: Identifier): (ev: Evidence)
    requires a in kps && b in kps && a in nonces
    ensures ev.pkg == pkg && ev.pk == pk
    ensures ev.shares == MisfiledShares(C, pkg, pk.verifyingKey, kps, nonces, a, b)
    ensures ev.messages == MisfiledMessages(C, pkg, pk, kps, ev.shares, coins, a, b)
    ensures ev.decisions == ExpectedDecisions(pkg, kps, ev.messages)
  {
    hide ExpectedDecisions, MisfiledShares, MisfiledMessages;
    var shares := MisfiledShares(C, pkg, pk.verifyingKey, kps, nonces, a, b);
    var messages := MisfiledMessages(C, pkg, pk, kps, shares, coins, a, b);
    Evidence(pkg, pk, shares, messages, ExpectedDecisions(pkg, kps, messages))
  }

  /** a and b are two signers of an equipped session. */
  ghost predicate TwoSigners(C: Suite, pkg: SigningPackage, pk: PublicKeyPackage, kps: map<Identifier, KeyPackage>,
                             nonces: map<Identifier, SigningNonces>, a: Identifier, b: Identifier)
  {
    && SessionEquipped(C, pkg, pk, kps, nonces)
    && a in pkg.signingCommitments && b in pkg.signingCommitments && a != b
    && forall i :: i in pkg.signingCommitments ==> i in kps && i in nonces && kps[i].identifier == i
  }

  lemma MisfiledEntry(C: Suite, pkg: SigningPackage, pk: PublicKeyPackage, kps: map<Identifier, KeyPackage>,
                      nonces: map<Identifier, SigningNonces>, coins: Identifier -> ProverCoins, a: Identifier,
                      b: Identifier, i: Identifier)
    requires TwoSigners(C, pkg, pk, kps, nonces, a, b) && i in pkg.signingCommitments
    ensures var ev := MisfiledEvidence(C, pkg, pk, kps, nonces, coins, a, b);
            && i in ev.shares && i in ev.messages && i in ev.decisions
            && ev.decisions[i] == IA2Decision(i, OpenedKeys(kps[i], ev.messages, Ids(pkg)))
            && if i == b
               then
                 && ev.shares[b] == ShiftedShare(C, pk.verifyingKey, pkg, MixedPackage(kps[a], kps[b]), nonces[a], 0)
                 && ev.messages[b]
                      == MisfiledMessage(C, pkg, pk, kps[a], kps[b], ev.shares[b], ev.shares, coins(b))
               else
                 && ev.shares[i] == ShiftedShare(C, pk.verifyingKey, pkg, kps[i], nonces[i], 0)
                 && ev.messages[i] == HonestMessage(C, pkg, ev.shares[i], kps[i], pk, ev.shares, coins(i))
  {
    hide HonestMessage, MisfiledMessage, ShiftedShare, SessionEquipped, OpenedKeys, MixedPackage, MisfiledEvidence;
  }

  lemma CoverAt(C: Suite, pkg: SigningPackage, pk: PublicKeyPackage, kp: KeyPackage,
                shares: map<Identifier, SignatureShare>, commitments: map<Identifier, Point>, j: Identifier)
    requires CoversPeers(C, pkg, pk, kp, shares, commitments) && j in Ids(pkg) && j != kp.identifier
    ensures j in commitments
    ensures commitments[j] == KeyedCommitment(C, pkg, shares, pk.pedersenH, PairwiseKey(kp, j))
  {
    hide KeyedCommitment;
    assert j in PeersOf(Ids(pkg), kp.identifier);
  }

  lemma MisfiledCover(C: Suite, pkg: SigningPackage, pk: PublicKeyPackage, a: KeyPackage, b: KeyPackage,
                      shares: map<Identifier, SignatureShare>)
    ensures CoversPeers(C, pkg, pk, MixedPackage(a, b), shares, MisfiledCommitments(C, pkg, pk, a, b, shares))
  {
    hide KeyedCommitment, BlindingCommitmentsOf;
    OwnCommitmentsCover(C, pkg, pk, MixedPackage(a, b), shares);
  }

  /** Under b, decide finds what b would have committed to. */
  lemma MisfiledCommitsAsB(C: Suite, pkg: SigningPackage, pk: PublicKeyPackage, a: KeyPackage, b: KeyPackage,
                           shares: map<Identifier, SignatureShare>, j: Identifier)
    requires j in Ids(pkg) && j != b.identifier && j in b.pairwiseKeys
    ensures var commitments := MisfiledCommitments(C, pkg, pk, a, b, shares);
            j in commitments
            && commitments[j] == KeyedCommitment(C, pkg, shares, pk.pedersenH, PairwiseKey(b, j))
  {
    hide KeyedCommitment, BlindingCommitmentsOf, CoversPeers;
    OwnCommitmentsCover(C, pkg, pk, MixedPackage(a, b), shares);
    if j != a.identifier {
      CoverAt(C, pkg, pk, MixedPackage(a, b), shares,
              BlindingCommitmentsOf(C, pkg, MixedPackage(a, b), shares, pk.pedersenH), j);
    }
  }

  /** Every map key holds the commitments that its own signer would have made. */
  lemma MisfiledRunCommits(C: Suite, pkg: SigningPackage, pk: PublicKeyPackage, kps: map<Identifier, KeyPackage>,
                           nonces: map<Identifier, SigningNonces>, coins: Identifier -> ProverCoins, a: Identifier,
                           b: Identifier, i: Identifier, j: Identifier)
    requires TwoSigners(C, pkg, pk, kps, nonces, a, b) && i in Ids(pkg) && j in Ids(pkg) && i != j
    ensures var ev := MisfiledEvidence(C, pkg, pk, kps, nonces, coins, a, b);
            HasCommitment(ev.messages, i, j)
            && ev.messages[i].blindingCommitments[j]
                 == KeyedCommitment(C, pkg, ev.shares, pk.pedersenH, PairwiseKey(kps[i], j))
  {
    hide KeyedCommitment, BlindingCommitmentsOf, MisfiledCommitments, MisfiledMessage, MisfiledEvidence, MessageWith,
         ShiftedShare, CoversPeers, RecordMatches, PairwiseKey;
    var ev := MisfiledEvidence(C, pkg, pk, kps, nonces, coins, a, b);
    MisfiledEntry(C, pkg, pk, kps, nonces, coins, a, b, i);
    if i == b {
      MisfiledCommitsAsB(C, pkg, pk, kps[a], kps[b], ev.shares, j);
    } else {
      OwnCommitmentsCover(C, pkg, pk, kps[i], ev.shares);
      CoverAt(C, pkg, pk, kps[i], ev.shares, BlindingCommitmentsOf(C, pkg, kps[i], ev.shares, pk.pedersenH), j);
    }
  }

  lemma MisfiledRunAgrees(C: Suite, pkg: SigningPackage, pk: PublicKeyPackage, kps: map<Identifier, KeyPackage>,
                          nonces: map<Identifier, SigningNonces>, coins: Identifier -> ProverCoins, a: Identifier,
                          b: Identifier)
    requires TwoSigners(C, pkg, pk, kps, nonces, a, b)
    ensures var ev := MisfiledEvidence(C, pkg, pk, kps, nonces, coins, a, b);
            forall i, j :: i in Ids(pkg) && j in Ids(pkg) && i != j ==> Agree(ev.messages, i, j)
  {
    hide KeyedCommitment, MisfiledEvidence, RecordMatches, MixedPackage;
    var ev := MisfiledEvidence(C, pkg, pk, kps, nonces, coins, a, b);
    forall i, j | i in Ids(pkg) && j in Ids(pkg) && i != j
      ensures Agree(ev.messages, i, j)
    {
      MisfiledRunCommits(C, pkg, pk, kps, nonces, coins, a, b, i, j);
      MisfiledRunCommits(C, pkg, pk, kps, nonces, coins, a, b, j, i);
      assert PairwiseKey(kps[i], j) == PairwiseKey(kps[j], i);
    }
  }

  /** The proof under b is about the second share of a, and is accepted like all the others. */
  lemma MisfiledProofsAccepted(C: Suite, pkg: SigningPackage, pk: PublicKeyPackage, kps: map<Identifier, KeyPackage>,
                               nonces: map<Identifier, SigningNonces>, coins: Identifier -> ProverCoins, a: Identifier,
                               b: Identifier, i: Identifier)
    requires TwoSigners(C, pkg, pk, kps, nonces, a, b) && i in pkg.signingCommitments
    ensures !ProofFails(C, MisfiledEvidence(C, pkg, pk, kps, nonces, coins, a, b), i)
  {
    hide Add, Mul, HonestResponse, SigChallenge, SessionEquipped, Equipped, MessageWith, ProofAccepted,
         ChallengeOfMessage, CoversPeers, MisfiledCommitments, MisfiledEvidence, PackageNonce, BlindingCommitmentsOf;
    var ev := MisfiledEvidence(C, pkg, pk, kps, nonces, coins, a, b);
    MisfiledEntry(C, pkg, pk, kps, nonces, coins, a, b, i);
    MulZero(ChallengeOfMessage(C, pkg, ev.shares[i], ev.messages[i], pk));
    if i == b {
      SignerEquipped(C, pkg, pk, kps, nonces, a);
      EquippedIsCertified(C, pkg, pk, kps[a], nonces[a]);
      MisfiledCover(C, pkg, pk, kps[a], kps[b], ev.shares);
      ProofWithExtrasAcceptedIff(C, pkg, pk, MixedPackage(kps[a], kps[b]), nonces[a], ev.shares[b], ev.shares,
                                 MisfiledCommitments(C, pkg, pk, kps[a], kps[b], ev.shares), coins(b), 0);
    } else {
      SignerEquipped(C, pkg, pk, kps, nonces, i);
      EquippedIsCertified(C, pkg, pk, kps[i], nonces[i]);
      HonestProofAcceptedIff(C, pkg, pk, kps[i], nonces[i], ev.shares[i], ev.shares, coins(i), 0);
    }
  }

  lemma MisfiledIsNotNamed(C: Suite, pkg: SigningPackage, pk: PublicKeyPackage, kps: map<Identifier, KeyPackage>,
                           nonces: map<Identifier, SigningNonces>, coins: Identifier -> ProverCoins, a: Identifier,
                           b: Identifier, x: Identifier)
    requires TwoSigners(C, pkg, pk, kps, nonces, a, b)
    ensures !Blamed(C, MisfiledEvidence(C, pkg, pk, kps, nonces, coins, a, b), x)
  {
    hide MisfiledShares, SessionEquipped, Agree, Blamed, ProofFails, Opened, Ascending, Distinct;
    var ev := MisfiledEvidence(C, pkg, pk, kps, nonces, coins, a, b);
    MisfiledRunAgrees(C, pkg, pk, kps, nonces, coins, a, b);
    assert forall i, p :: !Opened(ev.decisions, i, p) by {
      hide MisfiledEvidence;
      ExpectNoOpenings(ev, kps);
    }
    hide MisfiledEvidence;
    OnlyProofsCount(C, ev, x);
    if x in Ids(pkg) {
      MisfiledProofsAccepted(C, pkg, pk, kps, nonces, coins, a, b, x);
    }
  }

  lemma ExpectNoOpenings(ev: Evidence, kps: map<Identifier, KeyPackage>)
    requires ev.decisions == ExpectedDecisions(ev.pkg, kps, ev.messages)
    requires forall i :: i in ev.pkg.signingCommitments ==> i in kps && kps[i].identifier == i
    requires forall i, j :: i in Ids(ev.pkg) && j in Ids(ev.pkg) && i != j ==> Agree(ev.messages, i, j)
    ensures forall i, j :: !Opened(ev.decisions, i, j)
    ensures forall i :: i in ev.pkg.signingCommitments ==> FirstPeerError(kps[i], ev.messages, Ids(ev.pkg)).None?
  {
    hide Agree, OpenedKeys, FirstPeerError;
    forall i | i in ev.pkg.signingCommitments
      ensures FirstPeerError(kps[i], ev.messages, Ids(ev.pkg)).None?
      ensures OpenedKeys(kps[i], ev.messages, Ids(ev.pkg)) == map[]
    {
      AgreementOpensNothing(kps[i], ev.messages, Ids(ev.pkg));
    }
  }

  lemma MisfiledRoundTwo(C: Suite, pkg: SigningPackage, pk: PublicKeyPackage, kps: map<Identifier, KeyPackage>,
                         nonces: map<Identifier, SigningNonces>, coins: Identifier -> ProverCoins, a: Identifier,
                         b: Identifier, i: Identifier)
    requires TwoSigners(C, pkg, pk, kps, nonces, a, b) && i in pkg.signingCommitments
    ensures var ev := MisfiledEvidence(C, pkg, pk, kps, nonces, coins, a, b);
            i in ev.decisions && Ia2Of(kps[i], pkg, ev.messages) == Ok(ev.decisions[i])
  {
    hide SessionEquipped, HonestMessage, FirstPeerError, OpenedKeys, Agree, MisfiledMessage, MixedPackage,
         ShiftedShare, Opened, MisfiledEvidence;
    MisfiledEntry(C, pkg, pk, kps, nonces, coins, a, b, i);
    MisfiledRunAgrees(C, pkg, pk, kps, nonces, coins, a, b);
    ExpectNoOpenings(MisfiledEvidence(C, pkg, pk, kps, nonces, coins, a, b), kps);
  }

  /** All signers but b are honest in both rounds. */
  lemma OthersAreHonest(C: Suite, pkg: SigningPackage, pk: PublicKeyPackage, kps: map<Identifier, KeyPackage>,
                        nonces: map<Identifier, SigningNonces>, coins: Identifier -> ProverCoins, a: Identifier,
                        b: Identifier, i: Identifier)
    requires TwoSigners(C, pkg, pk, kps, nonces, a, b) && i in pkg.signingCommitments && i != b
    ensures Honest(C, MisfiledEvidence(C, pkg, pk, kps, nonces, coins, a, b), kps[i], nonces[i], coins(i))
  {
    hide SessionEquipped, HonestMessage, ShareOf, RecordMatches, FirstMissingKey, OpenedKeys, MisfiledMessage,
         MixedPackage, HonestResponse, SigChallenge, PackageNonce, KnowsOwnNonce, MisfiledEvidence, Ia2Of;
    MisfiledEntry(C, pkg, pk, kps, nonces, coins, a, b, i);
    MisfiledRoundTwo(C, pkg, pk, kps, nonces, coins, a, b, i);
    SignerEquipped(C, pkg, pk, kps, nonces, i);
    HonestSign(C, pk.verifyingKey, pkg, kps[i], nonces[i]);
  }

  /** The second response of a, and the one that b would have had. */
  ghost function MisfiledResponse(C: Suite, vk: Point, pkg: SigningPackage, kps: map<Identifier, KeyPackage>,
                                  nonces: map<Identifier, SigningNonces>, a: Identifier, b: Identifier): Scalar
    requires a in kps && b in kps && a in nonces
  {
    HonestResponse(C, vk, pkg, MixedPackage(kps[a], kps[b]), nonces[a], SigChallenge(C, vk, pkg))
  }

  ghost function ReplacedResponse(C: Suite, vk: Point, pkg: SigningPackage, kps: map<Identifier, KeyPackage>,
                                  nonces: map<Identifier, SigningNonces>, b: Identifier): Scalar
    requires b in kps && b in nonces
  {
    HonestResponse(C, vk, pkg, kps[b], nonces[b], SigChallenge(C, vk, pkg))
  }

  function OnlyAt(b: Identifier, d: Scalar): Identifier -> Scalar {
    (i: Identifier) => if i == b then d else 0
  }

  lemma AddDifference(x: Scalar, y: Scalar)
    ensures x == Add(y, Sub(x, y))
  {
    hide Mod, Add, Sub;
    Lift();
    Rep(x); Rep(y);
  }

  /** The responses are off from the honest ones by the difference of the two. */
  lemma MisfiledSum(C: Suite, pkg: SigningPackage, pk: PublicKeyPackage, kps: map<Identifier, KeyPackage>,
                    nonces: map<Identifier, SigningNonces>, a: Identifier, b: Identifier)
    requires TwoSigners(C, pkg, pk, kps, nonces, a, b)
    ensures var vk := pk.verifyingKey;
            Sum(Ids(pkg), Responses(MisfiledShares(C, pkg, vk, kps, nonces, a, b)))
              == Add(Sum(Ids(pkg), HonestResponses(C, vk, pkg, kps, nonces)),
                     Sub(MisfiledResponse(C, vk, pkg, kps, nonces, a, b),
                         ReplacedResponse(C, vk, pkg, kps, nonces, b)))
  {
    hide SessionEquipped, HonestResponse, SigChallenge, PackageNonce, MixedPackage, Add, Sub, Sum;
    var vk, ids := pk.verifyingKey, Ids(pkg);
    var z, z' := MisfiledResponse(C, vk, pkg, kps, nonces, a, b), ReplacedResponse(C, vk, pkg, kps, nonces, b);
    var responses, honest := Responses(MisfiledShares(C, pkg, vk, kps, nonces, a, b)),
                             HonestResponses(C, vk, pkg, kps, nonces);
    var errors := OnlyAt(b, Sub(z, z'));
    forall i | i in ids
      ensures responses(i) == Add(honest(i), errors(i))
    {
      AddZero(z);
      AddZero(honest(i));
      AddDifference(z, z');
    }
    SumAdd(ids, responses, honest, errors);
    SumSingle(ids, errors, b);
  }

  /**
    From every equipped session and every two signers a and b in it: the share under b is a second share of a, blinded
    with the keys of b.  All shares carry the package nonce, everybody but b is honest, nobody is named, and the
    aggregate verifies exactly when the second response of a happens to be the response of b.
  */
  lemma MisfiledShareRun(C: Suite, pkg: SigningPackage, pk: PublicKeyPackage, kps: map<Identifier, KeyPackage>,
                         nonces: map<Identifier, SigningNonces>, coins: Identifier -> ProverCoins, a: Identifier,
                         b: Identifier) returns (ev: Evidence, sig: Signature)
    requires C.variant.Secp256k1Bip340? ==> CurveLaws(C)
    requires PackageDefined(C, pk.verifyingKey, pkg) && SharesOf(kps, pkg, pk.verifyingKey)
    requires TwoSigners(C, pkg, pk, kps, nonces, a, b)
    ensures ev.pkg == pkg && ev.pk == pk && ev.shares.Keys == pkg.signingCommitments.Keys
    ensures ev.shares[b].identifier == a && forall x :: !Blamed(C, ev, x)
    ensures forall i :: i in pkg.signingCommitments && i != b ==> Honest(C, ev, kps[i], nonces[i], coins(i))
    ensures AggregatesTo(pkg, ev.shares, sig) && sig.R == PackageNonce(C, pk.verifyingKey, pkg)
    ensures VerifyDefined(C, sig, pk)
    ensures Verify(C, sig, pkg.message, pk)
        <==> MisfiledResponse(C, pk.verifyingKey, pkg, kps, nonces, a, b)
             == ReplacedResponse(C, pk.verifyingKey, pkg, kps, nonces, b)
  {
    hide CurveLaws, PackageDefined, SessionEquipped, SharesOf, Verify, VerifyDefined, Blamed, Honest, AggregatesTo,
         MisfiledEvidence, MisfiledResponse, ReplacedResponse;
    ev := MisfiledEvidence(C, pkg, pk, kps, nonces, coins, a, b);
    forall x
      ensures !Blamed(C, ev, x)
    {
      MisfiledIsNotNamed(C, pkg, pk, kps, nonces, coins, a, b, x);
    }
    forall i | i in pkg.signingCommitments && i != b
      ensures Honest(C, ev, kps[i], nonces[i], coins(i))
    {
      OthersAreHonest(C, pkg, pk, kps, nonces, coins, a, b, i);
    }
    sig := MisfiledAggregate(C, pkg, pk, kps, nonces, a, b);
    MisfiledVerifiesIff(C, pkg, pk, kps, nonces, a, b, sig);
  }

  lemma MisfiledAggregate(C: Suite, pkg: SigningPackage, pk: PublicKeyPackage, kps: map<Identifier, KeyPackage>,
                          nonces: map<Identifier, SigningNonces>, a: Identifier, b: Identifier)
    returns (sig: Signature)
    requires TwoSigners(C, pkg, pk, kps, nonces, a, b)
    ensures var shares := MisfiledShares(C, pkg, pk.verifyingKey, kps, nonces, a, b);
            && shares.Keys == pkg.signingCommitments.Keys && shares[b].identifier == a
            && AggregatesTo(pkg, shares, sig)
            && sig == Signature(PackageNonce(C, pk.verifyingKey, pkg), Sum(Ids(pkg), Responses(shares)))
  {
    hide SessionEquipped, HonestResponse, SigChallenge, PackageNonce, Add;
    var shares := MisfiledShares(C, pkg, pk.verifyingKey, kps, nonces, a, b);
    assert shares.Keys == pkg.signingCommitments.Keys;
    assert |shares| == |shares.Keys| && |pkg.signingCommitments| == |pkg.signingCommitments.Keys|;
    sig := Signature(PackageNonce(C, pk.verifyingKey, pkg), Sum(Ids(pkg), Responses(shares)));
  }

  lemma MisfiledVerifiesIff(C: Suite, pkg: SigningPackage, pk: PublicKeyPackage, kps: map<Identifier, KeyPackage>,
                            nonces: map<Identifier, SigningNonces>, a: Identifier, b: Identifier, sig: Signature)
    requires C.variant.Secp256k1Bip340? ==> CurveLaws(C)
    requires PackageDefined(C, pk.verifyingKey, pkg) && SharesOf(kps, pkg, pk.verifyingKey)
    requires TwoSigners(C, pkg, pk, kps, nonces, a, b)
    requires sig == Signature(PackageNonce(C, pk.verifyingKey, pkg),
                              Sum(Ids(pkg), Responses(MisfiledShares(C, pkg, pk.verifyingKey, kps, nonces, a, b))))
    ensures VerifyDefined(C, sig, pk)
    ensures Verify(C, sig, pkg.message, pk)
        <==> MisfiledResponse(C, pk.verifyingKey, pkg, kps, nonces, a, b)
             == ReplacedResponse(C, pk.verifyingKey, pkg, kps, nonces, b)
  {
    hide CurveLaws, PackageDefined, SessionEquipped, KeysShared, SharedSecret, Verify, VerifyDefined, PackageNonce,
         SigChallenge, HonestResponses, MisfiledShares, MisfiledResponse, ReplacedResponse, Add, Sub, Mul;
    var vk, ids := pk.verifyingKey, Ids(pkg);
    var z, z' := MisfiledResponse(C, vk, pkg, kps, nonces, a, b), ReplacedResponse(C, vk, pkg, kps, nonces, b);
    MisfiledSum(C, pkg, pk, kps, nonces, a, b);
    SessionSums(C, pkg, pk, kps, nonces);
    SubZeroIffEqual(z, z');
    VerifiesIffNoOffset(C, pk, pkg, SharedSecret(kps, ids), sig.z, Sub(z, z'));
  }

  /** Under the example suite a response is the first nonce alone, so verify rejects when those of a and b differ. */
  lemma RejectedWhenNoncesDiffer(pkg: SigningPackage, pk: PublicKeyPackage, kps: map<Identifier, KeyPackage>,
                                 nonces: map<Identifier, SigningNonces>, coins: Identifier -> ProverCoins,
                                 a: Identifier, b: Identifier) returns (ev: Evidence, sig: Signature)
    requires SharesOf(kps, pkg, pk.verifyingKey)
    requires TwoSigners(Example(Secp256k1Plain), pkg, pk, kps, nonces, a, b) && nonces[a].d != nonces[b].d
    ensures ev.pkg == pkg && ev.pk == pk && ev.shares.Keys == pkg.signingCommitments.Keys
    ensures ev.shares[b].identifier == a && forall x :: !Blamed(Example(Secp256k1Plain), ev, x)
    ensures AggregatesTo(pkg, ev.shares, sig) && sig.R == PackageNonce(Example(Secp256k1Plain), pk.verifyingKey, pkg)
    ensures VerifyDefined(Example(Secp256k1Plain), sig, pk) && !Verify(Example(Secp256k1Plain), sig, pkg.message, pk)
  {
    hide SessionEquipped, SharesOf, Verify, VerifyDefined, Blamed, AggregatesTo, PackageNonce, HonestResponse, Honest,
         MixedPackage;
    ev, sig := MisfiledShareRun(Example(Secp256k1Plain), pkg, pk, kps, nonces, coins, a, b);
    ExampleResponse(pk.verifyingKey, pkg, MixedPackage(kps[a], kps[b]), nonces[a]);
    ExampleResponse(pk.verifyingKey, pkg, kps[b], nonces[b]);
  }

  lemma PackageForSigners(signers: set<Identifier>, nonces: map<Identifier, SigningNonces>, message: Bytes32)
    requires signers <= nonces.Keys
    ensures var pkg := PackageFor(signers, nonces, message);
            NoncesMatch(pkg, nonces) && pkg.signingCommitments.Keys == signers
            && |pkg.signingCommitments| == |signers|
  {
    var pkg := PackageFor(signers, nonces, message);
    assert pkg.signingCommitments.Keys == signers;
  }

  lemma ExampleDefined(vk: Point, pkg: SigningPackage)
    ensures PackageDefined(Example(Secp256k1Plain), vk, pkg)
  {
    hide RawNonce;
  }

  /** Two dealt signers with the first nonces 1 and 2: such a session that verify rejects. */
  lemma RejectedMisfiledRun(secretKey: Scalar, dealerCoins: DealerCoins, message: Bytes32,
                            coins: Identifier -> ProverCoins) returns (ev: Evidence, sig: Signature)
    requires CoinsFit(dealerCoins, 2)
    ensures ev.pk == DealtPublicKeys(Example(Secp256k1Plain), secretKey, 2, 2, dealerCoins)
    ensures ev.pkg.signingCommitments.Keys == ev.shares.Keys == {1, 2} && ev.shares[2].identifier == 1
    ensures forall x :: !Blamed(Example(Secp256k1Plain), ev, x)
    ensures AggregatesTo(ev.pkg, ev.shares, sig)
    ensures sig.R == PackageNonce(Example(Secp256k1Plain), ev.pk.verifyingKey, ev.pkg)
    ensures && VerifyDefined(Example(Secp256k1Plain), sig, ev.pk)
            && !Verify(Example(Secp256k1Plain), sig, ev.pkg.message, ev.pk)
  {
    hide DealtShares, DealtPublicKeys, SessionEquipped, SharesOf, Verify, VerifyDefined, Blamed, AggregatesTo,
         PackageNonce, NoncesMatch, PackageFor, Example;
    var C, nonces := Example(Secp256k1Plain), map[1 := SigningNonces(1, 0), 2 := SigningNonces(2, 0)];
    var pkg := PackageFor({1, 2}, nonces, message);
    PackageForSigners({1, 2}, nonces, message);
    var kps, pk := DealtShares(C, secretKey, 2, dealerCoins), DealtPublicKeys(C, secretKey, 2, 2, dealerCoins);
    assert PackageDefined(C, pk.verifyingKey, pkg) by { ExampleDefined(pk.verifyingKey, pkg); }
    DealtIsEquipped(C, secretKey, 2, 2, dealerCoins, pkg, nonces);
    EquippedHas(C, pkg, pk, kps, nonces);
    ev, sig := RejectedWhenNoncesDiffer(pkg, pk, kps, nonces, coins, 1, 2);
  }
}
