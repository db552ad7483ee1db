/** Whole sessions, from the dealer to the verdict, as the protocol tests of the crate run them. */
module Session {
  import opened Wrappers
  import opened PrimeField
  import opened Sums
  import opened Ciphersuites
  import opened Wire
  import opened Hashing
  import opened Signing
  import opened Keygen
  import opened Sigma
  import opened IdentifiableAbort
  import opened Accountability
  import opened NonFraming
  import opened Taproot
  import opened EndToEnd

  /** The package of a session: the message and everybody's nonce commitments. */
  function PackageFor(signers: set<Identifier>, nonces: map<Identifier, SigningNonces>, message: Bytes32)
    : SigningPackage
    requires signers <= nonces.Keys
  {
    SigningPackage(message,
        map i | i in signers :: SigningCommitments(MulGenerator(nonces[i].d), MulGenerator(nonces[i].e)))
  }

  /** Round one of signing: everybody commits to its nonces. */
  method CommitAll(signers: set<Identifier>, nonces: map<Identifier, SigningNonces>, message: Bytes32)
    returns (pkg: SigningPackage)
    requires signers <= nonces.Keys
    ensures pkg == PackageFor(signers, nonces, message) && NoncesMatch(pkg, nonces)
  {
    var commitments: map<Identifier, SigningCommitments> := map[];
    var ids := Keys(signers);
    for k := 0 to |ids|
      invariant forall i :: i in commitments <==> i in ids[..k]
      invariant forall i :: i in commitments ==> i in nonces && OwnCommitment(commitments[i], nonces[i])
    {
      TakeStep(ids, k);
      var id := ids[k];
      var own, commitment := Commit(nonces[id].d, nonces[id].e);
      commitments := commitments[id := commitment];
    }
    TakeAll(ids);
    assert forall i :: i in commitments <==> i in signers;
    pkg := SigningPackage(message, commitments);
  }

  /** Adds an error to every response, in place. */
  method Tamper(shares: map<Identifier, SignatureShare>, errors: Identifier -> Scalar)
    returns (r: map<Identifier, SignatureShare>)
    ensures r.Keys == shares.Keys
    ensures forall i :: i in shares ==> r[i] == shares[i].(z := Add(shares[i].z, errors(i)))
  {
    hide Add;
    r := shares;
    var ids := Keys(shares.Keys);
    for k := 0 to |ids|
      invariant r.Keys == shares.Keys
      invariant forall i :: i in shares ==>
        r[i] == if i in ids[..k] then shares[i].(z := Add(shares[i].z, errors(i))) else shares[i]
    {
      TakeStep(ids, k);
      SortedAscends(shares.Keys);
      assert ids[k] !in ids[..k];
      r := r[ids[k] := r[ids[k]].(z := Add(r[ids[k]].z, errors(ids[k])))];
    }
    TakeAll(ids);
  }

  /** The first identifiable-abort round of all signers. */
  method RoundOne(C: Suite, pkg: SigningPackage, shares: map<Identifier, SignatureShare>,
                  kps: map<Identifier, KeyPackage>, pk: PublicKeyPackage, coins: Identifier -> ProverCoins)
    returns (messages: map<Identifier, IA1Message>)
    requires PackageDefined(C, pk.verifyingKey, pkg) && KeysShared(kps, Ids(pkg))
    requires forall i :: i in Ids(pkg) ==> i in shares && shares[i].identifier == i
    ensures messages.Keys == pkg.signingCommitments.Keys
    ensures forall i :: i in messages ==>
              i in kps && i in shares && messages[i] == HonestMessage(C, pkg, shares[i], kps[i], pk, shares, coins(i))
  {
    hide PackageDefined, HonestMessage, FirstMissingKey, KeysShared;
    messages := map[];
    var ids := SignerIds(pkg);
    for k := 0 to |ids|
      invariant forall i :: i in messages <==> i in ids[..k]
      invariant forall i :: i in messages ==>
        i in kps && i in shares && messages[i] == HonestMessage(C, pkg, shares[i], kps[i], pk, shares, coins(i))
    {
      TakeStep(ids, k);
      var id := ids[k];
      SharedPackage(kps, ids, id);
      NoMissingKey(kps, ids, id);
      var message := Ia1(C, pkg, shares[id], kps[id], pk, shares, coins(id));
      messages := messages[id := message.value];
    }
    TakeAll(ids);
    assert forall i :: i in messages <==> i in pkg.signingCommitments;
  }

  /** The second identifiable-abort round of all signers. */
  method RoundTwo(pkg: SigningPackage, kps: map<Identifier, KeyPackage>, messages: map<Identifier, IA1Message>)
    returns (decisions: map<Identifier, IA2Decision>)
    requires forall i :: i in Ids(pkg) ==> i in kps && Ia2Of(kps[i], pkg, messages).Ok?
    ensures decisions.Keys == pkg.signingCommitments.Keys
    ensures forall i :: i in decisions ==> i in kps && Ok(decisions[i]) == Ia2Of(kps[i], pkg, messages)
  {
    hide Ia2Of;
    decisions := map[];
    var ids := SignerIds(pkg);
    for k := 0 to |ids|
      invariant forall i :: i in decisions <==> i in ids[..k]
      invariant forall i :: i in decisions ==> i in kps && Ok(decisions[i]) == Ia2Of(kps[i], pkg, messages)
    {
      TakeStep(ids, k);
      var id := ids[k];
      var decision := Ia2(kps[id], pkg, messages);
      decisions := decisions[id := decision.value];
    }
    TakeAll(ids);
    assert forall i :: i in decisions <==> i in pkg.signingCommitments;
  }

  // ---------- the rounds follow the protocol ----------

  ghost predicate Tampered(shares: map<Identifier, SignatureShare>, honest: map<Identifier, SignatureShare>,
                           errors: Identifier -> Scalar)
  {
    && shares.Keys == honest.Keys
    && forall i :: i in honest ==> shares[i] == honest[i].(z := Add(honest[i].z, errors(i)))
  }

  lemma TamperedShares(C: Suite, vk: Point, pkg: SigningPackage, kps: map<Identifier, KeyPackage>,
                       nonces: map<Identifier, SigningNonces>, honest: map<Identifier, SignatureShare>,
                       errors: Identifier -> Scalar, shares: map<Identifier, SignatureShare>)
    requires ShiftedShares(C, vk, pkg, kps, nonces, Zero(), honest) && Tampered(shares, honest, errors)
    ensures ShiftedShares(C, vk, pkg, kps, nonces, errors, shares)
  {
    hide Add, HonestResponse, SigChallenge, PackageNonce;
    forall i | i in pkg.signingCommitments
      ensures i in kps && i in nonces && shares[i] == ShiftedShare(C, vk, pkg, kps[i], nonces[i], errors(i))
    {
      AddZero(HonestResponse(C, vk, pkg, kps[i], nonces[i], SigChallenge(C, vk, pkg)));
    }
  }

  /** Evidence in which the second round is still to come: the decisions that it is going to produce. */
  ghost function ExpectedDecisions(pkg: SigningPackage, kps: map<Identifier, KeyPackage>,
                                   messages: map<Identifier, IA1Message>)
    : map<Identifier, IA2Decision>
  {
    map i | i in pkg.signingCommitments && i in kps :: IA2Decision(i, OpenedKeys(kps[i], messages, Ids(pkg)))
  }

  ghost predicate RoundOneDone(C: Suite, pkg: SigningPackage, pk: PublicKeyPackage, kps: map<Identifier, KeyPackage>,
                               shares: map<Identifier, SignatureShare>, messages: map<Identifier, IA1Message>,
                               coins: Identifier -> ProverCoins)
  {
    forall i :: i in pkg.signingCommitments ==>
      && i in kps && i in shares && i in messages && kps[i].identifier == i
      && messages[i] == HonestMessage(C, pkg, shares[i], kps[i], pk, shares, coins(i))
  }

  lemma RoundsFollow(C: Suite, ev: Evidence, kps: map<Identifier, KeyPackage>, nonces: map<Identifier, SigningNonces>,
                     errors: Identifier -> Scalar, coins: Identifier -> ProverCoins)
    requires SessionEquipped(C, ev.pkg, ev.pk, kps, nonces)
    requires ShiftedShares(C, ev.pk.verifyingKey, ev.pkg, kps, nonces, errors, ev.shares)
    requires RoundOneDone(C, ev.pkg, ev.pk, kps, ev.shares, ev.messages, coins)
    requires ev.decisions == ExpectedDecisions(ev.pkg, kps, ev.messages)
    ensures FollowsProtocol(C, ev, kps, nonces, errors, coins)
  {
    hide SessionEquipped, HonestMessage, OpenedKeys, HonestResponse, SigChallenge, PackageNonce, Add;
    assert ev.decisions.Keys == ev.pkg.signingCommitments.Keys;
  }

  /** The second round succeeds for everybody and produces the expected decisions. */
  lemma RoundTwoSucceeds(C: Suite, ev: Evidence, kps: map<Identifier, KeyPackage>,
                         nonces: map<Identifier, SigningNonces>, errors: Identifier -> Scalar,
                         coins: Identifier -> ProverCoins)
    requires FollowsProtocol(C, ev, kps, nonces, errors, coins)
    ensures forall i :: i in Ids(ev.pkg) ==>
              i in kps && i in ev.decisions && Ia2Of(kps[i], ev.pkg, ev.messages) == Ok(ev.decisions[i])
  {
    hide FollowsProtocol, Ia1Of, Ia2Of;
    forall i | i in Ids(ev.pkg)
      ensures i in kps && i in ev.decisions && Ia2Of(kps[i], ev.pkg, ev.messages) == Ok(ev.decisions[i])
    {
      SessionRoundsSucceed(C, ev, kps, nonces, errors, coins, i);
    }
  }

  ghost predicate Equipment(C: Suite, pkg: SigningPackage, pk: PublicKeyPackage, kps: map<Identifier, KeyPackage>,
                            nonces: map<Identifier, SigningNonces>)
  {
    SessionEquipped(C, pkg, pk, kps, nonces) && SharesOf(kps, pkg, pk.verifyingKey)
  }

  /** Signing with errors, and aggregation: all signers succeed and the shares carry exactly the errors. */
  method SignWithErrors(C: Suite, pkg: SigningPackage, nonces: map<Identifier, SigningNonces>,
                        kps: map<Identifier, KeyPackage>, pk: PublicKeyPackage, errors: Identifier -> Scalar)
    returns (shares: map<Identifier, SignatureShare>, accepted: bool)
    requires C.variant.Secp256k1Bip340? ==> CurveLaws(C)
    requires PackageDefined(C, pk.verifyingKey, pkg) && Equipment(C, pkg, pk, kps, nonces)
    requires |pkg.signingCommitments| > 0
    ensures ShiftedShares(C, pk.verifyingKey, pkg, kps, nonces, errors, shares)
    ensures accepted <==> Sum(Ids(pkg), errors) == 0
  {
    hide PackageDefined, KeysShared, SharedSecret, RecordMatches, NoncesMatch, ShiftedShares, ShiftedShare,
         PackageNonce, Verify,
         VerifyDefined, Sum, CurveLaws;
    var honest := SignAll(C, pkg, nonces, kps, pk);
    shares := Tamper(honest, errors);
    TamperedShares(C, pk.verifyingKey, pkg, kps, nonces, honest, errors, shares);
    SessionVerifiesIff(C, pk, pkg, kps, nonces, errors, shares);
    var aggregated := Aggregate(pkg, shares);
    SharesAggregate(C, pk.verifyingKey, pkg, kps, nonces, errors, shares);
    var sig := aggregated.value;
    AggregateShape(pkg, shares, sig, PackageNonce(C, pk.verifyingKey, pkg));
    accepted := Verify(C, sig, pkg.message, pk);
  }

  lemma SharesAggregate(C: Suite, vk: Point, pkg: SigningPackage, kps: map<Identifier, KeyPackage>,
                        nonces: map<Identifier, SigningNonces>, errors: Identifier -> Scalar,
                        shares: map<Identifier, SignatureShare>)
    requires ShiftedShares(C, vk, pkg, kps, nonces, errors, shares) && |pkg.signingCommitments| > 0
    ensures |shares| == |pkg.signingCommitments| && OneNonce(shares)
    ensures forall i :: i in shares ==>
              i in kps && shares[i].identifier == kps[i].identifier && shares[i].R == PackageNonce(C, vk, pkg)
  {
    hide HonestResponse, SigChallenge, PackageNonce, Add;
    assert |shares.Keys| == |pkg.signingCommitments.Keys|;
  }

  /** Both identifiable-abort rounds and the verdict, on shares that carry the errors. */
  method AbortRounds(C: Suite, pkg: SigningPackage, pk: PublicKeyPackage, kps: map<Identifier, KeyPackage>,
                     ghost nonces: map<Identifier, SigningNonces>, ghost errors: Identifier -> Scalar,
                     shares: map<Identifier, SignatureShare>, coins: Identifier -> ProverCoins)
    returns (malicious: set<Identifier>, ev: Evidence)
    requires PackageDefined(C, pk.verifyingKey, pkg) && SessionEquipped(C, pkg, pk, kps, nonces)
    requires ShiftedShares(C, pk.verifyingKey, pkg, kps, nonces, errors, shares)
    ensures ev.pkg == pkg && ev.pk == pk && ev.shares == shares && FollowsProtocol(C, ev, kps, nonces, errors, coins)
    ensures forall x :: x in malicious <==> x in pkg.signingCommitments && errors(x) != 0 && NonzeroChallenge(C, ev, x)
  {
    hide PackageDefined, SessionEquipped, KeysShared, ShiftedShares, HonestMessage, FollowsProtocol, Blamed,
         NonzeroChallenge,
         ExpectedDecisions, Ia2Of;
    KeysAreShared(C, pkg, pk, kps, nonces);
    forall i | i in Ids(pkg)
      ensures i in shares && i in kps && kps[i].identifier == i && shares[i].identifier == i
    {
      SharedPackage(kps, Ids(pkg), i);
      ShiftedIdentifier(C, pk.verifyingKey, pkg, kps, nonces, errors, shares, i);
    }
    var messages := RoundOne(C, pkg, shares, kps, pk, coins);
    ghost var expected := Evidence(pkg, pk, shares, messages, ExpectedDecisions(pkg, kps, messages));
    RoundsFollow(C, expected, kps, nonces, errors, coins);
    RoundTwoSucceeds(C, expected, kps, nonces, errors, coins);
    var decisions := RoundTwo(pkg, kps, messages);
    ExpectedKeys(pkg, kps, messages);
    assert decisions == expected.decisions;
    ev := Evidence(pkg, pk, shares, messages, decisions);
    malicious := Decide(C, ev);
    forall x
      ensures x in malicious <==> x in pkg.signingCommitments && errors(x) != 0 && NonzeroChallenge(C, ev, x)
    {
      SessionVerdict(C, ev, kps, nonces, errors, coins, x);
    }
  }

  /**
    A whole session: dealer, nonce commitments, signing, arbitrary errors added to the responses, aggregation,
    verification, both identifiable-abort rounds, and the verdict.  No step fails; the signature is accepted
    exactly when the errors cancel; and the verdict names exactly the signers with an error, except one whose
    Fiat-Shamir challenge happens to be zero.
  */
  method RunSession(C: Suite, secretKey: Scalar, max: Identifier, min: Identifier, dealerCoins: DealerCoins,
                    signers: set<Identifier>, nonces: map<Identifier, SigningNonces>, message: Bytes32,
                    errors: Identifier -> Scalar, coins: Identifier -> ProverCoins)
    returns (accepted: bool, malicious: set<Identifier>, ev: Evidence)
    requires C.variant.Secp256k1Bip340? ==> CurveLaws(C)
    requires min <= max <= 65534 && CoinsFit(dealerCoins, min)
    requires (forall i :: i in signers ==> 1 <= i <= max) && |signers| >= 1 && |signers| >= min
    requires signers <= nonces.Keys
    requires PackageDefined(C, NormalizeKeygen(C, secretKey, MulGenerator(secretKey)).1,
        PackageFor(signers, nonces, message))
    ensures ev.pkg == PackageFor(signers, nonces, message)
    ensures ev.pk == DealtPublicKeys(C, secretKey, max, min, dealerCoins)
    ensures FollowsProtocol(C, ev, DealtShares(C, secretKey, max, dealerCoins), nonces, errors, coins)
    ensures accepted <==> Sum(Sorted(signers), errors) == 0
    ensures forall x :: x in malicious <==> x in signers && errors(x) != 0 && NonzeroChallenge(C, ev, x)
    ensures (forall i :: i in signers ==> errors(i) == 0) ==> accepted && malicious == {}
  {
    hide PackageDefined, SessionEquipped, SharesOf, DealtShares, DealtPublicKeys, NoncesMatch, ShiftedShares,
         FollowsProtocol,
         NonzeroChallenge, CurveLaws, Add, Mul, Neg;
    var kps, pk := GenerateWithDealerFromSecret(C, secretKey, max, min, dealerCoins);
    var pkg := CommitAll(signers, nonces, message);
    assert pkg.signingCommitments.Keys == signers;
    assert |pkg.signingCommitments| == |signers|;
    DealtKey(C, secretKey, max, min, dealerCoins);
    DealtIsEquipped(C, secretKey, max, min, dealerCoins, pkg, nonces);
    var shares;
    shares, accepted := SignWithErrors(C, pkg, nonces, kps, pk, errors);
    malicious, ev := AbortRounds(C, pkg, pk, kps, nonces, errors, shares, coins);
    if forall i :: i in signers ==> errors(i) == 0 {
      SumZero(Ids(pkg), errors);
    }
  }

  lemma DealtKey(C: Suite, secretKey: Scalar, max: Identifier, min: Identifier, coins: DealerCoins)
    ensures DealtPublicKeys(C, secretKey, max, min, coins).verifyingKey
         == NormalizeKeygen(C, secretKey, MulGenerator(secretKey)).1
  {
    hide PartialsAt;
  }

  lemma ShiftedIdentifier(C: Suite, vk: Point, pkg: SigningPackage, kps: map<Identifier, KeyPackage>,
                          nonces: map<Identifier, SigningNonces>, errors: Identifier -> Scalar,
                          shares: map<Identifier, SignatureShare>, i: Identifier)
    requires ShiftedShares(C, vk, pkg, kps, nonces, errors, shares) && i in pkg.signingCommitments
    ensures i in shares && i in kps && shares[i].identifier == kps[i].identifier
  {
    hide HonestResponse, SigChallenge, PackageNonce, Add;
  }

  lemma ExpectedKeys(pkg: SigningPackage, kps: map<Identifier, KeyPackage>, messages: map<Identifier, IA1Message>)
    requires forall i :: i in Ids(pkg) ==> i in kps
    ensures ExpectedDecisions(pkg, kps, messages).Keys == pkg.signingCommitments.Keys
  {
    hide OpenedKeys;
  }

  /** In a session without errors every signer is honest in the sense of the non-framing theorems. */
  lemma SessionSignersAreHonest(C: Suite, ev: Evidence, kps: map<Identifier, KeyPackage>,
                                nonces: map<Identifier, SigningNonces>, coins: Identifier -> ProverCoins,
                                i: Identifier)
    requires FollowsProtocol(C, ev, kps, nonces, Zero(), coins) && i in ev.pkg.signingCommitments
    requires ShiftedShares(C, ev.pk.verifyingKey, ev.pkg, kps, nonces, Zero(), ev.shares)
    ensures i in kps && i in nonces && Honest(C, ev, kps[i], nonces[i], coins(i))
  {
    hide ShareOf, Ia1Of, Ia2Of, ShiftedShare, RecordMatches, KnowsOwnNonce, FirstMissingKey, KeysShared, OpenedKeys,
         HonestMessage;
    assert i in Ids(ev.pkg);
    SessionRoundsSucceed(C, ev, kps, nonces, Zero(), coins, i);
    SignerEquipped(C, ev.pkg, ev.pk, kps, nonces, i);
    HonestSign(C, ev.pk.verifyingKey, ev.pkg, kps[i], nonces[i]);
  }
}
