/** What the adjudicator guarantees: whom it names, whom it never names, and what an empty verdict means. */
module Accountability {
  import opened Wrappers
  import opened PrimeField
  import opened Sums
  import opened Lagrange
  import opened Ciphersuites
  import opened Wire
  import opened Hashing
  import opened Signing
  import opened Keygen
  import opened Sigma
  import opened IdentifiableAbort

  // ---------- the honest prover ----------

  /** A signer with a matching public record, a key for every peer, and its own nonce in the package. */
  ghost predicate Equipped(C: Suite, pkg: SigningPackage, pk: PublicKeyPackage, kp: KeyPackage, n: SigningNonces) {
    && RecordMatches(C, pk, kp)
    && KnowsOwnNonce(pkg, n, kp)
    && FirstMissingKey(kp, Ids(pkg)).None?
  }

  /** The blinding scalar is the signed sum of the values that the proof commits to. */
  lemma BlindingIsSignedSum(C: Suite, pkg: SigningPackage, kp: KeyPackage)
    ensures Sum(Ids(pkg), BlindTerms(C, kp, PackagePrefix(C, pkg)))
         == Sum(Ids(pkg), Signed(kp.identifier, BlindingValues(C, pkg, kp)))
  {
    hide Mod, Add, Mul, Delta, PackagePrefix, OverPeers;
    var ids, values := Ids(pkg), BlindingValues(C, pkg, kp);
    PeerEntries(ids, kp.identifier, ValueFor(C, pkg, kp));
    forall j | j in ids
      ensures BlindTerms(C, kp, PackagePrefix(C, pkg))(j) == Signed(kp.identifier, values)(j)
    {
      if j != kp.identifier {
        assert j in values;
        MulComm(Delta(kp.identifier, j), values[j]);
      }
    }
    SumCong(ids, BlindTerms(C, kp, PackagePrefix(C, pkg)), Signed(kp.identifier, values));
  }

  /** Removing the nonce from a response z + d leaves the claimed value plus d, under every normalisation. */
  lemma NonceRemoved(C: Suite, pkg: SigningPackage, vk: Point, kp: KeyPackage, n: SigningNonces, share: SignatureShare,
                     d: Scalar)
    requires KnowsOwnNonce(pkg, n, kp) && share.identifier == kp.identifier
    requires share.z == Add(HonestResponse(C, vk, pkg, kp, n, SigChallenge(C, vk, pkg)), d)
    ensures ResponseWithoutNonce(C, pkg, vk, share)
         == MulGenerator(Add(ResponseRest(C, pkg, kp, SigChallenge(C, vk, pkg)), d))
  {
    hide Mod, Add, Sub, Mul, Neg, NonceChallenge, RawNonce, PackageNonce, NonceSign, ResponseRest, SigChallenge;
    var b, sign := NonceChallenge(C, vk, pkg), NonceSign(C, vk, pkg);
    ProbeRecoversSign(C, vk, pkg, NonceScalar(n, b));
    MulComm(b, n.e);
    MulComm(sign, NonceScalar(n, b));
    CancelMiddle(ResponseRest(C, pkg, kp, SigChallenge(C, vk, pkg)), Mul(sign, NonceScalar(n, b)), d);
  }

  lemma CancelMiddle(a: Scalar, m: Scalar, d: Scalar)
    ensures Sub(Add(Add(a, m), d), m) == Add(a, d)
  {
    hide Mod, Add, Sub;
    Lift();
    Rep(a); Rep(m); Rep(d);
  }

  /** The commitments hold the honest entry for every peer, and perhaps other entries. */
  ghost predicate CoversPeers(C: Suite, pkg: SigningPackage, pk: PublicKeyPackage, kp: KeyPackage,
                              shares: map<Identifier, SignatureShare>, commitments: map<Identifier, Point>)
  {
    forall j :: j in PeersOf(Ids(pkg), kp.identifier) ==>
      j in commitments && commitments[j] == CommitmentFor(C, pkg, kp, shares, pk.pedersenH)(j)
  }

  lemma OwnCommitmentsCover(C: Suite, pkg: SigningPackage, pk: PublicKeyPackage, kp: KeyPackage,
                            shares: map<Identifier, SignatureShare>)
    ensures CoversPeers(C, pkg, pk, kp, shares, BlindingCommitmentsOf(C, pkg, kp, shares, pk.pedersenH))
  {
    hide KeyedCommitment, OverPeers, PeersOf;
    PeerEntries(Ids(pkg), kp.identifier, CommitmentFor(C, pkg, kp, shares, pk.pedersenH));
  }

  /** The record of a signer opens to its signing share, and its own nonce is in the package. */
  ghost predicate Certified(pkg: SigningPackage, pk: PublicKeyPackage, kp: KeyPackage, n: SigningNonces) {
    && kp.identifier in pk.partialVerificationKeys
    && pk.partialVerificationKeys[kp.identifier].signingShareCommitment
         == PedersenCommit(kp.signingShare, kp.signingShareBlinding, pk.pedersenH)
    && KnowsOwnNonce(pkg, n, kp)
  }

  lemma EquippedIsCertified(C: Suite, pkg: SigningPackage, pk: PublicKeyPackage, kp: KeyPackage, n: SigningNonces)
    requires Equipped(C, pkg, pk, kp, n)
    ensures Certified(pkg, pk, kp, n)
  {
    hide KnowsOwnNonce, FirstMissingKey, PedersenCommit;
  }

  lemma HonestOpens(C: Suite, pkg: SigningPackage, pk: PublicKeyPackage, kp: KeyPackage, n: SigningNonces,
                    share: SignatureShare, shares: map<Identifier, SignatureShare>, commitments: map<Identifier, Point>)
    requires Certified(pkg, pk, kp, n) && share.identifier == kp.identifier
    requires CoversPeers(C, pkg, pk, kp, shares, commitments)
    ensures Opens(StatementOf(C, pkg, share, pk, commitments), WitnessOf(C, pkg, kp, shares))
  {
    hide PedersenCommit, BlindingValue, BlindingRandomizer, Weight, ResponseWithoutNonce;
    var st, w := StatementOf(C, pkg, share, pk, commitments), WitnessOf(C, pkg, kp, shares);
    PeerEntries(st.ids, st.i, ValueFor(C, pkg, kp));
    PeerEntries(st.ids, st.i, RandomizerFor(C, pkg, kp, shares));
    hide OverPeers;
    forall j | j in st.ids && j != st.i
      ensures j in st.commitments && j in w.blind && j in w.blindBlinding
      ensures st.commitments[j] == PedersenCommit(w.blind[j], w.blindBlinding[j], st.h)
    {
      assert j in PeersOf(st.ids, st.i);
    }
  }

  /** The witness of a certified signer opens its commitments, and explains its response up to the error d. */
  lemma WitnessExplains(C: Suite, pkg: SigningPackage, pk: PublicKeyPackage, kp: KeyPackage, n: SigningNonces,
                        share: SignatureShare, shares: map<Identifier, SignatureShare>,
                        commitments: map<Identifier, Point>, d: Scalar)
    requires Certified(pkg, pk, kp, n) && share.identifier == kp.identifier
    requires share.z == Add(HonestResponse(C, pk.verifyingKey, pkg, kp, n, SigChallenge(C, pk.verifyingKey, pkg)), d)
    requires CoversPeers(C, pkg, pk, kp, shares, commitments)
    ensures var st, w := StatementOf(C, pkg, share, pk, commitments), WitnessOf(C, pkg, kp, shares);
            Opens(st, w) && st.A == MulGenerator(Add(Claimed(st, w), d))
  {
    hide Mod, Add, Mul, Neg, Sum, Opens, ResponseWithoutNonce, Coefficient, SigChallenge, PedersenCommit,
         HonestResponse, BlindTerms, CoversPeers;
    var vk, i := pk.verifyingKey, kp.identifier;
    HonestOpens(C, pkg, pk, kp, n, share, shares, commitments);
    NonceRemoved(C, pkg, vk, kp, n, share, d);
    BlindingIsSignedSum(C, pkg, kp);
    MulComm(SigChallenge(C, vk, pkg), Coefficient(i, Ids(pkg)));
    assert ResponseRest(C, pkg, kp, SigChallenge(C, vk, pkg))
        == Claimed(StatementOf(C, pkg, share, pk, commitments), WitnessOf(C, pkg, kp, shares));
  }

  /**
    The proof of a certified signer whose response is off by d is accepted exactly when the Fiat-Shamir
    challenge times d is zero, whether or not normalisation negated the nonce, and whatever commitments it
    sends beside those to its peers.
  */
  lemma ProofWithExtrasAcceptedIff(C: Suite, pkg: SigningPackage, pk: PublicKeyPackage, kp: KeyPackage,
                                   n: SigningNonces, share: SignatureShare, shares: map<Identifier, SignatureShare>,
                                   commitments: map<Identifier, Point>, coins: ProverCoins, d: Scalar)
    requires Certified(pkg, pk, kp, n) && share.identifier == kp.identifier
    requires share.z == Add(HonestResponse(C, pk.verifyingKey, pkg, kp, n, SigChallenge(C, pk.verifyingKey, pkg)), d)
    requires CoversPeers(C, pkg, pk, kp, shares, commitments)
    ensures var msg := MessageWith(C, pkg, share, kp, pk, shares, commitments, coins);
            ProofAccepted(C, pkg, share, msg, pk) <==> Mul(ChallengeOfMessage(C, pkg, share, msg, pk), d) == 0
  {
    hide Add, Mul, Opens, Claimed, ResponseWithoutNonce, SigChallenge, PedersenCommit, TranscriptOf, HonestResponse,
         CoversPeers, WitnessOf, Weight;
    WitnessExplains(C, pkg, pk, kp, n, share, shares, commitments, d);
    var msg := MessageWith(C, pkg, share, kp, pk, shares, commitments, coins);
    ProverExact(StatementOf(C, pkg, share, pk, commitments), WitnessOf(C, pkg, kp, shares), coins,
                ChallengeOfMessage(C, pkg, share, msg, pk), d);
  }

  /** In particular the proof in its honest message. */
  lemma HonestProofAcceptedIff(C: Suite, pkg: SigningPackage, pk: PublicKeyPackage, kp: KeyPackage, n: SigningNonces,
                               share: SignatureShare, shares: map<Identifier, SignatureShare>, coins: ProverCoins,
                               d: Scalar)
    requires Certified(pkg, pk, kp, n) && share.identifier == kp.identifier
    requires share.z == Add(HonestResponse(C, pk.verifyingKey, pkg, kp, n, SigChallenge(C, pk.verifyingKey, pkg)), d)
    ensures var msg := HonestMessage(C, pkg, share, kp, pk, shares, coins);
            ProofAccepted(C, pkg, share, msg, pk) <==> Mul(ChallengeOfMessage(C, pkg, share, msg, pk), d) == 0
  {
    hide Add, Mul, SigChallenge, HonestResponse, Certified, CoversPeers, BlindingCommitmentsOf, MessageWith,
         ProofAccepted, ChallengeOfMessage;
    var commitments := BlindingCommitmentsOf(C, pkg, kp, shares, pk.pedersenH);
    OwnCommitmentsCover(C, pkg, pk, kp, shares);
    ProofWithExtrasAcceptedIff(C, pkg, pk, kp, n, share, shares, commitments, coins, d);
  }

  lemma RecordPresent(C: Suite, pk: PublicKeyPackage, kp: KeyPackage)
    requires RecordMatches(C, pk, kp)
    ensures kp.identifier in pk.partialVerificationKeys
  {
  }

  // ---------- a session that follows the protocol, up to errors in the responses ----------

  /** All signers of the package are equipped and share their pairwise keys. */
  ghost predicate SessionEquipped(C: Suite, pkg: SigningPackage, pk: PublicKeyPackage, kps: map<Identifier, KeyPackage>,
                                  nonces: map<Identifier, SigningNonces>)
  {
    && (forall i :: i in pkg.signingCommitments ==> i in kps && RecordMatches(C, pk, kps[i]))
    && KeysShared(kps, Ids(pkg)) && NoncesMatch(pkg, nonces)
  }

  /**
    Signer i ran the first identifiable-abort round on a share whose response is off by error; the nonce
    point in its share may be any point.
  */
  ghost predicate FollowsRoundOne(C: Suite, ev: Evidence, kp: KeyPackage, n: SigningNonces, error: Scalar,
                                  coins: ProverCoins)
  {
    var i := kp.identifier;
    && i in ev.shares && ev.shares[i] == ShiftedShare(C, ev.pk.verifyingKey, ev.pkg, kp, n, error).(R := ev.shares[i].R)
    && i in ev.messages && ev.messages[i] == HonestMessage(C, ev.pkg, ev.shares[i], kp, ev.pk, ev.shares, coins)
  }

  /** It ran the second round as well. */
  ghost predicate FollowsRounds(C: Suite, ev: Evidence, kp: KeyPackage, n: SigningNonces, error: Scalar,
                                coins: ProverCoins)
  {
    var i := kp.identifier;
    && FollowsRoundOne(C, ev, kp, n, error, coins)
    && i in ev.decisions && ev.decisions[i] == IA2Decision(i, OpenedKeys(kp, ev.messages, Ids(ev.pkg)))
  }

  /** So did every signer of the session, and nobody else is heard. */
  ghost predicate FollowsProtocol(C: Suite, ev: Evidence, kps: map<Identifier, KeyPackage>,
                                  nonces: map<Identifier, SigningNonces>, errors: Identifier -> Scalar,
                                  coins: Identifier -> ProverCoins)
  {
    && ev.decisions.Keys == ev.pkg.signingCommitments.Keys
    && SessionEquipped(C, ev.pkg, ev.pk, kps, nonces)
    && forall i :: i in ev.pkg.signingCommitments ==>
         i in kps && i in nonces && FollowsRounds(C, ev, kps[i], nonces[i], errors(i), coins(i))
  }

  /** The two sides of a pair derive one commitment from their shared key. */
  lemma SharedKeyAgrees(C: Suite, pkg: SigningPackage, pk: PublicKeyPackage, kps: map<Identifier, KeyPackage>,
                        shares: map<Identifier, SignatureShare>, i: Identifier, j: Identifier)
    requires KeysShared(kps, Ids(pkg)) && i in Ids(pkg) && j in Ids(pkg) && i != j
    ensures var a := BlindingCommitmentsOf(C, pkg, kps[i], shares, pk.pedersenH);
            var b := BlindingCommitmentsOf(C, pkg, kps[j], shares, pk.pedersenH);
            j in a && i in b && a[j] == b[i]
  {
    hide KeyedCommitment, OverPeers;
    PeerEntries(Ids(pkg), i, CommitmentFor(C, pkg, kps[i], shares, pk.pedersenH));
    PeerEntries(Ids(pkg), j, CommitmentFor(C, pkg, kps[j], shares, pk.pedersenH));
    assert j in PeersOf(Ids(pkg), i) && i in PeersOf(Ids(pkg), j);
  }

  lemma SharedPackage(kps: map<Identifier, KeyPackage>, ids: seq<Identifier>, i: Identifier)
    requires KeysShared(kps, ids) && i in ids
    ensures i in kps && kps[i].identifier == i
  {
  }

  lemma NoMissingKey(kps: map<Identifier, KeyPackage>, ids: seq<Identifier>, i: Identifier)
    requires KeysShared(kps, ids) && i in ids
    ensures FirstMissingKey(kps[i], ids).None?
  {
  }

  /** Both signers committed to their pair, and to the same point. */
  ghost predicate Agree(messages: map<Identifier, IA1Message>, i: Identifier, j: Identifier) {
    HasCommitment(messages, i, j) && HasCommitment(messages, j, i) && !Disagree(messages, i, j)
  }

  lemma RoundsCommit(C: Suite, ev: Evidence, kp: KeyPackage, n: SigningNonces, error: Scalar, coins: ProverCoins)
    requires FollowsRoundOne(C, ev, kp, n, error, coins)
    ensures kp.identifier in ev.messages
    ensures ev.messages[kp.identifier].blindingCommitments
         == BlindingCommitmentsOf(C, ev.pkg, kp, ev.shares, ev.pk.pedersenH)
  {
    hide BlindingCommitmentsOf, ProofChallengeOf, Respond, Weight, ShiftedShare, OpenedKeys;
  }

  lemma SessionAgrees(C: Suite, ev: Evidence, kps: map<Identifier, KeyPackage>, nonces: map<Identifier, SigningNonces>,
                      errors: Identifier -> Scalar, coins: Identifier -> ProverCoins, i: Identifier, j: Identifier)
    requires FollowsProtocol(C, ev, kps, nonces, errors, coins)
    requires i in Ids(ev.pkg) && j in Ids(ev.pkg) && i != j
    ensures Agree(ev.messages, i, j)
  {
    hide BlindingCommitmentsOf, FollowsRoundOne, KeysShared, RecordMatches, NoncesMatch, Ascending, Distinct;
    SharedPackage(kps, Ids(ev.pkg), i);
    SharedPackage(kps, Ids(ev.pkg), j);
    RoundsCommit(C, ev, kps[i], nonces[i], errors(i), coins(i));
    RoundsCommit(C, ev, kps[j], nonces[j], errors(j), coins(j));
    SharedKeyAgrees(C, ev.pkg, ev.pk, kps, ev.shares, i, j);
  }

  lemma AgreementOpensNothing(kp: KeyPackage, messages: map<Identifier, IA1Message>, ids: seq<Identifier>)
    requires forall j :: j in ids && j != kp.identifier ==> Agree(messages, kp.identifier, j)
    ensures FirstPeerError(kp, messages, ids).None? && OpenedKeys(kp, messages, ids) == map[]
  {
    hide Disagree;
    assert forall j :: j in ids ==> PeerError(kp, messages, j).None?;
  }

  /** In such a session both rounds succeed for every signer, no pair disagrees and no key is opened. */
  lemma SessionRoundsSucceed(C: Suite, ev: Evidence, kps: map<Identifier, KeyPackage>,
                             nonces: map<Identifier, SigningNonces>, errors: Identifier -> Scalar,
                             coins: Identifier -> ProverCoins, i: Identifier)
    requires FollowsProtocol(C, ev, kps, nonces, errors, coins)
    requires i in ev.pkg.signingCommitments
    ensures i in kps && i in ev.shares && i in ev.messages && i in ev.decisions
    ensures Ia1Of(C, ev.pkg, ev.shares[i], kps[i], ev.pk, ev.shares, coins(i)) == Ok(ev.messages[i])
    ensures Ia2Of(kps[i], ev.pkg, ev.messages) == Ok(ev.decisions[i])
    ensures ev.decisions[i].openedPairwiseKeys == map[]
  {
    hide HonestMessage, OpenedKeys, FirstMissingKey, FirstPeerError, Agree, Ascending, Distinct,
         SessionEquipped, HonestResponse, SigChallenge, PackageNonce;
    assert i in Ids(ev.pkg);
    KeysAreShared(C, ev.pkg, ev.pk, kps, nonces);
    SharedPackage(kps, Ids(ev.pkg), i);
    NoMissingKey(kps, Ids(ev.pkg), i);
    assert FollowsRounds(C, ev, kps[i], nonces[i], errors(i), coins(i));
    forall j | j in Ids(ev.pkg) && j != i
      ensures Agree(ev.messages, i, j)
    {
      SessionAgrees(C, ev, kps, nonces, errors, coins, i, j);
    }
    AgreementOpensNothing(kps[i], ev.messages, Ids(ev.pkg));
  }

  lemma KeysAreShared(C: Suite, pkg: SigningPackage, pk: PublicKeyPackage, kps: map<Identifier, KeyPackage>,
                      nonces: map<Identifier, SigningNonces>)
    requires SessionEquipped(C, pkg, pk, kps, nonces)
    ensures KeysShared(kps, Ids(pkg))
  {
  }

  lemma SignerEquipped(C: Suite, pkg: SigningPackage, pk: PublicKeyPackage, kps: map<Identifier, KeyPackage>,
                       nonces: map<Identifier, SigningNonces>, i: Identifier)
    requires SessionEquipped(C, pkg, pk, kps, nonces) && i in pkg.signingCommitments
    ensures kps[i].identifier == i && Equipped(C, pkg, pk, kps[i], nonces[i])
  {
    hide RecordMatches, FirstMissingKey;
    assert i in Ids(pkg);
    NoMissingKey(kps, Ids(pkg), i);
  }

  ghost predicate NonzeroChallenge(C: Suite, ev: Evidence, x: Identifier) {
    && x in ev.shares && x in ev.messages
    && ChallengeOfMessage(C, ev.pkg, ev.shares[x], ev.messages[x], ev.pk) != 0
  }

  /** The first pass on a signer that ran the rounds on a response that is off by error. */
  lemma SignerProofFailsIff(C: Suite, ev: Evidence, kp: KeyPackage, n: SigningNonces, error: Scalar, coins: ProverCoins)
    requires Equipped(C, ev.pkg, ev.pk, kp, n) && FollowsRoundOne(C, ev, kp, n, error, coins)
    ensures ProofFails(C, ev, kp.identifier) <==> error != 0 && NonzeroChallenge(C, ev, kp.identifier)
  {
    hide HonestMessage, HonestResponse, ChallengeOfMessage, ProofAccepted, Mul, Add, Mod, Equipped, Certified,
         OpenedKeys, SigChallenge, PackageNonce;
    var i := kp.identifier;
    EquippedIsCertified(C, ev.pkg, ev.pk, kp, n);
    HonestProofAcceptedIff(C, ev.pkg, ev.pk, kp, n, ev.shares[i], ev.shares, coins, error);
    NoZeroDivisors(ChallengeOfMessage(C, ev.pkg, ev.shares[i], ev.messages[i], ev.pk), error);
  }

  /** A signer that runs round one on a response with an error is named, whatever all the others send. */
  lemma TamperingIsNamed(C: Suite, ev: Evidence, kp: KeyPackage, n: SigningNonces, error: Scalar, coins: ProverCoins)
    requires Equipped(C, ev.pkg, ev.pk, kp, n) && FollowsRoundOne(C, ev, kp, n, error, coins)
    requires error != 0 && NonzeroChallenge(C, ev, kp.identifier)
    ensures Blamed(C, ev, kp.identifier)
  {
    hide RecordMatches, FirstMissingKey, FollowsRoundOne, ProofFails, NonzeroChallenge;
    SignerProofFailsIff(C, ev, kp, n, error, coins);
  }

  lemma NoOpenings(C: Suite, ev: Evidence, kps: map<Identifier, KeyPackage>, nonces: map<Identifier, SigningNonces>,
                   errors: Identifier -> Scalar, coins: Identifier -> ProverCoins)
    requires FollowsProtocol(C, ev, kps, nonces, errors, coins)
    ensures forall a, p :: !Opened(ev.decisions, a, p)
  {
    hide Ia1Of, Ia2Of, SessionEquipped, FollowsRounds;
    forall a, p
      ensures !Opened(ev.decisions, a, p)
    {
      if a in ev.pkg.signingCommitments {
        SessionRoundsSucceed(C, ev, kps, nonces, errors, coins, a);
      }
    }
  }

  /** When no key is opened and all pairs agree, only the proofs matter. */
  lemma OnlyProofsCount(C: Suite, ev: Evidence, x: Identifier)
    requires forall a, p :: !Opened(ev.decisions, a, p)
    requires forall i, j :: i in Ids(ev.pkg) && j in Ids(ev.pkg) && i < j ==> Agree(ev.messages, i, j)
    ensures Blamed(C, ev, x) <==> x in Ids(ev.pkg) && ProofFails(C, ev, x)
  {
    hide ProofFails, Ids;
    assert !exists a :: AccuserBlames(C, ev, a, x) by {
      hide OpeningVerdict, Opened;
    }
    hide AccuserBlames, Opened;
    assert !exists i, j :: i in Ids(ev.pkg) && j in Ids(ev.pkg) && PairBlames(ev, i, j, x) by {
      hide Disagree, HasCommitment;
    }
  }

  /**
    The adjudicator on a session in which every signer runs both rounds on a response that carries an
    arbitrary error: it names exactly the signers whose error is nonzero and whose Fiat-Shamir challenge is
    nonzero.  With no errors it names nobody.
  */
  lemma SessionVerdict(C: Suite, ev: Evidence, kps: map<Identifier, KeyPackage>, nonces: map<Identifier, SigningNonces>,
                       errors: Identifier -> Scalar, coins: Identifier -> ProverCoins, x: Identifier)
    requires FollowsProtocol(C, ev, kps, nonces, errors, coins)
    ensures Blamed(C, ev, x) <==> x in ev.pkg.signingCommitments && errors(x) != 0 && NonzeroChallenge(C, ev, x)
  {
    hide NonzeroChallenge, ProofFails, FollowsProtocol, Opened, Agree, Blamed, Ascending, Distinct;
    NoOpenings(C, ev, kps, nonces, errors, coins);
    forall i, j | i in Ids(ev.pkg) && j in Ids(ev.pkg) && i < j
      ensures Agree(ev.messages, i, j)
    {
      SessionAgrees(C, ev, kps, nonces, errors, coins, i, j);
    }
    OnlyProofsCount(C, ev, x);
    if x in ev.pkg.signingCommitments {
      SessionProofFailsIff(C, ev, kps, nonces, errors, coins, x);
    }
  }

  lemma SessionProofFailsIff(C: Suite, ev: Evidence, kps: map<Identifier, KeyPackage>,
                             nonces: map<Identifier, SigningNonces>, errors: Identifier -> Scalar,
                             coins: Identifier -> ProverCoins, x: Identifier)
    requires FollowsProtocol(C, ev, kps, nonces, errors, coins)
    requires x in ev.pkg.signingCommitments
    ensures ProofFails(C, ev, x) <==> errors(x) != 0 && NonzeroChallenge(C, ev, x)
  {
    hide FollowsRoundOne, NonzeroChallenge, ProofFails, SessionEquipped, Equipped;
    SignerEquipped(C, ev.pkg, ev.pk, kps, nonces, x);
    SignerProofFailsIff(C, ev, kps[x], nonces[x], errors(x), coins(x));
  }

  /** In particular, without errors nobody is named, whatever nonces the shares carry. */
  lemma WrongNonceIsNotNamed(C: Suite, ev: Evidence, kps: map<Identifier, KeyPackage>,
                             nonces: map<Identifier, SigningNonces>, coins: Identifier -> ProverCoins, x: Identifier)
    requires FollowsProtocol(C, ev, kps, nonces, Zero(), coins)
    ensures !Blamed(C, ev, x)
  {
    hide FollowsProtocol, Blamed;
    SessionVerdict(C, ev, kps, nonces, Zero(), coins, x);
  }
}
