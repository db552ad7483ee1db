/** When an honest signer is named, and who is named when two commitments disagree. */
module NonFraming {
  import opened Wrappers
  import opened Sums
  import opened Ciphersuites
  import opened Wire
  import opened Hashing
  import opened Signing
  import opened Keygen
  import opened Sigma
  import opened IdentifiableAbort
  import opened Accountability

  /**
    Signer kp.identifier ran sign and ia1 on the package and the shares that decide sees, and both returned
    what decide received from it.  Nothing is said about anybody else, nor about the second round.
  */
  ghost predicate HonestToRoundOne(C: Suite, ev: Evidence, kp: KeyPackage, n: SigningNonces, coins: ProverCoins) {
    var i := kp.identifier;
    && RecordMatches(C, ev.pk, kp)
    && i in ev.shares && ShareOf(C, ev.pkg, n, kp, ev.pk.verifyingKey) == Ok(ev.shares[i])
    && i in ev.messages && Ia1Of(C, ev.pkg, ev.shares[i], kp, ev.pk, ev.shares, coins) == Ok(ev.messages[i])
  }

  /** It also ran ia2 on the messages that decide sees, which returned what decide received from it. */
  ghost predicate Honest(C: Suite, ev: Evidence, kp: KeyPackage, n: SigningNonces, coins: ProverCoins) {
    var i := kp.identifier;
    && HonestToRoundOne(C, ev, kp, n, coins)
    && i in ev.decisions && Ia2Of(kp, ev.pkg, ev.messages) == Ok(ev.decisions[i])
  }

  /** Honest to round one, and silent or honest in round two. */
  ghost predicate HonestOrSilent(C: Suite, ev: Evidence, kp: KeyPackage, n: SigningNonces, coins: ProverCoins) {
    && HonestToRoundOne(C, ev, kp, n, coins)
    && (kp.identifier in ev.decisions ==> Ia2Of(kp, ev.pkg, ev.messages) == Ok(ev.decisions[kp.identifier]))
  }

  lemma HonestFollows(C: Suite, ev: Evidence, kp: KeyPackage, n: SigningNonces, coins: ProverCoins)
    requires HonestToRoundOne(C, ev, kp, n, coins)
    ensures Equipped(C, ev.pkg, ev.pk, kp, n) && FollowsRoundOne(C, ev, kp, n, 0, coins)
  {
    hide RecordMatches, HonestMessage, FirstMissingKey, ShareOf, ShiftedShare, KnowsOwnNonce;
    SignOkShape(C, ev.pkg, n, kp, ev.pk.verifyingKey);
    HonestSign(C, ev.pk.verifyingKey, ev.pkg, kp, n);
  }

  lemma SignOkShape(C: Suite, pkg: SigningPackage, n: SigningNonces, kp: KeyPackage, vk: Point)
    requires ShareOf(C, pkg, n, kp, vk).Ok?
    ensures KnowsOwnNonce(pkg, n, kp) && FirstMissingKey(kp, Ids(pkg)).None?
  {
    hide FirstMissingKey, NewShare, ResponseRest;
  }

  /** The commitments of a signer that is honest to round one. */
  lemma HonestCommitments(C: Suite, ev: Evidence, kp: KeyPackage, n: SigningNonces, coins: ProverCoins)
    requires HonestToRoundOne(C, ev, kp, n, coins)
    ensures RecordMatches(C, ev.pk, kp)
    ensures var i := kp.identifier;
            && i in Ids(ev.pkg) && i in ev.messages
            && (forall j :: HasCommitment(ev.messages, i, j) <==> j in Ids(ev.pkg) && j != i)
            && (forall j :: HasCommitment(ev.messages, i, j) ==>
                  j in kp.pairwiseKeys && ev.messages[i].blindingCommitments[j]
                    == KeyedCommitment(C, ev.pkg, ev.shares, ev.pk.pedersenH, kp.pairwiseKeys[j]))
  {
    hide RecordMatches, KeyedCommitment, ShiftedShare, HonestToRoundOne, ProofChallengeOf, Respond, Weight;
    HonestFollows(C, ev, kp, n, coins);
    RoundsCommit(C, ev, kp, n, 0, coins);
    PeerEntries(Ids(ev.pkg), kp.identifier, CommitmentFor(C, ev.pkg, kp, ev.shares, ev.pk.pedersenH));
    hide OverPeers;
    forall j | j in Ids(ev.pkg) && j != kp.identifier
      ensures j in kp.pairwiseKeys
    {
      assert !LacksKey(kp, j);
    }
  }

  /** Its openings, if any: the keys it shares with peers that disagree, all of them if it sent a decision. */
  lemma HonestOpenings(C: Suite, ev: Evidence, kp: KeyPackage, n: SigningNonces, coins: ProverCoins)
    requires HonestOrSilent(C, ev, kp, n, coins)
    ensures var i := kp.identifier;
            && (forall j :: Opened(ev.decisions, i, j)
                  <==> i in ev.decisions && j in Ids(ev.pkg) && j != i && Disagree(ev.messages, i, j))
            && (forall j :: Opened(ev.decisions, i, j) ==>
                  j in kp.pairwiseKeys && ev.decisions[i].openedPairwiseKeys[j] == kp.pairwiseKeys[j])
  {
    hide HonestToRoundOne, Disagree, FirstPeerError;
    HonestCommitments(C, ev, kp, n, coins);
    forall j | Disagree(ev.messages, kp.identifier, j)
      ensures HasCommitment(ev.messages, kp.identifier, j)
    {
      DisagreementHasBoth(ev.messages, kp.identifier, j);
    }
  }

  lemma DisagreementHasBoth(messages: map<Identifier, IA1Message>, i: Identifier, j: Identifier)
    requires Disagree(messages, i, j)
    ensures HasCommitment(messages, i, j) && HasCommitment(messages, j, i)
  {
  }

  /** Accuser a opened a key for the honest signer that its public record confirms, although the commitments differ. */
  ghost predicate Frames(C: Suite, ev: Evidence, kp: KeyPackage, a: Identifier) {
    var i := kp.identifier;
    && a != i && ConfirmedOpening(C, ev, a, i)
    && (a !in Ids(ev.pkg)
        || KeyedCommitment(C, ev.pkg, ev.shares, ev.pk.pedersenH, ev.decisions[a].openedPairwiseKeys[i])
           != KeyedCommitment(C, ev.pkg, ev.shares, ev.pk.pedersenH, PairwiseKey(kp, a)))
  }

  /** The opened key matches the commitment in the record of the accuser. */
  ghost predicate ConfirmedOpening(C: Suite, ev: Evidence, a: Identifier, i: Identifier) {
    && Opened(ev.decisions, a, i)
    && a in ev.pk.partialVerificationKeys
    && i in ev.pk.partialVerificationKeys[a].pairwiseKeyCommitments
    && ev.pk.partialVerificationKeys[a].pairwiseKeyCommitments[i]
        == KeyCommitment(C, ev.decisions[a].openedPairwiseKeys[i])
  }

  lemma OwnRecord(C: Suite, ev: Evidence, kp: KeyPackage, j: Identifier)
    requires RecordMatches(C, ev.pk, kp) && j in kp.pairwiseKeys
    ensures kp.identifier in ev.pk.partialVerificationKeys && j in ev.pk.partialVerificationKeys
    ensures j in ev.pk.partialVerificationKeys[kp.identifier].pairwiseKeyCommitments
    ensures kp.identifier in ev.pk.partialVerificationKeys[j].pairwiseKeyCommitments
    ensures ev.pk.partialVerificationKeys[kp.identifier].pairwiseKeyCommitments[j]
         == KeyCommitment(C, kp.pairwiseKeys[j])
    ensures ev.pk.partialVerificationKeys[j].pairwiseKeyCommitments[kp.identifier]
         == KeyCommitment(C, kp.pairwiseKeys[j])
  {
    hide KeyCommitment, PedersenCommit;
  }

  /** The second pass names such a signer through accuser a exactly when a frames it. */
  lemma AccuserBlamesHonestIff(C: Suite, ev: Evidence, kp: KeyPackage, n: SigningNonces, coins: ProverCoins,
                               a: Identifier)
    requires HonestOrSilent(C, ev, kp, n, coins)
    ensures AccuserBlames(C, ev, a, kp.identifier) <==> Frames(C, ev, kp, a)
  {
    hide RecordMatches, KeyedCommitment, KeyCommitment, HonestToRoundOne, Disagree, Ia2Of;
    var i := kp.identifier;
    HonestCommitments(C, ev, kp, n, coins);
    HonestOpenings(C, ev, kp, n, coins);
    forall p
      ensures OpeningBlames(C, ev, a, p, i) <==> p == i && Frames(C, ev, kp, a)
    {
      if a == i && Opened(ev.decisions, a, p) {
        OwnRecord(C, ev, kp, p);
      }
    }
    assert OpeningBlames(C, ev, a, i, i) <==> Frames(C, ev, kp, a);
  }

  /** A peer disagrees with signer i about their pair, and i has not opened their key. */
  ghost predicate Unanswered(ev: Evidence, i: Identifier, j: Identifier) {
    j in Ids(ev.pkg) && Disagree(ev.messages, i, j) && !Opened(ev.decisions, i, j)
  }

  /** The cross-check names such a signer exactly when it leaves a disagreement unanswered. */
  lemma PairsBlameHonestIff(C: Suite, ev: Evidence, kp: KeyPackage, n: SigningNonces, coins: ProverCoins)
    requires HonestToRoundOne(C, ev, kp, n, coins)
    ensures (exists i, j :: i in Ids(ev.pkg) && j in Ids(ev.pkg) && PairBlames(ev, i, j, kp.identifier))
        <==> exists j :: Unanswered(ev, kp.identifier, j)
  {
    hide HonestToRoundOne, KeyedCommitment, RecordMatches, Opened;
    HonestCommitments(C, ev, kp, n, coins);
    var x := kp.identifier;
    forall j | Unanswered(ev, x, j)
      ensures exists i, j :: i in Ids(ev.pkg) && j in Ids(ev.pkg) && PairBlames(ev, i, j, x)
    {
      assert PairBlames(ev, x, j, x) || PairBlames(ev, j, x, x);
    }
    forall i, j | i in Ids(ev.pkg) && j in Ids(ev.pkg) && PairBlames(ev, i, j, x)
      ensures exists j :: Unanswered(ev, x, j)
    {
      assert Unanswered(ev, x, if x == i then j else i);
    }
  }

  /**
    Exactly when a signer is named that is honest to round one, and honest or silent in round two, with no
    assumption on anything the others sent: when some accuser frames it, or when it leaves a disagreement
    with a peer unanswered.
  */
  lemma NamedIffFramedOrUnanswered(C: Suite, ev: Evidence, kp: KeyPackage, n: SigningNonces, coins: ProverCoins)
    requires HonestOrSilent(C, ev, kp, n, coins)
    ensures Blamed(C, ev, kp.identifier)
        <==> (exists a :: Frames(C, ev, kp, a)) || (exists j :: Unanswered(ev, kp.identifier, j))
  {
    hide HonestToRoundOne, Frames, Unanswered, AccuserBlames, PairBlames, ProofFails, Equipped, FollowsRoundOne,
         NonzeroChallenge, Ia2Of;
    HonestFollows(C, ev, kp, n, coins);
    SignerProofFailsIff(C, ev, kp, n, 0, coins);
    forall a
      ensures AccuserBlames(C, ev, a, kp.identifier) <==> Frames(C, ev, kp, a)
    {
      AccuserBlamesHonestIff(C, ev, kp, n, coins, a);
    }
    PairsBlameHonestIff(C, ev, kp, n, coins);
  }

  /** An honest signer is named exactly when some accuser frames it: it has answered every disagreement. */
  lemma HonestBlamedIff(C: Suite, ev: Evidence, kp: KeyPackage, n: SigningNonces, coins: ProverCoins)
    requires Honest(C, ev, kp, n, coins)
    ensures Blamed(C, ev, kp.identifier) <==> exists a :: Frames(C, ev, kp, a)
  {
    hide HonestToRoundOne, Frames, Blamed, Disagree, Opened, Ia2Of;
    NamedIffFramedOrUnanswered(C, ev, kp, n, coins);
    HonestCommitments(C, ev, kp, n, coins);
    HonestOpenings(C, ev, kp, n, coins);
    forall j
      ensures !Unanswered(ev, kp.identifier, j)
    {
      if Disagree(ev.messages, kp.identifier, j) {
        DisagreementHasBoth(ev.messages, kp.identifier, j);
      }
    }
  }

  /**
    A signer whose second round failed sends no decision.  It is named exactly when some accuser frames it
    or some peer of the package disagrees with it.
  */
  lemma SilentBlamedIff(C: Suite, ev: Evidence, kp: KeyPackage, n: SigningNonces, coins: ProverCoins)
    requires HonestToRoundOne(C, ev, kp, n, coins) && kp.identifier !in ev.decisions
    ensures Blamed(C, ev, kp.identifier)
        <==> || (exists a :: Frames(C, ev, kp, a))
             || (exists j :: j in Ids(ev.pkg) && Disagree(ev.messages, kp.identifier, j))
  {
    hide HonestToRoundOne, Frames, Blamed, Disagree, Ia2Of;
    NamedIffFramedOrUnanswered(C, ev, kp, n, coins);
    forall j
      ensures Unanswered(ev, kp.identifier, j) <==> j in Ids(ev.pkg) && Disagree(ev.messages, kp.identifier, j)
    {
    }
  }

  // ---------- consequences ----------

  /** Two keys with one commitment. */
  ghost predicate KeyCollision(C: Suite, k: Bytes32, k': Bytes32) {
    k != k' && KeyCommitment(C, k) == KeyCommitment(C, k')
  }

  /** Somebody opened, towards the signer, a key that collides with the one they share. */
  ghost predicate CollidingOpening(C: Suite, ev: Evidence, kp: KeyPackage, a: Identifier) {
    && Opened(ev.decisions, a, kp.identifier) && a in kp.pairwiseKeys
    && KeyCollision(C, ev.decisions[a].openedPairwiseKeys[kp.identifier], kp.pairwiseKeys[a])
  }

  /**
    Non-framing: when only signers of the package submit decisions, an honest signer is named only if the
    decisions exhibit a collision of the key commitment hash.
  */
  lemma NonFramingTheorem(C: Suite, ev: Evidence, kp: KeyPackage, n: SigningNonces, coins: ProverCoins)
    requires Honest(C, ev, kp, n, coins)
    requires ev.decisions.Keys <= ev.pkg.signingCommitments.Keys
    requires Blamed(C, ev, kp.identifier)
    ensures exists a :: CollidingOpening(C, ev, kp, a)
  {
    hide HonestToRoundOne, Blamed, KeyedCommitment, KeyCommitment, RecordMatches, Ia2Of;
    HonestBlamedIff(C, ev, kp, n, coins);
    var a :| Frames(C, ev, kp, a);
    assert a in Ids(ev.pkg);
    HonestCommitments(C, ev, kp, n, coins);
    assert HasCommitment(ev.messages, kp.identifier, a);
    OwnRecord(C, ev, kp, a);
    assert CollidingOpening(C, ev, kp, a);
  }

  /** Without collisions, exactly the accusers outside the signer set can frame, by opening the true key. */
  lemma FramedOnlyFromOutside(C: Suite, ev: Evidence, kp: KeyPackage, n: SigningNonces, coins: ProverCoins)
    requires Honest(C, ev, kp, n, coins)
    requires forall a :: !CollidingOpening(C, ev, kp, a)
    ensures Blamed(C, ev, kp.identifier) <==>
              exists a :: a !in Ids(ev.pkg) && ConfirmedOpening(C, ev, a, kp.identifier)
  {
    hide HonestToRoundOne, Blamed, KeyedCommitment, KeyCommitment, RecordMatches, Ia2Of;
    HonestBlamedIff(C, ev, kp, n, coins);
    HonestCommitments(C, ev, kp, n, coins);
    forall a
      ensures Frames(C, ev, kp, a) <==> a !in Ids(ev.pkg) && ConfirmedOpening(C, ev, a, kp.identifier)
    {
      if a in Ids(ev.pkg) && a != kp.identifier && ConfirmedOpening(C, ev, a, kp.identifier) {
        assert HasCommitment(ev.messages, kp.identifier, a);
        OwnRecord(C, ev, kp, a);
        assert !CollidingOpening(C, ev, kp, a);
      }
    }
  }

  lemma SameRoundOne(C: Suite, ev: Evidence, ev': Evidence, kp: KeyPackage, n: SigningNonces, coins: ProverCoins)
    requires HonestToRoundOne(C, ev, kp, n, coins)
    requires ev'.pkg == ev.pkg && ev'.pk == ev.pk && ev'.shares == ev.shares
    requires kp.identifier in ev'.messages && ev'.messages[kp.identifier] == ev.messages[kp.identifier]
    ensures HonestToRoundOne(C, ev', kp, n, coins)
  {
    hide RecordMatches, ShareOf, Ia1Of;
  }

  /** The evidence after a submits a decision that opens key towards i. */
  function WithDecision(ev: Evidence, a: Identifier, i: Identifier, key: Bytes32): (r: Evidence)
    ensures r.pkg == ev.pkg && r.pk == ev.pk
  {
    ev.(decisions := ev.decisions[a := IA2Decision(a, map[i := key])])
  }

  /**
    The restriction to decisions from the signer set is needed: a key holder outside the set that opens its
    true key gets any honest signer named.
  */
  lemma OutsiderFramesHonest(C: Suite, ev: Evidence, kp: KeyPackage, n: SigningNonces, coins: ProverCoins,
                             a: Identifier)
    requires Honest(C, ev, kp, n, coins)
    requires a !in Ids(ev.pkg) && a in kp.pairwiseKeys
    ensures var ev' := WithDecision(ev, a, kp.identifier, kp.pairwiseKeys[a]);
            Honest(C, ev', kp, n, coins) && Blamed(C, ev', kp.identifier)
  {
    hide Blamed, KeyedCommitment, KeyCommitment, HonestToRoundOne, RecordMatches, Ia2Of;
    var ev' := WithDecision(ev, a, kp.identifier, kp.pairwiseKeys[a]);
    HonestCommitments(C, ev, kp, n, coins);
    SameRoundOne(C, ev, ev', kp, n, coins);
    OwnRecord(C, ev, kp, a);
    assert Frames(C, ev', kp, a);
    HonestBlamedIff(C, ev', kp, n, coins);
  }

  /** Any signer without a decision is named as soon as a peer of the package disagrees with it. */
  lemma SilentSignerIsBlamed(C: Suite, ev: Evidence, i: Identifier, j: Identifier)
    requires i in Ids(ev.pkg) && j in Ids(ev.pkg) && i != j
    requires Disagree(ev.messages, i, j) && i !in ev.decisions
    ensures Blamed(C, ev, i)
  {
    hide ProofFails, AccuserBlames;
    if i < j {
      assert PairBlames(ev, i, j, i);
    } else {
      assert PairBlames(ev, j, i, i);
    }
  }

  /**
    The evidence after peer j withdraws its first-round message, peer k replaces its commitment to the pair
    with i by p, and i, whose second round then fails, sends no decision.
  */
  function WithFailedRoundTwo(ev: Evidence, i: Identifier, j: Identifier, k: Identifier, p: Point): (r: Evidence)
    requires k in ev.messages
    ensures r.pkg == ev.pkg && r.pk == ev.pk && r.shares == ev.shares
  {
    var m := ev.messages[k];
    ev.(messages := ev.messages[k := m.(blindingCommitments := m.blindingCommitments[i := p])] - {j},
        decisions := ev.decisions - {i})
  }

  /**
    That ia2 returned is needed too: from every run in which a signer is honest, two of its peers make its
    ia2 fail and get it named, although it followed the protocol as far as it could.
  */
  lemma FailedRoundTwoFramesHonest(C: Suite, ev: Evidence, kp: KeyPackage, n: SigningNonces, coins: ProverCoins,
                                   j: Identifier, k: Identifier, p: Point)
    requires Honest(C, ev, kp, n, coins)
    requires j in Ids(ev.pkg) && k in Ids(ev.pkg) && j != k && j != kp.identifier && k != kp.identifier
    requires p != KeyedCommitment(C, ev.pkg, ev.shares, ev.pk.pedersenH, PairwiseKey(kp, k))
    ensures k in ev.messages
    ensures var ev' := WithFailedRoundTwo(ev, kp.identifier, j, k, p);
            && HonestToRoundOne(C, ev', kp, n, coins)
            && Ia2Of(kp, ev'.pkg, ev'.messages).Err?
            && Blamed(C, ev', kp.identifier)
  {
    hide Blamed, KeyedCommitment, HonestToRoundOne, RecordMatches, ShareOf, Ia1Of;
    var i := kp.identifier;
    HonestCommitments(C, ev, kp, n, coins);
    assert PeerError(kp, ev.messages, k).None?;
    assert HasCommitment(ev.messages, i, k);
    var ev' := WithFailedRoundTwo(ev, i, j, k, p);
    SameRoundOne(C, ev, ev', kp, n, coins);
    assert PeerError(kp, ev'.messages, j).Some?;
    assert Disagree(ev'.messages, i, k);
    SilentBlamedIff(C, ev', kp, n, coins);
  }

  // ---------- disagreement is always attributed ----------

  /** The dealer's records commit to one key per pair. */
  ghost predicate SymmetricRecords(pk: PublicKeyPackage, i: Identifier, j: Identifier) {
    i in pk.partialVerificationKeys && j in pk.partialVerificationKeys
    && j in pk.partialVerificationKeys[i].pairwiseKeyCommitments
    && i in pk.partialVerificationKeys[j].pairwiseKeyCommitments
    ==> pk.partialVerificationKeys[i].pairwiseKeyCommitments[j]
        == pk.partialVerificationKeys[j].pairwiseKeyCommitments[i]
  }

  /**
    Two signers whose commitments to their pair differ: whatever they open or leave out, at least one of
    them is named, unless their openings are a collision of the key commitment hash.
  */
  lemma DisagreementIsAttributed(C: Suite, ev: Evidence, i: Identifier, j: Identifier)
    requires i in Ids(ev.pkg) && j in Ids(ev.pkg) && i < j
    requires SymmetricRecords(ev.pk, i, j) && Disagree(ev.messages, i, j)
    ensures || Blamed(C, ev, i) || Blamed(C, ev, j)
            || (Opened(ev.decisions, i, j) && Opened(ev.decisions, j, i)
                && KeyCollision(C, ev.decisions[i].openedPairwiseKeys[j], ev.decisions[j].openedPairwiseKeys[i]))
  {
    hide ProofFails, KeyedCommitment, KeyCommitment, Ascending, Distinct;
    if !Opened(ev.decisions, i, j) {
      assert PairBlames(ev, i, j, i);
    } else if !Opened(ev.decisions, j, i) {
      assert PairBlames(ev, i, j, j);
    } else {
      var k, k' := ev.decisions[i].openedPairwiseKeys[j], ev.decisions[j].openedPairwiseKeys[i];
      var verdict, verdict' := OpeningVerdict(C, ev, i, j, k), OpeningVerdict(C, ev, j, i, k');
      if verdict.Some? {
        assert OpeningBlames(C, ev, i, j, verdict.value);
        assert AccuserBlames(C, ev, i, verdict.value);
      } else if verdict'.Some? {
        assert OpeningBlames(C, ev, j, i, verdict'.value);
        assert AccuserBlames(C, ev, j, verdict'.value);
      }
    }
  }

  /** A peer that disagrees with an honest signer is named, whatever anybody opens. */
  lemma DisagreeingWithHonestIsNamed(C: Suite, ev: Evidence, kp: KeyPackage, n: SigningNonces, coins: ProverCoins,
                                     j: Identifier)
    requires Honest(C, ev, kp, n, coins) && Disagree(ev.messages, kp.identifier, j)
    ensures Blamed(C, ev, j)
  {
    hide HonestToRoundOne, KeyedCommitment, KeyCommitment, RecordMatches, ProofFails, Ia2Of;
    var i := kp.identifier;
    HonestCommitments(C, ev, kp, n, coins);
    HonestOpenings(C, ev, kp, n, coins);
    assert HasCommitment(ev.messages, i, j) && Opened(ev.decisions, i, j);
    OwnRecord(C, ev, kp, j);
    assert OpeningBlames(C, ev, i, j, j);
    assert AccuserBlames(C, ev, i, j);
  }
}
