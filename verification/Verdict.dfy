/** Whom decide names, signer by signer, and what an accepted proof must look like. */
module Verdict {
  import opened Sums
  import opened Ciphersuites
  import opened Wire
  import opened Hashing
  import opened Sigma
  import opened IdentifiableAbort
  import opened NonFraming

  // ---------- the five reasons ----------

  /** a opened a key that its public record does not confirm. */
  ghost predicate FalselyAccuses(C: Suite, ev: Evidence, a: Identifier) {
    exists p :: Opened(ev.decisions, a, p) && !ConfirmedOpening(C, ev, a, p)
  }

  /** a opened a confirmed key, and x did not send the commitment that this key gives. */
  ghost predicate ContradictedBy(C: Suite, ev: Evidence, a: Identifier, x: Identifier) {
    && ConfirmedOpening(C, ev, a, x)
    && (HasCommitment(ev.messages, x, a) ==>
          ev.messages[x].blindingCommitments[a]
          != KeyedCommitment(C, ev.pkg, ev.shares, ev.pk.pedersenH, ev.decisions[a].openedPairwiseKeys[x]))
  }

  /** x sent a message without a commitment towards y; when both left it out, only the smaller identifier is charged. */
  predicate OmitsTowards(ev: Evidence, x: Identifier, y: Identifier) {
    && x in ev.messages && y in ev.messages
    && !HasCommitment(ev.messages, x, y) && (x < y || HasCommitment(ev.messages, y, x))
  }

  ghost predicate OmitsCommitment(ev: Evidence, x: Identifier) {
    x in Ids(ev.pkg) && exists y :: y in Ids(ev.pkg) && y != x && OmitsTowards(ev, x, y)
  }

  ghost predicate LeavesUnanswered(ev: Evidence, x: Identifier) {
    x in Ids(ev.pkg) && exists y :: Unanswered(ev, x, y)
  }

  /**
    The verdict, signer by signer: x is named exactly when its proof fails, when it opened an unconfirmed key, when
    a confirmed key contradicts it, when it left out a commitment towards a peer, or when it did not answer a
    disagreement.
  */
  lemma DecideNames(C: Suite, ev: Evidence, x: Identifier)
    ensures Blamed(C, ev, x)
        <==> || (x in Ids(ev.pkg) && ProofFails(C, ev, x))
             || FalselyAccuses(C, ev, x)
             || (exists a :: ContradictedBy(C, ev, a, x))
             || OmitsCommitment(ev, x)
             || LeavesUnanswered(ev, x)
  {
    hide ProofFails, AccuserBlames, PairBlames, FalselyAccuses, ContradictedBy, OmitsCommitment, LeavesUnanswered;
    OpeningsName(C, ev, x);
    if x !in Ids(ev.pkg) || !ProofFails(C, ev, x) {
      PairsName(C, ev, x);
    }
    PairsNameOnly(C, ev, x);
  }

  /** The second pass. */
  lemma OpeningsName(C: Suite, ev: Evidence, x: Identifier)
    ensures (exists a :: AccuserBlames(C, ev, a, x))
        <==> FalselyAccuses(C, ev, x) || exists a :: ContradictedBy(C, ev, a, x)
  {
    hide KeyCommitment, KeyedCommitment;
    if FalselyAccuses(C, ev, x) {
      var p :| Opened(ev.decisions, x, p) && !ConfirmedOpening(C, ev, x, p);
      assert OpeningBlames(C, ev, x, p, x);
      assert AccuserBlames(C, ev, x, x);
    }
    forall a | ContradictedBy(C, ev, a, x)
      ensures AccuserBlames(C, ev, a, x)
    {
      assert OpeningBlames(C, ev, a, x, x);
    }
    forall a | AccuserBlames(C, ev, a, x)
      ensures FalselyAccuses(C, ev, x) || ContradictedBy(C, ev, a, x)
    {
      var p :| OpeningBlames(C, ev, a, p, x);
    }
  }

  /** The third pass charges only what the verdict lists. */
  lemma PairsNameOnly(C: Suite, ev: Evidence, x: Identifier)
    ensures (exists i, j :: i in Ids(ev.pkg) && j in Ids(ev.pkg) && PairBlames(ev, i, j, x))
        ==> || (x in Ids(ev.pkg) && ProofFails(C, ev, x))
            || OmitsCommitment(ev, x)
            || LeavesUnanswered(ev, x)
  {
    hide Ids, ProofAccepted;
    if i, j :| i in Ids(ev.pkg) && j in Ids(ev.pkg) && PairBlames(ev, i, j, x) {
      var y := if x == i then j else i;
      if x in ev.messages && y in ev.messages {
        assert OmitsTowards(ev, x, y) || Unanswered(ev, x, y);
      }
    }
  }

  /** And all of it. */
  lemma PairsName(C: Suite, ev: Evidence, x: Identifier)
    ensures OmitsCommitment(ev, x) || LeavesUnanswered(ev, x)
        ==> exists i, j :: i in Ids(ev.pkg) && j in Ids(ev.pkg) && PairBlames(ev, i, j, x)
  {
    hide Ids;
    if OmitsCommitment(ev, x) {
      var y :| y in Ids(ev.pkg) && y != x && OmitsTowards(ev, x, y);
      assert PairBlames(ev, x, y, x) || PairBlames(ev, y, x, x);
    } else if LeavesUnanswered(ev, x) {
      var y :| Unanswered(ev, x, y);
      assert PairBlames(ev, x, y, x) || PairBlames(ev, y, x, x);
    }
  }

  // ---------- false and true accusations ----------

  /** Whoever opens a key that its record does not confirm is named, whether or not the commitments differ. */
  lemma FalseAccuserIsNamed(C: Suite, ev: Evidence, a: Identifier, p: Identifier)
    requires Opened(ev.decisions, a, p) && !ConfirmedOpening(C, ev, a, p)
    ensures Blamed(C, ev, a)
  {
    hide ProofFails, ConfirmedOpening, Opened, Blamed;
    DecideNames(C, ev, a);
  }

  /** A confirmed opening names the peer whose commitment is missing or is not the one that the key gives. */
  lemma ConfirmedOpeningNamesPeer(C: Suite, ev: Evidence, a: Identifier, p: Identifier)
    requires ConfirmedOpening(C, ev, a, p)
    requires HasCommitment(ev.messages, p, a) ==>
               ev.messages[p].blindingCommitments[a]
               != KeyedCommitment(C, ev.pkg, ev.shares, ev.pk.pedersenH, ev.decisions[a].openedPairwiseKeys[p])
    ensures Blamed(C, ev, p)
  {
    hide ProofFails, ConfirmedOpening, KeyedCommitment, Blamed;
    DecideNames(C, ev, p);
    assert ContradictedBy(C, ev, a, p);
  }

  // ---------- accepted proofs ----------

  /**
    An accepted proof comes with the identifier of its share, from a signer of the package with a public record, and
    with a commitment, a first message and two responses for every peer.
  */
  lemma AcceptedProofShape(C: Suite, pkg: SigningPackage, share: SignatureShare, msg: IA1Message, pk: PublicKeyPackage)
    requires ProofAccepted(C, pkg, share, msg, pk)
    ensures msg.identifier == share.identifier
    ensures share.identifier in pkg.signingCommitments && share.identifier in pk.partialVerificationKeys
    ensures forall j :: j in pkg.signingCommitments && j != share.identifier ==>
              && j in msg.blindingCommitments && j in msg.proof.tBlind
              && j in msg.proof.zBlind && j in msg.proof.zBlindBlinding
  {
    hide SigEquation, OpeningEquation, ChallengeOfMessage, ResponseWithoutNonce, Weight;
    var st := StatementOf(C, pkg, share, pk, msg.blindingCommitments);
    forall j | j in pkg.signingCommitments && j != share.identifier
      ensures HasEntries(st, msg.proof, j)
    {
      assert j in Ids(pkg);
    }
  }
}
