/** When the operations of a signer succeed, and which error comes first when they do not. */
module Outcomes {
  import opened Wrappers
  import opened Sums
  import opened Ciphersuites
  import opened Wire
  import opened Signing
  import opened Sigma
  import opened IdentifiableAbort

  // ---------- signing ----------

  lemma {:induction false} FirstMissingIsLeast(kp: KeyPackage, ids: seq<Identifier>)
    requires Ascending(ids) && FirstMissingKey(kp, ids).Some?
    ensures forall j :: j in ids && LacksKey(kp, j) ==> FirstMissingKey(kp, ids).value <= j
  {
    hide LacksKey;
    if LacksKey(kp, ids[0]) {
    } else {
      FirstMissingIsLeast(kp, ids[1..]);
    }
  }

  /** j is the smallest signer of the package that kp holds no key for. */
  ghost predicate LeastWithoutKey(pkg: SigningPackage, kp: KeyPackage, j: Identifier) {
    && j in pkg.signingCommitments && j != kp.identifier && j !in kp.pairwiseKeys
    && forall k :: k in pkg.signingCommitments && k != kp.identifier && k !in kp.pairwiseKeys ==> j <= k
  }

  lemma MissingKeyIff(pkg: SigningPackage, kp: KeyPackage)
    ensures forall j: Identifier :: FirstMissingKey(kp, Ids(pkg)) == Some(j) <==> LeastWithoutKey(pkg, kp, j)
  {
    hide FirstMissingKey, Ascending;
    SortedAscends(pkg.signingCommitments.Keys);
    if FirstMissingKey(kp, Ids(pkg)).Some? {
      FirstMissingIsLeast(kp, Ids(pkg));
    }
    forall j | LeastWithoutKey(pkg, kp, j)
      ensures j in Ids(pkg) && LacksKey(kp, j)
    {
    }
  }

  /** sign succeeds exactly for a signer of the package with its own nonce and all keys; every failure has its error. */
  lemma SignOutcome(C: Suite, pkg: SigningPackage, n: SigningNonces, kp: KeyPackage, vk: Point)
    ensures var i, r := kp.identifier, ShareOf(C, pkg, n, kp, vk);
            && (r.Ok? <==> KnowsOwnNonce(pkg, n, kp)
                           && forall j :: j in pkg.signingCommitments && j != i ==> j in kp.pairwiseKeys)
            && (r == Err(UnknownSigner(i)) <==> i !in pkg.signingCommitments)
            && (r == Err(NonceCommitmentMismatch(i)) <==>
                  i in pkg.signingCommitments && !OwnCommitment(pkg.signingCommitments[i], n))
            && forall j: Identifier :: r == Err(MissingPairwiseKey(j))
                 <==> KnowsOwnNonce(pkg, n, kp) && LeastWithoutKey(pkg, kp, j)
  {
    hide NewShare, ResponseRest, FirstMissingKey, OwnCommitment, LeastWithoutKey;
    MissingKeyIff(pkg, kp);
  }

  // ---------- the first abort round ----------

  /** ia1 succeeds exactly on its own share, for a signer of the package with all keys. */
  lemma Ia1Outcome(C: Suite, pkg: SigningPackage, share: SignatureShare, kp: KeyPackage, pk: PublicKeyPackage,
                   shares: map<Identifier, SignatureShare>, coins: ProverCoins)
    ensures var i, r := kp.identifier, Ia1Of(C, pkg, share, kp, pk, shares, coins);
            && (r.Ok? <==> share.identifier == i && i in pkg.signingCommitments
                           && forall j :: j in pkg.signingCommitments && j != i ==> j in kp.pairwiseKeys)
            && (r == Err(UnknownSigner(i)) <==> share.identifier != i || i !in pkg.signingCommitments)
            && forall j: Identifier :: r == Err(MissingPairwiseKey(j))
                 <==> share.identifier == i && i in pkg.signingCommitments && LeastWithoutKey(pkg, kp, j)
  {
    hide HonestMessage, FirstMissingKey, LeastWithoutKey;
    MissingKeyIff(pkg, kp);
  }

  // ---------- the second abort round ----------

  /** Peer j keeps the second round of kp from succeeding. */
  predicate Blocks(kp: KeyPackage, messages: map<Identifier, IA1Message>, j: Identifier) {
    var i := kp.identifier;
    && j != i
    && (|| !HasCommitment(messages, i, j) || !HasCommitment(messages, j, i)
        || (Disagree(messages, i, j) && j !in kp.pairwiseKeys))
  }

  ghost predicate LeastBlocker(kp: KeyPackage, pkg: SigningPackage, messages: map<Identifier, IA1Message>,
                               j: Identifier)
  {
    && j in pkg.signingCommitments && Blocks(kp, messages, j)
    && forall k :: k in pkg.signingCommitments && Blocks(kp, messages, k) ==> j <= k
  }

  /** What a blocking peer is reported for. */
  function BlockedBy(kp: KeyPackage, messages: map<Identifier, IA1Message>, j: Identifier): Error {
    var i := kp.identifier;
    if !HasCommitment(messages, i, j) then MissingBlindingCommitment(i, j)
    else if HasCommitment(messages, j, i) then MissingPairwiseKey(j)
    else if j in messages then MissingBlindingCommitment(j, i)
    else MissingIa1Message(j)
  }

  lemma PeerErrorIff(kp: KeyPackage, messages: map<Identifier, IA1Message>, j: Identifier)
    ensures PeerError(kp, messages, j).Some? <==> Blocks(kp, messages, j)
  {
  }

  lemma {:induction false} FirstErrorIsLeast(kp: KeyPackage, messages: map<Identifier, IA1Message>,
                                             ids: seq<Identifier>) returns (j: Identifier)
    requires Ascending(ids) && FirstPeerError(kp, messages, ids).Some?
    ensures j in ids && Blocks(kp, messages, j) && forall k :: k in ids && Blocks(kp, messages, k) ==> j <= k
    ensures FirstPeerError(kp, messages, ids) == PeerError(kp, messages, j)
  {
    hide Blocks, PeerError;
    PeerErrorIff(kp, messages, ids[0]);
    if PeerError(kp, messages, ids[0]).Some? {
      j := ids[0];
    } else {
      j := FirstErrorIsLeast(kp, messages, ids[1..]);
    }
  }

  /**
    ia2 succeeds exactly when the signer has sent a message and no peer blocks it; otherwise the smallest blocking
    peer gives the error: a commitment of the signer, the message of the peer, a commitment of the peer, or the key.
  */
  lemma Ia2Outcome(kp: KeyPackage, pkg: SigningPackage, messages: map<Identifier, IA1Message>)
    ensures var i, r := kp.identifier, Ia2Of(kp, pkg, messages);
            && (r.Ok? <==> i in messages && forall j :: j in pkg.signingCommitments ==> !Blocks(kp, messages, j))
            && (i !in messages ==> r == Err(MissingIa1Message(i)))
            && (i in messages && r.Err? ==>
                  exists j :: LeastBlocker(kp, pkg, messages, j) && r.error == BlockedBy(kp, messages, j))
  {
    hide FirstPeerError, OpenedKeys, Ascending;
    SortedAscends(pkg.signingCommitments.Keys);
    forall j
      ensures PeerError(kp, messages, j).Some? <==> Blocks(kp, messages, j)
    {
      PeerErrorIff(kp, messages, j);
    }
    if FirstPeerError(kp, messages, Ids(pkg)).Some? {
      var j := FirstErrorIsLeast(kp, messages, Ids(pkg));
      assert LeastBlocker(kp, pkg, messages, j);
    }
  }
}
