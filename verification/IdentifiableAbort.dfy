/** The two identifiable-abort rounds and the adjudicator (src/ia.rs). */
module IdentifiableAbort {
  import opened Wrappers
  import opened PrimeField
  import opened Sums
  import opened Lagrange
  import opened Ciphersuites
  import opened Wire
  import opened Hashing
  import opened Signing
  import opened Sigma

  datatype IA1Message = IA1Message(
    identifier: Identifier,
    blindingCommitments: map<Identifier, Point>,
    proof: WellformedProof)

  datatype IA2Decision = IA2Decision(identifier: Identifier, openedPairwiseKeys: map<Identifier, Bytes32>)

  // ---------- the Fiat-Shamir challenge ----------

  /** Identifier and point of every entry of a map, in key order. */
  function PointEntries(C: Suite, ids: seq<Identifier>, m: map<Identifier, Point>, idTag: Label, pointTag: Label)
    : seq<Entry>
    requires forall x :: x in ids ==> x in m
  {
    if |ids| == 0 then []
    else
      var j := ids[|ids| - 1];
      PointEntries(C, ids[..|ids| - 1], m, idTag, pointTag)
      + [Entry(idTag, IdBytes(j)), Entry(pointTag, C.pointBytes(m[j]))]
  }

  function HeaderEntries(C: Suite, pkg: SigningPackage, share: SignatureShare, pk: PublicKeyPackage, b: Scalar,
                         c: Scalar): seq<Entry>
  {
    [Entry(IaProof, []),
     Entry(Ctx, C.context),
     Entry(Signer, IdBytes(share.identifier)),
     Entry(Msg, pkg.message),
     Entry(BindingB, C.scalarBytes(b)),
     Entry(SigC, C.scalarBytes(c)),
     Entry(ShareZ, C.scalarBytes(share.z)),
     Entry(ShareR, C.pointBytes(share.R)),
     Entry(Vk, C.pointBytes(pk.verifyingKey)),
     Entry(PedersenH, C.pointBytes(pk.pedersenH))]
  }

  function RecordEntries(C: Suite, share: SignatureShare, pk: PublicKeyPackage): seq<Entry> {
    if share.identifier in pk.partialVerificationKeys
    then [Entry(VkI, C.pointBytes(pk.partialVerificationKeys[share.identifier].signingShareCommitment))]
    else []
  }

  ghost function TranscriptOf(C: Suite, pkg: SigningPackage, share: SignatureShare, pk: PublicKeyPackage,
                        commitments: map<Identifier, Point>, tSig: Point, tKey: Point, tBlind: map<Identifier, Point>,
                        b: Scalar, c: Scalar): seq<Entry>
  {
    HeaderEntries(C, pkg, share, pk, b, c)
    + RecordEntries(C, share, pk)
    + [Entry(Commitments, CommitmentsEncoding(C, pkg.signingCommitments))]
    + PointEntries(C, Sorted(commitments.Keys), commitments, BlindId, BlindCommit)
    + [Entry(TSig, C.pointBytes(tSig)), Entry(TKey, C.pointBytes(tKey))]
    + PointEntries(C, Sorted(tBlind.Keys), tBlind, TBlindId, TBlind)
  }

  /** The challenge of a proof attached to a share. */
  ghost function ProofChallengeOf(C: Suite, pkg: SigningPackage, share: SignatureShare, pk: PublicKeyPackage,
                                  commitments: map<Identifier, Point>, tSig: Point, tKey: Point,
                                  tBlind: map<Identifier, Point>): Scalar
  {
    C.transcript(TranscriptOf(C, pkg, share, pk, commitments, tSig, tKey, tBlind,
                              NonceChallenge(C, pk.verifyingKey, pkg), SigChallenge(C, pk.verifyingKey, pkg)))
  }

  method ProofChallenge(C: Suite, pkg: SigningPackage, share: SignatureShare, pk: PublicKeyPackage,
                        commitments: map<Identifier, Point>, tSig: Point, tKey: Point, tBlind: map<Identifier, Point>,
                        b: Scalar, c: Scalar) returns (e: Scalar)
    ensures e == C.transcript(TranscriptOf(C, pkg, share, pk, commitments, tSig, tKey, tBlind, b, c))
  {
    hide HeaderEntries, PointEntries, CommitmentsEncoding;
    var transcript := HeaderEntries(C, pkg, share, pk, b, c);
    if share.identifier in pk.partialVerificationKeys {
      var vki := pk.partialVerificationKeys[share.identifier];
      transcript := transcript + [Entry(VkI, C.pointBytes(vki.signingShareCommitment))];
    }
    assert transcript == HeaderEntries(C, pkg, share, pk, b, c) + RecordEntries(C, share, pk);
    var encoded := EncodeCommitments(C, pkg.signingCommitments);
    transcript := transcript + [Entry(Commitments, encoded)];
    transcript := AppendPoints(C, transcript, commitments, BlindId, BlindCommit);
    transcript := transcript + [Entry(TSig, C.pointBytes(tSig)), Entry(TKey, C.pointBytes(tKey))];
    transcript := AppendPoints(C, transcript, tBlind, TBlindId, TBlind);
    e := C.transcript(transcript);
  }

  method AppendPoints(C: Suite, transcript: seq<Entry>, m: map<Identifier, Point>, idTag: Label, pointTag: Label)
    returns (out: seq<Entry>)
    ensures out == transcript + PointEntries(C, Sorted(m.Keys), m, idTag, pointTag)
  {
    hide PointEntries, IdBytes;
    out := transcript;
    var ids := Keys(m.Keys);
    NoPointEntries(C, m, idTag, pointTag);
    for k := 0 to |ids|
      invariant out == transcript + PointEntries(C, ids[..k], m, idTag, pointTag)
    {
      PointEntriesStep(C, ids, k, m, idTag, pointTag);
      out := out + [Entry(idTag, IdBytes(ids[k])), Entry(pointTag, C.pointBytes(m[ids[k]]))];
    }
    TakeAll(ids);
  }

  lemma NoPointEntries(C: Suite, m: map<Identifier, Point>, idTag: Label, pointTag: Label)
    ensures PointEntries(C, [], m, idTag, pointTag) == []
  {
  }

  lemma PointEntriesStep(C: Suite, ids: seq<Identifier>, k: nat, m: map<Identifier, Point>, idTag: Label,
                         pointTag: Label)
    requires k < |ids| && forall x :: x in ids ==> x in m
    ensures PointEntries(C, ids[..k + 1], m, idTag, pointTag)
         == PointEntries(C, ids[..k], m, idTag, pointTag)
            + [Entry(idTag, IdBytes(ids[k])), Entry(pointTag, C.pointBytes(m[ids[k]]))]
  {
    assert ids[..k + 1][..k] == ids[..k];
  }

  // ---------- the well-formedness proof ----------

  ghost function Weight(C: Suite, pkg: SigningPackage, vk: Point, i: Identifier): Scalar {
    Mul(Coefficient(i, Ids(pkg)), SigChallenge(C, vk, pkg))
  }

  /** A == G * z - sign * (D_i + b * E_i): the response without its nonce. */
  ghost function ResponseWithoutNonce(C: Suite, pkg: SigningPackage, vk: Point, share: SignatureShare): Point
    requires share.identifier in pkg.signingCommitments
  {
    var own := pkg.signingCommitments[share.identifier];
    PSub(MulGenerator(share.z), PMul(PAdd(own.D, PMul(own.E, NonceChallenge(C, vk, pkg))), NonceSign(C, vk, pkg)))
  }

  ghost function StatementOf(C: Suite, pkg: SigningPackage, share: SignatureShare, pk: PublicKeyPackage,
                       commitments: map<Identifier, Point>): Statement
    requires share.identifier in pkg.signingCommitments && share.identifier in pk.partialVerificationKeys
  {
    Statement(Ids(pkg), share.identifier, Weight(C, pkg, pk.verifyingKey, share.identifier),
              ResponseWithoutNonce(C, pkg, pk.verifyingKey, share),
              pk.partialVerificationKeys[share.identifier].signingShareCommitment, pk.pedersenH, commitments)
  }

  ghost function ChallengeOfMessage(C: Suite, pkg: SigningPackage, share: SignatureShare, msg: IA1Message,
                                    pk: PublicKeyPackage): Scalar
  {
    ProofChallengeOf(C, pkg, share, pk, msg.blindingCommitments, msg.proof.tSig, msg.proof.tKey, msg.proof.tBlind)
  }

  /** The checks that the verifier makes before it computes a challenge. */
  predicate ReachesChallenge(pkg: SigningPackage, share: SignatureShare, msg: IA1Message, pk: PublicKeyPackage) {
    && msg.identifier == share.identifier
    && share.identifier in pk.partialVerificationKeys
    && share.identifier in pkg.signingCommitments
  }

  /** The verdict of the proof verifier. */
  ghost predicate ProofAccepted(C: Suite, pkg: SigningPackage, share: SignatureShare, msg: IA1Message,
                                pk: PublicKeyPackage)
  {
    && ReachesChallenge(pkg, share, msg, pk)
    && Accepts(StatementOf(C, pkg, share, pk, msg.blindingCommitments), msg.proof,
               ChallengeOfMessage(C, pkg, share, msg, pk))
  }

  /** The blinding value B_ij, the randomness omega_ij, and the commitment that a holder of the key derives from it. */
  ghost function BlindingValue(C: Suite, pkg: SigningPackage, key: Bytes32): Scalar {
    C.hash(PackagePrefix(C, pkg) + key)
  }

  ghost function BlindingRandomizer(C: Suite, pkg: SigningPackage, shares: map<Identifier, SignatureShare>,
                                    key: Bytes32): Scalar
  {
    C.hash(RandomizerInput(C, key, View(C, pkg, shares)))
  }

  ghost function KeyedCommitment(C: Suite, pkg: SigningPackage, shares: map<Identifier, SignatureShare>, h: Point,
                                 key: Bytes32): Point
  {
    PedersenCommit(BlindingValue(C, pkg, key), BlindingRandomizer(C, pkg, shares, key), h)
  }

  ghost function ValueFor(C: Suite, pkg: SigningPackage, kp: KeyPackage): Identifier -> Scalar {
    (j: Identifier) => BlindingValue(C, pkg, PairwiseKey(kp, j))
  }

  ghost function RandomizerFor(C: Suite, pkg: SigningPackage, kp: KeyPackage, shares: map<Identifier, SignatureShare>)
    : Identifier -> Scalar
  {
    (j: Identifier) => BlindingRandomizer(C, pkg, shares, PairwiseKey(kp, j))
  }

  ghost function CommitmentFor(C: Suite, pkg: SigningPackage, kp: KeyPackage, shares: map<Identifier, SignatureShare>,
                               h: Point)
    : Identifier -> Point
  {
    (j: Identifier) => KeyedCommitment(C, pkg, shares, h, PairwiseKey(kp, j))
  }

  ghost function BlindingValues(C: Suite, pkg: SigningPackage, kp: KeyPackage): map<Identifier, Scalar> {
    OverPeers(Ids(pkg), kp.identifier, ValueFor(C, pkg, kp))
  }

  ghost function BlindingRandomizers(C: Suite, pkg: SigningPackage, kp: KeyPackage,
                                     shares: map<Identifier, SignatureShare>): map<Identifier, Scalar>
  {
    OverPeers(Ids(pkg), kp.identifier, RandomizerFor(C, pkg, kp, shares))
  }

  ghost function BlindingCommitmentsOf(C: Suite, pkg: SigningPackage, kp: KeyPackage,
                                       shares: map<Identifier, SignatureShare>, h: Point): map<Identifier, Point>
  {
    OverPeers(Ids(pkg), kp.identifier, CommitmentFor(C, pkg, kp, shares, h))
  }

  ghost function WitnessOf(C: Suite, pkg: SigningPackage, kp: KeyPackage, shares: map<Identifier, SignatureShare>)
    : Witness
  {
    Witness(kp.signingShare, kp.signingShareBlinding, BlindingValues(C, pkg, kp),
            BlindingRandomizers(C, pkg, kp, shares))
  }

  /** The message of a prover that follows ia1 but may send other commitments along. */
  ghost function MessageWith(C: Suite, pkg: SigningPackage, share: SignatureShare, kp: KeyPackage, pk: PublicKeyPackage,
                             shares: map<Identifier, SignatureShare>, commitments: map<Identifier, Point>,
                             coins: ProverCoins): (m: IA1Message)
    ensures m.identifier == kp.identifier && m.blindingCommitments == commitments
  {
    var ids, i, h := Ids(pkg), kp.identifier, pk.pedersenH;
    var weight := Weight(C, pkg, pk.verifyingKey, i);
    var e := ProofChallengeOf(C, pkg, share, pk, commitments, CommitSig(ids, i, weight, coins), CommitKey(h, coins),
                              CommitBlind(ids, i, h, coins));
    IA1Message(i, commitments, Respond(ids, i, weight, h, WitnessOf(C, pkg, kp, shares), coins, e))
  }

  /** The honest first-round message. */
  ghost function HonestMessage(C: Suite, pkg: SigningPackage, share: SignatureShare, kp: KeyPackage,
                               pk: PublicKeyPackage, shares: map<Identifier, SignatureShare>, coins: ProverCoins)
    : IA1Message
  {
    MessageWith(C, pkg, share, kp, pk, shares, BlindingCommitmentsOf(C, pkg, kp, shares, pk.pedersenH), coins)
  }

  /** What ia1 returns. */
  ghost function Ia1Of(C: Suite, pkg: SigningPackage, share: SignatureShare, kp: KeyPackage, pk: PublicKeyPackage,
                 shares: map<Identifier, SignatureShare>, coins: ProverCoins): Result<IA1Message, Error>
  {
    if share.identifier != kp.identifier || kp.identifier !in Ids(pkg) then Err(UnknownSigner(kp.identifier))
    else match FirstMissingKey(kp, Ids(pkg))
      case Some(j) => Err(MissingPairwiseKey(j))
      case None => Ok(HonestMessage(C, pkg, share, kp, pk, shares, coins))
  }

  // ---------- round two ----------

  predicate HasCommitment(messages: map<Identifier, IA1Message>, i: Identifier, j: Identifier) {
    i in messages && j in messages[i].blindingCommitments
  }

  /** Both messages commit to the pair and the commitments differ. */
  predicate Disagree(messages: map<Identifier, IA1Message>, i: Identifier, j: Identifier) {
    && HasCommitment(messages, i, j) && HasCommitment(messages, j, i)
    && messages[i].blindingCommitments[j] != messages[j].blindingCommitments[i]
  }

  function PeerError(kp: KeyPackage, messages: map<Identifier, IA1Message>, j: Identifier): Option<Error> {
    var i := kp.identifier;
    if j == i then None
    else if !HasCommitment(messages, i, j) then Some(MissingBlindingCommitment(i, j))
    else if j !in messages then Some(MissingIa1Message(j))
    else if !HasCommitment(messages, j, i) then Some(MissingBlindingCommitment(j, i))
    else if Disagree(messages, i, j) && j !in kp.pairwiseKeys then Some(MissingPairwiseKey(j))
    else None
  }

  function FirstPeerError(kp: KeyPackage, messages: map<Identifier, IA1Message>, ids: seq<Identifier>)
    : (r: Option<Error>)
    ensures r.None? <==> forall j :: j in ids ==> PeerError(kp, messages, j).None?
  {
    if |ids| == 0 then None
    else if PeerError(kp, messages, ids[0]).Some? then PeerError(kp, messages, ids[0])
    else FirstPeerError(kp, messages, ids[1..])
  }

  lemma FirstPeerErrorAt(kp: KeyPackage, messages: map<Identifier, IA1Message>, ids: seq<Identifier>, k: nat)
    requires k < |ids|
    ensures FirstPeerError(kp, messages, ids[k..])
         == if PeerError(kp, messages, ids[k]).Some? then PeerError(kp, messages, ids[k])
            else FirstPeerError(kp, messages, ids[k + 1..])
  {
    assert ids[k..][1..] == ids[k + 1..];
  }

  function OpenedKeys(kp: KeyPackage, messages: map<Identifier, IA1Message>, ids: seq<Identifier>)
    : (m: map<Identifier, Bytes32>)
    ensures forall j :: j in m <==> j in ids && j != kp.identifier && Disagree(messages, kp.identifier, j)
    ensures forall j :: j in m ==> m[j] == PairwiseKey(kp, j)
  {
    map j | j in ids && j != kp.identifier && Disagree(messages, kp.identifier, j) :: PairwiseKey(kp, j)
  }

  lemma OpenedKeysStep(kp: KeyPackage, messages: map<Identifier, IA1Message>, ids: seq<Identifier>, k: nat)
    requires k < |ids|
    ensures var j, m := ids[k], OpenedKeys(kp, messages, ids[..k]);
            OpenedKeys(kp, messages, ids[..k + 1])
              == if j != kp.identifier && Disagree(messages, kp.identifier, j) then m[j := PairwiseKey(kp, j)] else m
  {
    hide Disagree, PairwiseKey;
    TakeStep(ids, k);
  }

  /** What ia2 returns. */
  ghost function Ia2Of(kp: KeyPackage, pkg: SigningPackage, messages: map<Identifier, IA1Message>)
    : Result<IA2Decision, Error>
  {
    if kp.identifier !in messages then Err(MissingIa1Message(kp.identifier))
    else match FirstPeerError(kp, messages, Ids(pkg))
      case Some(error) => Err(error)
      case None => Ok(IA2Decision(kp.identifier, OpenedKeys(kp, messages, Ids(pkg))))
  }

  method Ia2(kp: KeyPackage, pkg: SigningPackage, messages: map<Identifier, IA1Message>)
    returns (r: Result<IA2Decision, Error>)
    ensures r == Ia2Of(kp, pkg, messages)
  {
    hide OpenedKeys, FirstPeerError;
    var i := kp.identifier;
    var ids := SignerIds(pkg);
    if i !in messages {
      return Err(MissingIa1Message(i));
    }
    var own := messages[i];
    var openedKeys: map<Identifier, Bytes32> := map[];
    for k := 0 to |ids|
      invariant openedKeys == OpenedKeys(kp, messages, ids[..k])
      invariant FirstPeerError(kp, messages, ids) == FirstPeerError(kp, messages, ids[k..])
    {
      var j := ids[k];
      FirstPeerErrorAt(kp, messages, ids, k);
      OpenedKeysStep(kp, messages, ids, k);
      if j == i {
        continue;
      }
      if j !in own.blindingCommitments {
        return Err(MissingBlindingCommitment(i, j));
      }
      if j !in messages {
        return Err(MissingIa1Message(j));
      }
      if i !in messages[j].blindingCommitments {
        return Err(MissingBlindingCommitment(j, i));
      }
      if own.blindingCommitments[j] != messages[j].blindingCommitments[i] {
        if j !in kp.pairwiseKeys {
          return Err(MissingPairwiseKey(j));
        }
        openedKeys := openedKeys[j := kp.pairwiseKeys[j]];
      }
    }
    TakeAll(ids);
    r := Ok(IA2Decision(i, openedKeys));
  }

  // ---------- the adjudicator ----------

  /** Everything decide looks at. */
  datatype Evidence = Evidence(
    pkg: SigningPackage,
    pk: PublicKeyPackage,
    shares: map<Identifier, SignatureShare>,
    messages: map<Identifier, IA1Message>,
    decisions: map<Identifier, IA2Decision>)
  {
    ghost predicate Defined(C: Suite) {
      PackageDefined(C, pk.verifyingKey, pkg)
    }

    /** decide computes a challenge for signer x. */
    predicate Reaches(x: Identifier) {
      x in shares && x in messages && ReachesChallenge(pkg, shares[x], messages[x], pk)
    }
  }

  /** First pass: a signer without a share, a message or a valid proof. */
  ghost predicate ProofFails(C: Suite, ev: Evidence, x: Identifier) {
    x !in ev.shares || x !in ev.messages || !ProofAccepted(C, ev.pkg, ev.shares[x], ev.messages[x], ev.pk)
  }

  /** Second pass: whom an opened key incriminates. */
  ghost function OpeningVerdict(C: Suite, ev: Evidence, accuser: Identifier, peer: Identifier, key: Bytes32)
    : Option<Identifier>
  {
    if accuser !in ev.pk.partialVerificationKeys then Some(accuser)
    else if peer !in ev.pk.partialVerificationKeys[accuser].pairwiseKeyCommitments then Some(accuser)
    else if ev.pk.partialVerificationKeys[accuser].pairwiseKeyCommitments[peer] != KeyCommitment(C, key)
    then Some(accuser)
    else if !HasCommitment(ev.messages, peer, accuser) then Some(peer)
    else if ev.messages[peer].blindingCommitments[accuser]
            != KeyedCommitment(C, ev.pkg, ev.shares, ev.pk.pedersenH, key)
    then Some(peer)
    else None
  }

  predicate Opened(decisions: map<Identifier, IA2Decision>, i: Identifier, j: Identifier) {
    i in decisions && j in decisions[i].openedPairwiseKeys
  }

  /** Third pass: whom the cross-check of the pair i < j incriminates. */
  function PairVerdict(ev: Evidence, i: Identifier, j: Identifier): set<Identifier> {
    if i !in ev.messages then {i}
    else if j !in ev.messages then {j}
    else if !HasCommitment(ev.messages, i, j) then {i}
    else if !HasCommitment(ev.messages, j, i) then {j}
    else if !Disagree(ev.messages, i, j) then {}
    else (if Opened(ev.decisions, i, j) then {} else {i}) + (if Opened(ev.decisions, j, i) then {} else {j})
  }

  ghost predicate OpeningBlames(C: Suite, ev: Evidence, accuser: Identifier, peer: Identifier, x: Identifier) {
    && Opened(ev.decisions, accuser, peer)
    && OpeningVerdict(C, ev, accuser, peer, ev.decisions[accuser].openedPairwiseKeys[peer]) == Some(x)
  }

  ghost predicate AccuserBlames(C: Suite, ev: Evidence, accuser: Identifier, x: Identifier) {
    exists p :: OpeningBlames(C, ev, accuser, p, x)
  }

  predicate PairBlames(ev: Evidence, i: Identifier, j: Identifier, x: Identifier) {
    i < j && x in PairVerdict(ev, i, j)
  }

  /** The three ways to be named. */
  ghost predicate Blamed(C: Suite, ev: Evidence, x: Identifier) {
    || (x in Ids(ev.pkg) && ProofFails(C, ev, x))
    || (exists a :: AccuserBlames(C, ev, a, x))
    || (exists i, j :: i in Ids(ev.pkg) && j in Ids(ev.pkg) && PairBlames(ev, i, j, x))
  }

  method Decide(C: Suite, ev: Evidence) returns (malicious: set<Identifier>)
    requires forall x :: x in Ids(ev.pkg) && ev.Reaches(x) ==> ev.Defined(C)
    ensures forall x :: x in malicious <==> Blamed(C, ev, x)
  {
    hide ProofFails, AccuserBlames, PairBlames;
    var fromProofs := CheckProofs(C, ev);
    var fromOpenings := ReplayOpenings(C, ev);
    var fromPairs := CrossCheck(ev);
    malicious := fromProofs + fromOpenings + fromPairs;
  }

  /** The first pass of decide. */
  method CheckProofs(C: Suite, ev: Evidence) returns (malicious: set<Identifier>)
    requires forall x :: x in Ids(ev.pkg) && ev.Reaches(x) ==> ev.Defined(C)
    ensures forall x :: x in malicious <==> x in Ids(ev.pkg) && ProofFails(C, ev, x)
  {
    hide ProofFails, Ascending, Distinct;
    var ids := SignerIds(ev.pkg);
    malicious := {};
    for k := 0 to |ids|
      invariant forall x :: x in malicious <==> x in ids[..k] && ProofFails(C, ev, x)
    {
      TakeStep(ids, k);
      var fails := CheckSigner(C, ev, ids[k]);
      if fails {
        malicious := malicious + {ids[k]};
      }
    }
    TakeAll(ids);
  }

  /** The body of the first pass for one signer. */
  method CheckSigner(C: Suite, ev: Evidence, id: Identifier) returns (fails: bool)
    requires ev.Reaches(id) ==> ev.Defined(C)
    ensures fails == ProofFails(C, ev, id)
  {
    hide ProofAccepted;
    if id !in ev.shares {
      return true;
    }
    if id !in ev.messages {
      return true;
    }
    var valid := VerifyWellformedProof(C, ev.pkg, ev.shares[id], ev.messages[id], ev.pk);
    return !valid;
  }

  /** The second pass of decide: replay every opened key. */
  method ReplayOpenings(C: Suite, ev: Evidence) returns (malicious: set<Identifier>)
    ensures forall x :: x in malicious <==> exists a :: AccuserBlames(C, ev, a, x)
  {
    hide AccuserBlames, PackagePrefix, View, Ascending, Distinct;
    var ids := SignerIds(ev.pkg);
    var commitments := EncodeCommitments(C, ev.pkg.signingCommitments);
    var signerSet := EncodeSignerSet(ids);
    var view := IaViewBytes(C, ev.pkg, ev.shares);
    var base := BlindingBase(C, commitments, ev.pkg.message, signerSet);
    PrefixAndView(C, ev.pkg, ev.shares);
    malicious := {};
    var accusers := Keys(ev.decisions.Keys);
    for k := 0 to |accusers|
      invariant base.absorbed == PackagePrefix(C, ev.pkg)
      invariant forall x :: x in malicious <==> exists a :: a in accusers[..k] && AccuserBlames(C, ev, a, x)
    {
      TakeStep(accusers, k);
      var blamed := ReplayAccuser(C, ev, base, view, accusers[k]);
      malicious := malicious + blamed;
    }
    TakeAll(accusers);
    AccusersDecided(C, ev);
  }

  lemma AccusersDecided(C: Suite, ev: Evidence)
    ensures forall a, x :: AccuserBlames(C, ev, a, x) ==> a in ev.decisions
  {
    hide OpeningVerdict;
  }

  /** The keys that one accuser opened. */
  method ReplayAccuser(C: Suite, ev: Evidence, base: ScalarHasher, view: bytes, accuser: Identifier)
    returns (malicious: set<Identifier>)
    requires accuser in ev.decisions
    requires base.absorbed == PackagePrefix(C, ev.pkg) && view == View(C, ev.pkg, ev.shares)
    ensures base.absorbed == PackagePrefix(C, ev.pkg)
    ensures forall x :: x in malicious <==> AccuserBlames(C, ev, accuser, x)
  {
    hide OpeningVerdict, PackagePrefix, View, Ascending, Distinct;
    var openedKeys := ev.decisions[accuser].openedPairwiseKeys;
    var peers := Keys(openedKeys.Keys);
    malicious := {};
    for l := 0 to |peers|
      invariant base.absorbed == PackagePrefix(C, ev.pkg)
      invariant forall x :: x in malicious <==> exists p :: p in peers[..l] && OpeningBlames(C, ev, accuser, p, x)
    {
      var peer := peers[l];
      TakeStep(peers, l);
      var verdict := ReplayOne(C, ev, base, view, accuser, peer, openedKeys[peer]);
      assert forall x: Identifier :: OpeningBlames(C, ev, accuser, peer, x) <==> verdict == Some(x);
      if verdict.Some? {
        malicious := malicious + {verdict.value};
      }
    }
    TakeAll(peers);
  }

  /** The body of the second pass for one opened key. */
  method ReplayOne(C: Suite, ev: Evidence, base: ScalarHasher, view: bytes, accuser: Identifier, peer: Identifier,
                   key: Bytes32)
    returns (verdict: Option<Identifier>)
    requires base.absorbed == PackagePrefix(C, ev.pkg) && view == View(C, ev.pkg, ev.shares)
    ensures base.absorbed == PackagePrefix(C, ev.pkg)
    ensures verdict == OpeningVerdict(C, ev, accuser, peer, key)
  {
    hide PackagePrefix, View, RandomizerInput, PedersenCommit, KeyCommitment;
    if accuser !in ev.pk.partialVerificationKeys {
      return Some(accuser);
    }
    var vkAccuser := ev.pk.partialVerificationKeys[accuser];
    if peer !in vkAccuser.pairwiseKeyCommitments {
      return Some(accuser);
    }
    if KeyCommitment(C, key) != vkAccuser.pairwiseKeyCommitments[peer] {
      return Some(accuser);
    }
    var branch := base.Clone();
    var B := branch.FinishWith(C, key);
    var omega := C.hash(RandomizerInput(C, key, view));
    var expected := PedersenCommit(B, omega, ev.pk.pedersenH);
    if peer !in ev.messages {
      return Some(peer);
    }
    if accuser !in ev.messages[peer].blindingCommitments {
      return Some(peer);
    }
    if ev.messages[peer].blindingCommitments[accuser] != expected {
      return Some(peer);
    }
    return None;
  }

  /** The third pass of decide: the two commitments of every pair must agree, or both sides must have opened. */
  method CrossCheck(ev: Evidence) returns (malicious: set<Identifier>)
    ensures forall x ::
              x in malicious <==> exists i, j :: i in Ids(ev.pkg) && j in Ids(ev.pkg) && PairBlames(ev, i, j, x)
  {
    hide PairBlames;
    var ids := SignerIds(ev.pkg);
    malicious := {};
    for k := 0 to |ids|
      invariant forall x :: x in malicious <==> exists i, j :: i in ids[..k] && j in ids && PairBlames(ev, i, j, x)
    {
      TakeStep(ids, k);
      var blamed := CrossCheckWith(ev, ids, ids[k]);
      malicious := malicious + blamed;
    }
    TakeAll(ids);
  }

  /** The cross-check of signer i with every later signer. */
  method CrossCheckWith(ev: Evidence, ids: seq<Identifier>, i: Identifier) returns (malicious: set<Identifier>)
    ensures forall x :: x in malicious <==> exists j :: j in ids && PairBlames(ev, i, j, x)
  {
    hide HasCommitment, Disagree, Opened;
    malicious := {};
    for l := 0 to |ids|
      invariant forall x :: x in malicious <==> exists j :: j in ids[..l] && PairBlames(ev, i, j, x)
    {
      var j := ids[l];
      TakeStep(ids, l);
      if i >= j {
        continue;
      }
      var verdict := CrossCheckPair(ev, i, j);
      assert forall x :: PairBlames(ev, i, j, x) <==> x in verdict;
      malicious := malicious + verdict;
    }
    TakeAll(ids);
  }

  /** The body of the third pass for one pair. */
  method CrossCheckPair(ev: Evidence, i: Identifier, j: Identifier) returns (malicious: set<Identifier>)
    ensures malicious == PairVerdict(ev, i, j)
  {
    if i !in ev.messages {
      return {i};
    }
    if j !in ev.messages {
      return {j};
    }
    if j !in ev.messages[i].blindingCommitments {
      return {i};
    }
    if i !in ev.messages[j].blindingCommitments {
      return {j};
    }
    malicious := {};
    if ev.messages[i].blindingCommitments[j] != ev.messages[j].blindingCommitments[i] {
      var iOpenedJ := i in ev.decisions && j in ev.decisions[i].openedPairwiseKeys;
      var jOpenedI := j in ev.decisions && i in ev.decisions[j].openedPairwiseKeys;
      if !iOpenedJ {
        malicious := malicious + {i};
      }
      if !jOpenedI {
        malicious := malicious + {j};
      }
    }
  }

  // ---------- prover and verifier loops ----------

  /** G * start plus the signed peer terms, accumulated point by point; None when a peer has no value. */
  method SignedPoint(start: Scalar, ids: seq<Identifier>, i: Identifier, values: map<Identifier, Scalar>)
    returns (r: Option<Point>)
    ensures r == if PeersOf(ids, i) <= values.Keys
                 then Some(MulGenerator(Add(start, Sum(ids, Signed(i, values)))))
                 else None
    ensures r.None? ==> exists j :: j in ids && j != i && j !in values
  {
    hide Mod, Add, Mul, Delta;
    var t := MulGenerator(start);
    AddZero(start);
    for k := 0 to |ids|
      invariant forall j :: j in ids[..k] && j != i ==> j in values
      invariant t == MulGenerator(Add(start, Sum(ids[..k], Signed(i, values))))
    {
      var j := ids[k];
      TakeStep(ids, k);
      SumStep(ids, k, Signed(i, values));
      AddAssoc(start, Sum(ids[..k], Signed(i, values)), Signed(i, values)(j));
      if j == i {
        AddZero(Add(start, Sum(ids[..k], Signed(i, values))));
        continue;
      }
      if j !in values {
        assert j in PeersOf(ids, i);
        return None;
      }
      t := PAdd(t, MulGenerator(Mul(values[j], Delta(i, j))));
    }
    TakeAll(ids);
    r := Some(t);
  }

  lemma AddAssoc(a: Scalar, b: Scalar, c: Scalar)
    ensures Add(Add(a, b), c) == Add(a, Add(b, c))
  {
    hide Mod, Add;
    Lift();
    Rep(a); Rep(b); Rep(c);
  }

  method ProveWellformed(C: Suite, pkg: SigningPackage, share: SignatureShare, kp: KeyPackage, pk: PublicKeyPackage,
                         values: map<Identifier, Scalar>, randomizers: map<Identifier, Scalar>,
                         commitments: map<Identifier, Point>, coins: ProverCoins)
    returns (proof: WellformedProof)
    requires PackageDefined(C, pk.verifyingKey, pkg)
    requires values.Keys == PeersOf(Ids(pkg), kp.identifier) == randomizers.Keys
    ensures var ids, i, h := Ids(pkg), kp.identifier, pk.pedersenH;
            var weight := Weight(C, pkg, pk.verifyingKey, i);
            var e := ProofChallengeOf(C, pkg, share, pk, commitments, CommitSig(ids, i, weight, coins),
                CommitKey(h, coins),
                                      CommitBlind(ids, i, h, coins));
            proof == Respond(ids, i, weight, h,
                             Witness(kp.signingShare, kp.signingShareBlinding, values, randomizers), coins, e)
  {
    hide Mod, Add, Mul, Neg, Sum, Coefficient, PedersenCommit, TranscriptOf, OverPeers, NonceChallenge, SigChallenge;
    var ids := SignerIds(pkg);
    var i := kp.identifier;
    var b := ComputeNonceChallenge(C, pkg, pk);
    var c := ComputeSigChallenge(C, pkg, pk);
    var lambda := LagrangeCoefficient(i, ids);
    var rBlind, tBlind := CommitPeers(ids, i, pk.pedersenH, coins);
    var tSig := SignedPoint(Mul(Mul(lambda, c), coins.rSk), ids, i, rBlind);
    var tKey := PedersenCommit(coins.rSk, coins.rSkBlinding, pk.pedersenH);
    var e := ProofChallenge(C, pkg, share, pk, commitments, tSig.value, tKey, tBlind, b, c);
    var zBlind, zBlindBlinding := RespondPeers(ids, i, coins, e, values, randomizers);
    proof := WellformedProof(tSig.value, tKey, tBlind,
                             Add(coins.rSk, Mul(e, kp.signingShare)),
                             Add(coins.rSkBlinding, Mul(e, kp.signingShareBlinding)),
                             zBlind, zBlindBlinding);
  }

  /** The prover's loops over its peers, before the challenge. */
  method CommitPeers(ids: seq<Identifier>, i: Identifier, h: Point, coins: ProverCoins)
    returns (rBlind: map<Identifier, Scalar>, tBlind: map<Identifier, Point>)
    ensures rBlind == CoinMap(ids, i, coins.rBlind) && tBlind == CommitBlind(ids, i, h, coins)
  {
    hide PedersenCommit, OverPeers;
    rBlind, tBlind := map[], map[];
    OverNoPeers(ids[..0], i, coins.rBlind);
    OverNoPeers(ids[..0], i, PeerCommits(h, coins));
    for k := 0 to |ids|
      invariant rBlind == OverPeers(ids[..k], i, coins.rBlind)
      invariant tBlind == OverPeers(ids[..k], i, PeerCommits(h, coins))
    {
      var j := ids[k];
      OverPeersStep(ids, k, i, coins.rBlind);
      OverPeersStep(ids, k, i, PeerCommits(h, coins));
      if j == i {
        continue;
      }
      rBlind := rBlind[j := coins.rBlind(j)];
      tBlind := tBlind[j := PedersenCommit(coins.rBlind(j), coins.rBlindBlinding(j), h)];
    }
    TakeAll(ids);
  }

  /** The prover's loop over its peers, after the challenge. */
  method RespondPeers(ids: seq<Identifier>, i: Identifier, coins: ProverCoins, e: Scalar,
                      values: map<Identifier, Scalar>, randomizers: map<Identifier, Scalar>)
    returns (zBlind: map<Identifier, Scalar>, zBlindBlinding: map<Identifier, Scalar>)
    requires PeersOf(ids, i) <= values.Keys && PeersOf(ids, i) <= randomizers.Keys
    ensures zBlind == OverPeers(ids, i, PeerResponses(coins.rBlind, e, values))
    ensures zBlindBlinding == OverPeers(ids, i, PeerResponses(coins.rBlindBlinding, e, randomizers))
  {
    hide Mod, Add, Mul, OverPeers;
    zBlind, zBlindBlinding := map[], map[];
    var f, g := PeerResponses(coins.rBlind, e, values), PeerResponses(coins.rBlindBlinding, e, randomizers);
    OverNoPeers(ids[..0], i, f);
    OverNoPeers(ids[..0], i, g);
    for k := 0 to |ids|
      invariant zBlind == OverPeers(ids[..k], i, f) && zBlindBlinding == OverPeers(ids[..k], i, g)
    {
      var j := ids[k];
      OverPeersStep(ids, k, i, f);
      OverPeersStep(ids, k, i, g);
      if j == i {
        continue;
      }
      assert j in PeersOf(ids, i);
      zBlind := zBlind[j := Add(coins.rBlind(j), Mul(e, values[j]))];
      zBlindBlinding := zBlindBlinding[j := Add(coins.rBlindBlinding(j), Mul(e, randomizers[j]))];
    }
    TakeAll(ids);
  }

  method ComputeNonceChallenge(C: Suite, pkg: SigningPackage, pk: PublicKeyPackage) returns (b: Scalar)
    ensures b == NonceChallenge(C, pk.verifyingKey, pkg)
  {
    var commitments := EncodeCommitments(C, pkg.signingCommitments);
    var ids := SignerIds(pkg);
    var signerSet := EncodeSignerSet(ids);
    b := BindingFactor(C, pk.verifyingKey, signerSet, pkg.message, commitments);
  }

  method ComputeSigChallenge(C: Suite, pkg: SigningPackage, pk: PublicKeyPackage) returns (c: Scalar)
    requires PackageDefined(C, pk.verifyingKey, pkg)
    ensures c == SigChallenge(C, pk.verifyingKey, pkg)
  {
    hide Mod, Add, Mul;
    var b := ComputeNonceChallenge(C, pkg, pk);
    var D, E := AggregateNonces(pkg);
    c := ComputeChallenge(C, pk.verifyingKey, PAdd(D, PMul(E, b)), pkg.message);
  }

  method Ia1(C: Suite, pkg: SigningPackage, share: SignatureShare, kp: KeyPackage, pk: PublicKeyPackage,
             shares: map<Identifier, SignatureShare>, coins: ProverCoins)
    returns (r: Result<IA1Message, Error>)
    requires Ia1Of(C, pkg, share, kp, pk, shares, coins).Ok? ==> PackageDefined(C, pk.verifyingKey, pkg)
    ensures r == Ia1Of(C, pkg, share, kp, pk, shares, coins)
  {
    hide Mod, Add, Mul, Neg, Sum, PedersenCommit, Weight, ProofChallengeOf, PackagePrefix, View, RandomizerInput,
         OverPeers,
         FirstMissingKey, Respond, Ascending, Distinct;
    var ids := SignerIds(pkg);
    var i := kp.identifier;
    if share.identifier != i || i !in ids {
      return Err(UnknownSigner(i));
    }
    var commitmentsBytes := EncodeCommitments(C, pkg.signingCommitments);
    var signerSet := EncodeSignerSet(ids);
    var view := IaViewBytes(C, pkg, shares);
    var base := BlindingBase(C, commitmentsBytes, pkg.message, signerSet);
    PrefixAndView(C, pkg, shares);
    var missing, values, randomizers, commitments := BlindPeers(C, pkg, kp, shares, pk.pedersenH, base, view);
    if missing.Some? {
      return Err(MissingPairwiseKey(missing.value));
    }
    var proof := ProveWellformed(C, pkg, share, kp, pk, values, randomizers, commitments, coins);
    r := Ok(IA1Message(i, commitments, proof));
  }

  /** The loop of ia1 over the peers: blinding value, randomness and commitment for every pairwise key. */
  method BlindPeers(C: Suite, pkg: SigningPackage, kp: KeyPackage, shares: map<Identifier, SignatureShare>, h: Point,
                    base: ScalarHasher, view: bytes)
    returns (missing: Option<Identifier>, values: map<Identifier, Scalar>, randomizers: map<Identifier, Scalar>,
             commitments: map<Identifier, Point>)
    requires base.absorbed == PackagePrefix(C, pkg) && view == View(C, pkg, shares)
    ensures missing == FirstMissingKey(kp, Ids(pkg))
    ensures missing.None? ==>
              && values == BlindingValues(C, pkg, kp)
              && randomizers == BlindingRandomizers(C, pkg, kp, shares)
              && commitments == BlindingCommitmentsOf(C, pkg, kp, shares, h)
  {
    hide PedersenCommit, PackagePrefix, View, RandomizerInput, OverPeers, FirstMissingKey, Ascending, Distinct;
    var ids := SignerIds(pkg);
    var i := kp.identifier;
    values, randomizers, commitments := map[], map[], map[];
    ghost var f, g, p := ValueFor(C, pkg, kp), RandomizerFor(C, pkg, kp, shares), CommitmentFor(C, pkg, kp, shares, h);
    OverNoPeers(ids[..0], i, f);
    OverNoPeers(ids[..0], i, g);
    OverNoPeers(ids[..0], i, p);
    for k := 0 to |ids|
      invariant base.absorbed == PackagePrefix(C, pkg)
      invariant FirstMissingKey(kp, ids) == FirstMissingKey(kp, ids[k..])
      invariant values == OverPeers(ids[..k], i, f)
      invariant randomizers == OverPeers(ids[..k], i, g)
      invariant commitments == OverPeers(ids[..k], i, p)
    {
      var j := ids[k];
      FirstMissingKeyAt(kp, ids, k);
      OverPeersStep(ids, k, i, f);
      OverPeersStep(ids, k, i, g);
      OverPeersStep(ids, k, i, p);
      if j == i {
        continue;
      }
      if j !in kp.pairwiseKeys {
        missing := Some(j);
        return;
      }
      var key := kp.pairwiseKeys[j];
      var branch := base.Clone();
      var B := branch.FinishWith(C, key);
      var omega := C.hash(RandomizerInput(C, key, view));
      values := values[j := B];
      randomizers := randomizers[j := omega];
      commitments := commitments[j := PedersenCommit(B, omega, h)];
    }
    TakeAll(ids);
    missing := None;
    NoneMissingFrom(kp, ids[|ids|..]);
  }

  lemma NoneMissingFrom(kp: KeyPackage, ids: seq<Identifier>)
    requires |ids| == 0
    ensures FirstMissingKey(kp, ids) == None
  {
  }

  lemma PrefixAndView(C: Suite, pkg: SigningPackage, shares: map<Identifier, SignatureShare>)
    ensures PackagePrefix(C, pkg)
         == BlindingPrefix(C, CommitmentsEncoding(C, pkg.signingCommitments), pkg.message, SignerSetEncoding(Ids(pkg)))
    ensures View(C, pkg, shares) == CommitmentsEncoding(C, pkg.signingCommitments) + SharesEncoding(C, shares)
  {
  }

  method VerifyWellformedProof(C: Suite, pkg: SigningPackage, share: SignatureShare, msg: IA1Message,
                               pk: PublicKeyPackage)
    returns (valid: bool)
    requires ReachesChallenge(pkg, share, msg, pk) ==> PackageDefined(C, pk.verifyingKey, pkg)
    ensures valid == ProofAccepted(C, pkg, share, msg, pk)
  {
    hide Mod, Add, Sub, Mul, Neg, Sum, TotalCommitments, Coefficient, TranscriptOf, NonceChallenge, SigChallenge,
         HasEntries;
    var ids := SignerIds(pkg);
    var i := share.identifier;
    if msg.identifier != i {
      return false;
    }
    if i !in pk.partialVerificationKeys {
      return false;
    }
    if i !in pkg.signingCommitments {
      return false;
    }
    var vki := pk.partialVerificationKeys[i];
    var own := pkg.signingCommitments[i];
    var b := ComputeNonceChallenge(C, pkg, pk);
    var c := ComputeSigChallenge(C, pkg, pk);
    var lambda := LagrangeCoefficient(i, ids);
    var aggD, aggE := AggregateNonces(pkg);
    var (_, sign) := NormalizeShareR(C, PAdd(aggD, PMul(aggE, b)), 1);
    var A := PSub(MulGenerator(share.z), PMul(PAdd(own.D, PMul(own.E, b)), sign));
    var e := ProofChallenge(C, pkg, share, pk, msg.blindingCommitments, msg.proof.tSig, msg.proof.tKey,
        msg.proof.tBlind, b, c);
    var st := Statement(ids, i, Mul(lambda, c), A, vki.signingShareCommitment, pk.pedersenH, msg.blindingCommitments);
    assert st == StatementOf(C, pkg, share, pk, msg.blindingCommitments);
    assert e == ChallengeOfMessage(C, pkg, share, msg, pk);
    valid := CheckEquations(st, msg.proof, e);
  }

  /** The verifier's three groups of equations. */
  method CheckEquations(st: Statement, proof: WellformedProof, e: Scalar) returns (valid: bool)
    ensures valid == Accepts(st, proof, e)
  {
    hide Mod, Add, Mul, Neg, Sum;
    var signedSum := SignedPoint(Mul(st.weight, proof.zSk), st.ids, st.i, proof.zBlind);
    if signedSum.None? {
      assert exists j :: j in st.ids && j != st.i && !HasEntries(st, proof, j);
      return false;
    }
    var rhsSig := PAdd(signedSum.value, PMul(st.A, Neg(e)));
    if rhsSig != proof.tSig {
      return false;
    }
    var rhsKey := PAdd(PAdd(MulGenerator(proof.zSk), PMul(st.h, proof.zSkBlinding)), PMul(st.vki, Neg(e)));
    if rhsKey != proof.tKey {
      return false;
    }
    for k := 0 to |st.ids|
      invariant forall j :: j in st.ids[..k] && j != st.i ==>
        && HasEntries(st, proof, j)
        && OpeningEquation(st.h, st.commitments[j], proof.tBlind[j], proof.zBlind[j], proof.zBlindBlinding[j], e)
    {
      var j := st.ids[k];
      TakeStep(st.ids, k);
      if j == st.i {
        continue;
      }
      if j !in st.commitments || j !in proof.tBlind || j !in proof.zBlind || j !in proof.zBlindBlinding {
        assert !HasEntries(st, proof, j);
        return false;
      }
      var rhs := PAdd(PAdd(MulGenerator(proof.zBlind[j]), PMul(st.h, proof.zBlindBlinding[j])),
                      PMul(st.commitments[j], Neg(e)));
      if rhs != proof.tBlind[j] {
        assert HasEntries(st, proof, j);
        return false;
      }
    }
    TakeAll(st.ids);
    return true;
  }
}
