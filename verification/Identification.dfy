/** An empty verdict means a valid signature, or somebody has broken a commitment. */
module Identification {
  import opened PrimeField
  import opened Sums
  import opened Lagrange
  import opened Ciphersuites
  import opened Wire
  import opened Hashing
  import opened Signing
  import opened Keygen
  import opened Sigma
  import opened IdentifiableAbort
  import opened Accountability
  import opened NonFraming

  /** Every signer has a share and a message under its own identifier, with an accepted proof. */
  ghost predicate AllAccepted(C: Suite, ev: Evidence) {
    forall x :: x in Ids(ev.pkg) ==> x in ev.shares && !ProofFails(C, ev, x) && ev.shares[x].identifier == x
  }

  ghost predicate InPlay(ev: Evidence, x: Identifier) {
    && x in ev.shares && x in ev.messages && x in ev.pkg.signingCommitments && x in ev.pk.partialVerificationKeys
    && ev.shares[x].identifier == x
  }

  ghost function StatementFor(C: Suite, ev: Evidence, x: Identifier): Statement
    requires InPlay(ev, x)
  {
    StatementOf(C, ev.pkg, ev.shares[x], ev.pk, ev.messages[x].blindingCommitments)
  }

  /** A second accepting run of the proof of x: same first message, another challenge. */
  datatype Fork = Fork(challenge: Scalar, proof: WellformedProof)

  ghost predicate ForkOf(C: Suite, ev: Evidence, x: Identifier, fork: Fork)
    requires InPlay(ev, x)
  {
    && fork.challenge != ChallengeOfMessage(C, ev.pkg, ev.shares[x], ev.messages[x], ev.pk)
    && SameFirstMessage(ev.messages[x].proof, fork.proof)
    && Accepts(StatementFor(C, ev, x), fork.proof, fork.challenge)
  }

  /** The witness explains the commitments and the response of x. */
  ghost predicate Explained(C: Suite, ev: Evidence, x: Identifier, w: Witness) {
    && InPlay(ev, x)
    && Opens(StatementFor(C, ev, x), w)
    && StatementFor(C, ev, x).A == MulGenerator(Claimed(StatementFor(C, ev, x), w))
  }

  lemma AcceptedInPlay(C: Suite, ev: Evidence, x: Identifier)
    requires AllAccepted(C, ev) && x in Ids(ev.pkg)
    ensures InPlay(ev, x)
    ensures Accepts(StatementFor(C, ev, x), ev.messages[x].proof,
        ChallengeOfMessage(C, ev.pkg, ev.shares[x], ev.messages[x], ev.pk))
  {
    hide Accepts, ChallengeOfMessage, StatementOf;
    assert !ProofFails(C, ev, x);
  }

  /** w is what the extractor computes from the accepted proof of x and its second run. */
  ghost predicate Extracted(C: Suite, ev: Evidence, x: Identifier, fork: Fork, w: Witness) {
    && InPlay(ev, x) && ForkOf(C, ev, x, fork)
    && var e := ChallengeOfMessage(C, ev.pkg, ev.shares[x], ev.messages[x], ev.pk);
       && Accepts(StatementFor(C, ev, x), ev.messages[x].proof, e)
       && w == Extract(StatementFor(C, ev, x), ev.messages[x].proof, e, fork.proof, fork.challenge)
  }

  lemma ExtractedExplains(C: Suite, ev: Evidence, x: Identifier, fork: Fork, w: Witness)
    requires Extracted(C, ev, x, fork, w)
    ensures Explained(C, ev, x, w)
  {
    hide Accepts, ChallengeOfMessage, StatementFor, Opens, Claimed, Extract;
    SpecialSoundness(StatementFor(C, ev, x), ev.messages[x].proof,
                     ChallengeOfMessage(C, ev.pkg, ev.shares[x], ev.messages[x], ev.pk), fork.proof, fork.challenge);
  }

  lemma ExtractFromFork(C: Suite, ev: Evidence, x: Identifier, fork: Fork) returns (w: Witness)
    requires AllAccepted(C, ev) && x in Ids(ev.pkg)
    requires InPlay(ev, x) && ForkOf(C, ev, x, fork)
    ensures Extracted(C, ev, x, fork, w)
  {
    hide Accepts, ChallengeOfMessage, StatementFor, AllAccepted, Extract;
    AcceptedInPlay(C, ev, x);
    var e := ChallengeOfMessage(C, ev.pkg, ev.shares[x], ev.messages[x], ev.pk);
    w := Extract(StatementFor(C, ev, x), ev.messages[x].proof, e, fork.proof, fork.challenge);
  }

  // ---------- broken commitments ----------

  /** The witness of x and the dealer open the signing-share commitment of x differently. */
  ghost predicate KeyOpenedTwice(ev: Evidence, kps: map<Identifier, KeyPackage>, ws: map<Identifier, Witness>,
                                 x: Identifier)
  {
    && x in ws && x in kps && x in ev.pk.partialVerificationKeys
    && DoubleOpening(ev.pk.partialVerificationKeys[x].signingShareCommitment, ev.pk.pedersenH,
                     ws[x].sk, ws[x].omega, kps[x].signingShare, kps[x].signingShareBlinding)
  }

  /** The witnesses of i and j open their common blinding commitment differently. */
  ghost predicate PairOpenedTwice(ev: Evidence, ws: map<Identifier, Witness>, i: Identifier, j: Identifier) {
    && i in ws && j in ws && HasCommitment(ev.messages, i, j)
    && j in ws[i].blind && j in ws[i].blindBlinding && i in ws[j].blind && i in ws[j].blindBlinding
    && DoubleOpening(ev.messages[i].blindingCommitments[j], ev.pk.pedersenH,
                     ws[i].blind[j], ws[i].blindBlinding[j], ws[j].blind[i], ws[j].blindBlinding[i])
  }

  /** i and j opened colliding keys for their pair. */
  ghost predicate PairCollision(C: Suite, ev: Evidence, i: Identifier, j: Identifier) {
    && Opened(ev.decisions, i, j) && Opened(ev.decisions, j, i)
    && KeyCollision(C, ev.decisions[i].openedPairwiseKeys[j], ev.decisions[j].openedPairwiseKeys[i])
  }

  ghost predicate CommitmentBroken(C: Suite, ev: Evidence, kps: map<Identifier, KeyPackage>,
                                   ws: map<Identifier, Witness>)
  {
    || (exists x :: KeyOpenedTwice(ev, kps, ws, x))
    || (exists i, j :: PairOpenedTwice(ev, ws, i, j))
    || (exists i, j :: PairCollision(C, ev, i, j))
  }

  /** The signers hold shares of the key, under records that commit to their packages. */
  ghost predicate KeysDealt(C: Suite, ev: Evidence, kps: map<Identifier, KeyPackage>) {
    && SharesOf(kps, ev.pkg, ev.pk.verifyingKey)
    && forall x :: x in Ids(ev.pkg) ==> x in kps && RecordMatches(C, ev.pk, kps[x])
  }

  ghost predicate NobodyNamed(C: Suite, ev: Evidence) {
    forall x :: x in Ids(ev.pkg) ==> !Blamed(C, ev, x)
  }

  ghost predicate AllExplained(C: Suite, ev: Evidence, ws: map<Identifier, Witness>) {
    forall x :: x in Ids(ev.pkg) ==> x in ws && Explained(C, ev, x, ws[x])
  }

  ghost predicate AllForked(C: Suite, ev: Evidence, forks: map<Identifier, Fork>) {
    forall x :: x in Ids(ev.pkg) ==> x in forks && InPlay(ev, x) && ForkOf(C, ev, x, forks[x])
  }

  /** Every share of the package sits under its own identifier. */
  ghost predicate OwnIdentifiers(ev: Evidence) {
    forall x :: x in Ids(ev.pkg) && x in ev.shares ==> ev.shares[x].identifier == x
  }

  /** The proofs that the verifier accepts can be rewound. */
  ghost predicate AcceptedForked(C: Suite, ev: Evidence, forks: map<Identifier, Fork>) {
    forall x :: x in Ids(ev.pkg) && InPlay(ev, x) && !ProofFails(C, ev, x) ==> x in forks && ForkOf(C, ev, x, forks[x])
  }

  lemma SilenceForksAll(C: Suite, ev: Evidence, forks: map<Identifier, Fork>)
    requires NobodyNamed(C, ev) && OwnIdentifiers(ev) && AcceptedForked(C, ev, forks)
    ensures AllForked(C, ev, forks)
  {
    hide ProofAccepted, ForkOf, AccuserBlames, PairBlames;
    forall x | x in Ids(ev.pkg)
      ensures x in forks && InPlay(ev, x) && ForkOf(C, ev, x, forks[x])
    {
      assert !Blamed(C, ev, x);
      AcceptedHasRecord(C, ev.pkg, ev.shares[x], ev.messages[x], ev.pk);
    }
  }

  lemma AcceptedHasRecord(C: Suite, pkg: SigningPackage, share: SignatureShare, msg: IA1Message, pk: PublicKeyPackage)
    requires ProofAccepted(C, pkg, share, msg, pk)
    ensures share.identifier in pk.partialVerificationKeys
  {
    hide Accepts;
  }

  ghost predicate AllExtracted(C: Suite, ev: Evidence, forks: map<Identifier, Fork>, ws: map<Identifier, Witness>) {
    forall x :: x in Ids(ev.pkg) ==> x in forks && x in ws && Extracted(C, ev, x, forks[x], ws[x])
  }

  // ---------- the argument ----------

  lemma WitnessIsDealt(C: Suite, ev: Evidence, kps: map<Identifier, KeyPackage>, ws: map<Identifier, Witness>,
                       x: Identifier)
    requires KeysDealt(C, ev, kps) && x in Ids(ev.pkg) && x in ws && Explained(C, ev, x, ws[x])
    requires !CommitmentBroken(C, ev, kps, ws)
    ensures ws[x].sk == kps[x].signingShare
  {
    hide PedersenCommit, Claimed, KeyCommitment, SharedSecret, Weight, ResponseWithoutNonce;
    assert kps[x].identifier == x;
    assert !KeyOpenedTwice(ev, kps, ws, x);
  }

  lemma RecordsAreSymmetric(C: Suite, ev: Evidence, kps: map<Identifier, KeyPackage>, i: Identifier, j: Identifier)
    requires KeysDealt(C, ev, kps) && i in Ids(ev.pkg) && j in Ids(ev.pkg) && i != j
    ensures SymmetricRecords(ev.pk, i, j)
  {
    hide KeyCommitment, PedersenCommit, SharedSecret;
    assert kps[i].identifier == i && j in kps[i].pairwiseKeys;
    OwnRecordOf(C, ev.pk, kps[i], j);
  }

  lemma OwnRecordOf(C: Suite, pk: PublicKeyPackage, kp: KeyPackage, j: Identifier)
    requires RecordMatches(C, pk, kp) && j in kp.pairwiseKeys
    ensures SymmetricRecords(pk, kp.identifier, j)
  {
    hide KeyCommitment, PedersenCommit;
  }

  lemma PairsAgree(C: Suite, ev: Evidence, kps: map<Identifier, KeyPackage>, ws: map<Identifier, Witness>,
                   i: Identifier, j: Identifier)
    requires KeysDealt(C, ev, kps) && i in Ids(ev.pkg) && j in Ids(ev.pkg) && i < j
    requires i in ws && j in ws && Explained(C, ev, i, ws[i]) && Explained(C, ev, j, ws[j])
    requires !Blamed(C, ev, i) && !Blamed(C, ev, j) && !CommitmentBroken(C, ev, kps, ws)
    ensures j in ws[i].blind && i in ws[j].blind && ws[i].blind[j] == ws[j].blind[i]
  {
    hide PedersenCommit, Claimed, KeyCommitment, KeysDealt, Blamed, Weight, ResponseWithoutNonce;
    RecordsAreSymmetric(C, ev, kps, i, j);
    assert StatementFor(C, ev, i).ids == Ids(ev.pkg) == StatementFor(C, ev, j).ids;
    assert !PairCollision(C, ev, i, j) && !PairOpenedTwice(ev, ws, i, j);
    if Disagree(ev.messages, i, j) {
      DisagreementIsAttributed(C, ev, i, j);
    }
  }

  function SignedTable(ws: map<Identifier, Witness>): (Identifier, Identifier) -> Scalar {
    (i: Identifier, j: Identifier) => if i in ws then SignedEntry(i, ws[i].blind, j) else 0
  }

  function SignedEntry(i: Identifier, blind: map<Identifier, Scalar>, j: Identifier): Scalar {
    Signed(i, blind)(j)
  }

  /** The signed values of all witnesses add up to zero. */
  lemma WitnessBlindingCancels(ids: seq<Identifier>, ws: map<Identifier, Witness>)
    requires forall i :: i in ids ==> i in ws
    requires forall i, j :: i in ids && j in ids && i < j ==>
               j in ws[i].blind && i in ws[j].blind && ws[i].blind[j] == ws[j].blind[i]
    ensures Sum(ids, RowSums(ids, SignedTable(ws))) == 0
  {
    hide Mod, Add, Mul, Neg;
    var g := SignedTable(ws);
    forall i, j | i in ids && j in ids
      ensures Add(g(i, j), g(j, i)) == 0
    {
      if i == j {
        AddZero(0);
      } else {
        var b := if i < j then ws[i].blind[j] else ws[j].blind[i];
        OppositeTerms(b);
        MulComm(b, 1);
        MulComm(b, Neg(1));
      }
    }
    AntisymmetricSum(ids, g);
  }

  /** The nonce point of signer x under the binding factor b. */
  function NonceLogs(pkg: SigningPackage, b: Scalar): Identifier -> Scalar {
    (i: Identifier) => if i in pkg.signingCommitments
      then Add(pkg.signingCommitments[i].D.log, Mul(b, pkg.signingCommitments[i].E.log)) else 0
  }

  lemma NonceLogsSum(C: Suite, vk: Point, pkg: SigningPackage)
    ensures Sum(Ids(pkg), NonceLogs(pkg, NonceChallenge(C, vk, pkg))) == RawNonce(C, vk, pkg).log
  {
    hide Mod, Add, Mul, NonceChallenge;
    var ids, b := Ids(pkg), NonceChallenge(C, vk, pkg);
    TotalLogs(ids, pkg.signingCommitments);
    SumLinear(ids, NonceLogs(pkg, b), LogD(pkg.signingCommitments), b, LogE(pkg.signingCommitments));
    MulComm(Sum(ids, LogE(pkg.signingCommitments)), b);
  }

  lemma ResponseIsAPlusNonce(C: Suite, pkg: SigningPackage, vk: Point, share: SignatureShare)
    requires share.identifier in pkg.signingCommitments
    ensures share.z == Add(ResponseWithoutNonce(C, pkg, vk, share).log,
                           Mul(NonceSign(C, vk, pkg), NonceLogs(pkg, NonceChallenge(C, vk, pkg))(share.identifier)))
  {
    hide Mod, Add, Sub, Mul, NonceChallenge, NonceSign;
    var b, sign := NonceChallenge(C, vk, pkg), NonceSign(C, vk, pkg);
    var own := pkg.signingCommitments[share.identifier];
    MulComm(own.E.log, b);
    MulComm(Add(own.D.log, Mul(b, own.E.log)), sign);
    AddBack(share.z, Mul(sign, Add(own.D.log, Mul(b, own.E.log))));
  }

  lemma ClaimedRegrouped(st: Statement, w: Witness, lambda: Scalar, c: Scalar)
    requires st.weight == Mul(lambda, c)
    ensures Claimed(st, w) == Add(Sum(st.ids, Signed(st.i, w.blind)), Mul(c, Mul(lambda, w.sk)))
  {
    hide Mod, Add, Mul;
    MulComm(lambda, c);
    MulAssoc(c, lambda, w.sk);
    CommuteAdd(Mul(st.weight, w.sk), Sum(st.ids, Signed(st.i, w.blind)));
  }

  lemma RowIsSigned(ids: seq<Identifier>, ws: map<Identifier, Witness>, x: Identifier)
    requires x in ws
    ensures RowSums(ids, SignedTable(ws))(x) == Sum(ids, Signed(x, ws[x].blind))
  {
    hide Mod, Add, Mul, Delta;
    SumCong(ids, Row(SignedTable(ws), x), Signed(x, ws[x].blind));
  }

  /** The response of x is c * lambda_x * s_x, its signed blinding, and its signed nonce. */
  lemma ResponseExplained(C: Suite, ev: Evidence, kps: map<Identifier, KeyPackage>, ws: map<Identifier, Witness>,
                          x: Identifier)
    requires x in kps && x in Ids(ev.pkg) && x in ws && Explained(C, ev, x, ws[x])
    requires ws[x].sk == kps[x].signingShare
    ensures var ids, c := Ids(ev.pkg), SigChallenge(C, ev.pk.verifyingKey, ev.pkg);
            var rest := Add(RowSums(ids, SignedTable(ws))(x), Mul(c, WeightedShares(kps, ids)(x)));
            x in ev.shares && ev.shares[x].z
              == Add(rest, Mul(NonceSign(C, ev.pk.verifyingKey, ev.pkg),
                  NonceLogs(ev.pkg, NonceChallenge(C, ev.pk.verifyingKey, ev.pkg))(x)))
  {
    hide Mod, Add, Mul, NonceChallenge, NonceSign, NonceLogs, SigChallenge, Coefficient, Opens, ResponseWithoutNonce,
         RowSums, SignedTable, Claimed;
    var vk, ids := ev.pk.verifyingKey, Ids(ev.pkg);
    ResponseIsAPlusNonce(C, ev.pkg, vk, ev.shares[x]);
    ClaimedRegrouped(StatementFor(C, ev, x), ws[x], Coefficient(x, ids), SigChallenge(C, vk, ev.pkg));
    RowIsSigned(ids, ws, x);
  }

  lemma AddBack(a: Scalar, b: Scalar)
    ensures Add(Sub(a, b), b) == a
  {
    hide Mod, Add, Sub;
    Lift();
    Rep(a); Rep(b);
  }

  /** The sum of all explained responses is the log of the package nonce plus c * sk. */
  lemma ResponsesAddUp(C: Suite, ev: Evidence, kps: map<Identifier, KeyPackage>, ws: map<Identifier, Witness>)
    requires KeysDealt(C, ev, kps)
    requires forall x :: x in Ids(ev.pkg) ==> x in ws && Explained(C, ev, x, ws[x]) && ws[x].sk == kps[x].signingShare
    requires Sum(Ids(ev.pkg), RowSums(Ids(ev.pkg), SignedTable(ws))) == 0
    ensures Sum(Ids(ev.pkg), Responses(ev.shares))
         == Add(PackageNonce(C, ev.pk.verifyingKey, ev.pkg).log,
                Mul(SigChallenge(C, ev.pk.verifyingKey, ev.pkg), SharedSecret(kps, Ids(ev.pkg))))
  {
    hide Mod, Add, Mul, Neg, NonceChallenge, NonceSign, SigChallenge, Explained, KeysDealt, RawNonce, PackageNonce,
         RowSums, WeightedShares, NonceLogs, SignedTable;
    var vk, ids := ev.pk.verifyingKey, Ids(ev.pkg);
    var c, b, sign := SigChallenge(C, vk, ev.pkg), NonceChallenge(C, vk, ev.pkg), NonceSign(C, vk, ev.pkg);
    var blinds, weighted, nonces := RowSums(ids, SignedTable(ws)), WeightedShares(kps, ids), NonceLogs(ev.pkg, b);
    var rests := Combine(blinds, c, weighted);
    forall x | x in ids
      ensures Responses(ev.shares)(x) == Add(rests(x), Mul(sign, nonces(x)))
    {
      assert x in kps by { DealtHas(C, ev, kps, x); }
      ResponseExplained(C, ev, kps, ws, x);
    }
    SumLinear(ids, Responses(ev.shares), rests, sign, nonces);
    SumLinear(ids, rests, blinds, c, weighted);
    AddZero(Mul(c, SharedSecret(kps, ids)));
    NonceLogsSum(C, vk, ev.pkg);
    ProbeRecoversSign(C, vk, ev.pkg, 0);
    CommuteAdd(Mul(c, SharedSecret(kps, ids)), PackageNonce(C, vk, ev.pkg).log);
  }

  function Combine(f: Identifier -> Scalar, c: Scalar, g: Identifier -> Scalar): Identifier -> Scalar {
    (i: Identifier) => Add(f(i), Mul(c, g(i)))
  }

  lemma DealtHas(C: Suite, ev: Evidence, kps: map<Identifier, KeyPackage>, x: Identifier)
    requires KeysDealt(C, ev, kps) && x in Ids(ev.pkg)
    ensures x in kps
  {
    hide RecordMatches, SharesOf;
  }

  /**
    When nobody is named and every accepted proof has a witness, the responses add up to what the package
    calls for, unless a commitment has been broken.
  */
  lemma SilentResponses(C: Suite, ev: Evidence, kps: map<Identifier, KeyPackage>, ws: map<Identifier, Witness>)
    requires KeysDealt(C, ev, kps)
    requires NobodyNamed(C, ev) && AllExplained(C, ev, ws) && !CommitmentBroken(C, ev, kps, ws)
    ensures Sum(Ids(ev.pkg), Responses(ev.shares))
         == Add(PackageNonce(C, ev.pk.verifyingKey, ev.pkg).log,
                Mul(SigChallenge(C, ev.pk.verifyingKey, ev.pkg), SharedSecret(kps, Ids(ev.pkg))))
  {
    hide Add, Mul, Blamed, Explained, CommitmentBroken, PackageNonce, SigChallenge, RecordMatches, SharedSecret,
         RowSums, SignedTable, KeysShared;
    var ids := Ids(ev.pkg);
    forall x | x in ids
      ensures ws[x].sk == kps[x].signingShare
    {
      WitnessIsDealt(C, ev, kps, ws, x);
    }
    forall i, j | i in ids && j in ids && i < j
      ensures j in ws[i].blind && i in ws[j].blind && ws[i].blind[j] == ws[j].blind[i]
    {
      PairsAgree(C, ev, kps, ws, i, j);
    }
    WitnessBlindingCancels(ids, ws);
    ResponsesAddUp(C, ev, kps, ws);
  }

  /**
    Identification from witnesses: nobody is named and no commitment is broken.  Then the sum of the responses
    verifies with a nonce exactly when that nonce is consistent, a condition on public values alone.
  */
  lemma SilenceVerifiesIff(C: Suite, ev: Evidence, kps: map<Identifier, KeyPackage>, ws: map<Identifier, Witness>,
                           sig: Signature)
    requires KeysDealt(C, ev, kps)
    requires NobodyNamed(C, ev) && AllExplained(C, ev, ws) && !CommitmentBroken(C, ev, kps, ws)
    requires sig.z == Sum(Ids(ev.pkg), Responses(ev.shares)) && VerifyDefined(C, sig, ev.pk)
    ensures Verify(C, sig, ev.pkg.message, ev.pk) <==> NonceConsistent(C, ev.pk.verifyingKey, ev.pkg, sig.R)
  {
    hide Add, Mul, NobodyNamed, AllExplained, CommitmentBroken, PackageNonce, SigChallenge, RecordMatches, SharedSecret,
         KeysShared, Verify, VerifyDefined, NonceConsistent;
    SilentResponses(C, ev, kps, ws);
    VerifiesIffConsistent(C, ev.pk, ev.pkg, SharedSecret(kps, Ids(ev.pkg)), sig);
  }

  /** In particular the responses form a valid signature under the package nonce. */
  lemma SilenceMeansValid(C: Suite, ev: Evidence, kps: map<Identifier, KeyPackage>, ws: map<Identifier, Witness>)
    requires C.variant.Secp256k1Bip340? ==> CurveLaws(C)
    requires ev.Defined(C) && KeysDealt(C, ev, kps)
    requires NobodyNamed(C, ev) && AllExplained(C, ev, ws) && !CommitmentBroken(C, ev, kps, ws)
    ensures Accepted(C, ev.pk, ev.pkg,
        Signature(PackageNonce(C, ev.pk.verifyingKey, ev.pkg), Sum(Ids(ev.pkg), Responses(ev.shares))))
  {
    hide NobodyNamed, AllExplained, CommitmentBroken, KeysDealt, PackageDefined, PackageNonce, Verify, VerifyDefined,
         NonceConsistent;
    var z := Sum(Ids(ev.pkg), Responses(ev.shares));
    PackageNonceConsistent(C, ev.pk, ev.pkg, z);
    SilenceVerifiesIff(C, ev, kps, ws, Signature(PackageNonce(C, ev.pk.verifyingKey, ev.pkg), z));
  }

  // ---------- what aggregation needs ----------

  lemma {:induction false} SubsetIsSmaller(a: set<Identifier>, b: set<Identifier>)
    requires a <= b
    ensures |a| <= |b|
  {
    if a == {} {
    } else {
      var x :| x in a;
      SubsetIsSmaller(a - {x}, b - {x});
    }
  }

  lemma {:induction false} SubsetOfSameSize(a: set<Identifier>, b: set<Identifier>)
    requires a <= b && |a| == |b|
    ensures a == b
  {
    if a == {} {
    } else {
      var x :| x in a;
      SubsetOfSameSize(a - {x}, b - {x});
    }
  }

  /**
    When nobody is named, aggregation returns a signature exactly when no share comes from outside the signer set
    and all shares carry the same nonce.  Counting the shares tells as much as looking at their identifiers.
  */
  lemma AggregationSucceedsIff(C: Suite, ev: Evidence)
    requires NobodyNamed(C, ev) && |ev.pkg.signingCommitments| > 0
    ensures Aggregable(ev.pkg, ev.shares)
        <==> ev.shares.Keys <= ev.pkg.signingCommitments.Keys && OneNonce(ev.shares)
    ensures ev.shares.Keys <= ev.pkg.signingCommitments.Keys <==> |ev.shares| <= |ev.pkg.signingCommitments|
  {
    hide ProofAccepted, AccuserBlames, PairBlames, OneNonce;
    var signers, senders := ev.pkg.signingCommitments.Keys, ev.shares.Keys;
    forall x | x in signers
      ensures x in senders
    {
      assert x in Ids(ev.pkg) && !Blamed(C, ev, x);
    }
    SubsetIsSmaller(signers, senders);
    if senders <= signers {
      assert senders == signers;
    } else if |senders| <= |signers| {
      SubsetOfSameSize(signers, senders);
    }
  }

  /** If sig is the aggregate and verification is defined on it, it verifies exactly when its nonce is consistent. */
  ghost predicate VerifiesIffNonceConsistent(C: Suite, ev: Evidence, sig: Signature) {
    AggregatesTo(ev.pkg, ev.shares, sig) && VerifyDefined(C, sig, ev.pk) ==>
      (Verify(C, sig, ev.pkg.message, ev.pk) <==> NonceConsistent(C, ev.pk.verifyingKey, ev.pkg, sig.R))
  }

  /** Whether a silent session succeeds is a matter of where the shares are filed and of one nonce that serves. */
  lemma SilenceSucceedsIff(C: Suite, ev: Evidence)
    requires NobodyNamed(C, ev)
    requires forall sig :: VerifiesIffNonceConsistent(C, ev, sig)
    ensures Succeeds(C, ev.pk, ev.pkg, ev.shares)
        <==> 0 < |ev.pkg.signingCommitments| && ev.shares.Keys <= ev.pkg.signingCommitments.Keys
             && exists r :: NonceServes(C, ev.pk, ev.pkg, ev.shares, r)
  {
    hide NobodyNamed, Verify, AcceptR, ChallengeDefined, NonceConsistent;
    if sig :| AggregatesTo(ev.pkg, ev.shares, sig) && Accepted(C, ev.pk, ev.pkg, sig) {
      assert VerifiesIffNonceConsistent(C, ev, sig);
      assert NonceServes(C, ev.pk, ev.pkg, ev.shares, sig.R);
      AggregationSucceedsIff(C, ev);
    }
    if 0 < |ev.pkg.signingCommitments| && ev.shares.Keys <= ev.pkg.signingCommitments.Keys {
      if r :| NonceServes(C, ev.pk, ev.pkg, ev.shares, r) {
        AggregationSucceedsIff(C, ev);
        var sig := Signature(r, Sum(Sorted(ev.shares.Keys), Responses(ev.shares)));
        assert AggregatesTo(ev.pkg, ev.shares, sig);
        assert VerifiesIffNonceConsistent(C, ev, sig);
        assert Accepted(C, ev.pk, ev.pkg, sig);
      }
    }
  }

  /** Under the laws of its suite the package nonce serves, when all shares carry it. */
  lemma PackageNonceServes(C: Suite, ev: Evidence)
    requires C.variant.Secp256k1Bip340? ==> CurveLaws(C)
    requires ev.Defined(C) && CommonNonce(ev.shares, PackageNonce(C, ev.pk.verifyingKey, ev.pkg))
    ensures NonceServes(C, ev.pk, ev.pkg, ev.shares, PackageNonce(C, ev.pk.verifyingKey, ev.pkg))
  {
    hide CurveLaws, PackageDefined, PackageNonce, NonceConsistent, VerifyDefined;
    PackageNonceConsistent(C, ev.pk, ev.pkg, 0);
  }

  lemma PackageNonceIsAccepted(C: Suite, ev: Evidence)
    requires C.variant.Secp256k1Bip340? ==> CurveLaws(C)
    requires ev.Defined(C) && forall sig :: VerifiesIffNonceConsistent(C, ev, sig)
    ensures forall sig :: AggregatesTo(ev.pkg, ev.shares, sig) ==>
              sig.R == PackageNonce(C, ev.pk.verifyingKey, ev.pkg) ==> Accepted(C, ev.pk, ev.pkg, sig)
  {
    hide CurveLaws, PackageDefined, PackageNonce, NonceConsistent, Verify, VerifyDefined, AggregatesTo;
    forall sig | AggregatesTo(ev.pkg, ev.shares, sig) && sig.R == PackageNonce(C, ev.pk.verifyingKey, ev.pkg)
      ensures Accepted(C, ev.pk, ev.pkg, sig)
    {
      PackageNonceConsistent(C, ev.pk, ev.pkg, sig.z);
      assert sig == Signature(PackageNonce(C, ev.pk.verifyingKey, ev.pkg), sig.z);
      assert VerifiesIffNonceConsistent(C, ev, sig);
    }
  }

  // ---------- honest provers can be rewound ----------

  /** What the prover of kp answers to the challenge e, from the same first message. */
  ghost function Rewound(C: Suite, ev: Evidence, kp: KeyPackage, coins: ProverCoins, e: Scalar): Fork
    requires InPlay(ev, kp.identifier)
  {
    Fork(e, HonestProof(StatementFor(C, ev, kp.identifier), WitnessOf(C, ev.pkg, kp, ev.shares), coins, e))
  }

  lemma FollowerExplained(C: Suite, ev: Evidence, kp: KeyPackage, n: SigningNonces, coins: ProverCoins)
    requires Equipped(C, ev.pkg, ev.pk, kp, n) && FollowsRoundOne(C, ev, kp, n, 0, coins)
    ensures InPlay(ev, kp.identifier)
    ensures var st, w := StatementFor(C, ev, kp.identifier), WitnessOf(C, ev.pkg, kp, ev.shares);
            Opens(st, w) && st.A == MulGenerator(Add(Claimed(st, w), 0))
  {
    hide Add, HonestResponse, SigChallenge, PackageNonce, PedersenCommit, CoversPeers, WitnessOf, Claimed, Opens,
         StatementOf, ProofChallengeOf, Respond, Weight;
    EquippedIsCertified(C, ev.pkg, ev.pk, kp, n);
    RoundsCommit(C, ev, kp, n, 0, coins);
    OwnCommitmentsCover(C, ev.pkg, ev.pk, kp, ev.shares);
    hide BlindingCommitmentsOf;
    WitnessExplains(C, ev.pkg, ev.pk, kp, n, ev.shares[kp.identifier], ev.shares,
                    BlindingCommitmentsOf(C, ev.pkg, kp, ev.shares, ev.pk.pedersenH), 0);
  }

  /** A signer that follows round one without error can be rewound to every other challenge. */
  lemma FollowerCanBeRewound(C: Suite, ev: Evidence, kp: KeyPackage, n: SigningNonces, coins: ProverCoins, e: Scalar)
    requires Equipped(C, ev.pkg, ev.pk, kp, n) && FollowsRoundOne(C, ev, kp, n, 0, coins)
    ensures InPlay(ev, kp.identifier)
    ensures var x := kp.identifier;
            e != ChallengeOfMessage(C, ev.pkg, ev.shares[x], ev.messages[x], ev.pk)
            ==> ForkOf(C, ev, x, Rewound(C, ev, kp, coins, e))
  {
    hide Add, Mul, Equipped, HonestResponse, SigChallenge, PackageNonce, BlindingCommitmentsOf, WitnessOf,
         ChallengeOfMessage, ProofChallengeOf, Accepts, Opens, Claimed, ResponseWithoutNonce, Weight;
    var x := kp.identifier;
    FollowerExplained(C, ev, kp, n, coins);
    MulZero(e);
    ProverExact(StatementFor(C, ev, x), WitnessOf(C, ev.pkg, kp, ev.shares), coins, e, 0);
  }

  // ---------- extraction ----------

  /** The extractor succeeds on every signer. */
  lemma ExtractAll(C: Suite, ev: Evidence, forks: map<Identifier, Fork>) returns (ws: map<Identifier, Witness>)
    requires NobodyNamed(C, ev) && AllForked(C, ev, forks)
    ensures AllExtracted(C, ev, forks, ws)
  {
    hide Extracted, ForkOf, NobodyNamed, Ids;
    ws := map x | x in ev.pkg.signingCommitments && x in forks :: ExtractedWitness(C, ev, x, forks[x]);
    forall x | x in Ids(ev.pkg)
      ensures x in forks && x in ws && Extracted(C, ev, x, forks[x], ws[x])
    {
      SignerExtracted(C, ev, forks, x);
    }
  }

  lemma SignerExtracted(C: Suite, ev: Evidence, forks: map<Identifier, Fork>, x: Identifier)
    requires NobodyNamed(C, ev) && AllForked(C, ev, forks) && x in Ids(ev.pkg)
    ensures x in forks && exists w :: Extracted(C, ev, x, forks[x], w)
  {
    hide Extracted, ForkOf, AllAccepted, NobodyNamed;
    NobodyNamedAccepted(C, ev, forks);
    var w := ExtractFromFork(C, ev, x, forks[x]);
  }

  ghost function ExtractedWitness(C: Suite, ev: Evidence, x: Identifier, fork: Fork): (w: Witness)
    ensures (exists v :: Extracted(C, ev, x, fork, v)) ==> Extracted(C, ev, x, fork, w)
  {
    if exists v :: Extracted(C, ev, x, fork, v) then
      var v :| Extracted(C, ev, x, fork, v);
      v
    else Witness(0, 0, map[], map[])
  }

  lemma ExtractedAllExplain(C: Suite, ev: Evidence, forks: map<Identifier, Fork>, ws: map<Identifier, Witness>)
    requires AllExtracted(C, ev, forks, ws)
    ensures AllExplained(C, ev, ws)
  {
    hide Extracted, Explained, Ids;
    forall x | x in Ids(ev.pkg)
      ensures x in ws && Explained(C, ev, x, ws[x])
    {
      ExtractedExplains(C, ev, x, forks[x], ws[x]);
    }
  }

  lemma AggregateOfAll(C: Suite, ev: Evidence, forks: map<Identifier, Fork>, sig: Signature)
    requires AllForked(C, ev, forks) && AggregatesTo(ev.pkg, ev.shares, sig)
    ensures sig.z == Sum(Ids(ev.pkg), Responses(ev.shares))
  {
    hide ForkOf, Ascending, Distinct;
    forall x | x in Ids(ev.pkg)
      ensures x in ev.shares
    {
      assert InPlay(ev, x);
    }
    SameSigners(ev);
  }

  lemma NobodyNamedAccepted(C: Suite, ev: Evidence, forks: map<Identifier, Fork>)
    requires NobodyNamed(C, ev) && AllForked(C, ev, forks)
    ensures AllAccepted(C, ev)
  {
    hide ProofFails, ForkOf, AccuserBlames, PairBlames;
    forall x | x in Ids(ev.pkg)
      ensures !ProofFails(C, ev, x) && ev.shares[x].identifier == x
    {
      assert !Blamed(C, ev, x) && InPlay(ev, x);
    }
  }

  lemma SameSigners(ev: Evidence)
    requires |ev.pkg.signingCommitments| == |ev.shares|
    requires forall x :: x in Ids(ev.pkg) ==> x in ev.shares
    ensures Sorted(ev.shares.Keys) == Ids(ev.pkg)
  {
    var a, b := ev.pkg.signingCommitments.Keys, ev.shares.Keys;
    assert forall x :: x in a ==> x in Ids(ev.pkg);
    assert a <= b;
    SubsetOfSameSize(a, b);
  }

  // ---------- the theorem ----------

  /**
    Identification: nobody is named, and every proof can be rewound.  Then the extracted witnesses break a
    commitment, or the session succeeds exactly when there are signers, no share comes from outside the signer set,
    and all shares carry one nonce that serves the package.  Any aggregate verifies exactly when its nonce is
    consistent; the package nonce always is.
  */
  lemma IdentificationTheorem(C: Suite, ev: Evidence, kps: map<Identifier, KeyPackage>, forks: map<Identifier, Fork>)
    returns (ws: map<Identifier, Witness>)
    requires KeysDealt(C, ev, kps) && NobodyNamed(C, ev) && AllForked(C, ev, forks)
    ensures AllExtracted(C, ev, forks, ws)
    ensures || CommitmentBroken(C, ev, kps, ws)
            || forall sig :: VerifiesIffNonceConsistent(C, ev, sig)
    ensures || CommitmentBroken(C, ev, kps, ws)
            || (Succeeds(C, ev.pk, ev.pkg, ev.shares)
                <==> 0 < |ev.pkg.signingCommitments| && ev.shares.Keys <= ev.pkg.signingCommitments.Keys
                     && exists r :: NonceServes(C, ev.pk, ev.pkg, ev.shares, r))
    ensures (C.variant.Secp256k1Bip340? ==> CurveLaws(C)) && ev.Defined(C) ==>
            || CommitmentBroken(C, ev, kps, ws)
            || forall sig :: AggregatesTo(ev.pkg, ev.shares, sig) ==>
                 sig.R == PackageNonce(C, ev.pk.verifyingKey, ev.pkg) ==> Accepted(C, ev.pk, ev.pkg, sig)
  {
    hide CurveLaws, PackageDefined, AllExtracted, AllExplained, AllForked, NobodyNamed, CommitmentBroken, KeysDealt,
         AggregatesTo, PackageNonce, Verify, VerifyDefined, NonceConsistent, NonceServes, Succeeds;
    ws := ExtractAll(C, ev, forks);
    ExtractedAllExplain(C, ev, forks, ws);
    if !CommitmentBroken(C, ev, kps, ws) {
      forall sig
        ensures VerifiesIffNonceConsistent(C, ev, sig)
      {
        if AggregatesTo(ev.pkg, ev.shares, sig) && VerifyDefined(C, sig, ev.pk) {
          AggregateOfAll(C, ev, forks, sig);
          SilenceVerifiesIff(C, ev, kps, ws, sig);
        }
      }
      SilenceSucceedsIff(C, ev);
      if (C.variant.Secp256k1Bip340? ==> CurveLaws(C)) && ev.Defined(C) {
        PackageNonceIsAccepted(C, ev);
      }
    }
  }
}
