# FaFROST in Dafny

A model of the FaFROST crate: threshold Schnorr signing over a group of prime order with pairwise blinding, and the
identifiable-abort protocol (`ia1`, `ia2`, `decide`) that names the signers responsible for a rejected signature.
`dafny verify dfyconfig.toml` checks everything.

## How the system is modelled

- **Scalars** are the residues modulo `Q`, an unspecified prime above 65535, so that distinct 16-bit identifiers are
  distinct scalars. The arithmetic and the fact that nonzero scalars have inverses are proved in `PrimeField`, not
  assumed; 65537 is proved prime to show that such a `Q` exists.
- **Points** are named by their discrete logarithm. Every group of order `Q` is isomorphic to this one, so an equation
  between points holds here exactly when it holds there. What a point looks like (its encoding, its x-coordinate, the
  parity of y) is an arbitrary function of the suite.
- **Suites** (`Ciphersuites.Suite`) are records: one of the three variants of the crate, plus the domain separator,
  the hash functions, the transcript hash and the encodings, all arbitrary. Two sets of laws are hypotheses where they
  are needed: `CurveLaws` (negation flips the parity of y and keeps x; x and parity determine the point) and
  `EncodingLaws` (fixed widths, no two values with one encoding). `LawfulSuite`, with the separators of the crate,
  satisfies all of them at once. Broken commitments and colliding keys are part of the conclusion of the main theorems
  instead of being assumed away; the results that do assume their absence are corollaries and say so
  (`NonFraming.FramedOnlyFromOutside`, and the lemmas from witnesses `Identification.SilenceVerifiesIff` and
  `Identification.SilenceMeansValid`). `Sigma.DoubleOpeningGivesLog` says what a double opening is worth.
- **Randomness** (nonces, dealer coins, prover coins) and the taproot tweak are parameters, and theorems hold for all
  of them.
- **Loops are loops.** `sign`, `aggregate`, the dealer, `ia1`, `ia2`, the prover, the verifier, the three passes of
  `decide`, the Lagrange product and the encoders are methods with the loops and the early returns of the source, each
  proved equal to a specification; the theorems are about those specifications. `Session.RunSession` puts all of them
  together. The hash accumulator is a class whose clones branch off a shared prefix, and the BIP-340 signature is
  written into a byte array.
- The comment at src/utils.rs:54-56 lists the pairwise key first among the inputs of a blinding value; the code
  appends it last, and the model follows the code.

## What the theorems say

1. **Signing** (`Signing`, `Keygen`, `EndToEnd.ThresholdSigning`). For every secret, polynomial, pairwise keys,
   nonces, message and signer set of at least the threshold, every `sign` succeeds and the aggregate verifies,
   whatever BIP-340 normalisation negates. With errors in the responses the aggregate verifies exactly when the errors
   sum to zero.
2. **Tampering** (`Session.RunSession`, `Accountability.SessionVerdict`, `EndToEnd.OneTamperedShare`). A session from
   the dealer to the verdict, with arbitrary errors added to the responses: no step fails, the signature is accepted
   exactly when the errors sum to zero, and `decide` names exactly the signers with a nonzero error and a nonzero
   Fiat-Shamir challenge.
3. **Non-framing** (`NonFraming.HonestBlamedIff`). Whatever all the others send, a signer that ran `sign`, `ia1` and
   `ia2` on what `decide` sees is named if and only if some accuser frames it, a condition on that accuser's opened
   key alone. If only signers of the package submit decisions, this needs a collision of the key-commitment hash. A
   signer that disagrees with an honest one is always named.
4. **Identification** (`Identification.IdentificationTheorem`, `EndToEnd.SilentSessionSucceeds`). Suppose that shares
   sit under their own identifiers, every proof can be rewound to a second challenge and nobody is named. Then the
   session succeeds (aggregation returns a signature and `verify` accepts it) exactly when no share comes from outside
   the signer set and all shares carry one nonce that serves the package, such as the package nonce; or else the
   extracted witnesses open a commitment twice, or two opened keys collide. The other way round, a failed session
   names somebody (`EndToEnd.RejectedMeansSomebodyNamed`), and together with non-framing somebody that is not honest
   (`EndToEnd.RejectedNamesDishonest`). Rewinding is satisfiable: any signer that follows round one can be rewound to
   every other challenge (`Identification.FollowerCanBeRewound`).
5. **The verdict** (`Verdict.DecideNames`). For arbitrary evidence, exactly when each signer is named, in terms of
   what it sent and what was opened; a false accuser always is.
6. **Hash inputs** (`HashInputs`, `Transcript`). No field carries a length, yet every input determines its fields,
   tags never meet, and the untagged challenge of Ed25519 stays apart from all of them by its length. The binding
   factor, the blinding values, the signature challenge and the Fiat-Shamir challenge hash these inputs, so each binds
   everything that goes into it, or two inputs with one hash are exhibited.
7. **The proof system** (`Sigma`). Completeness with its exact converse, special soundness, and honest-verifier zero
   knowledge as a bijection between coins and accepting conversations.
8. **Taproot and BIP-340** (`Taproot.Spend`, `EndToEnd.ThresholdBytes`, `Bip340.VerifyBytesIff`). Dealt keys are even,
   threshold signatures and the demo's tweak arithmetic end in bytes that the stand-alone verifier accepts, for all
   parities, and that verifier accepts exactly the encodings of what the generic one accepts.

## Where the code needs a condition

- `max_signers` is at most 65534: `(i + 1)` at src/keygen.rs:140 overflows at 65535.
- Under BIP-340 the verifying key and the aggregate nonce are not the identity; the x-only slice at
  src/ciphersuite/bip340.rs:19-24 panics otherwise. Methods demand it exactly where they go on to compute a challenge
  (`Ciphersuites.ChallengeDefined`); on the other suites nothing is required. A signer that commits last can bring the
  undefined case about (`Hashing.NegatedSumsCancelTheNonce`), and `sign` does not guard against it.
- A decision from outside the signer set can get an honest signer named: src/ia.rs:240-243 blames the peer for having
  no commitment about that accuser. `NonFraming.OutsiderFramesHonest` constructs the run from any honest one, and
  `NonFraming.FramedOnlyFromOutside` says that, collisions aside, nothing else can.
- `ia2` fails when a peer's message is missing, but `decide` takes an absent decision for a refusal to open
  (src/ia.rs:278-294). So two peers can get an honest signer named: one withdraws its message, the other changes its
  commitment (`NonFraming.FailedRoundTwoFramesHonest`). A signer whose `ia2` failed is named exactly when it is framed
  or some peer disagrees with it (`NonFraming.SilentBlamedIff`).
- A silent run can still fail, because `decide` looks neither at the nonce inside a share (src/ia.rs:454-467) nor at
  shares from outside the signer set. When nobody is named, aggregation returns a signature exactly when no share lies
  outside the set and all shares carry one point (`Identification.AggregationSucceedsIff`). Different points are
  refused (`Counterexamples.WrongNonceRun`), and so is one share too many (`Counterexamples.OutsiderShareRun`). With
  one common point `verify` accepts exactly when that point is consistent with the package
  (`Counterexamples.CommonNonceRun`, `Signing.NonceConsistent`). The negated package nonce of a BIP-340 session never
  is (`Counterexamples.NegatedNonceRun`).
- `sign`, `aggregate`, `verify` and the abort rounds never read `min_signers`. Below the threshold everybody signs,
  aggregation succeeds, nobody is named, and `verify` accepts exactly when the shares recombine to the secret of the
  verifying key or the challenge is zero (`Signing.ErrorFreeVerifiesIff`, `Counterexamples.BelowThresholdRun`). With
  dealt keys and one signer short, they recombine exactly when the leading coefficient of the dealer is zero
  (`Counterexamples.OneSignerShortRun`).
- `decide` looks up the records by the identifier inside a share, not by its map key (src/ia.rs:432). A second
  share of one signer, filed under another, passes unnoticed among any number of honest signers and spoils the
  signature (`Counterexamples.MisfiledShareRun`, `Counterexamples.RejectedMisfiledRun`), so identification requires
  `Identification.OwnIdentifiers`. Non-framing does not.

## Model

| member | source | states |
|---|---|---|
| Lagrange.LagrangeCoefficient | src/utils.rs:8-26 | the loop with one inversion at the end equals the product of the quotients j / (j - i), for every identifier and list, and the inverted denominator is never zero |
| Lagrange.InterpolationAtZero | src/utils.rs:8-26 | for distinct identifiers and any coefficient vector no longer than their number, the weighted values of the polynomial sum to its value at zero |
| Lagrange.OneShortOfInterpolation | src/utils.rs:8-26 | with one identifier fewer than coefficients, the weighted values sum to the value at zero if and only if the leading coefficient is zero |
| Lagrange.CoefficientsSumToOne | src/utils.rs:8-26 | the coefficients of any nonempty set of distinct identifiers sum to one |
| Keygen.EvaluateShare | src/keygen.rs:105-112 | the loop over running sum and running power computes the value of the polynomial |
| Keygen.GenerateWithDealerFromSecret | src/keygen.rs:82-172 | the nested loops, inserting key by key into both tables, end in the tables that DealerTables and DealtSession are about |
| Keygen.DealPair | src/keygen.rs:139-161 | one step of the nested loops adds the pair to both packages and changes nothing else |
| Keygen.DealerTables | src/keygen.rs:139-171 | package i holds keys for exactly 1..max without i, keys are symmetric, each key commitment is the hash of the stored key on both sides, each signing-share commitment opens to share and blinding, and the public key belongs to the normalised secret |
| Keygen.DealtKeyPair | src/ciphersuite/secp256k1.rs:106-112 | the verifying key is that of the given secret or its negation; under BIP-340 it is even and keeps the x-coordinate for every nonzero secret, and the other suites change nothing |
| Keygen.DealerUsesItsCoins | src/keygen.rs:93-171 | the limits and the generator are passed on, every share has its own blinding, and the key of a pair is the one drawn for that pair, on both sides |
| Keygen.DealtSession | src/keygen.rs:90-112 | the dealt shares of any signer set of at least the threshold recombine to the normalised secret, and their pairwise keys are shared |
| Keygen.OneSignerShort | src/keygen.rs:94-112 | the dealt shares of a signer set one short of the threshold recombine to the secret if and only if the leading coefficient is zero |
| Keygen.ExactThreshold | src/keygen.rs:94-112 | any values at one identifier fewer than the threshold are explained by exactly one polynomial for each candidate secret |
| Wire.EncodeCommitments | src/wire.rs:26-36 | the growing buffer is the concatenation of the records id, D, E in identifier order |
| Wire.EncodeSignerSet | src/utils.rs:80-88 | two big-endian bytes per identifier, in order |
| Wire.IaViewBytes | src/ia.rs:634-651 | the encoding of the commitments followed by the records id, R, z of all shares |
| Wire.CommitmentsInjective | src/wire.rs:26-36 | the whole commitment map can be read back from its encoding |
| Wire.SharesInjective | src/ia.rs:644-648 | so can the identifiers, nonces and responses of the shares |
| Wire.SignerSetInjective | src/utils.rs:80-88 | so can the signer list, of any length |
| Wire.CommitmentsLayout | src/wire.rs:26-36 | signers are encoded in ascending order: the k-th record sits at k times the record width |
| Wire.SharesLayout | src/ia.rs:644-648 | the same for the records of the shares |
| WireFormat.ShareToBytes | src/wire.rs:111-116 | the wire form of a share is exactly its record in the abort view |
| WireFormat.CommitmentsRoundTrip | src/wire.rs:91-105 | decoding undoes encoding |
| WireFormat.ShareRoundTrip | src/wire.rs:111-127 | decoding undoes encoding |
| WireFormat.SignatureRoundTrip | src/wire.rs:132-146 | decoding undoes encoding |
| WireFormat.CommitmentsDecodeIff | src/wire.rs:97-105 | with a canonical point decoder, a string decodes to these commitments if and only if it is their encoding |
| WireFormat.ShareDecodeIff | src/wire.rs:118-127 | the same for shares |
| WireFormat.SignatureDecodeIff | src/wire.rs:138-146 | the same for signatures |
| WireFormat.CommitmentRecordDecodes | src/wire.rs:26-36 | the record of a signer in the commitment encoding decodes to its identifier and its commitments, D before E |
| WireFormat.IdBytesOrdered | src/utils.rs:83-85 | encoded identifiers compare byte by byte as the identifiers do |
| WireFormat.ShareDecodingUnique | src/wire.rs:118-127 | two strings that decode to one share agree on length, identifier bytes and response bytes; only the point decoder could introduce a second form |
| Ciphersuites.ScalarHasher.Clone | src/ciphersuite/mod.rs:16-18 | the clone starts from the same state and is a different object |
| Ciphersuites.ScalarHasher.FinishWith | src/ciphersuite/mod.rs:25-28 | the hash of everything absorbed so far followed by the data |
| Ciphersuites.NormalizedIsAccepted | src/ciphersuite/secp256k1.rs:114-124 | after normalisation the nonce passes accept_r, whatever its parity was |
| Ciphersuites.NormalizedKeyPair | src/ciphersuite/secp256k1.rs:106-112 | normalising a key pair yields a key pair, negated or unchanged; under BIP-340 an even one with the same x-coordinate |
| Ciphersuites.ChallengeIgnoresNormalization | src/ciphersuite/secp256k1.rs:100-120 | the challenge computed before normalisation is the challenge of the normalised nonce |
| Hashing.BindingFactor | src/utils.rs:38-52 | the hash of context, tag, key, signer set, message and commitments in that order |
| Hashing.BlindingBase | src/utils.rs:60-72 | a fresh hasher that has absorbed exactly the shared prefix |
| Hashing.AggregateNonces | src/sign.rs:111-117 | the loop computes the two sums of nonce commitments over the signer set |
| Hashing.ProbeRecoversSign | src/ia.rs:450-464 | probing normalisation with one yields the factor by which it multiplies every nonce and the aggregate nonce |
| Hashing.NegatedSumsCancelTheNonce | src/sign.rs:111-128 | a signer that commits to the negated sums of all the others makes the aggregate nonce the identity, where a BIP-340 challenge is not defined |
| Signing.Commit | src/sign.rs:71-81 | the commitments are those of the nonces that sign accepts as its own |
| Signing.BlindingScalar | src/sign.rs:168-200 | the first peer without a key is reported; otherwise additions and subtractions amount to the sum of delta(i, j) * B_ij |
| Signing.BlindingCancels | src/sign.rs:181-199 | with shared keys the blinding scalars of a signer set sum to zero, for every hash function and set |
| Signing.Sign | src/sign.rs:83-137 | the result, including which of the three errors comes first |
| Signing.HonestSign | src/sign.rs:83-137 | a signer with its own nonce in the package and all keys succeeds, with the package nonce and the honest response |
| Outcomes.SignOutcome | src/sign.rs:95-132 | sign succeeds if and only if the signer is in the package with its own nonce and holds all keys; each error occurs exactly in its case, the missing key being that of the smallest such peer |
| Signing.Aggregate | src/sign.rs:139-165 | the sum of the responses under the common nonce; a wrong count, no share, and two different nonces are refused, each with its own error |
| Signing.SigningEquation | src/sign.rs:119-136 | the responses of a session sum to the logarithm of the normalised nonce plus c times the secret |
| Signing.SessionVerifiesIff | src/verify.rs:7-19 | the aggregate of a session with arbitrary errors in the responses verifies if and only if the errors sum to zero |
| Signing.VerifiesIffNoOffset | src/verify.rs:7-19 | a response that is off by d from the signing equation verifies if and only if d is zero |
| Signing.VerifiesIffConsistent | src/verify.rs:7-19 | the response that the package calls for verifies with another nonce if and only if that nonce is acceptable and it plus its challenge times the key is what the package nonce gives |
| Signing.PackageNonceConsistent | src/sign.rs:126-136 | the package nonce meets that condition under every normalisation |
| Signing.ErrorFreeVerifiesIff | src/sign.rs:83-137 | for any number of signers, the error-free aggregate verifies under the key of s if and only if their shares recombine to s or the challenge is zero |
| Sigma.OpeningsAnswered | src/ia.rs:381-405 | the prover answers the openings of the key and of every blinding commitment correctly, whatever its response |
| Sigma.ProverExact | src/ia.rs:366-405 | the verifier's equations accept the prover's answers if and only if e * d is zero, where d is the error in the statement |
| Sigma.SpecialSoundness | src/ia.rs:481-536 | two accepting runs with one first message and different challenges yield a witness that opens the key commitment and every blinding commitment and explains A |
| Sigma.AcceptingIsHonest | src/ia.rs:366-405 | honest-verifier zero knowledge: every accepting conversation is the honest prover's for some choice of its coins, whatever the witness |
| Sigma.CoinsAreDetermined | src/ia.rs:366-405 | for one choice only: different coins of the secret or of a peer give different conversations |
| Sigma.DoubleOpeningGivesLog | src/utils.rs:90-96 | two openings of one commitment reveal the logarithm of the second generator |
| IdentifiableAbort.ProofChallenge | src/ia.rs:582-632 | the transcript holds every field in the order of the source, the record of the signer only when there is one |
| Transcript.TranscriptInjective | src/ia.rs:593-627 | equal transcripts have equal packages, shares, challenges b and c, keys, generators, signer records, blinding commitments and first messages t_sig, t_key and t_blind, although the lists carry no length |
| Transcript.TranscriptHasContext | src/ia.rs:594 | suites with different separators never share a transcript |
| Transcript.ChallengeBinds | src/ia.rs:582-632 | two messages with one Fiat-Shamir challenge agree on package, share, keys, commitments and first message, or exhibit two transcripts with one hash: the first message cannot be chosen after the challenge |
| IdentifiableAbort.ComputeNonceChallenge | src/ia.rs:541-559 | the abort path recomputes the binding factor of signing |
| IdentifiableAbort.ComputeSigChallenge | src/ia.rs:561-578 | the abort path recomputes the signature challenge of signing, on the nonce before normalisation |
| IdentifiableAbort.ProveWellformed | src/ia.rs:304-418 | the loops produce the first message and the responses of the Sigma protocol for the Fiat-Shamir challenge |
| IdentifiableAbort.VerifyWellformedProof | src/ia.rs:420-539 | with all its early returns, the verifier answers true exactly on the accepting statements |
| IdentifiableAbort.CheckEquations | src/ia.rs:481-538 | the loops check the three groups of equations and reject every missing entry |
| IdentifiableAbort.BlindPeers | src/ia.rs:79-101 | blinding value, randomness and commitment for exactly the peers, or the first missing key |
| IdentifiableAbort.Ia1 | src/ia.rs:48-119 | the first-round message, or the error that the source reports |
| Outcomes.Ia1Outcome | src/ia.rs:62-90 | ia1 succeeds if and only if the share is its own, the signer is in the package and it holds all keys; each error occurs exactly in its case |
| IdentifiableAbort.Ia2 | src/ia.rs:121-169 | the keys of exactly the peers whose commitment differs, or the first error in identifier order |
| Outcomes.Ia2Outcome | src/ia.rs:134-160 | ia2 succeeds if and only if the signer has sent a message and no peer lacks a commitment, is owed one, or disagrees without a shared key; otherwise the smallest such peer gives the error, commitment by commitment |
| IdentifiableAbort.CheckProofs | src/ia.rs:184-200 | exactly the signers without a share, a message or an accepted proof |
| IdentifiableAbort.ReplayOpenings | src/ia.rs:202-249 | exactly those whom some opened key incriminates, accuser or peer |
| IdentifiableAbort.CrossCheck | src/ia.rs:251-297 | exactly those whom some pair i < j incriminates |
| IdentifiableAbort.Decide | src/ia.rs:171-300 | the returned set is exactly the union of the three kinds of blame |
| Verdict.DecideNames | src/ia.rs:171-300 | the verdict signer by signer, for arbitrary evidence: x is named if and only if its proof fails, it opened a key that its record does not confirm, a confirmed key contradicts its commitment, it left out a commitment towards a peer (the smaller identifier alone when both did), or it left a disagreement unanswered |
| Verdict.FalseAccuserIsNamed | src/ia.rs:214-228 | whoever opens an unconfirmed key is named, whether or not the commitments differ |
| Verdict.ConfirmedOpeningNamesPeer | src/ia.rs:230-247 | a confirmed opening names the peer whose commitment is missing or is not the one that the key gives |
| Verdict.AcceptedProofShape | src/ia.rs:432-536 | an accepted proof carries the identifier of its share, belongs to a signer of the package with a record, and has every entry for every peer |
| Accountability.BlindingIsSignedSum | src/ia.rs:343-349 | the blinding scalar of sign is the signed sum of the values that the proof commits to |
| Accountability.NonceRemoved | src/ia.rs:450-467 | subtracting the probed sign times the nonce leaves c * lambda * sk plus the blinding plus the error, whether or not the nonce was negated |
| Accountability.ProofWithExtrasAcceptedIff | src/ia.rs:420-539 | the proof of a signer whose response is off by d is accepted if and only if its challenge times d is zero, whatever commitments it sends beside those to its peers |
| Accountability.HonestProofAcceptedIff | src/ia.rs:420-539 | in particular the proof in its honest message |
| Accountability.TamperingIsNamed | src/ia.rs:184-200 | a signer that runs round one on a response with a nonzero error is named whatever all the others send, unless its challenge is zero |
| Accountability.SessionRoundsSucceed | src/ia.rs:48-169 | when all signers run both rounds, every ia1 and ia2 succeeds and no key is opened |
| Accountability.SessionVerdict | src/ia.rs:171-300 | decide names exactly the signers with a nonzero error and a nonzero challenge |
| Accountability.WrongNonceIsNotNamed | src/ia.rs:454-467 | in a session without errors in the responses nobody is named, whatever nonces the shares carry |
| NonFraming.NamedIffFramedOrUnanswered | src/ia.rs:171-300 | a signer that is honest to round one, and honest or silent in round two, is named if and only if some accuser frames it or it leaves a disagreement with a peer unanswered, for arbitrary contents of everybody else |
| NonFraming.HonestBlamedIff | src/ia.rs:171-300 | a signer that is honest in both rounds is named if and only if some accuser frames it |
| NonFraming.SilentBlamedIff | src/ia.rs:278-294 | a signer that is honest to round one and sends no decision is named if and only if some accuser frames it or some peer of the package disagrees with it |
| NonFraming.FailedRoundTwoFramesHonest | src/ia.rs:146-153 | from every run with an honest signer and two peers: one peer withdraws its message, the other changes its commitment to the pair, the signer's ia2 returns an error and the signer is named although it followed the protocol |
| NonFraming.NonFramingTheorem | src/ia.rs:171-300 | with decisions from the signer set only, naming an honest signer exhibits a collision with a key it holds |
| NonFraming.FramedOnlyFromOutside | src/ia.rs:212-249 | without such collisions, an honest signer is named if and only if somebody outside the signer set opens a key that its record confirms |
| NonFraming.OutsiderFramesHonest | src/ia.rs:240-243 | from every honest run, a key holder outside the set gets the honest signer named by opening its true key |
| NonFraming.SilentSignerIsBlamed | src/ia.rs:277-294 | any signer without a decision, honest or not, is named as soon as a peer's commitment differs |
| NonFraming.DisagreementIsAttributed | src/ia.rs:212-297 | two signers whose commitments differ: one of them is named, or they opened colliding keys |
| NonFraming.DisagreeingWithHonestIsNamed | tests/protocol.rs:127-200 | a signer whose commitment differs from that of an honest peer is itself named, whatever anybody opens |
| Identification.ExtractedExplains | src/ia.rs:481-536 | the witness extracted from an accepted proof and its second run explains the share and the commitments of that signer |
| Identification.SilenceVerifiesIff | src/ia.rs:186-299 | when nobody is named and all proofs have witnesses that break no commitment, the sum of the responses verifies with a nonce if and only if that nonce is consistent, a condition on public values |
| Identification.SilenceMeansValid | src/ia.rs:186-299 | in particular it is a valid signature under the package nonce |
| Identification.AggregationSucceedsIff | src/sign.rs:139-165 | when nobody is named, aggregation returns a signature if and only if no share lies outside the signer set and all shares carry one nonce; the first condition is the same as having no more shares than signers |
| Identification.FollowerCanBeRewound | src/ia.rs:366-405 | a signer that follows round one has, for every challenge other than its own, a second accepting run with the same first message |
| Identification.IdentificationTheorem | src/ia.rs:171-300 | when nobody is named and all proofs can be rewound, the extracted witnesses break a commitment, or the session succeeds (aggregation returns a signature and verify accepts it) if and only if the package is not empty, no share lies outside the signer set and all shares carry one nonce that serves the package; every aggregate verifies if and only if its nonce is consistent, and those under the package nonce do |
| HashInputs.NonceInputInjective | src/utils.rs:38-52 | the input of the binding factor determines key, commitment map and message |
| HashInputs.BlindingInputInjective | src/utils.rs:60-72 | the input of a blinding value determines commitment map, message and pairwise key |
| HashInputs.RandomizerInputInjective | src/utils.rs:76-78 | for one package, the input of the randomness determines the key and all id, R, z records |
| HashInputs.NonceChallengeBinds | src/sign.rs:119-124 | the binding factor of a package is the hash of that input, so packages or keys that differ have different binding factors unless the hash collides |
| HashInputs.BlindingValueBinds | src/ia.rs:79-101 | the same for a blinding value, the package and the pairwise key |
| HashInputs.BlindingRandomizerBinds | src/ia.rs:79-101 | the same for the randomness, the pairwise key and the view of all shares |
| HashInputs.BlindTermIsSignedHash | src/sign.rs:181-199 | the larger identifier of a pair adds the hash of that input to its response, the smaller one subtracts it |
| HashInputs.KeyCollisionIsHashCollision | src/utils.rs:100-102 | the colliding keys that non-framing concludes are a collision of the commitment hash on two different inputs |
| HashInputs.InternalTagsSeparate | src/utils.rs:38-102 | inputs under the four internal tags never coincide, under any suite |
| HashInputs.ChallengeTagSeparates | src/ciphersuite/secp256k1.rs:72-76 | the challenge input of the plain suite coincides with none of them, although one tag is a prefix of its tag |
| HashInputs.Ed25519ChallengeSeparates | src/ciphersuite/ed25519.rs:60-68 | the untagged Ed25519 challenge input coincides with none of them, by length alone, behind every context but those of 27, 29 and 60 bytes; that of the suite has 22 |
| HashInputs.ChallengeInputLayout | src/ciphersuite/mod.rs:31-81 | where context, tag, key, nonce and message sit in the challenge input of each suite; nonce, key and message for Ed25519 and BIP-340 |
| HashInputs.SignatureChallengeBinds | src/ciphersuite/secp256k1.rs:72-76 | equal challenges have the same message, key and nonce, up to the sign of a point under BIP-340, or exhibit two inputs with one hash |
| HashInputs.OtherMessageVerifiesIff | src/verify.rs:7-19 | a signature that verifies on one message verifies on another if and only if the key is the identity or both challenges agree |
| HashInputs.TwoMessagesCollide | tests/protocol.rs:19-25 | so a signature accepted on two messages exhibits two challenge inputs with one hash |
| Bip340.SignatureToBytes | src/ciphersuite/bip340.rs:59-69 | the 64-byte array holds the x-coordinate of R and then z |
| Bip340.ByteVerifierAgrees | src/ciphersuite/bip340.rs:72-91 | on even key and nonce the byte verifier and verify give the same answer |
| Bip340.AcceptedBytesDecode | src/ciphersuite/bip340.rs:72-91 | for all accepted bytes, the x-coordinate of the key is on the curve and the bytes are the encoding of a signature with an even nonce that verify accepts under the lifted key |
| Bip340.VerifyBytesIff | src/ciphersuite/bip340.rs:72-91 | the byte verifier accepts exactly the encodings of signatures with an even nonce that verify accepts under the lifted key, and nothing when the coordinate does not lift |
| Bip340.NonceParityMatters | src/verify.rs:7-19 | verify accepts exactly the recomputed nonce, which must be even under BIP-340 and only there |
| Taproot.NegateShares | src/bin/spenddemo.rs:109-113 | the loop negates every signing share and keeps the rest of each package |
| Taproot.NegationKeepsTheRest | src/bin/spenddemo.rs:109-113 | negated and dealt share cancel, and identifier, blinding and pairwise keys stay |
| Taproot.SpendingKey | src/bin/spenddemo.rs:105-116 | the shared secret of the spending shares plus the effective tweak is the secret of the evened tweaked key, for either parity |
| Taproot.TweakedKeyAbscissa | src/bin/spenddemo.rs:100-108 | the tweaked key is even and has the x-coordinate of the point behind secret plus tweak |
| Taproot.TweakedSessionVerifies | src/bin/spenddemo.rs:148-156 | adding c times the effective tweak to the aggregate of the spending shares gives a signature that verifies under the tweaked key |
| Taproot.SignAll | src/bin/spenddemo.rs:135-146 | signing succeeds for every signer and yields error-free shares |
| Taproot.Spend | src/bin/spenddemo.rs:100-164 | the whole flow ends in 64 bytes that the byte verifier accepts for the x-only tweaked key |
| EndToEnd.DealtIsEquipped | src/keygen.rs:82-172 | dealt signers meet what signing and both abort rounds need |
| EndToEnd.ThresholdSigning | src/sign.rs:83-165 | on dealt keys, every signer of a set of at least the threshold succeeds, the shares aggregate, and the aggregate verifies |
| EndToEnd.ThresholdBytes | src/ciphersuite/bip340.rs:59-91 | on dealt BIP-340 keys the 64 bytes of every aggregate satisfy the stand-alone verifier for the x-coordinate of the verifying key, which is that of the given secret |
| EndToEnd.HonestRunNamesNobody | src/ia.rs:171-300 | dealt signers that run both rounds on their own shares: decide returns the empty set |
| EndToEnd.RejectedMeansSomebodyNamed | src/ia.rs:171-300 | on dealt keys, if shares sit under their own identifiers, are no more than the signers, carry one nonce that serves the package, and every accepted proof can be rewound, then a session that fails in aggregation or in verify makes decide name a signer, or the extracted witnesses break a commitment |
| EndToEnd.SilentSessionSucceeds | src/ia.rs:171-300 | on dealt keys, if nobody is named, all shares lie inside the signer set under their own identifiers with the package nonce, and every accepted proof can be rewound, then aggregation returns a signature that verify accepts, or the extracted witnesses break a commitment |
| EndToEnd.RejectedNamesDishonest | src/ia.rs:171-300 | under the same hypotheses and with decisions from the signer set only, decide names a signer that did not run the protocol honestly, or a commitment or the key-commitment hash is broken |
| EndToEnd.OneTamperedShare | src/ia.rs:450-499 | one tampered response: the aggregate is rejected and the tampering signer alone is named, unless its challenge is zero |
| Session.CommitAll | tests/common/mod.rs:34-45 | everybody's nonce commitments under its own identifier |
| Session.Tamper | tests/protocol.rs:38-40 | every response is off by its error and nothing else changes |
| Session.RoundOne | tests/protocol.rs:44-56 | ia1 succeeds for every signer and returns the honest message |
| Session.RoundTwo | tests/protocol.rs:58-67 | the decisions of ia2, for every signer |
| Session.AbortRounds | tests/protocol.rs:44-76 | both rounds and the verdict on shares that carry errors: the run follows the protocol, and exactly the signers with a nonzero error and challenge are named |
| Session.RunSession | tests/protocol.rs:35-125 | a whole session with arbitrary errors never fails, is accepted exactly when the errors sum to zero, names exactly the signers with a nonzero error and challenge, and without errors names nobody |
| Session.SessionSignersAreHonest | tests/protocol.rs:82-125 | the signers of a session without errors are honest in the sense of the non-framing theorems |
| LawfulSuite.ExampleCurve | src/ciphersuite/mod.rs:31-81 | a concrete suite satisfies the curve laws |
| Counterexamples.WrongNonceRun | src/ia.rs:454-467 | from every equipped session of two or more signers, a run with another point in one share: aggregation refuses it and nobody is named |
| Counterexamples.CommonNonceRun | src/ia.rs:454-467 | the same with one common point r in all shares: aggregation succeeds, nobody is named, and verify accepts if and only if r is consistent |
| Counterexamples.NegatedNonceRun | src/ia.rs:454-467 | under every lawful BIP-340 suite, the negated package nonce as common point: aggregation succeeds, verify rejects, nobody is named |
| Counterexamples.OutsiderShareRun | src/sign.rs:143-147 | from every equipped session, a run with one more share under an identifier outside the package: all shares carry their own identifier and the package nonce, the protocol is followed, aggregation refuses the count and nobody is named |
| Counterexamples.BelowThresholdRun | src/sign.rs:83-165 | any number of equipped signers under the key of s: the protocol is followed, aggregation succeeds, nobody is named, and verify accepts if and only if their shares recombine to s or the challenge is zero |
| Counterexamples.OneSignerShortRun | src/keygen.rs:94-112 | the same with dealt keys and one signer short of the threshold: verify accepts if and only if the leading coefficient of the dealer or the challenge is zero |
| Counterexamples.MisfiledShareRun | src/ia.rs:432-436 | from every equipped session of any size and every two of its signers, a second share of the one filed under the other: all shares carry the package nonce, everybody else is honest in the sense of the non-framing theorems, nobody is named, and the aggregate verifies if and only if the second response equals the one it replaces |
| Counterexamples.RejectedMisfiledRun | src/ia.rs:432-436 | a session of two dealt signers in which they differ, so that verify rejects |
| LawfulSuite.ExampleEncodings | src/ciphersuite/mod.rs:48-50 | the same suite satisfies the encoding and decoding laws |
| LawfulSuite.ExampleIsCanonical | src/ciphersuite/mod.rs:48-50 | its point decoder is canonical |
| LawfulSuite.ExampleRejectsOtherNonces | src/verify.rs:12-18 | under a concrete suite of each variant no nonce but the package nonce is consistent, so a common wrong point is always rejected |

## Left out

- The internals of SHA-256, SHA-512, Merlin, k256 and curve25519-dalek: arbitrary functions and a lawful group.
- Computational assumptions (discrete logarithm, random oracle): not functional properties. Zero knowledge is proved
  against the honest verifier of the interactive protocol. That an accepted proof can be rewound is a hypothesis
  (`Identification.ForkOf`), not a probability.
- Derivation of the Pedersen generator: a suite has an arbitrary point in its place; no theorem needs more of it.
- Key files in YAML and hex, command-line binaries, Bitcoin transactions and address derivation.
- Zeroization, drop, debug output and constant-time behaviour.
- The byte format and the stand-alone verifier of src/ciphersuite/ed25519.rs; its challenge and its widths are
  modelled.
- WireFormat.ShareDecodingUnique: does not say that a decoded point re-encodes to the same bytes, because that is up
  to the curve library's decoder; the lemmas `WireFormat.CommitmentsDecodeIff`, `ShareDecodeIff` and
  `SignatureDecodeIff` assume that it is canonical (`Ciphersuites.CanonicalLaw`).
- The labels of the Merlin transcript are constructors of a datatype instead of strings; one constructor stands for
  its protocol name.
- The copy of the partial verification keys inside a signing package, which no modelled function reads.
- Taproot.Spend: takes any tweak and any signer set instead of the TapTweak hash and the signers 1 and 2 of the demo.
- Key packages and protocol records are values in maps that the methods reassign, as the source's cloned maps are; the
  model has no aliasing between them.
- EndToEnd.RejectedMeansSomebodyNamed: is conditional on rewinding, because the soundness of a Fiat-Shamir proof is a
  computational statement; its conditions on identifiers, on the number of shares and on nonces are those without
  which the runs above exist.
- Points of small order: the group of the `Ed25519` variant is taken to be the prime-order subgroup, while the curve
  library's point type also holds points with a torsion component. Special soundness and identification say nothing
  about commitments with such a component.
- hash_to_scalar's loop over its parts is written out in Hashing.BindingFactor, where the parts are known.
