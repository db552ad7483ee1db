/** No field of a hash input carries its length, yet the inputs determine their fields and their tags. */
module HashInputs {
  import opened PrimeField
  import opened Sums
  import opened Polynomials
  import opened Ciphersuites
  import opened Wire
  import opened Hashing
  import opened Signing
  import opened IdentifiableAbort
  import opened NonFraming

  type CommitmentMap = map<Identifier, SigningCommitments>

  ghost function NonceInputOf(C: Suite, vk: Point, m: CommitmentMap, message: Bytes32): bytes {
    NonceInput(C, vk, SignerSetEncoding(Sorted(m.Keys)), message, CommitmentsEncoding(C, m))
  }

  ghost function BlindingInputOf(C: Suite, m: CommitmentMap, message: Bytes32, key: Bytes32): bytes {
    BlindingPrefix(C, CommitmentsEncoding(C, m), message, SignerSetEncoding(Sorted(m.Keys))) + key
  }

  ghost function RandomizerInputOf(C: Suite, key: Bytes32, m: CommitmentMap, shares: map<Identifier, SignatureShare>)
    : bytes
  {
    RandomizerInput(C, key, CommitmentsEncoding(C, m) + SharesEncoding(C, shares))
  }

  // ---------- lengths ----------

  lemma NonceInputLength(C: Suite, vk: Point, m: CommitmentMap, message: Bytes32)
    requires EncodingLaws(C)
    ensures |NonceInputOf(C, vk, m, message)| == |C.context| + 37 + PointLen(C) + |m| * (4 + 2 * PointLen(C))
  {
    hide CommitmentsEncoding, SignerSetEncoding;
    CommitmentsLength(C, m);
    AddCounts(|m|, 2, 2 + 2 * PointLen(C));
  }

  lemma BlindingInputLength(C: Suite, m: CommitmentMap, message: Bytes32, key: Bytes32)
    requires EncodingLaws(C)
    ensures |BlindingInputOf(C, m, message, key)| == |C.context| + 67 + |m| * (4 + 2 * PointLen(C))
  {
    hide CommitmentsEncoding, SignerSetEncoding, EncodingLaws;
    CommitmentsLength(C, m);
    AddCounts(|m|, 2, 2 + 2 * PointLen(C));
  }

  lemma AddCounts(n: nat, a: nat, b: nat)
    ensures n * a + n * b == n * (a + b)
  {
  }

  lemma CountFromLength(m: CommitmentMap, m': CommitmentMap, w: nat)
    requires w > 0 && |m| * w == |m'| * w
    ensures |m| == |m'|
  {
    SameCount(|m|, |m'|, w);
  }

  // ---------- where each field sits ----------

  /** The bytes of s from lo on are part. */
  predicate At(s: bytes, lo: nat, part: bytes) {
    lo + |part| <= |s| && s[lo..lo + |part|] == part
  }

  lemma NonceInputLayout(C: Suite, vk: Point, signerSet: bytes, message: Bytes32, commitments: bytes)
    ensures var input, tag := NonceInput(C, vk, signerSet, message, commitments), Ascii("/Hnon");
            var key := C.pointBytes(vk);
            var a := |C.context| + |tag|;
            && At(input, 0, C.context) && At(input, |C.context|, tag) && At(input, a, key)
            && At(input, a + |key|, signerSet) && At(input, a + |key| + |signerSet|, message)
            && At(input, a + |key| + |signerSet| + 32, commitments)
            && |input| == a + |key| + |signerSet| + 32 + |commitments|
  {
  }

  lemma BlindingInputLayout(C: Suite, commitments: bytes, message: Bytes32, signerSet: bytes, key: Bytes32)
    ensures var input, tag := BlindingPrefix(C, commitments, message, signerSet) + key, Ascii("/Hs");
            var a := |C.context| + |tag|;
            && At(input, 0, C.context) && At(input, |C.context|, tag) && At(input, a, commitments)
            && At(input, a + |commitments|, message) && At(input, a + |commitments| + 32, signerSet)
            && At(input, a + |commitments| + 32 + |signerSet|, key)
            && |input| == a + |commitments| + 32 + |signerSet| + 32
  {
  }

  lemma RandomizerInputLayout(C: Suite, key: Bytes32, view: bytes)
    ensures var input, tag := RandomizerInput(C, key, view), Ascii("/HIA");
            && At(input, 0, C.context) && At(input, |C.context|, tag) && At(input, |C.context| + |tag|, key)
            && At(input, |C.context| + |tag| + 32, view) && |input| == |C.context| + |tag| + 32 + |view|
  {
  }

  /** The plain suite hashes key, nonce and message behind its tag; RFC 8032 and BIP-340 nonce, key and message. */
  lemma ChallengeInputLayout(C: Suite, vk: Point, r: Point, message: Bytes32)
    requires EncodingLaws(C) && (C.variant.Secp256k1Bip340? ==> CurveLaws(C)) && ChallengeDefined(C, vk, r)
    ensures var input, w := ChallengeInput(C, vk, r, message), PointLen(C);
            match C.variant
            case Secp256k1Plain =>
              var a := |C.context| + 5;
              && At(input, 0, C.context) && At(input, |C.context|, Ascii("/Hsig")) && At(input, a, C.pointBytes(vk))
              && At(input, a + w, C.pointBytes(r)) && At(input, a + 2 * w, message) && |input| == a + 2 * w + 32
            case Secp256k1Bip340 =>
              && At(input, 0, C.xOnly(r)) && At(input, 32, C.xOnly(vk)) && At(input, 64, message) && |input| == 96
            case Ed25519 =>
              && At(input, 0, C.pointBytes(r)) && At(input, 32, C.pointBytes(vk)) && At(input, 64, message)
              && |input| == 96
  {
  }

  // ---------- injectivity ----------

  /** The input of the binding factor determines the key, the commitment map and the message. */
  lemma NonceInputInjective(C: Suite, vk: Point, m: CommitmentMap, message: Bytes32,
                            vk': Point, m': CommitmentMap, message': Bytes32)
    requires EncodingLaws(C)
    requires NonceInputOf(C, vk, m, message) == NonceInputOf(C, vk', m', message')
    ensures vk == vk' && m == m' && message == message'
  {
    NonceInputLength(C, vk, m, message);
    NonceInputLength(C, vk', m', message');
    CountFromLength(m, m', 4 + 2 * PointLen(C));
    CommitmentsLength(C, m);
    CommitmentsLength(C, m');
    hide CommitmentsEncoding, SignerSetEncoding;
    var ids, ids' := SignerSetEncoding(Sorted(m.Keys)), SignerSetEncoding(Sorted(m'.Keys));
    var head, head' := C.context + Ascii("/Hnon") + C.pointBytes(vk), C.context + Ascii("/Hnon") + C.pointBytes(vk');
    SplitTail(head + ids + message, CommitmentsEncoding(C, m), head' + ids' + message', CommitmentsEncoding(C, m'));
    SplitTail(head + ids, message, head' + ids', message');
    SplitTail(head, ids, head', ids');
    SplitTail(C.context + Ascii("/Hnon"), C.pointBytes(vk), C.context + Ascii("/Hnon"), C.pointBytes(vk'));
    CommitmentsInjective(C, m, m');
  }

  /** The input of a blinding value determines the commitment map, the message and the pairwise key. */
  lemma BlindingInputInjective(C: Suite, m: CommitmentMap, message: Bytes32, key: Bytes32,
                               m': CommitmentMap, message': Bytes32, key': Bytes32)
    requires EncodingLaws(C)
    requires BlindingInputOf(C, m, message, key) == BlindingInputOf(C, m', message', key')
    ensures m == m' && message == message' && key == key'
  {
    BlindingInputLength(C, m, message, key);
    BlindingInputLength(C, m', message', key');
    CountFromLength(m, m', 4 + 2 * PointLen(C));
    CommitmentsLength(C, m);
    CommitmentsLength(C, m');
    hide CommitmentsEncoding, SignerSetEncoding, EncodingLaws;
    var ids, ids' := SignerSetEncoding(Sorted(m.Keys)), SignerSetEncoding(Sorted(m'.Keys));
    var head := C.context + Ascii("/Hs");
    var all, all' := CommitmentsEncoding(C, m), CommitmentsEncoding(C, m');
    SplitTail(head + all + message + ids, key, head + all' + message' + ids', key');
    SplitTail(head + all + message, ids, head + all' + message', ids');
    SplitTail(head + all, message, head + all', message');
    SplitHead(head, all, head, all');
    CommitmentsInjective(C, m, m');
  }

  /** For one package, the randomness input determines the key and every (identifier, R, z) record of the view. */
  lemma RandomizerInputInjective(C: Suite, m: CommitmentMap, key: Bytes32, shares: map<Identifier, SignatureShare>,
                                 key': Bytes32, shares': map<Identifier, SignatureShare>)
    requires EncodingLaws(C)
    requires RandomizerInputOf(C, key, m, shares) == RandomizerInputOf(C, key', m, shares')
    ensures key == key' && shares.Keys == shares'.Keys
    ensures forall i :: i in shares && i in shares' ==> shares[i].R == shares'[i].R && shares[i].z == shares'[i].z
  {
    hide CommitmentsEncoding, SharesEncoding, EncodingLaws;
    var head, all := C.context + Ascii("/HIA"), CommitmentsEncoding(C, m);
    var tail, tail' := SharesEncoding(C, shares), SharesEncoding(C, shares');
    SplitHead(head + key, all + tail, head + key', all + tail');
    SplitHead(head, key, head, key');
    SplitHead(all, tail, all, tail');
    SharesInjective(C, shares, shares');
  }

  lemma KeyCommitmentInputInjective(C: Suite, key: Bytes32, key': Bytes32)
    requires KeyCommitmentInput(C, key) == KeyCommitmentInput(C, key')
    ensures key == key'
  {
    SplitTail(C.context + Ascii("/Hvk"), key, C.context + Ascii("/Hvk"), key');
  }

  // ---------- the values of a session hash these inputs ----------

  /** Two different inputs with one hash. */
  ghost predicate HashCollision(C: Suite, a: bytes, b: bytes) {
    a != b && C.hash(a) == C.hash(b)
  }

  /** The binding factor is the hash of its input, so it binds the key and the whole package. */
  lemma NonceChallengeBinds(C: Suite, vk: Point, pkg: SigningPackage, vk': Point, pkg': SigningPackage)
    requires EncodingLaws(C)
    ensures NonceChallenge(C, vk, pkg) == C.hash(NonceInputOf(C, vk, pkg.signingCommitments, pkg.message))
    ensures NonceChallenge(C, vk, pkg) == NonceChallenge(C, vk', pkg') ==>
              || (vk == vk' && pkg == pkg')
              || HashCollision(C, NonceInputOf(C, vk, pkg.signingCommitments, pkg.message),
                               NonceInputOf(C, vk', pkg'.signingCommitments, pkg'.message))
  {
    hide NonceInput, EncodingLaws;
    if NonceInputOf(C, vk, pkg.signingCommitments, pkg.message)
        == NonceInputOf(C, vk', pkg'.signingCommitments, pkg'.message) {
      NonceInputInjective(C, vk, pkg.signingCommitments, pkg.message, vk', pkg'.signingCommitments, pkg'.message);
    }
  }

  /** A blinding value is the hash of its input, so it binds the package and the pairwise key. */
  lemma BlindingValueBinds(C: Suite, pkg: SigningPackage, key: Bytes32, pkg': SigningPackage, key': Bytes32)
    requires EncodingLaws(C)
    ensures BlindingValue(C, pkg, key) == C.hash(BlindingInputOf(C, pkg.signingCommitments, pkg.message, key))
    ensures BlindingValue(C, pkg, key) == BlindingValue(C, pkg', key') ==>
              || (pkg == pkg' && key == key')
              || HashCollision(C, BlindingInputOf(C, pkg.signingCommitments, pkg.message, key),
                               BlindingInputOf(C, pkg'.signingCommitments, pkg'.message, key'))
  {
    hide BlindingPrefix, EncodingLaws;
    if BlindingInputOf(C, pkg.signingCommitments, pkg.message, key)
        == BlindingInputOf(C, pkg'.signingCommitments, pkg'.message, key') {
      BlindingInputInjective(C, pkg.signingCommitments, pkg.message, key, pkg'.signingCommitments, pkg'.message, key');
    }
  }

  /** The larger identifier of a pair adds the blinding value, the smaller one subtracts it. */
  lemma BlindTermIsSignedHash(C: Suite, pkg: SigningPackage, kp: KeyPackage, j: Identifier)
    ensures var input := BlindingInputOf(C, pkg.signingCommitments, pkg.message, PairwiseKey(kp, j));
            BlindTerm(C, kp, PackagePrefix(C, pkg), j)
              == if j < kp.identifier then C.hash(input) else if j > kp.identifier then Neg(C.hash(input)) else 0
  {
    hide BlindingPrefix, Mul, Neg;
    var b := C.hash(BlindingInputOf(C, pkg.signingCommitments, pkg.message, PairwiseKey(kp, j)));
    MulOne(b);
    NegIsTimesMinusOne(b);
  }

  /** Within a package the randomness of a commitment binds the pairwise key and the view of all shares. */
  lemma BlindingRandomizerBinds(C: Suite, pkg: SigningPackage, shares: map<Identifier, SignatureShare>, key: Bytes32,
                                shares': map<Identifier, SignatureShare>, key': Bytes32)
    requires EncodingLaws(C)
    ensures BlindingRandomizer(C, pkg, shares, key)
         == C.hash(RandomizerInputOf(C, key, pkg.signingCommitments, shares))
    ensures BlindingRandomizer(C, pkg, shares, key) == BlindingRandomizer(C, pkg, shares', key') ==>
              || (&& key == key' && shares.Keys == shares'.Keys
                  && forall i :: i in shares && i in shares' ==>
                       shares[i].R == shares'[i].R && shares[i].z == shares'[i].z)
              || HashCollision(C, RandomizerInputOf(C, key, pkg.signingCommitments, shares),
                               RandomizerInputOf(C, key', pkg.signingCommitments, shares'))
  {
    hide RandomizerInput, EncodingLaws;
    if RandomizerInputOf(C, key, pkg.signingCommitments, shares)
        == RandomizerInputOf(C, key', pkg.signingCommitments, shares') {
      RandomizerInputInjective(C, pkg.signingCommitments, key, shares, key', shares');
    }
  }

  /** Colliding keys, which the non-framing theorems conclude, are a collision of the commitment hash itself. */
  lemma KeyCollisionIsHashCollision(C: Suite, key: Bytes32, key': Bytes32)
    requires KeyCollision(C, key, key')
    ensures KeyCommitmentInput(C, key) != KeyCommitmentInput(C, key')
    ensures C.hashCommitment(KeyCommitmentInput(C, key)) == C.hashCommitment(KeyCommitmentInput(C, key'))
  {
    hide KeyCommitmentInput;
    if KeyCommitmentInput(C, key) == KeyCommitmentInput(C, key') {
      KeyCommitmentInputInjective(C, key, key');
    }
  }

  // ---------- the signature challenge ----------

  lemma PlainChallengeInputInjective(C: Suite, vk: Point, r: Point, msg: Bytes32, vk': Point, r': Point, msg': Bytes32)
    requires EncodingLaws(C) && PlainChallengeInput(C, vk, r, msg) == PlainChallengeInput(C, vk', r', msg')
    ensures vk == vk' && r == r' && msg == msg'
  {
    var head := C.context + Ascii("/Hsig");
    SplitTail(head + C.pointBytes(vk) + C.pointBytes(r), msg, head + C.pointBytes(vk') + C.pointBytes(r'), msg');
    SplitTail(head + C.pointBytes(vk), C.pointBytes(r), head + C.pointBytes(vk'), C.pointBytes(r'));
    SplitTail(head, C.pointBytes(vk), head, C.pointBytes(vk'));
  }

  lemma Ed25519ChallengeInputInjective(C: Suite, vk: Point, r: Point, msg: Bytes32, vk': Point, r': Point,
                                       msg': Bytes32)
    requires EncodingLaws(C) && Ed25519ChallengeInput(C, vk, r, msg) == Ed25519ChallengeInput(C, vk', r', msg')
    ensures vk == vk' && r == r' && msg == msg'
  {
    SplitTail(C.pointBytes(r) + C.pointBytes(vk), msg, C.pointBytes(r') + C.pointBytes(vk'), msg');
    SplitTail(C.pointBytes(r), C.pointBytes(vk), C.pointBytes(r'), C.pointBytes(vk'));
  }

  lemma Bip340ChallengeInputInjective(rX: bytes, pX: bytes, msg: Bytes32, rX': bytes, pX': bytes, msg': Bytes32)
    requires |rX| == |pX| == |rX'| == |pX'| == 32
    requires Bip340ChallengeInput(rX, pX, msg) == Bip340ChallengeInput(rX', pX', msg')
    ensures rX == rX' && pX == pX' && msg == msg'
  {
    SplitTail(rX + pX, msg, rX' + pX', msg');
    SplitTail(rX, pX, rX', pX');
  }

  /** What a suite hashes for its challenge, and how. */
  function ChallengeInput(C: Suite, vk: Point, r: Point, msg: Bytes32): bytes {
    match C.variant
    case Secp256k1Plain => PlainChallengeInput(C, vk, r, msg)
    case Secp256k1Bip340 => Bip340ChallengeInput(C.xOnly(r), C.xOnly(vk), msg)
    case Ed25519 => Ed25519ChallengeInput(C, vk, r, msg)
  }

  function ChallengeHash(C: Suite, input: bytes): Scalar {
    if C.variant.Secp256k1Bip340? then C.taggedHash(input) else C.hash(input)
  }

  ghost predicate ChallengeCollision(C: Suite, a: bytes, b: bytes) {
    a != b && ChallengeHash(C, a) == ChallengeHash(C, b)
  }

  /** Two points that a challenge does not tell apart: equal, or under BIP-340 negations of each other. */
  ghost predicate SameForChallenge(C: Suite, p: Point, r: Point) {
    p == r || (C.variant.Secp256k1Bip340? && p == PNeg(r))
  }

  /** The challenge binds the message, and the key and the nonce as far as their encoding shows them. */
  lemma SignatureChallengeBinds(C: Suite, vk: Point, r: Point, msg: Bytes32, vk': Point, r': Point, msg': Bytes32)
    requires EncodingLaws(C) && (C.variant.Secp256k1Bip340? ==> CurveLaws(C))
    requires ChallengeDefined(C, vk, r) && ChallengeDefined(C, vk', r')
    requires Challenge(C, vk, r, msg) == Challenge(C, vk', r', msg')
    ensures || ChallengeCollision(C, ChallengeInput(C, vk, r, msg), ChallengeInput(C, vk', r', msg'))
            || (msg == msg' && SameForChallenge(C, vk, vk') && SameForChallenge(C, r, r'))
  {
    hide PlainChallengeInput, Ed25519ChallengeInput, Bip340ChallengeInput, PNeg;
    if ChallengeInput(C, vk, r, msg) == ChallengeInput(C, vk', r', msg') {
      match C.variant
      case Secp256k1Plain =>
        PlainChallengeInputInjective(C, vk, r, msg, vk', r', msg');
      case Secp256k1Bip340 =>
        Bip340ChallengeInputInjective(C.xOnly(r), C.xOnly(vk), msg, C.xOnly(r'), C.xOnly(vk'), msg');
        SameAbscissa(C, vk, vk');
        SameAbscissa(C, r, r');
      case Ed25519 =>
        Ed25519ChallengeInputInjective(C, vk, r, msg, vk', r', msg');
    }
  }

  lemma SameAbscissa(C: Suite, p: Point, r: Point)
    requires CurveLaws(C) && p != Identity() && r != Identity() && C.xOnly(p) == C.xOnly(r)
    ensures p == r || p == PNeg(r)
  {
    hide PNeg;
    NegInvolutive(p);
    NegInvolutive(r);
    assert C.liftX(C.xOnly(p)) == C.liftX(C.xOnly(r));
  }

  /** A signature accepted on one message is accepted on another exactly when the challenges agree. */
  lemma OtherMessageVerifiesIff(C: Suite, sig: Signature, msg: Bytes32, msg': Bytes32, pk: PublicKeyPackage)
    requires VerifyDefined(C, sig, pk) && Verify(C, sig, msg, pk)
    ensures Verify(C, sig, msg', pk)
        <==> pk.verifyingKey == Identity()
             || Challenge(C, pk.verifyingKey, sig.R, msg) == Challenge(C, pk.verifyingKey, sig.R, msg')
  {
    hide Mod, Add, Mul, Challenge;
    var v, c, c' := pk.verifyingKey.log, Challenge(C, pk.verifyingKey, sig.R, msg),
                    Challenge(C, pk.verifyingKey, sig.R, msg');
    CancelLeft(sig.R.log, Mul(v, c), Mul(v, c'));
    if v == 0 {
      MulZero(c);
      MulZero(c');
    } else if Mul(v, c) == Mul(v, c') {
      Cancel(v, c, c');
    }
  }

  lemma CancelLeft(r: Scalar, a: Scalar, b: Scalar)
    ensures Add(r, a) == Add(r, b) <==> a == b
  {
    hide Mod, Add, Sub;
    AddCommSub(r, a);
    AddCommSub(r, b);
  }

  /** So one signature on two messages exhibits two challenge inputs with one hash. */
  lemma TwoMessagesCollide(C: Suite, sig: Signature, msg: Bytes32, msg': Bytes32, pk: PublicKeyPackage)
    requires EncodingLaws(C) && (C.variant.Secp256k1Bip340? ==> CurveLaws(C))
    requires VerifyDefined(C, sig, pk) && pk.verifyingKey != Identity() && msg != msg'
    requires Verify(C, sig, msg, pk) && Verify(C, sig, msg', pk)
    ensures ChallengeCollision(C, ChallengeInput(C, pk.verifyingKey, sig.R, msg),
                               ChallengeInput(C, pk.verifyingKey, sig.R, msg'))
  {
    hide EncodingLaws, CurveLaws, Challenge, ChallengeInput, ChallengeHash, Add, Mul;
    OtherMessageVerifiesIff(C, sig, msg, msg', pk);
    SignatureChallengeBinds(C, pk.verifyingKey, sig.R, msg, pk.verifyingKey, sig.R, msg');
  }

  // ---------- tag separation ----------

  /** The byte that follows "/H" behind the context. */
  lemma TagByte(C: Suite, input: bytes, tag: string, rest: bytes)
    requires |tag| >= 3 && input == C.context + Ascii(tag) + rest
    ensures |input| > |C.context| + 2 && input[|C.context| + 2] == tag[2] as int % 256
  {
    assert input[|C.context| + 2] == Ascii(tag)[2];
  }

  /** Under every suite the four internal tags keep their inputs apart. */
  lemma InternalTagsSeparate(C: Suite, vk: Point, m: CommitmentMap, message: Bytes32, m': CommitmentMap,
                             message': Bytes32, key: Bytes32, key': Bytes32, key'': Bytes32, view: bytes)
    ensures NonceInputOf(C, vk, m, message) != BlindingInputOf(C, m', message', key)
    ensures NonceInputOf(C, vk, m, message) != RandomizerInput(C, key', view)
    ensures NonceInputOf(C, vk, m, message) != KeyCommitmentInput(C, key'')
    ensures BlindingInputOf(C, m', message', key) != RandomizerInput(C, key', view)
    ensures BlindingInputOf(C, m', message', key) != KeyCommitmentInput(C, key'')
    ensures RandomizerInput(C, key', view) != KeyCommitmentInput(C, key'')
  {
    NonceTag(C, vk, m, message);
    BlindingTag(C, m', message', key);
    RandomizerTag(C, key', view);
    KeyTag(C, key'');
    hide NonceInputOf, BlindingInputOf, RandomizerInput, KeyCommitmentInput;
  }

  /** The byte that tells the tags apart. */
  ghost predicate TaggedWith(C: Suite, input: bytes, c: char) {
    |input| > |C.context| + 2 && input[|C.context| + 2] == c as int % 256
  }

  lemma NonceTag(C: Suite, vk: Point, m: CommitmentMap, message: Bytes32)
    ensures TaggedWith(C, NonceInputOf(C, vk, m, message), 'n')
  {
    hide CommitmentsEncoding, SignerSetEncoding;
    var ids, all := SignerSetEncoding(Sorted(m.Keys)), CommitmentsEncoding(C, m);
    FourFields(C.context + Ascii("/Hnon"), C.pointBytes(vk), ids, message, all);
    TagByte(C, NonceInputOf(C, vk, m, message), "/Hnon", C.pointBytes(vk) + ids + message + all);
  }

  lemma BlindingTag(C: Suite, m: CommitmentMap, message: Bytes32, key: Bytes32)
    ensures TaggedWith(C, BlindingInputOf(C, m, message, key), 's')
  {
    hide CommitmentsEncoding, SignerSetEncoding;
    var ids, all := SignerSetEncoding(Sorted(m.Keys)), CommitmentsEncoding(C, m);
    FourFields(C.context + Ascii("/Hs"), all, message, ids, key);
    TagByte(C, BlindingInputOf(C, m, message, key), "/Hs", all + message + ids + key);
  }

  lemma RandomizerTag(C: Suite, key: Bytes32, view: bytes)
    ensures TaggedWith(C, RandomizerInput(C, key, view), 'I')
  {
    FourFields(C.context + Ascii("/HIA"), key, view, [], []);
    TagByte(C, RandomizerInput(C, key, view), "/HIA", key + view);
  }

  lemma KeyTag(C: Suite, key: Bytes32)
    ensures TaggedWith(C, KeyCommitmentInput(C, key), 'v')
  {
    TagByte(C, KeyCommitmentInput(C, key), "/Hvk", key);
  }

  lemma ChallengeTag(C: Suite, vk: Point, r: Point, message: Bytes32)
    ensures TaggedWith(C, PlainChallengeInput(C, vk, r, message), 's')
  {
    FourFields(C.context + Ascii("/Hsig"), C.pointBytes(vk), C.pointBytes(r), message, []);
    TagByte(C, PlainChallengeInput(C, vk, r, message), "/Hsig", C.pointBytes(vk) + C.pointBytes(r) + message);
  }

  lemma FourFields(head: bytes, a: bytes, b: bytes, c: bytes, d: bytes)
    ensures head + a + b + c + d == head + (a + b + c + d)
    ensures head + a + b + c == head + (a + b + c)
    ensures head + a + b == head + (a + b)
  {
  }

  /**
    The signature challenge of Secp256k1Plain stays apart from all internal inputs.  "/Hs" is a prefix of
    "/Hsig", so that pair is told apart by length alone: 67 + 70 n bytes against 103.
  */
  lemma ChallengeTagSeparates(C: Suite, vk: Point, r: Point, message: Bytes32, vk': Point, m: CommitmentMap,
                              message': Bytes32, key: Bytes32, key': Bytes32, key'': Bytes32, view: bytes)
    requires C.variant.Secp256k1Plain? && EncodingLaws(C)
    ensures PlainChallengeInput(C, vk, r, message) != BlindingInputOf(C, m, message', key)
    ensures PlainChallengeInput(C, vk, r, message) != NonceInputOf(C, vk', m, message')
    ensures PlainChallengeInput(C, vk, r, message) != RandomizerInput(C, key', view)
    ensures PlainChallengeInput(C, vk, r, message) != KeyCommitmentInput(C, key'')
  {
    hide NonceInputOf, BlindingInputOf, RandomizerInput, KeyCommitmentInput, PlainChallengeInput, EncodingLaws, Sorted;
    ChallengeTag(C, vk, r, message);
    NonceTag(C, vk', m, message');
    RandomizerTag(C, key', view);
    KeyTag(C, key'');
    BlindingInputLength(C, m, message', key);
    ChallengeLength(C, vk, r, message);
  }

  lemma ChallengeLength(C: Suite, vk: Point, r: Point, message: Bytes32)
    requires C.variant.Secp256k1Plain? && EncodingLaws(C)
    ensures |PlainChallengeInput(C, vk, r, message)| == |C.context| + 103
  {
  }

  /**
    The challenge input of Ed25519 carries no tag and goes through the same hash.  It stays apart from all internal
    inputs by length alone: 96 bytes, against those of the context and 69 + 68 n, 67 + 68 n, 36 + 66 k and 36 more.  The
    context of the crate has 22 bytes.
  */
  lemma Ed25519ChallengeSeparates(C: Suite, vk: Point, r: Point, message: Bytes32, vk': Point, m: CommitmentMap,
                                  message': Bytes32, key: Bytes32, shares: map<Identifier, SignatureShare>)
    requires C.variant.Ed25519? && EncodingLaws(C) && |C.context| !in {27, 29, 60}
    ensures Ed25519ChallengeInput(C, vk, r, message) != NonceInputOf(C, vk', m, message')
    ensures Ed25519ChallengeInput(C, vk, r, message) != BlindingInputOf(C, m, message', key)
    ensures Ed25519ChallengeInput(C, vk, r, message) != RandomizerInputOf(C, key, m, shares)
    ensures Ed25519ChallengeInput(C, vk, r, message) != KeyCommitmentInput(C, key)
  {
  }
}
