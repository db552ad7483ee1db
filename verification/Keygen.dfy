/** The idealised dealer (src/keygen.rs); its randomness is a parameter. */
module Keygen {
  import opened PrimeField
  import opened Sums
  import opened Polynomials
  import opened Lagrange
  import opened Ciphersuites
  import opened Wire
  import opened Hashing
  import opened Signing

  /** The randomness a dealer draws: coefficients, commitment randomness, and a key for every pair i < j. */
  datatype DealerCoins = DealerCoins(
    coefficients: seq<Scalar>,
    blinding: Identifier -> Scalar,
    pairwiseKey: (Identifier, Identifier) -> Bytes32)

  /** The range loop 1..min_signers draws one coefficient per step, and none when min_signers is 0 or 1. */
  ghost predicate CoinsFit(coins: DealerCoins, minSigners: Identifier) {
    |coins.coefficients| == if minSigners <= 1 then 0 else minSigners - 1
  }

  function NormalizedSecret(C: Suite, secretKey: Scalar): Scalar {
    NormalizeKeygen(C, secretKey, MulGenerator(secretKey)).0
  }

  function DealerPolynomial(C: Suite, secretKey: Scalar, coins: DealerCoins): (c: seq<Scalar>)
    ensures |c| == 1 + |coins.coefficients|
  {
    [NormalizedSecret(C, secretKey)] + coins.coefficients
  }

  function PairKey(coins: DealerCoins, x: Identifier, y: Identifier): Bytes32 {
    if x < y then coins.pairwiseKey(x, y) else coins.pairwiseKey(y, x)
  }

  /** Whether the nested loops have dealt the pair {x, y} when they stand at (i, j). */
  predicate Dealt(x: Identifier, y: Identifier, i: int, j: int) {
    var a, b := if x < y then x else y, if x < y then y else x;
    x != y && (a < i || (a == i && b < j))
  }

  function KeysOf(coins: DealerCoins, x: Identifier, max: Identifier, i: int, j: int): map<Identifier, Bytes32> {
    map y: Identifier | 1 <= y <= max && Dealt(x, y, i, j) :: PairKey(coins, x, y)
  }

  function KeyCommitmentsOf(C: Suite, coins: DealerCoins, x: Identifier, max: Identifier, i: int, j: int)
    : map<Identifier, Bytes32>
  {
    map y: Identifier | 1 <= y <= max && Dealt(x, y, i, j) :: KeyCommitment(C, PairKey(coins, x, y))
  }

  /** The package of signer x once the nested loops stand at (i, j). */
  function PackageAt(c: seq<Scalar>, coins: DealerCoins, x: Identifier, max: Identifier, i: int, j: int): KeyPackage {
    KeyPackage(x, Eval(c, FromId(x)), coins.blinding(x), KeysOf(coins, x, max, i, j))
  }

  function PartialAt(C: Suite, c: seq<Scalar>, coins: DealerCoins, x: Identifier, max: Identifier, i: int, j: int)
    : PartialVerificationKey
  {
    PartialVerificationKey(PedersenCommit(Eval(c, FromId(x)), coins.blinding(x), C.pedersenGenerator),
                           KeyCommitmentsOf(C, coins, x, max, i, j))
  }

  function SharesAt(c: seq<Scalar>, coins: DealerCoins, bound: nat, max: Identifier, i: int, j: int)
    : (m: map<Identifier, KeyPackage>)
  {
    map x: Identifier | 1 <= x < bound :: PackageAt(c, coins, x, max, i, j)
  }

  function PartialsAt(C: Suite, c: seq<Scalar>, coins: DealerCoins, bound: nat, max: Identifier, i: int, j: int)
    : (m: map<Identifier, PartialVerificationKey>)
  {
    map x: Identifier | 1 <= x < bound :: PartialAt(C, c, coins, x, max, i, j)
  }

  /** The dealt packages: the tables once the nested loops are through. */
  function DealtShares(C: Suite, secretKey: Scalar, max: Identifier, coins: DealerCoins): map<Identifier, KeyPackage> {
    SharesAt(DealerPolynomial(C, secretKey, coins), coins, max + 1, max, max + 1, 0)
  }

  function DealtPublicKeys(C: Suite, secretKey: Scalar, max: Identifier, min: Identifier, coins: DealerCoins)
    : PublicKeyPackage
  {
    PublicKeyPackage(
      NormalizeKeygen(C, secretKey, MulGenerator(secretKey)).1, max, min, C.pedersenGenerator,
      PartialsAt(C, DealerPolynomial(C, secretKey, coins), coins, max + 1, max, max + 1, 0))
  }

  /** The evaluation loop: running sum y and running power pow. */
  method EvaluateShare(coeffs: seq<Scalar>, x: Scalar) returns (y: Scalar)
    ensures y == Eval(coeffs, x)
  {
    hide Mod, Add, Mul;
    y := 0;
    var pow := 1;
    MulOne(Eval(coeffs, x));
    AddZero(Eval(coeffs, x));
    assert coeffs[0..] == coeffs;
    for k := 0 to |coeffs|
      invariant Add(y, Mul(pow, Eval(coeffs[k..], x))) == Eval(coeffs, x)
    {
      HornerStep(y, pow, coeffs[k], x, Eval(coeffs[k + 1..], x));
      assert coeffs[k..][1..] == coeffs[k + 1..];
      y := Add(y, Mul(coeffs[k], pow));
      pow := Mul(pow, x);
    }
    MulZero(pow);
    AddZero(y);
  }

  lemma HornerStep(y: Scalar, pow: Scalar, a: Scalar, x: Scalar, e: Scalar)
    ensures Add(y, Mul(pow, Add(a, Mul(x, e)))) == Add(Add(y, Mul(a, pow)), Mul(Mul(pow, x), e))
  {
    hide Mod, Add, Mul;
    Distribute(pow, a, Mul(x, e));
    MulAssoc(pow, x, e);
    MulComm(pow, a);
    Lift();
    Rep(y); Rep(Mul(a, pow)); Rep(Mul(Mul(pow, x), e));
  }

  method GenerateWithDealerFromSecret(C: Suite, secretKey: Scalar, maxSigners: Identifier, minSigners: Identifier,
                                      coins: DealerCoins)
    returns (shares: map<Identifier, KeyPackage>, pubkeys: PublicKeyPackage)
    requires minSigners <= maxSigners <= 65534 && CoinsFit(coins, minSigners)
    ensures shares == DealtShares(C, secretKey, maxSigners, coins)
    ensures pubkeys == DealtPublicKeys(C, secretKey, maxSigners, minSigners, coins)
  {
    hide Mod, Add, Mul, Neg, Eval, PedersenCommit, KeyCommitment, SharesAt, PartialsAt;
    var vkRaw := MulGenerator(secretKey);
    var (sk, verifyingKey) := NormalizeKeygen(C, secretKey, vkRaw);
    var pedersenH := C.pedersenGenerator;
    var coeffs := [sk];
    var k := 1;
    while k < minSigners
      invariant 1 <= k && (k <= minSigners || k == 1)
      invariant coeffs == [sk] + coins.coefficients[..k - 1]
    {
      coeffs := coeffs + [coins.coefficients[k - 1]];
      k := k + 1;
    }
    assert coins.coefficients[..|coins.coefficients|] == coins.coefficients;
    ghost var c := DealerPolynomial(C, secretKey, coins);

    shares := map[];
    var partials: map<Identifier, PartialVerificationKey> := map[];
    NoSigners(C, c, coins, maxSigners);
    for id := 1 to maxSigners + 1
      invariant shares == SharesAt(c, coins, id, maxSigners, 1, 0)
      invariant partials == PartialsAt(C, c, coins, id, maxSigners, 1, 0)
    {
      var y := EvaluateShare(coeffs, FromId(id));
      var omega := coins.blinding(id);
      var vki := PedersenCommit(y, omega, pedersenH);
      AddSigner(C, c, coins, id, maxSigners);
      shares := shares[id := KeyPackage(id, y, omega, map[])];
      partials := partials[id := PartialVerificationKey(vki, map[])];
    }

    for i := 1 to maxSigners + 1
      invariant shares == SharesAt(c, coins, maxSigners + 1, maxSigners, i, 0)
      invariant partials == PartialsAt(C, c, coins, maxSigners + 1, maxSigners, i, 0)
    {
      StartRow(C, c, coins, maxSigners, i);
      for j := i + 1 to maxSigners + 1
        invariant shares == SharesAt(c, coins, maxSigners + 1, maxSigners, i, j)
        invariant partials == PartialsAt(C, c, coins, maxSigners + 1, maxSigners, i, j)
      {
        var key := coins.pairwiseKey(i, j);
        var commitment := KeyCommitment(C, key);
        DealPair(C, c, coins, i, j, maxSigners);
        DealPairCommitments(C, c, coins, i, j, maxSigners);
        shares := shares[i := WithKey(shares[i], j, key)];
        shares := shares[j := WithKey(shares[j], i, key)];
        partials := partials[i := WithKeyCommitment(partials[i], j, commitment)];
        partials := partials[j := WithKeyCommitment(partials[j], i, commitment)];
      }
      EndRow(C, c, coins, maxSigners, i);
    }
    pubkeys := PublicKeyPackage(verifyingKey, maxSigners, minSigners, pedersenH, partials);
  }

  /** get_mut(..).pairwise_keys.insert(..) */
  function WithKey(kp: KeyPackage, j: Identifier, key: Bytes32): KeyPackage {
    kp.(pairwiseKeys := kp.pairwiseKeys[j := key])
  }

  function WithKeyCommitment(p: PartialVerificationKey, j: Identifier, k: Bytes32): PartialVerificationKey {
    p.(pairwiseKeyCommitments := p.pairwiseKeyCommitments[j := k])
  }

  lemma NoSigners(C: Suite, c: seq<Scalar>, coins: DealerCoins, max: Identifier)
    ensures SharesAt(c, coins, 1, max, 1, 0) == map[]
    ensures PartialsAt(C, c, coins, 1, max, 1, 0) == map[]
  {
  }

  lemma AddSigner(C: Suite, c: seq<Scalar>, coins: DealerCoins, id: Identifier, max: Identifier)
    requires 1 <= id <= max
    ensures SharesAt(c, coins, id + 1, max, 1, 0)
         == SharesAt(c, coins, id, max, 1, 0)[id := KeyPackage(id, Eval(c, FromId(id)), coins.blinding(id), map[])]
    ensures PartialsAt(C, c, coins, id + 1, max, 1, 0)
         == PartialsAt(C, c, coins, id, max, 1, 0)[id := PartialVerificationKey(
              PedersenCommit(Eval(c, FromId(id)), coins.blinding(id), C.pedersenGenerator), map[])]
  {
    hide PedersenCommit, Eval, KeyCommitment;
    assert KeysOf(coins, id, max, 1, 0) == map[];
    assert KeyCommitmentsOf(C, coins, id, max, 1, 0) == map[];
  }

  lemma SameTables(C: Suite, c: seq<Scalar>, coins: DealerCoins, max: Identifier, i: int, j: int, i': int, j': int)
    requires forall x: Identifier, y: Identifier ::
               1 <= x <= max && 1 <= y <= max ==> Dealt(x, y, i, j) == Dealt(x, y, i', j')
    ensures SharesAt(c, coins, max + 1, max, i, j) == SharesAt(c, coins, max + 1, max, i', j')
    ensures PartialsAt(C, c, coins, max + 1, max, i, j) == PartialsAt(C, c, coins, max + 1, max, i', j')
  {
    hide PedersenCommit, Eval, KeyCommitment, Dealt, PairKey;
    forall x: Identifier | 1 <= x <= max
      ensures PackageAt(c, coins, x, max, i, j) == PackageAt(c, coins, x, max, i', j')
      ensures PartialAt(C, c, coins, x, max, i, j) == PartialAt(C, c, coins, x, max, i', j')
    {
      assert KeysOf(coins, x, max, i, j) == KeysOf(coins, x, max, i', j');
      assert KeyCommitmentsOf(C, coins, x, max, i, j) == KeyCommitmentsOf(C, coins, x, max, i', j');
    }
  }

  lemma StartRow(C: Suite, c: seq<Scalar>, coins: DealerCoins, max: Identifier, i: Identifier)
    requires 1 <= i <= max
    ensures SharesAt(c, coins, max + 1, max, i, 0) == SharesAt(c, coins, max + 1, max, i, i + 1)
    ensures PartialsAt(C, c, coins, max + 1, max, i, 0) == PartialsAt(C, c, coins, max + 1, max, i, i + 1)
  {
    SameTables(C, c, coins, max, i, 0, i, i + 1);
  }

  lemma EndRow(C: Suite, c: seq<Scalar>, coins: DealerCoins, max: Identifier, i: Identifier)
    requires 1 <= i <= max
    ensures SharesAt(c, coins, max + 1, max, i, max + 1) == SharesAt(c, coins, max + 1, max, i + 1, 0)
    ensures PartialsAt(C, c, coins, max + 1, max, i, max + 1) == PartialsAt(C, c, coins, max + 1, max, i + 1, 0)
  {
    SameTables(C, c, coins, max, i, max + 1, i + 1, 0);
  }

  lemma DealtStep(x: Identifier, y: Identifier, i: Identifier, j: Identifier)
    requires i < j
    ensures Dealt(x, y, i, j + 1) <==> Dealt(x, y, i, j) || (x == i && y == j) || (x == j && y == i)
  {
  }

  /** The pair that the nested loops deal at (i, j) is the only new one. */
  lemma KeysOfStep(C: Suite, coins: DealerCoins, x: Identifier, max: Identifier, i: Identifier, j: Identifier)
    requires 1 <= i < j <= max
    ensures var m, k := KeysOf(coins, x, max, i, j), coins.pairwiseKey(i, j);
            KeysOf(coins, x, max, i, j + 1) == if x == i then m[j := k] else if x == j then m[i := k] else m
    ensures var m, k := KeyCommitmentsOf(C, coins, x, max, i, j), KeyCommitment(C, coins.pairwiseKey(i, j));
            KeyCommitmentsOf(C, coins, x, max, i, j + 1)
              == if x == i then m[j := k] else if x == j then m[i := k] else m
  {
    hide Dealt, KeyCommitment;
    forall y: Identifier
      ensures Dealt(x, y, i, j + 1) <==> Dealt(x, y, i, j) || (x == i && y == j) || (x == j && y == i)
    {
      DealtStep(x, y, i, j);
    }
    var m, k := KeysOf(coins, x, max, i, j), coins.pairwiseKey(i, j);
    var n, h := KeyCommitmentsOf(C, coins, x, max, i, j), KeyCommitment(C, k);
    assert PairKey(coins, i, j) == k == PairKey(coins, j, i);
    hide PairKey;
    if x == i {
      assert KeysOf(coins, x, max, i, j + 1) == m[j := k];
      assert KeyCommitmentsOf(C, coins, x, max, i, j + 1) == n[j := h];
    } else if x == j {
      assert KeysOf(coins, x, max, i, j + 1) == m[i := k];
      assert KeyCommitmentsOf(C, coins, x, max, i, j + 1) == n[i := h];
    } else {
      assert KeysOf(coins, x, max, i, j + 1) == m;
      assert KeyCommitmentsOf(C, coins, x, max, i, j + 1) == n;
    }
  }

  /** One step of the nested loops adds the pair {i, j} to both packages and nothing else. */
  lemma DealPair(C: Suite, c: seq<Scalar>, coins: DealerCoins, i: Identifier, j: Identifier, max: Identifier)
    requires 1 <= i < j <= max
    ensures var m, k := SharesAt(c, coins, max + 1, max, i, j), coins.pairwiseKey(i, j);
            i in m && j in m && SharesAt(c, coins, max + 1, max, i, j + 1)
                == m[i := WithKey(m[i], j, k)][j := WithKey(m[j], i, k)]
  {
    hide Eval, KeysOf, KeyCommitmentsOf;
    forall x: Identifier
      ensures KeysOf(coins, x, max, i, j + 1)
           == if x == i then KeysOf(coins, x, max, i, j)[j := coins.pairwiseKey(i, j)]
              else if x == j then KeysOf(coins, x, max, i, j)[i := coins.pairwiseKey(i, j)]
              else KeysOf(coins, x, max, i, j)
    {
      KeysOfStep(C, coins, x, max, i, j);
    }
  }

  lemma DealPairCommitments(C: Suite, c: seq<Scalar>, coins: DealerCoins, i: Identifier, j: Identifier, max: Identifier)
    requires 1 <= i < j <= max
    ensures var m, k := PartialsAt(C, c, coins, max + 1, max, i, j), KeyCommitment(C, coins.pairwiseKey(i, j));
            i in m && j in m && PartialsAt(C, c, coins, max + 1, max, i, j + 1)
              == m[i := WithKeyCommitment(m[i], j, k)][j := WithKeyCommitment(m[j], i, k)]
  {
    hide Eval, PedersenCommit, KeyCommitment, KeysOf, KeyCommitmentsOf;
    var k := KeyCommitment(C, coins.pairwiseKey(i, j));
    forall x: Identifier
      ensures KeyCommitmentsOf(C, coins, x, max, i, j + 1)
           == if x == i then KeyCommitmentsOf(C, coins, x, max, i, j)[j := k]
              else if x == j then KeyCommitmentsOf(C, coins, x, max, i, j)[i := k]
              else KeyCommitmentsOf(C, coins, x, max, i, j)
    {
      KeysOfStep(C, coins, x, max, i, j);
    }
  }

  // ---------- what the dealer guarantees ----------

  /** The public record of a signer opens to its package, and commits to its pairwise keys on both sides. */
  ghost predicate RecordMatches(C: Suite, pk: PublicKeyPackage, kp: KeyPackage) {
    && kp.identifier in pk.partialVerificationKeys
    && pk.partialVerificationKeys[kp.identifier].signingShareCommitment
         == PedersenCommit(kp.signingShare, kp.signingShareBlinding, pk.pedersenH)
    && forall j :: j in kp.pairwiseKeys ==>
         && j in pk.partialVerificationKeys
         && j in pk.partialVerificationKeys[kp.identifier].pairwiseKeyCommitments
         && kp.identifier in pk.partialVerificationKeys[j].pairwiseKeyCommitments
         && pk.partialVerificationKeys[kp.identifier].pairwiseKeyCommitments[j] == KeyCommitment(C, kp.pairwiseKeys[j])
         && pk.partialVerificationKeys[j].pairwiseKeyCommitments[kp.identifier] == KeyCommitment(C, kp.pairwiseKeys[j])
  }

  /** Keys for exactly the other signers, symmetric, and committed to in the public records. */
  ghost predicate TablesConsistent(C: Suite, kps: map<Identifier, KeyPackage>, pk: PublicKeyPackage, max: Identifier) {
    && (forall i: Identifier :: i in kps <==> 1 <= i <= max)
    && pk.partialVerificationKeys.Keys == kps.Keys
    && (forall i :: i in kps ==> kps[i].identifier == i && kps[i].pairwiseKeys.Keys == kps.Keys - {i})
    && (forall i, j :: i in kps && j in kps && i != j ==> SameKey(kps[i], kps[j]))
    && (forall i :: i in kps ==> RecordMatches(C, pk, kps[i]))
  }

  /** Two packages hold the same pairwise key for each other. */
  ghost predicate SameKey(a: KeyPackage, b: KeyPackage) {
    && b.identifier in a.pairwiseKeys && a.identifier in b.pairwiseKeys
    && a.pairwiseKeys[b.identifier] == b.pairwiseKeys[a.identifier]
  }

  lemma FinalTables(C: Suite, coins: DealerCoins, x: Identifier, max: Identifier, end: int)
    requires end == max + 1
    ensures forall y: Identifier :: y in KeysOf(coins, x, max, end, 0) <==> 1 <= y <= max && y != x
    ensures forall y: Identifier :: y in KeyCommitmentsOf(C, coins, x, max, end, 0) <==> 1 <= y <= max && y != x
    ensures forall y :: y in KeysOf(coins, x, max, end, 0) ==>
              KeysOf(coins, x, max, end, 0)[y] == PairKey(coins, x, y)
    ensures forall y :: y in KeyCommitmentsOf(C, coins, x, max, end, 0) ==>
              KeyCommitmentsOf(C, coins, x, max, end, 0)[y] == KeyCommitment(C, PairKey(coins, x, y))
  {
    hide KeyCommitment, PairKey;
  }

  /** The nested loops leave consistent tables. */
  lemma DealerTables(C: Suite, secretKey: Scalar, max: Identifier, min: Identifier, coins: DealerCoins)
    requires min <= max <= 65534 && CoinsFit(coins, min)
    ensures TablesConsistent(C, DealtShares(C, secretKey, max, coins),
                             DealtPublicKeys(C, secretKey, max, min, coins), max)
    ensures DealtPublicKeys(C, secretKey, max, min, coins).verifyingKey == MulGenerator(NormalizedSecret(C, secretKey))
  {
    hide DealtShares, DealtPublicKeys, RecordMatches, PairKey;
    var kps, pk := DealtShares(C, secretKey, max, coins), DealtPublicKeys(C, secretKey, max, min, coins);
    DealtDomains(C, secretKey, max, min, coins);
    forall i | i in kps
      ensures kps[i].identifier == i && kps[i].pairwiseKeys.Keys == kps.Keys - {i}
      ensures RecordMatches(C, pk, kps[i])
      ensures forall j ::
                j in kps && j != i ==> j in kps[i].pairwiseKeys && kps[i].pairwiseKeys[j] == PairKey(coins, i, j)
    {
      PackageDealt(C, secretKey, max, coins, i);
      RecordDealt(C, secretKey, max, min, coins, i);
    }
    forall i, j | i in kps && j in kps && i != j
      ensures SameKey(kps[i], kps[j])
    {
      PairKeySymmetric(coins, i, j);
    }
  }

  /** The dealt key pair is the given one or its negation; under BIP-340 the key is even and keeps its x-coordinate. */
  lemma DealtKeyPair(C: Suite, secretKey: Scalar, max: Identifier, min: Identifier, coins: DealerCoins)
    ensures var vk := DealtPublicKeys(C, secretKey, max, min, coins).verifyingKey;
            && vk in {MulGenerator(secretKey), PNeg(MulGenerator(secretKey))}
            && (!C.variant.Secp256k1Bip340? ==> vk == MulGenerator(secretKey))
            && (C.variant.Secp256k1Bip340? && CurveLaws(C) && secretKey != 0 ==>
                  EvenPoint(C, vk) && C.xOnly(vk) == C.xOnly(MulGenerator(secretKey)))
  {
    hide CurveLaws, PartialsAt;
    NormalizedKeyPair(C, secretKey);
  }

  /** The limits and the generator are passed on, and every pair and every share gets its own randomness. */
  lemma DealerUsesItsCoins(C: Suite, secretKey: Scalar, max: Identifier, min: Identifier, coins: DealerCoins)
    requires min <= max <= 65534 && CoinsFit(coins, min)
    ensures var kps, pk := DealtShares(C, secretKey, max, coins), DealtPublicKeys(C, secretKey, max, min, coins);
            && pk.maxSigners == max && pk.minSigners == min && pk.pedersenH == C.pedersenGenerator
            && (forall i :: i in kps ==> kps[i].signingShareBlinding == coins.blinding(i))
            && forall i, j :: i in kps && j in kps && i < j ==>
                 && j in kps[i].pairwiseKeys && i in kps[j].pairwiseKeys
                 && kps[i].pairwiseKeys[j] == kps[j].pairwiseKeys[i] == coins.pairwiseKey(i, j)
  {
    hide DealtShares, PartialsAt, NormalizeKeygen;
    var kps := DealtShares(C, secretKey, max, coins);
    DealtDomains(C, secretKey, max, min, coins);
    forall i | i in kps
      ensures kps[i].signingShareBlinding == coins.blinding(i)
      ensures forall j :: j in kps && i != j ==>
                j in kps[i].pairwiseKeys && kps[i].pairwiseKeys[j] == PairKey(coins, i, j)
    {
      PackageDealt(C, secretKey, max, coins, i);
      ShareBlindingDealt(C, secretKey, max, coins, i);
    }
  }

  lemma ShareBlindingDealt(C: Suite, secretKey: Scalar, max: Identifier, coins: DealerCoins, i: Identifier)
    requires i in DealtShares(C, secretKey, max, coins)
    ensures DealtShares(C, secretKey, max, coins)[i].signingShareBlinding == coins.blinding(i)
  {
    hide DealerPolynomial, Eval, KeysOf;
  }

  lemma PairKeySymmetric(coins: DealerCoins, i: Identifier, j: Identifier)
    requires i != j
    ensures PairKey(coins, i, j) == PairKey(coins, j, i)
  {
  }

  lemma DealtDomains(C: Suite, secretKey: Scalar, max: Identifier, min: Identifier, coins: DealerCoins)
    ensures var kps := DealtShares(C, secretKey, max, coins);
            var pk := DealtPublicKeys(C, secretKey, max, min, coins);
            && (forall i: Identifier :: i in kps <==> 1 <= i <= max)
            && pk.partialVerificationKeys.Keys == kps.Keys
            && pk.verifyingKey == MulGenerator(NormalizedSecret(C, secretKey))
  {
    hide PackageAt, PartialAt;
  }

  lemma PackageDealt(C: Suite, secretKey: Scalar, max: Identifier, coins: DealerCoins, i: Identifier)
    requires 1 <= i <= max
    ensures var kps := DealtShares(C, secretKey, max, coins);
            && i in kps && kps[i].identifier == i
            && kps[i].pairwiseKeys.Keys == kps.Keys - {i}
            && forall j :: j in kps && j != i ==> kps[i].pairwiseKeys[j] == PairKey(coins, i, j)
  {
    hide Eval, KeysOf, PairKey;
    FinalTables(C, coins, i, max, max + 1);
    var kps := DealtShares(C, secretKey, max, coins);
    forall j
      ensures j in kps[i].pairwiseKeys <==> j in kps && j != i
    {
    }
  }

  lemma RecordDealt(C: Suite, secretKey: Scalar, max: Identifier, min: Identifier, coins: DealerCoins, i: Identifier)
    requires 1 <= i <= max
    ensures i in DealtShares(C, secretKey, max, coins)
    ensures RecordMatches(C, DealtPublicKeys(C, secretKey, max, min, coins), DealtShares(C, secretKey, max, coins)[i])
  {
    hide Eval, KeysOf, KeyCommitmentsOf, PairKey, PedersenCommit, KeyCommitment;
    var kp, pk := DealtShares(C, secretKey, max, coins)[i], DealtPublicKeys(C, secretKey, max, min, coins);
    FinalTables(C, coins, i, max, max + 1);
    forall j | j in kp.pairwiseKeys
      ensures && j in pk.partialVerificationKeys && i in pk.partialVerificationKeys[j].pairwiseKeyCommitments
              && pk.partialVerificationKeys[j].pairwiseKeyCommitments[i] == KeyCommitment(C, kp.pairwiseKeys[j])
    {
      FinalTables(C, coins, j, max, max + 1);
      PairKeySymmetric(coins, i, j);
    }
  }

  /** The weighted shares of dealt signers are those of the dealer's polynomial. */
  lemma DealtWeights(C: Suite, secretKey: Scalar, max: Identifier, coins: DealerCoins, ids: seq<Identifier>)
    requires max <= 65534 && forall i :: i in ids ==> 1 <= i <= max
    ensures SharedSecret(DealtShares(C, secretKey, max, coins), ids)
         == Sum(ids, Weighted(ids, DealerPolynomial(C, secretKey, coins)))
  {
    hide Mod, Add, Mul, KeysOf, Eval, Sum, Coefficient;
    var kps, c := DealtShares(C, secretKey, max, coins), DealerPolynomial(C, secretKey, coins);
    forall i | i in ids
      ensures WeightedShares(kps, ids)(i) == Weighted(ids, c)(i)
    {
      assert kps[i].signingShare == Eval(c, FromId(i));
    }
    SumCong(ids, WeightedShares(kps, ids), Weighted(ids, c));
  }

  /** Any signer set of at least the threshold reconstructs the normalised secret from dealt shares. */
  lemma DealtSession(C: Suite, secretKey: Scalar, max: Identifier, min: Identifier, coins: DealerCoins,
                     pkg: SigningPackage)
    requires min <= max <= 65534 && CoinsFit(coins, min)
    requires forall i :: i in pkg.signingCommitments ==> 1 <= i <= max
    requires |pkg.signingCommitments| >= 1 && |pkg.signingCommitments| >= min
    ensures SharesOf(DealtShares(C, secretKey, max, coins), pkg,
                     DealtPublicKeys(C, secretKey, max, min, coins).verifyingKey)
  {
    hide Mod, Add, Mul, PedersenCommit, KeyCommitment, KeysOf, KeyCommitmentsOf, Eval, Sum, Coefficient, KeysShared,
         SharedSecret;
    var c, ids := DealerPolynomial(C, secretKey, coins), Ids(pkg);
    AscendingLength(ids, pkg.signingCommitments.Keys);
    DealtWeights(C, secretKey, max, coins, ids);
    InterpolationAtZero(ids, c);
    EvalAtZero(c);
    DealtKeysShared(C, secretKey, max, min, coins, ids);
  }

  /** One signer short of the threshold, dealt shares miss the secret, unless the leading coefficient is zero. */
  lemma OneSignerShort(C: Suite, secretKey: Scalar, max: Identifier, min: Identifier, coins: DealerCoins,
                       pkg: SigningPackage)
    requires 2 <= min <= max <= 65534 && CoinsFit(coins, min)
    requires forall i :: i in pkg.signingCommitments ==> 1 <= i <= max
    requires |pkg.signingCommitments| == min - 1
    ensures SharedSecret(DealtShares(C, secretKey, max, coins), Ids(pkg)) == NormalizedSecret(C, secretKey)
        <==> coins.coefficients[min - 2] == 0
  {
    hide Mod, Add, Mul, KeysOf, Eval, Sum, Coefficient, SharedSecret;
    var c, ids := DealerPolynomial(C, secretKey, coins), Ids(pkg);
    AscendingLength(ids, pkg.signingCommitments.Keys);
    DealtWeights(C, secretKey, max, coins, ids);
    OneShortOfInterpolation(ids, c);
    EvalAtZero(c);
  }

  lemma DealtKeysShared(C: Suite, secretKey: Scalar, max: Identifier, min: Identifier, coins: DealerCoins,
                        ids: seq<Identifier>)
    requires min <= max <= 65534 && CoinsFit(coins, min)
    requires forall i :: i in ids ==> 1 <= i <= max
    ensures KeysShared(DealtShares(C, secretKey, max, coins), ids)
  {
    hide TablesConsistent, DealtShares, DealtPublicKeys, KeysShared;
    DealerTables(C, secretKey, max, min, coins);
    ConsistentTablesShareKeys(C, DealtShares(C, secretKey, max, coins),
                              DealtPublicKeys(C, secretKey, max, min, coins), max, ids);
  }

  lemma ConsistentTablesShareKeys(C: Suite, kps: map<Identifier, KeyPackage>, pk: PublicKeyPackage, max: Identifier,
                                  ids: seq<Identifier>)
    requires TablesConsistent(C, kps, pk, max)
    requires forall i :: i in ids ==> 1 <= i <= max
    ensures KeysShared(kps, ids)
  {
    hide RecordMatches, SameKey;
    forall i, j | i in ids && j in ids && i != j
      ensures j in kps[i].pairwiseKeys && i in kps[j].pairwiseKeys && kps[i].pairwiseKeys[j] == kps[j].pairwiseKeys[i]
    {
      assert SameKey(kps[i], kps[j]);
      UnfoldSameKey(kps[i], kps[j]);
    }
  }

  lemma UnfoldSameKey(a: KeyPackage, b: KeyPackage)
    requires SameKey(a, b)
    ensures b.identifier in a.pairwiseKeys && a.identifier in b.pairwiseKeys
    ensures a.pairwiseKeys[b.identifier] == b.pairwiseKeys[a.identifier]
  {
  }

  // ---------- secrecy of the threshold ----------

  /** The coefficient vector has the given constant term and produces the given shares. */
  ghost predicate Explains(c: seq<Scalar>, secret: Scalar, ids: seq<Identifier>, shares: seq<Scalar>)
    requires |ids| == |shares|
  {
    |c| == |ids| + 1 && c[0] == secret && forall k :: 0 <= k < |ids| ==> Eval(c, FromId(ids[k])) == shares[k]
  }

  /**
    One share short of the threshold, every candidate secret is explained by exactly one polynomial:
    the dealer's evaluation at min_signers - 1 distinct nonzero identifiers is a bijection.
  */
  lemma ExactThreshold(secret: Scalar, ids: seq<Identifier>, shares: seq<Scalar>) returns (c: seq<Scalar>)
    requires Distinct(ids) && 0 !in ids && |ids| == |shares|
    ensures Explains(c, secret, ids, shares)
    ensures forall d :: Explains(d, secret, ids, shares) ==> d == c
  {
    hide Mod, Add, Mul;
    var xs, ys := [0] + Points(ids), [secret] + shares;
    forall a, b | 0 <= a < b < |xs|
      ensures xs[a] != xs[b]
    {
      if a > 0 { assert xs[a] == ids[a - 1]; }
      assert xs[b] == ids[b - 1];
    }
    c := InterpolationExists(xs, ys);
    EvalAtZero(c);
    assert Eval(c, xs[0]) == ys[0];
    forall k | 0 <= k < |ids|
      ensures Eval(c, FromId(ids[k])) == shares[k]
    {
      assert Eval(c, xs[k + 1]) == ys[k + 1];
    }
    forall d | Explains(d, secret, ids, shares)
      ensures d == c
    {
      EvalAtZero(d);
      forall k | 0 <= k < |xs|
        ensures Eval(d, xs[k]) == ys[k]
      {
        if k > 0 { assert xs[k] == FromId(ids[k - 1]); }
      }
      InterpolationUnique(c, d, xs, ys);
    }
  }
}
