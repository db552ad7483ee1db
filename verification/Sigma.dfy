/** The Sigma protocol behind the well-formedness proof: its equations, completeness and special soundness. */
module Sigma {
  import opened PrimeField
  import opened Sums
  import opened Lagrange
  import opened Polynomials
  import opened Ciphersuites
  import opened Hashing

  /** src/ia.rs: WellformedProof. */
  datatype WellformedProof = WellformedProof(
    tSig: Point,
    tKey: Point,
    tBlind: map<Identifier, Point>,
    zSk: Scalar,
    zSkBlinding: Scalar,
    zBlind: map<Identifier, Scalar>,
    zBlindBlinding: map<Identifier, Scalar>)

  /**
    What signer i claims: A is the part of its response that remains without the nonce, vki commits to its
    signing share, and commitments to its blinding values; weight is lambda_i * c.
  */
  datatype Statement = Statement(
    ids: seq<Identifier>,
    i: Identifier,
    weight: Scalar,
    A: Point,
    vki: Point,
    h: Point,
    commitments: map<Identifier, Point>)

  datatype Witness = Witness(
    sk: Scalar,
    omega: Scalar,
    blind: map<Identifier, Scalar>,
    blindBlinding: map<Identifier, Scalar>)

  datatype ProverCoins = ProverCoins(
    rSk: Scalar,
    rSkBlinding: Scalar,
    rBlind: Identifier -> Scalar,
    rBlindBlinding: Identifier -> Scalar)

  /** The terms v_j * delta(i, j) over the peers of i. */
  function Signed(i: Identifier, values: map<Identifier, Scalar>): Identifier -> Scalar {
    (j: Identifier) => if j == i || j !in values then 0 else Mul(values[j], Delta(i, j))
  }

  function PeersOf(ids: seq<Identifier>, i: Identifier): (s: set<Identifier>)
    ensures forall j :: j in s <==> j in ids && j != i
  {
    set j | j in ids && j != i
  }

  // ---------- the verification equations ----------

  predicate SigEquation(st: Statement, p: WellformedProof, e: Scalar) {
    PAdd(MulGenerator(Add(Mul(st.weight, p.zSk), Sum(st.ids, Signed(st.i, p.zBlind)))), PMul(st.A, Neg(e))) == p.tSig
  }

  /** An opening equation: G * z + h * w - e * P == t. */
  predicate OpeningEquation(h: Point, P: Point, t: Point, z: Scalar, w: Scalar, e: Scalar) {
    PAdd(PAdd(MulGenerator(z), PMul(h, w)), PMul(P, Neg(e))) == t
  }

  predicate HasEntries(st: Statement, p: WellformedProof, j: Identifier) {
    j in st.commitments && j in p.tBlind && j in p.zBlind && j in p.zBlindBlinding
  }

  /** The equations that the verifier checks under challenge e. */
  predicate Accepts(st: Statement, p: WellformedProof, e: Scalar) {
    && SigEquation(st, p, e)
    && OpeningEquation(st.h, st.vki, p.tKey, p.zSk, p.zSkBlinding, e)
    && forall j {:trigger HasEntries(st, p, j)} :: j in st.ids && j != st.i ==>
         && HasEntries(st, p, j)
         && OpeningEquation(st.h, st.commitments[j], p.tBlind[j], p.zBlind[j], p.zBlindBlinding[j], e)
  }

  // ---------- the prover ----------

  /** One entry per peer of i, as the loops over the signer set insert them. */
  function OverPeers<T>(ids: seq<Identifier>, i: Identifier, f: Identifier -> T): (m: map<Identifier, T>)
    ensures m.Keys == PeersOf(ids, i)
  {
    if |ids| == 0 then map[]
    else
      var m, j := OverPeers(ids[..|ids| - 1], i, f), ids[|ids| - 1];
      if j == i then m else m[j := f(j)]
  }

  lemma {:induction false} PeerEntries<T>(ids: seq<Identifier>, i: Identifier, f: Identifier -> T)
    ensures forall j :: j in OverPeers(ids, i, f) ==> OverPeers(ids, i, f)[j] == f(j)
  {
    if |ids| == 0 {
    } else {
      PeerEntries(ids[..|ids| - 1], i, f);
    }
  }

  lemma OverPeersStep<T>(ids: seq<Identifier>, k: nat, i: Identifier, f: Identifier -> T)
    requires k < |ids|
    ensures OverPeers(ids[..k + 1], i, f)
         == if ids[k] == i then OverPeers(ids[..k], i, f) else OverPeers(ids[..k], i, f)[ids[k] := f(ids[k])]
  {
    assert ids[..k + 1] == ids[..k] + [ids[k]];
  }

  lemma OverNoPeers<T>(ids: seq<Identifier>, i: Identifier, f: Identifier -> T)
    requires |ids| == 0
    ensures OverPeers(ids, i, f) == map[]
  {
  }

  function CoinMap(ids: seq<Identifier>, i: Identifier, f: Identifier -> Scalar): (m: map<Identifier, Scalar>)
    ensures m.Keys == PeersOf(ids, i)
  {
    OverPeers(ids, i, f)
  }

  function CommitSig(ids: seq<Identifier>, i: Identifier, weight: Scalar, coins: ProverCoins): Point {
    MulGenerator(Add(Mul(weight, coins.rSk), Sum(ids, Signed(i, CoinMap(ids, i, coins.rBlind)))))
  }

  function CommitKey(h: Point, coins: ProverCoins): Point {
    PedersenCommit(coins.rSk, coins.rSkBlinding, h)
  }

  function CommitPeer(h: Point, coins: ProverCoins, j: Identifier): Point {
    PedersenCommit(coins.rBlind(j), coins.rBlindBlinding(j), h)
  }

  function PeerCommits(h: Point, coins: ProverCoins): Identifier -> Point {
    (j: Identifier) => CommitPeer(h, coins, j)
  }

  function CommitBlind(ids: seq<Identifier>, i: Identifier, h: Point, coins: ProverCoins): map<Identifier, Point> {
    OverPeers(ids, i, PeerCommits(h, coins))
  }

  /** Response r + e * x. */
  function Response(r: Scalar, e: Scalar, x: Scalar): Scalar {
    Add(r, Mul(e, x))
  }

  function RespondPeer(r: Identifier -> Scalar, e: Scalar, x: map<Identifier, Scalar>, j: Identifier): Scalar {
    Response(r(j), e, if j in x then x[j] else 0)
  }

  function PeerResponses(r: Identifier -> Scalar, e: Scalar, x: map<Identifier, Scalar>): Identifier -> Scalar {
    (j: Identifier) => RespondPeer(r, e, x, j)
  }

  function Respond(ids: seq<Identifier>, i: Identifier, weight: Scalar, h: Point, w: Witness, coins: ProverCoins,
                   e: Scalar)
    : WellformedProof
  {
    WellformedProof(
      CommitSig(ids, i, weight, coins),
      CommitKey(h, coins),
      CommitBlind(ids, i, h, coins),
      Response(coins.rSk, e, w.sk),
      Response(coins.rSkBlinding, e, w.omega),
      OverPeers(ids, i, PeerResponses(coins.rBlind, e, w.blind)),
      OverPeers(ids, i, PeerResponses(coins.rBlindBlinding, e, w.blindBlinding)))
  }

  // ---------- the relation ----------

  /** The witness opens the key commitment and every blinding commitment. */
  ghost predicate Opens(st: Statement, w: Witness) {
    && st.vki == PedersenCommit(w.sk, w.omega, st.h)
    && forall j :: j in st.ids && j != st.i ==>
         && j in st.commitments && j in w.blind && j in w.blindBlinding
         && st.commitments[j] == PedersenCommit(w.blind[j], w.blindBlinding[j], st.h)
  }

  /** weight * sk + sum of delta(i, j) * B_ij: the value that A should commit to. */
  function Claimed(st: Statement, w: Witness): Scalar {
    Add(Mul(st.weight, w.sk), Sum(st.ids, Signed(st.i, w.blind)))
  }

  // ---------- completeness, with its exact converse ----------

  lemma OpeningComplete(h: Point, z: Scalar, w: Scalar, r: Scalar, s: Scalar, e: Scalar)
    ensures OpeningEquation(h, PedersenCommit(z, w, h), PedersenCommit(r, s, h),
                            Response(r, e, z), Response(s, e, w), e)
  {
    hide Mod, Add, Mul, Neg;
    var g := h.log;
    Distribute(g, s, Mul(e, w));
    MulAssoc(g, e, w);
    MulComm(g, e);
    MulAssoc(e, g, w);
    OpeningLinear(r, e, z, Mul(g, s), Mul(g, w));
  }

  lemma OpeningLinear(r: Scalar, e: Scalar, z: Scalar, gs: Scalar, gw: Scalar)
    ensures Add(Add(Add(r, Mul(e, z)), Add(gs, Mul(e, gw))), Mul(Add(z, gw), Neg(e))) == Add(r, gs)
  {
    hide Mod, Add, Mul, Neg;
    Lift();
    Rep(r); Rep(e); Rep(z); Rep(gs); Rep(gw);
    assert ((r + e * z) + (gs + e * gw)) + (z + gw) * (0 - e) == r + gs;
  }

  lemma SignedLinear(ids: seq<Identifier>, i: Identifier, z: map<Identifier, Scalar>, r: map<Identifier, Scalar>,
                     e: Scalar, b: map<Identifier, Scalar>)
    requires forall j :: j in ids && j != i ==> j in z && j in r && j in b && z[j] == Response(r[j], e, b[j])
    ensures Sum(ids, Signed(i, z)) == Add(Sum(ids, Signed(i, r)), Mul(e, Sum(ids, Signed(i, b))))
  {
    hide Mod, Add, Mul, Delta;
    forall j | j in ids
      ensures Signed(i, z)(j) == Add(Signed(i, r)(j), Mul(e, Signed(i, b)(j)))
    {
      if j == i {
        MulZero(e);
        AddZero(0);
      } else {
        ResponseTerm(r[j], e, b[j], Delta(i, j));
      }
    }
    SumLinear(ids, Signed(i, z), Signed(i, r), e, Signed(i, b));
  }

  lemma ResponseTerm(r: Scalar, e: Scalar, b: Scalar, d: Scalar)
    ensures Mul(Add(r, Mul(e, b)), d) == Add(Mul(r, d), Mul(e, Mul(b, d)))
  {
    hide Mod, Add, Mul;
    MulComm(Add(r, Mul(e, b)), d);
    Distribute(d, r, Mul(e, b));
    MulComm(d, r);
    MulComm(d, Mul(e, b));
    MulAssoc(e, b, d);
  }

  /** t + e * x - e * (x + d) == t exactly when e * d is zero. */
  lemma ShiftedEquation(l: Scalar, r: Scalar, e: Scalar, s: Scalar, t: Scalar, b: Scalar, d: Scalar)
    ensures (Add(Add(Mul(l, Add(r, Mul(e, s))), Add(t, Mul(e, b))), Mul(Add(Add(Mul(l, s), b), d), Neg(e)))
             == Add(Mul(l, r), t))
        <==> Mul(e, d) == 0
  {
    hide Mod, Add, Mul, Neg;
    Distribute(l, r, Mul(e, s));
    MulComm(l, Mul(e, s));
    MulAssoc(e, s, l);
    MulComm(s, l);
    ShiftedLinear(Mul(l, r), e, Mul(l, s), t, b, d);
    var x, y := Add(Mul(l, r), t), Mul(e, d);
    AddThenSub(x, y);
    assert Sub(x, y) == x <==> y == 0 by {
      hide Sub;
      SubIsIdentityIff(x, y);
    }
  }

  lemma SubIsIdentityIff(x: Scalar, y: Scalar)
    ensures Sub(x, y) == x <==> y == 0
  {
    if x - y >= 0 { ModSmall(x - y); } else { ModSmall(x - y + Q); }
  }

  lemma ShiftedLinear(lr: Scalar, e: Scalar, ls: Scalar, t: Scalar, b: Scalar, d: Scalar)
    ensures Add(Add(Add(lr, Mul(e, ls)), Add(t, Mul(e, b))), Mul(Add(Add(ls, b), d), Neg(e)))
         == Sub(Add(lr, t), Mul(e, d))
  {
    hide Mod, Add, Sub, Mul, Neg;
    Lift();
    Rep(lr); Rep(e); Rep(ls); Rep(t); Rep(b); Rep(d);
    assert ((ls + b) + d) * (0 - e) == 0 - e * ls - e * b - e * d;
    assert ((lr + e * ls) + (t + e * b)) + ((ls + b) + d) * (0 - e) == (lr + t) - e * d;
  }

  function HonestProof(st: Statement, w: Witness, coins: ProverCoins, e: Scalar): WellformedProof {
    Respond(st.ids, st.i, st.weight, st.h, w, coins, e)
  }

  /** The openings of the commitments are answered correctly, whatever the response. */
  lemma OpeningsAnswered(st: Statement, w: Witness, coins: ProverCoins, e: Scalar)
    requires Opens(st, w)
    ensures var p := HonestProof(st, w, coins, e);
            && OpeningEquation(st.h, st.vki, p.tKey, p.zSk, p.zSkBlinding, e)
            && forall j :: j in st.ids && j != st.i ==>
                 && HasEntries(st, p, j)
                 && OpeningEquation(st.h, st.commitments[j], p.tBlind[j], p.zBlind[j], p.zBlindBlinding[j], e)
  {
    hide Add, Mul, Neg, Sum, OpeningEquation, PedersenCommit, Signed, OverPeers;
    var p := HonestProof(st, w, coins, e);
    PeerEntries(st.ids, st.i, PeerCommits(st.h, coins));
    PeerEntries(st.ids, st.i, PeerResponses(coins.rBlind, e, w.blind));
    PeerEntries(st.ids, st.i, PeerResponses(coins.rBlindBlinding, e, w.blindBlinding));
    forall j | j in st.ids && j != st.i
      ensures HasEntries(st, p, j)
      ensures OpeningEquation(st.h, st.commitments[j], p.tBlind[j], p.zBlind[j], p.zBlindBlinding[j], e)
    {
      assert j in PeersOf(st.ids, st.i);
      OpeningComplete(st.h, w.blind[j], w.blindBlinding[j], coins.rBlind(j), coins.rBlindBlinding(j), e);
    }
    OpeningComplete(st.h, w.sk, w.omega, coins.rSk, coins.rSkBlinding, e);
  }

  /** The response is answered correctly exactly when e * d is zero. */
  lemma ResponseAnsweredIff(st: Statement, w: Witness, coins: ProverCoins, e: Scalar, d: Scalar)
    requires Opens(st, w) && st.A == MulGenerator(Add(Claimed(st, w), d))
    ensures SigEquation(st, HonestProof(st, w, coins, e), e) <==> Mul(e, d) == 0
  {
    hide Add, Mul, Neg, Sum, PedersenCommit, Signed, OverPeers;
    var p, r := HonestProof(st, w, coins, e), CoinMap(st.ids, st.i, coins.rBlind);
    PeerEntries(st.ids, st.i, coins.rBlind);
    PeerEntries(st.ids, st.i, PeerResponses(coins.rBlind, e, w.blind));
    SignedLinear(st.ids, st.i, p.zBlind, r, e, w.blind);
    ShiftedEquation(st.weight, coins.rSk, e, w.sk, Sum(st.ids, Signed(st.i, r)), Sum(st.ids, Signed(st.i, w.blind)), d);
  }

  /**
    An honest prover that opens all commitments, on a response that is off by d, is accepted exactly when
    the challenge times d is zero.  With d == 0 this is completeness.
  */
  lemma ProverExact(st: Statement, w: Witness, coins: ProverCoins, e: Scalar, d: Scalar)
    requires Opens(st, w) && st.A == MulGenerator(Add(Claimed(st, w), d))
    ensures Accepts(st, HonestProof(st, w, coins, e), e) <==> Mul(e, d) == 0
  {
    hide HonestProof, Opens, SigEquation, OpeningEquation, HasEntries, Add, Mul, Claimed;
    OpeningsAnswered(st, w, coins, e);
    ResponseAnsweredIff(st, w, coins, e, d);
  }

  // ---------- zero knowledge against the honest verifier ----------

  /** What a conversation holds per peer, and nothing else. */
  ghost predicate OnlyPeers(st: Statement, p: WellformedProof) {
    p.tBlind.Keys == p.zBlind.Keys == p.zBlindBlinding.Keys == PeersOf(st.ids, st.i)
  }

  /** z - e * x, the coin behind a response. */
  function CoinBehind(z: map<Identifier, Scalar>, e: Scalar, x: map<Identifier, Scalar>, j: Identifier): Scalar {
    if j in z && j in x then Sub(z[j], Mul(e, x[j])) else 0
  }

  function CoinsBehind(w: Witness, p: WellformedProof, e: Scalar): ProverCoins {
    ProverCoins(Sub(p.zSk, Mul(e, w.sk)), Sub(p.zSkBlinding, Mul(e, w.omega)),
                (j: Identifier) => CoinBehind(p.zBlind, e, w.blind, j),
                (j: Identifier) => CoinBehind(p.zBlindBlinding, e, w.blindBlinding, j))
  }

  lemma CoinGivesResponse(z: Scalar, e: Scalar, x: Scalar)
    ensures Response(Sub(z, Mul(e, x)), e, x) == z
  {
    hide Mod, Add, Sub, Mul;
    var t := Mul(e, x);
    Lift();
    Rep(z); Rep(t);
  }

  lemma PeerCoinsGiveResponses(ids: seq<Identifier>, i: Identifier, z: map<Identifier, Scalar>, e: Scalar,
                               x: map<Identifier, Scalar>, r: Identifier -> Scalar)
    requires z.Keys == PeersOf(ids, i) && PeersOf(ids, i) <= x.Keys
    requires forall j :: r(j) == CoinBehind(z, e, x, j)
    ensures OverPeers(ids, i, PeerResponses(r, e, x)) == z
  {
    hide OverPeers, Add, Sub, Mul, Response;
    PeerEntries(ids, i, PeerResponses(r, e, x));
    forall j | j in z
      ensures PeerResponses(r, e, x)(j) == z[j]
    {
      CoinGivesResponse(z[j], e, x[j]);
    }
  }

  /** The responses and the challenge determine the first message of an accepting conversation. */
  lemma FirstMessageDetermined(st: Statement, p: WellformedProof, p': WellformedProof, e: Scalar)
    requires Accepts(st, p, e) && Accepts(st, p', e) && OnlyPeers(st, p) && OnlyPeers(st, p')
    requires p.zSk == p'.zSk && p.zSkBlinding == p'.zSkBlinding
    requires p.zBlind == p'.zBlind && p.zBlindBlinding == p'.zBlindBlinding
    ensures p == p'
  {
    hide Add, Mul, Neg, Sum, PeersOf;
    forall j | j in p.tBlind
      ensures p.tBlind[j] == p'.tBlind[j]
    {
      assert j in PeersOf(st.ids, st.i);
      assert HasEntries(st, p, j) && HasEntries(st, p', j);
    }
  }

  /**
    Honest-verifier zero knowledge, as a bijection: every accepting conversation is the honest prover's under exactly
    one choice of its coins, whatever the witness.  So the conversations under uniform coins are uniform among the
    accepting ones, and carry nothing about the witness.
  */
  lemma AcceptingIsHonest(st: Statement, w: Witness, p: WellformedProof, e: Scalar)
    requires Opens(st, w) && st.A == MulGenerator(Claimed(st, w))
    requires Accepts(st, p, e) && OnlyPeers(st, p)
    ensures HonestProof(st, w, CoinsBehind(w, p, e), e) == p
  {
    hide Add, Sub, Mul, Neg, Sum, SigEquation, OpeningEquation, HasEntries, Claimed, PedersenCommit, CoinBehind,
         OverPeers, Accepts, PeersOf, CommitSig, CommitKey, Response;
    var coins := CoinsBehind(w, p, e);
    var q := HonestProof(st, w, coins, e);
    WitnessHasPeers(st, w);
    CoinGivesResponse(p.zSk, e, w.sk);
    CoinGivesResponse(p.zSkBlinding, e, w.omega);
    PeerCoinsGiveResponses(st.ids, st.i, p.zBlind, e, w.blind, coins.rBlind);
    PeerCoinsGiveResponses(st.ids, st.i, p.zBlindBlinding, e, w.blindBlinding, coins.rBlindBlinding);
    PeerEntries(st.ids, st.i, PeerCommits(st.h, coins));
    AddZero(Claimed(st, w));
    MulZero(e);
    ProverExact(st, w, coins, e, 0);
    FirstMessageDetermined(st, q, p, e);
  }

  lemma WitnessHasPeers(st: Statement, w: Witness)
    requires Opens(st, w)
    ensures PeersOf(st.ids, st.i) <= w.blind.Keys && PeersOf(st.ids, st.i) <= w.blindBlinding.Keys
  {
    hide PedersenCommit;
  }

  /** Different coins give different conversations. */
  lemma CoinsAreDetermined(st: Statement, w: Witness, coins: ProverCoins, coins': ProverCoins, e: Scalar)
    requires HonestProof(st, w, coins, e) == HonestProof(st, w, coins', e)
    ensures coins.rSk == coins'.rSk && coins.rSkBlinding == coins'.rSkBlinding
    ensures forall j :: j in st.ids && j != st.i ==>
              coins.rBlind(j) == coins'.rBlind(j) && coins.rBlindBlinding(j) == coins'.rBlindBlinding(j)
  {
    hide Add, Mul, OverPeers, CommitSig, CommitKey, CommitBlind;
    SameCoin(coins.rSk, coins'.rSk, Mul(e, w.sk));
    SameCoin(coins.rSkBlinding, coins'.rSkBlinding, Mul(e, w.omega));
    PeerEntries(st.ids, st.i, PeerResponses(coins.rBlind, e, w.blind));
    PeerEntries(st.ids, st.i, PeerResponses(coins'.rBlind, e, w.blind));
    PeerEntries(st.ids, st.i, PeerResponses(coins.rBlindBlinding, e, w.blindBlinding));
    PeerEntries(st.ids, st.i, PeerResponses(coins'.rBlindBlinding, e, w.blindBlinding));
    forall j | j in st.ids && j != st.i
      ensures coins.rBlind(j) == coins'.rBlind(j) && coins.rBlindBlinding(j) == coins'.rBlindBlinding(j)
    {
      assert j in PeersOf(st.ids, st.i);
      SameCoin(coins.rBlind(j), coins'.rBlind(j), Mul(e, if j in w.blind then w.blind[j] else 0));
      SameCoin(coins.rBlindBlinding(j), coins'.rBlindBlinding(j),
               Mul(e, if j in w.blindBlinding then w.blindBlinding[j] else 0));
    }
  }

  lemma SameCoin(r: Scalar, r': Scalar, t: Scalar)
    ensures Add(r, t) == Add(r', t) ==> r == r'
  {
    hide Mod, Add, Sub;
    AddThenSub(r, t);
    AddThenSub(r', t);
  }

  // ---------- special soundness ----------

  /** Two runs share their first message. */
  ghost predicate SameFirstMessage(p: WellformedProof, p': WellformedProof) {
    p.tSig == p'.tSig && p.tKey == p'.tKey && p.tBlind == p'.tBlind
  }

  /** The quotient of the difference of two responses by the difference of the challenges. */
  ghost function Slope(z: Scalar, z': Scalar, e: Scalar, e': Scalar): Scalar
    requires e != e'
  {
    SubZeroIffEqual(e, e');
    Mul(Inverse(Sub(e, e')), Sub(z, z'))
  }

  ghost function SlopeMap(ids: seq<Identifier>, i: Identifier, z: map<Identifier, Scalar>, z': map<Identifier, Scalar>,
                    e: Scalar, e': Scalar): (m: map<Identifier, Scalar>)
    requires e != e' && PeersOf(ids, i) <= z.Keys && PeersOf(ids, i) <= z'.Keys
    ensures m.Keys == PeersOf(ids, i)
  {
    map j | j in PeersOf(ids, i) :: Slope(z[j], z'[j], e, e')
  }

  lemma AcceptsHasEntries(st: Statement, p: WellformedProof, e: Scalar)
    requires Accepts(st, p, e)
    ensures PeersOf(st.ids, st.i) <= p.zBlind.Keys && PeersOf(st.ids, st.i) <= p.zBlindBlinding.Keys
  {
    hide SigEquation, OpeningEquation;
    forall j | j in PeersOf(st.ids, st.i)
      ensures j in p.zBlind && j in p.zBlindBlinding
    {
      assert HasEntries(st, p, j);
    }
  }

  /** The extractor. */
  ghost function Extract(st: Statement, p: WellformedProof, e: Scalar, p': WellformedProof, e': Scalar): Witness
    requires e != e' && Accepts(st, p, e) && Accepts(st, p', e')
  {
    AcceptsHasEntries(st, p, e);
    AcceptsHasEntries(st, p', e');
    Witness(
      Slope(p.zSk, p'.zSk, e, e'),
      Slope(p.zSkBlinding, p'.zSkBlinding, e, e'),
      SlopeMap(st.ids, st.i, p.zBlind, p'.zBlind, e, e'),
      SlopeMap(st.ids, st.i, p.zBlindBlinding, p'.zBlindBlinding, e, e'))
  }

  /** x - e * P == x' - e' * P gives P == (x - x') / (e - e'). */
  lemma ForkedEquation(x: Scalar, x': Scalar, P: Scalar, e: Scalar, e': Scalar)
    requires e != e' && Add(x, Mul(P, Neg(e))) == Add(x', Mul(P, Neg(e')))
    ensures P == Slope(x, x', e, e')
  {
    hide Mod, Add, Sub, Mul, Neg, Inverse;
    SubZeroIffEqual(e, e');
    var d, u := Sub(e, e'), Inverse(Sub(e, e'));
    assert Mul(d, P) == Sub(x, x') by {
      var t := Mul(P, Neg(e'));
      assert Sub(Add(x, Mul(P, Neg(e))), Add(x', t)) == 0 by { SubZeroIffEqual(Add(x', t), Add(x', t)); }
      assert Sub(Add(x, Mul(P, Neg(e))), Add(x', t)) == Sub(Sub(x, x'), Mul(d, P)) by { ForkLinear(x, x', P, e, e'); }
      SubZeroIffEqual(Sub(x, x'), Mul(d, P));
    }
    MulAssoc(u, d, P);
    MulComm(u, d);
    MulOne(P);
  }

  lemma ForkLinear(x: Scalar, x': Scalar, P: Scalar, e: Scalar, e': Scalar)
    ensures Sub(Add(x, Mul(P, Neg(e))), Add(x', Mul(P, Neg(e')))) == Sub(Sub(x, x'), Mul(Sub(e, e'), P))
  {
    hide Mod, Add, Sub, Mul, Neg;
    Lift();
    Rep(x); Rep(x'); Rep(P); Rep(e); Rep(e');
    assert (x + P * (0 - e)) - (x' + P * (0 - e')) == (x - x') - (e - e') * P;
  }

  /** Slopes are linear: the slope of z + g * w is the slope of z plus g times the slope of w. */
  lemma SlopeLinear(z: Scalar, z': Scalar, g: Scalar, w: Scalar, w': Scalar, e: Scalar, e': Scalar)
    requires e != e'
    ensures Slope(Add(z, Mul(g, w)), Add(z', Mul(g, w')), e, e')
         == Add(Slope(z, z', e, e'), Mul(g, Slope(w, w', e, e')))
  {
    hide Mod, Add, Sub, Mul, Inverse;
    SubZeroIffEqual(e, e');
    var u := Inverse(Sub(e, e'));
    assert Sub(Add(z, Mul(g, w)), Add(z', Mul(g, w'))) == Add(Sub(z, z'), Mul(g, Sub(w, w'))) by {
      Lift();
      Rep(z); Rep(z'); Rep(g); Rep(w); Rep(w');
      assert (z + g * w) - (z' + g * w') == (z - z') + g * (w - w');
    }
    Distribute(u, Sub(z, z'), Mul(g, Sub(w, w')));
    MulAssoc(u, g, Sub(w, w'));
    MulComm(u, g);
    MulAssoc(g, u, Sub(w, w'));
  }

  lemma OpeningExtracted(h: Point, P: Point, t: Point, z: Scalar, w: Scalar, e: Scalar, z': Scalar, w': Scalar,
                         e': Scalar)
    requires e != e' && OpeningEquation(h, P, t, z, w, e) && OpeningEquation(h, P, t, z', w', e')
    ensures P == PedersenCommit(Slope(z, z', e, e'), Slope(w, w', e, e'), h)
  {
    hide Mod, Add, Sub, Mul, Neg, Slope;
    ForkedEquation(Add(z, Mul(h.log, w)), Add(z', Mul(h.log, w')), P.log, e, e');
    SlopeLinear(z, z', h.log, w, w', e, e');
  }

  /** Slopes commute with the signed sum over the peers. */
  lemma SlopeOfSum(ids: seq<Identifier>, i: Identifier, z: map<Identifier, Scalar>, z': map<Identifier, Scalar>,
                   e: Scalar, e': Scalar)
    requires e != e' && PeersOf(ids, i) <= z.Keys && PeersOf(ids, i) <= z'.Keys
    ensures Sum(ids, Signed(i, SlopeMap(ids, i, z, z', e, e')))
         == Slope(Sum(ids, Signed(i, z)), Sum(ids, Signed(i, z')), e, e')
  {
    hide Mod, Add, Sub, Mul, Neg, Inverse, Delta;
    SubZeroIffEqual(e, e');
    var u, m := Inverse(Sub(e, e')), SlopeMap(ids, i, z, z', e, e');
    var difference := (j: Identifier) => Sub(Signed(i, z)(j), Signed(i, z')(j));
    forall j | j in ids
      ensures Signed(i, m)(j) == Mul(u, difference(j))
      ensures difference(j) == Add(Signed(i, z)(j), Mul(Neg(1), Signed(i, z')(j)))
    {
      SubAsAdd(Signed(i, z)(j), Signed(i, z')(j));
      if j == i {
        SubZeroIffEqual(0, 0);
        MulZero(u);
      } else {
        assert j in PeersOf(ids, i);
        MulAssoc(u, Sub(z[j], z'[j]), Delta(i, j));
        MulComm(Sub(z[j], z'[j]), Delta(i, j));
        Distribute(Delta(i, j), z[j], z'[j]);
        MulComm(Delta(i, j), z[j]);
        MulComm(Delta(i, j), z'[j]);
      }
    }
    SumScale(ids, Signed(i, m), u, difference);
    SumLinear(ids, difference, Signed(i, z), Neg(1), Signed(i, z'));
    SubAsAdd(Sum(ids, Signed(i, z)), Sum(ids, Signed(i, z')));
  }

  lemma SubAsAdd(a: Scalar, b: Scalar)
    ensures Sub(a, b) == Add(a, Mul(Neg(1), b))
  {
    hide Mod, Add, Sub, Mul, Neg;
    NegIsTimesMinusOne(b);
    Lift();
    Rep(a); Rep(b);
  }

  /**
    Special soundness: two accepting runs with one first message and different challenges yield openings of
    the key commitment and of every blinding commitment, under which the response is well-formed.
  */
  lemma SpecialSoundness(st: Statement, p: WellformedProof, e: Scalar, p': WellformedProof, e': Scalar)
    requires e != e' && SameFirstMessage(p, p')
    requires Accepts(st, p, e) && Accepts(st, p', e')
    ensures var w := Extract(st, p, e, p', e');
            Opens(st, w) && st.A == MulGenerator(Claimed(st, w))
  {
    hide Mod, Add, Sub, Mul, Neg, Slope, Sum, PedersenCommit, OpeningEquation;
    AcceptsHasEntries(st, p, e);
    AcceptsHasEntries(st, p', e');
    var w := Extract(st, p, e, p', e');
    OpeningExtracted(st.h, st.vki, p.tKey, p.zSk, p.zSkBlinding, e, p'.zSk, p'.zSkBlinding, e');
    forall j | j in st.ids && j != st.i
      ensures j in st.commitments && j in w.blind && j in w.blindBlinding
      ensures st.commitments[j] == PedersenCommit(w.blind[j], w.blindBlinding[j], st.h)
    {
      assert HasEntries(st, p, j) && HasEntries(st, p', j);
      OpeningExtracted(st.h, st.commitments[j], p.tBlind[j], p.zBlind[j], p.zBlindBlinding[j], e,
                       p'.zBlind[j], p'.zBlindBlinding[j], e');
    }
    var s, s' := Sum(st.ids, Signed(st.i, p.zBlind)), Sum(st.ids, Signed(st.i, p'.zBlind));
    CommuteAdd(Mul(st.weight, p.zSk), s);
    CommuteAdd(Mul(st.weight, p'.zSk), s');
    ForkedEquation(Add(s, Mul(st.weight, p.zSk)), Add(s', Mul(st.weight, p'.zSk)), st.A.log, e, e');
    SlopeLinear(s, s', st.weight, p.zSk, p'.zSk, e, e');
    SlopeOfSum(st.ids, st.i, p.zBlind, p'.zBlind, e, e');
    CommuteAdd(Slope(s, s', e, e'), Mul(st.weight, w.sk));
  }

  // ---------- binding ----------

  /** Two different openings of one commitment. */
  ghost predicate DoubleOpening(P: Point, h: Point, v: Scalar, w: Scalar, v': Scalar, w': Scalar) {
    && P == PedersenCommit(v, w, h) && P == PedersenCommit(v', w', h)
    && (v, w) != (v', w')
  }

  /** A double opening reveals the discrete logarithm of the second generator. */
  lemma DoubleOpeningGivesLog(P: Point, h: Point, v: Scalar, w: Scalar, v': Scalar, w': Scalar)
    requires DoubleOpening(P, h, v, w, v', w')
    ensures w != w' && h == MulGenerator(Slope(v', v, w, w'))
  {
    hide Mod, Add, Sub, Mul, Neg, Slope;
    var g := h.log;
    if w == w' {
      AddThenSub(v, Mul(g, w));
      AddThenSub(v', Mul(g, w'));
    }
    assert Add(v', Mul(g, Neg(w))) == Add(v, Mul(g, Neg(w'))) by {
      DoubleOpeningStep(v, v', g, w, w');
    }
    ForkedEquation(v', v, g, w, w');
  }

  lemma DoubleOpeningStep(v: Scalar, v': Scalar, g: Scalar, w: Scalar, w': Scalar)
    requires Add(v, Mul(g, w)) == Add(v', Mul(g, w'))
    ensures Add(v', Mul(g, Neg(w))) == Add(v, Mul(g, Neg(w')))
  {
    hide Mod, Add, Sub, Mul, Neg;
    var total := Add(v, Mul(g, w));
    assert Sub(Sub(total, Mul(g, w)), Mul(g, w')) == Add(v, Mul(g, Neg(w'))) by {
      Lift();
      Rep(v); Rep(g); Rep(w); Rep(w');
      assert ((v + g * w) - g * w) - g * w' == v + g * (0 - w');
    }
    assert Sub(Sub(Add(v', Mul(g, w')), Mul(g, w)), Mul(g, w')) == Add(v', Mul(g, Neg(w))) by {
      Lift();
      Rep(v'); Rep(g); Rep(w); Rep(w');
      assert ((v' + g * w') - g * w) - g * w' == v' + g * (0 - w);
    }
  }
}
