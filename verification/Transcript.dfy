/** What the Fiat-Shamir challenge of the well-formedness proof binds. */
module Transcript {
  import opened Wrappers
  import opened PrimeField
  import opened Sums
  import opened Ciphersuites
  import opened Wire
  import opened Hashing
  import opened IdentifiableAbort

  type PointMap = map<Identifier, Point>

  // ---------- lists of identifiers and points ----------

  lemma {:induction false} PointEntriesAt(C: Suite, ids: seq<Identifier>, m: PointMap, idTag: Label, pointTag: Label)
    requires forall x :: x in ids ==> x in m
    ensures var entries := PointEntries(C, ids, m, idTag, pointTag);
            && |entries| == 2 * |ids|
            && forall k :: 0 <= k < |ids| ==>
                 && entries[2 * k] == Entry(idTag, IdBytes(ids[k]))
                 && entries[2 * k + 1] == Entry(pointTag, C.pointBytes(m[ids[k]]))
    decreases |ids|
  {
    hide IdBytes;
    if |ids| == 0 {
    } else {
      PointEntriesAt(C, ids[..|ids| - 1], m, idTag, pointTag);
    }
  }

  /** Two lists under one pair of tags, each followed by something else, have the same length. */
  lemma ListsEndTogether(C: Suite, ids: seq<Identifier>, m: PointMap, ids': seq<Identifier>, m': PointMap,
                         idTag: Label, pointTag: Label, rest: seq<Entry>, rest': seq<Entry>)
    requires (forall x :: x in ids ==> x in m) && forall x :: x in ids' ==> x in m'
    requires |rest| > 0 ==> rest[0].tag != idTag
    requires |rest'| > 0 ==> rest'[0].tag != idTag
    requires PointEntries(C, ids, m, idTag, pointTag) + rest == PointEntries(C, ids', m', idTag, pointTag) + rest'
    ensures |ids| == |ids'| && rest == rest'
    ensures PointEntries(C, ids, m, idTag, pointTag) == PointEntries(C, ids', m', idTag, pointTag)
  {
    hide IdBytes, PointEntries;
    PointEntriesAt(C, ids, m, idTag, pointTag);
    PointEntriesAt(C, ids', m', idTag, pointTag);
    var a, b := PointEntries(C, ids, m, idTag, pointTag), PointEntries(C, ids', m', idTag, pointTag);
    // the first position at which one list has ended
    var n := 2 * (if |ids| < |ids'| then |ids| else |ids'|);
    assert n < |a + rest| ==> (a + rest)[n] == (b + rest')[n];
    SplitEntries(a, rest, b, rest');
  }

  lemma SplitEntries(a: seq<Entry>, b: seq<Entry>, c: seq<Entry>, d: seq<Entry>)
    requires a + b == c + d && |a| == |c|
    ensures a == c && b == d
  {
    assert a == (a + b)[..|a|] && c == (c + d)[..|c|];
    assert b == (a + b)[|a|..] && d == (c + d)[|c|..];
  }

  /** The list of a map determines the map. */
  lemma PointEntriesInjective(C: Suite, m: PointMap, m': PointMap, idTag: Label, pointTag: Label)
    requires EncodingLaws(C)
    requires PointEntries(C, Sorted(m.Keys), m, idTag, pointTag)
          == PointEntries(C, Sorted(m'.Keys), m', idTag, pointTag)
    ensures m == m'
  {
    hide IdBytes, PointEntries, Ascending;
    var ids, ids' := Sorted(m.Keys), Sorted(m'.Keys);
    PointEntriesAt(C, ids, m, idTag, pointTag);
    PointEntriesAt(C, ids', m', idTag, pointTag);
    forall k | 0 <= k < |ids|
      ensures ids[k] == ids'[k] && m[ids[k]] == m'[ids'[k]]
    {
      IdBytesInjective(ids[k], ids'[k]);
    }
    assert ids == ids';
    assert forall x :: x in m <==> x in ids;
    assert forall x :: x in m' <==> x in ids';
  }

  // ---------- the whole transcript ----------

  /** The record of a signer, if it has one. */
  function RecordOf(pk: PublicKeyPackage, i: Identifier): Option<Point> {
    if i in pk.partialVerificationKeys then Some(pk.partialVerificationKeys[i].signingShareCommitment) else None
  }

  lemma HeaderInjective(C: Suite, pkg: SigningPackage, share: SignatureShare, pk: PublicKeyPackage, b: Scalar,
                        c: Scalar, pkg': SigningPackage, share': SignatureShare, pk': PublicKeyPackage, b': Scalar,
                        c': Scalar)
    requires EncodingLaws(C)
    requires HeaderEntries(C, pkg, share, pk, b, c) == HeaderEntries(C, pkg', share', pk', b', c')
    ensures share == share' && pkg.message == pkg'.message && b == b' && c == c'
    ensures pk.verifyingKey == pk'.verifyingKey && pk.pedersenH == pk'.pedersenH
  {
    hide IdBytes;
    var h, h' := HeaderEntries(C, pkg, share, pk, b, c), HeaderEntries(C, pkg', share', pk', b', c');
    assert h[2] == h'[2] && h[3] == h'[3] && h[4] == h'[4] && h[5] == h'[5] && h[6] == h'[6] && h[7] == h'[7];
    assert h[8] == h'[8] && h[9] == h'[9];
    IdBytesInjective(share.identifier, share'.identifier);
    ScalarBytesInjective(C, b, b');
    ScalarBytesInjective(C, c, c');
    ScalarBytesInjective(C, share.z, share'.z);
  }

  lemma ScalarBytesInjective(C: Suite, a: Scalar, b: Scalar)
    requires EncodingLaws(C) && C.scalarBytes(a) == C.scalarBytes(b)
    ensures a == b
  {
    assert C.scalarFromBytes(C.scalarBytes(a)) == Some(a);
    assert C.scalarFromBytes(C.scalarBytes(b)) == Some(b);
  }

  /** What follows the header and the record. */
  ghost function Tail(C: Suite, pkg: SigningPackage, commitments: PointMap, tSig: Point, tKey: Point, tBlind: PointMap)
    : seq<Entry>
  {
    [Entry(Commitments, CommitmentsEncoding(C, pkg.signingCommitments))]
    + (PointEntries(C, Sorted(commitments.Keys), commitments, BlindId, BlindCommit)
       + ([Entry(TSig, C.pointBytes(tSig)), Entry(TKey, C.pointBytes(tKey))]
          + PointEntries(C, Sorted(tBlind.Keys), tBlind, TBlindId, TBlind)))
  }

  lemma TailInjective(C: Suite, pkg: SigningPackage, commitments: PointMap, tSig: Point, tKey: Point, tBlind: PointMap,
                      pkg': SigningPackage, commitments': PointMap, tSig': Point, tKey': Point, tBlind': PointMap)
    requires EncodingLaws(C)
    requires Tail(C, pkg, commitments, tSig, tKey, tBlind) == Tail(C, pkg', commitments', tSig', tKey', tBlind')
    ensures pkg.signingCommitments == pkg'.signingCommitments && commitments == commitments'
    ensures tSig == tSig' && tKey == tKey' && tBlind == tBlind'
  {
    hide PointEntries, CommitmentsEncoding, Sorted, EncodingLaws;
    var h, h' := [Entry(Commitments, CommitmentsEncoding(C, pkg.signingCommitments))],
                 [Entry(Commitments, CommitmentsEncoding(C, pkg'.signingCommitments))];
    var t, t' := [Entry(TSig, C.pointBytes(tSig)), Entry(TKey, C.pointBytes(tKey))],
                 [Entry(TSig, C.pointBytes(tSig')), Entry(TKey, C.pointBytes(tKey'))];
    var p, p' := PointEntries(C, Sorted(tBlind.Keys), tBlind, TBlindId, TBlind),
                 PointEntries(C, Sorted(tBlind'.Keys), tBlind', TBlindId, TBlind);
    var q, q' := PointEntries(C, Sorted(commitments.Keys), commitments, BlindId, BlindCommit),
                 PointEntries(C, Sorted(commitments'.Keys), commitments', BlindId, BlindCommit);
    SplitEntries(h, q + (t + p), h', q' + (t' + p'));
    assert h[0] == h'[0];
    CommitmentsInjective(C, pkg.signingCommitments, pkg'.signingCommitments);
    ListsEndTogether(C, Sorted(commitments.Keys), commitments, Sorted(commitments'.Keys), commitments',
                     BlindId, BlindCommit, t + p, t' + p');
    PointEntriesInjective(C, commitments, commitments', BlindId, BlindCommit);
    SplitEntries(t, p, t', p');
    assert t[0] == t'[0] && t[1] == t'[1];
    PointBytesInjective(C, tSig, tSig');
    PointBytesInjective(C, tKey, tKey');
    PointEntriesInjective(C, tBlind, tBlind', TBlindId, TBlind);
  }

  lemma PointBytesInjective(C: Suite, p: Point, r: Point)
    requires EncodingLaws(C) && C.pointBytes(p) == C.pointBytes(r)
    ensures p == r
  {
  }

  /**
    The transcript determines everything that goes into it: the share, the message and the commitments of the
    package, both challenges, the verifying key, the second generator, the record of the signer if there is one, the
    blinding commitments, and the whole first message of the proof.
  */
  lemma TranscriptInjective(C: Suite, pkg: SigningPackage, share: SignatureShare, pk: PublicKeyPackage,
                            commitments: PointMap, tSig: Point, tKey: Point, tBlind: PointMap, b: Scalar, c: Scalar,
                            pkg': SigningPackage, share': SignatureShare, pk': PublicKeyPackage,
                            commitments': PointMap, tSig': Point, tKey': Point, tBlind': PointMap, b': Scalar,
                            c': Scalar)
    requires EncodingLaws(C)
    requires TranscriptOf(C, pkg, share, pk, commitments, tSig, tKey, tBlind, b, c)
          == TranscriptOf(C, pkg', share', pk', commitments', tSig', tKey', tBlind', b', c')
    ensures pkg == pkg' && share == share' && b == b' && c == c'
    ensures pk.verifyingKey == pk'.verifyingKey && pk.pedersenH == pk'.pedersenH
    ensures RecordOf(pk, share.identifier) == RecordOf(pk', share.identifier)
    ensures commitments == commitments' && tSig == tSig' && tKey == tKey' && tBlind == tBlind'
  {
    hide IdBytes, PointEntries, CommitmentsEncoding, Sorted, EncodingLaws;
    var h, h' := HeaderEntries(C, pkg, share, pk, b, c), HeaderEntries(C, pkg', share', pk', b', c');
    var r, r' := RecordEntries(C, share, pk), RecordEntries(C, share', pk');
    var t, t' := Tail(C, pkg, commitments, tSig, tKey, tBlind), Tail(C, pkg', commitments', tSig', tKey', tBlind');
    TranscriptParts(C, pkg, share, pk, commitments, tSig, tKey, tBlind, b, c);
    TranscriptParts(C, pkg', share', pk', commitments', tSig', tKey', tBlind', b', c');
    SplitEntries(h, r + t, h', r' + t');
    HeaderInjective(C, pkg, share, pk, b, c, pkg', share', pk', b', c');
    assert (r + t)[0] == (r' + t')[0];
    SplitEntries(r, t, r', t');
    TailInjective(C, pkg, commitments, tSig, tKey, tBlind, pkg', commitments', tSig', tKey', tBlind');
    if r != [] {
      PointBytesInjective(C, RecordOf(pk, share.identifier).value, RecordOf(pk', share.identifier).value);
    }
  }

  lemma TranscriptParts(C: Suite, pkg: SigningPackage, share: SignatureShare, pk: PublicKeyPackage,
                        commitments: PointMap, tSig: Point, tKey: Point, tBlind: PointMap, b: Scalar, c: Scalar)
    ensures TranscriptOf(C, pkg, share, pk, commitments, tSig, tKey, tBlind, b, c)
         == HeaderEntries(C, pkg, share, pk, b, c)
            + (RecordEntries(C, share, pk) + Tail(C, pkg, commitments, tSig, tKey, tBlind))
  {
    hide HeaderEntries, RecordEntries, PointEntries, CommitmentsEncoding, Sorted;
    var h, r := HeaderEntries(C, pkg, share, pk, b, c), RecordEntries(C, share, pk);
    var m := [Entry(Commitments, CommitmentsEncoding(C, pkg.signingCommitments))];
    var q := PointEntries(C, Sorted(commitments.Keys), commitments, BlindId, BlindCommit);
    var t := [Entry(TSig, C.pointBytes(tSig)), Entry(TKey, C.pointBytes(tKey))];
    var p := PointEntries(C, Sorted(tBlind.Keys), tBlind, TBlindId, TBlind);
    assert h + r + m + q + t + p == h + (r + (m + (q + (t + p))));
  }

  /** Suites with different separators never share a transcript. */
  lemma TranscriptHasContext(C: Suite, C': Suite, pkg: SigningPackage, share: SignatureShare, pk: PublicKeyPackage,
                             commitments: PointMap, tSig: Point, tKey: Point, tBlind: PointMap, b: Scalar, c: Scalar,
                             pkg': SigningPackage, share': SignatureShare, pk': PublicKeyPackage,
                             commitments': PointMap, tSig': Point, tKey': Point, tBlind': PointMap, b': Scalar,
                             c': Scalar)
    requires TranscriptOf(C, pkg, share, pk, commitments, tSig, tKey, tBlind, b, c)
          == TranscriptOf(C', pkg', share', pk', commitments', tSig', tKey', tBlind', b', c')
    ensures C.context == C'.context
  {
    hide IdBytes, PointEntries, CommitmentsEncoding, RecordEntries, Sorted, Tail;
    TranscriptParts(C, pkg, share, pk, commitments, tSig, tKey, tBlind, b, c);
    TranscriptParts(C', pkg', share', pk', commitments', tSig', tKey', tBlind', b', c');
    SplitEntries(HeaderEntries(C, pkg, share, pk, b, c),
                 RecordEntries(C, share, pk) + Tail(C, pkg, commitments, tSig, tKey, tBlind),
                 HeaderEntries(C', pkg', share', pk', b', c'),
                 RecordEntries(C', share', pk') + Tail(C', pkg', commitments', tSig', tKey', tBlind'));
    assert HeaderEntries(C, pkg, share, pk, b, c)[1] == HeaderEntries(C', pkg', share', pk', b', c')[1];
  }

  // ---------- what the challenge of a message binds ----------

  /** Two different transcripts with one challenge. */
  ghost predicate TranscriptCollision(C: Suite, t: seq<Entry>, t': seq<Entry>) {
    t != t' && C.transcript(t) == C.transcript(t')
  }

  /** The transcript that prover and verifier hash for a message. */
  ghost function TranscriptOfMessage(C: Suite, pkg: SigningPackage, share: SignatureShare, msg: IA1Message,
                                     pk: PublicKeyPackage): seq<Entry>
  {
    TranscriptOf(C, pkg, share, pk, msg.blindingCommitments, msg.proof.tSig, msg.proof.tKey, msg.proof.tBlind,
                 NonceChallenge(C, pk.verifyingKey, pkg), SigChallenge(C, pk.verifyingKey, pkg))
  }

  /**
    A prover cannot choose its first message after the challenge: two messages with one challenge agree on the
    package, the share, the keys, the commitments and the first message of the proof, or their transcripts collide.
  */
  lemma ChallengeBinds(C: Suite, pkg: SigningPackage, share: SignatureShare, msg: IA1Message, pk: PublicKeyPackage,
                       pkg': SigningPackage, share': SignatureShare, msg': IA1Message, pk': PublicKeyPackage)
    requires EncodingLaws(C)
    requires ChallengeOfMessage(C, pkg, share, msg, pk) == ChallengeOfMessage(C, pkg', share', msg', pk')
    ensures || TranscriptCollision(C, TranscriptOfMessage(C, pkg, share, msg, pk),
                                   TranscriptOfMessage(C, pkg', share', msg', pk'))
            || (&& pkg == pkg' && share == share' && pk.verifyingKey == pk'.verifyingKey
                && pk.pedersenH == pk'.pedersenH
                && RecordOf(pk, share.identifier) == RecordOf(pk', share.identifier)
                && msg.blindingCommitments == msg'.blindingCommitments && msg.proof.tSig == msg'.proof.tSig
                && msg.proof.tKey == msg'.proof.tKey && msg.proof.tBlind == msg'.proof.tBlind)
  {
    hide EncodingLaws, TranscriptOf, NonceChallenge, SigChallenge;
    if TranscriptOfMessage(C, pkg, share, msg, pk) == TranscriptOfMessage(C, pkg', share', msg', pk') {
      TranscriptInjective(
        C, pkg, share, pk, msg.blindingCommitments, msg.proof.tSig, msg.proof.tKey, msg.proof.tBlind,
        NonceChallenge(C, pk.verifyingKey, pkg), SigChallenge(C, pk.verifyingKey, pkg),
        pkg', share', pk', msg'.blindingCommitments, msg'.proof.tSig, msg'.proof.tKey, msg'.proof.tBlind,
        NonceChallenge(C, pk'.verifyingKey, pkg'), SigChallenge(C, pk'.verifyingKey, pkg'));
    }
  }
}
