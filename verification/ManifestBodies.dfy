/** What the digest over an edge manifest covers: every field but the commitment and the signature. */
module ManifestBodies {
  import opened Orders
  import opened Wire
  import opened Sharing

  ghost predicate SameRows(env: EdgeEnv, a: seq<seq<Encoding>>, b: seq<seq<Encoding>>) {
    |a| == |b| && forall f :: 0 <= f < |a| ==> Encoded(env, a[f]) == Encoded(env, b[f])
  }

  ghost predicate Rows(a: seq<seq<Encoding>>) {
    forall f :: 0 <= f < |a| ==> |a[f]| == VSS_COEFFICIENTS
  }

  lemma {:induction false} RowsExactly(env: EdgeEnv, a: seq<seq<Encoding>>, b: seq<seq<Encoding>>)
    requires |a| == |b| && Rows(a) && Rows(b)
    ensures |RowsBytes(env, a)| == |RowsBytes(env, b)|
    ensures RowsBytes(env, a) == RowsBytes(env, b) <==> SameRows(env, a, b)
  {
    hide Digests, Encoded;
    if a != [] {
      RowsExactly(env, a[1..], b[1..]);
      var x, y := Encoded(env, a[0]), Encoded(env, b[0]);
      assert a == [a[0]] + a[1..] && b == [b[0]] + b[1..];
      if RowsBytes(env, a) == RowsBytes(env, b) {
        SplitEqual(Digests(x), RowsBytes(env, a[1..]), Digests(y), RowsBytes(env, b[1..]));
        DigestsInjective(x, y);
      }
    }
  }

  /** Agreement in everything the body covers, commitments compared by their bytes. */
  ghost predicate SameContents(env: EdgeEnv, a: Manifest, b: Manifest) {
    && a.version == b.version && a.marketId == b.marketId && a.retentionDeadline == b.retentionDeadline
    && a.eligibilityCommitment == b.eligibilityCommitment && a.sourceOrderCommitment == b.sourceOrderCommitment
    && a.reservationAdmissionDigest == b.reservationAdmissionDigest
    && a.settlementCapabilityCommitment == b.settlementCapabilityCommitment
    && Encoded(env, a.settlementKeyCommitments) == Encoded(env, b.settlementKeyCommitments)
    && SameRows(env, a.fieldCommitments, b.fieldCommitments)
    && a.settlementProofEnabled == b.settlementProofEnabled
    && SameRows(env, a.settlementFieldCommitments, b.settlementFieldCommitments)
    && a.signer == b.signer
  }

  lemma ShortInjective(x: nat, y: nat)
    requires x < 0x1_0000 && y < 0x1_0000 && BigEndian(x, 2) == BigEndian(y, 2)
    ensures x == y
  {
    hide Pow256;
    Widths();
    IntegerRoundTrip(x, 2);
    IntegerRoundTrip(y, 2);
  }

  /** The part after the market and the deadline. */
  function Tail(env: EdgeEnv, m: Manifest): seq<Byte> {
    Digests(FourDigests(m)) + (Digests(Encoded(env, m.settlementKeyCommitments)) + TrailerBytes(env, m))
  }

  lemma TrailerBinds(env: EdgeEnv, a: Manifest, b: Manifest)
    requires Shaped(a) && Shaped(b) && TrailerBytes(env, a) == TrailerBytes(env, b)
    ensures SameRows(env, a.fieldCommitments, b.fieldCommitments)
    ensures SameRows(env, a.settlementFieldCommitments, b.settlementFieldCommitments)
    ensures a.settlementProofEnabled == b.settlementProofEnabled && a.signer == b.signer
  {
    hide BigEndian, RowsBytes, SameRows;
    RowsExactly(env, a.fieldCommitments, b.fieldCommitments);
    RowsExactly(env, a.settlementFieldCommitments, b.settlementFieldCommitments);
    var x, y := RowsBytes(env, a.settlementFieldCommitments), RowsBytes(env, b.settlementFieldCommitments);
    SplitEqual(RowsBytes(env, a.fieldCommitments), FlagByte(a) + (x + BigEndian(a.signer, 32)),
               RowsBytes(env, b.fieldCommitments), FlagByte(b) + (y + BigEndian(b.signer, 32)));
    SplitEqual(FlagByte(a), x + BigEndian(a.signer, 32), FlagByte(b), y + BigEndian(b.signer, 32));
    SplitEqual(x, BigEndian(a.signer, 32), y, BigEndian(b.signer, 32));
    DigestBytesInjective(a.signer, b.signer);
    assert FlagByte(a)[0] == FlagByte(b)[0];
  }

  lemma TailBinds(env: EdgeEnv, a: Manifest, b: Manifest)
    requires Shaped(a) && Shaped(b) && Tail(env, a) == Tail(env, b)
    ensures FourDigests(a) == FourDigests(b) && TrailerBytes(env, a) == TrailerBytes(env, b)
    ensures Encoded(env, a.settlementKeyCommitments) == Encoded(env, b.settlementKeyCommitments)
  {
    hide Digests, TrailerBytes, Encoded;
    var x, y := Encoded(env, a.settlementKeyCommitments), Encoded(env, b.settlementKeyCommitments);
    SplitEqual(Digests(FourDigests(a)), Digests(x) + TrailerBytes(env, a),
               Digests(FourDigests(b)), Digests(y) + TrailerBytes(env, b));
    SplitEqual(Digests(x), TrailerBytes(env, a), Digests(y), TrailerBytes(env, b));
    DigestsInjective(FourDigests(a), FourDigests(b));
    DigestsInjective(x, y);
  }

  lemma BodySplits(env: EdgeEnv, m: Manifest)
    ensures BodyBytes(env, m)
         == Ascii(MANIFEST_DOMAIN) + (BigEndian(m.version, 2) + (BigEndian(|m.marketId|, 2)
            + (m.marketId + (BigEndian(m.retentionDeadline, 8) + Tail(env, m)))))
  {
    hide BigEndian, Digests, TrailerBytes, Ascii, Encoded;
  }

  lemma HeaderBinds(env: EdgeEnv, a: Manifest, b: Manifest)
    requires Shaped(a) && Shaped(b) && |a.marketId| < 0x1_0000 && |b.marketId| < 0x1_0000
    requires BodyBytes(env, a) == BodyBytes(env, b)
    ensures a.version == b.version && a.marketId == b.marketId && a.retentionDeadline == b.retentionDeadline
    ensures Tail(env, a) == Tail(env, b)
  {
    hide BigEndian, Tail, Ascii, BodyBytes;
    BodySplits(env, a);
    BodySplits(env, b);
    var d := Ascii(MANIFEST_DOMAIN);
    var w, x := BigEndian(a.retentionDeadline, 8) + Tail(env, a), BigEndian(b.retentionDeadline, 8) + Tail(env, b);
    var u, v := BigEndian(|a.marketId|, 2) + (a.marketId + w), BigEndian(|b.marketId|, 2) + (b.marketId + x);
    SplitEqual(d, BigEndian(a.version, 2) + u, d, BigEndian(b.version, 2) + v);
    SplitEqual(BigEndian(a.version, 2), u, BigEndian(b.version, 2), v);
    ShortInjective(a.version, b.version);
    SplitEqual(BigEndian(|a.marketId|, 2), a.marketId + w, BigEndian(|b.marketId|, 2), b.marketId + x);
    ShortInjective(|a.marketId|, |b.marketId|);
    SplitEqual(a.marketId, w, b.marketId, x);
    SplitEqual(BigEndian(a.retentionDeadline, 8), Tail(env, a), BigEndian(b.retentionDeadline, 8), Tail(env, b));
    U64BytesInjective(a.retentionDeadline, b.retentionDeadline);
  }

  lemma SameContentsSameBody(env: EdgeEnv, a: Manifest, b: Manifest)
    requires Shaped(a) && Shaped(b) && SameContents(env, a, b)
    ensures BodyBytes(env, a) == BodyBytes(env, b)
  {
    hide BigEndian, Digests, RowsBytes, Ascii, SameRows;
    RowsExactly(env, a.fieldCommitments, b.fieldCommitments);
    RowsExactly(env, a.settlementFieldCommitments, b.settlementFieldCommitments);
    assert FourDigests(a) == FourDigests(b);
  }

  /**
   Two manifests whose markets are shorter than 2^16 bytes, as every verified one's is, have the
   same body exactly when they agree in every field other than the commitment and the signature.
   */
  lemma BodyBinds(env: EdgeEnv, a: Manifest, b: Manifest)
    requires Shaped(a) && Shaped(b) && |a.marketId| < 0x1_0000 && |b.marketId| < 0x1_0000
    ensures BodyBytes(env, a) == BodyBytes(env, b) <==> SameContents(env, a, b)
  {
    hide BodyBytes, Tail, TrailerBytes, Encoded, SameRows;
    if SameContents(env, a, b) {
      SameContentsSameBody(env, a, b);
    }
    if BodyBytes(env, a) == BodyBytes(env, b) {
      HeaderBinds(env, a, b);
      TailBinds(env, a, b);
      TrailerBinds(env, a, b);
      FourAgree(a, b);
    }
  }

  lemma FourAgree(a: Manifest, b: Manifest)
    requires FourDigests(a) == FourDigests(b)
    ensures a.eligibilityCommitment == b.eligibilityCommitment && a.sourceOrderCommitment == b.sourceOrderCommitment
    ensures a.reservationAdmissionDigest == b.reservationAdmissionDigest
    ensures a.settlementCapabilityCommitment == b.settlementCapabilityCommitment
  {
    var s, t := FourDigests(a), FourDigests(b);
    assert s[0] == t[0] && s[1] == t[1] && s[2] == t[2] && s[3] == t[3];
  }

  /** Two group elements never share a byte string. */
  ghost predicate BytesTellPoints(env: EdgeEnv) {
    forall a: nat, b: nat ::
      a < env.order && b < env.order && a != b ==> env.bytesOf(Canonical(Point(a))) != env.bytesOf(Canonical(Point(b)))
  }

  /** The digest keeps these two bodies apart. */
  ghost predicate NoCollision(env: EdgeEnv, a: Manifest, b: Manifest) {
    env.bodyDigest(BodyBytes(env, a)) == env.bodyDigest(BodyBytes(env, b)) ==> BodyBytes(env, a) == BodyBytes(env, b)
  }

  lemma SameBytesSameKey(env: EdgeEnv, a: Manifest, b: Manifest)
    requires Shaped(a) && Shaped(b) && BytesTellPoints(env)
    requires Decompress(a.settlementKeyCommitments[0], env.order).Some?
    requires Decompress(b.settlementKeyCommitments[0], env.order).Some?
    requires Encoded(env, a.settlementKeyCommitments) == Encoded(env, b.settlementKeyCommitments)
    ensures a.settlementKeyCommitments[0].point.log == b.settlementKeyCommitments[0].point.log
  {
    var x, y := a.settlementKeyCommitments[0], b.settlementKeyCommitments[0];
    assert env.bytesOf(x) == Encoded(env, a.settlementKeyCommitments)[0];
    assert env.bytesOf(y) == Encoded(env, b.settlementKeyCommitments)[0];
    assert x == Canonical(Point(x.point.log)) && y == Canonical(Point(y.point.log));
  }

  /**
   Accepted manifests with one order commitment, whose bodies the digest tells apart, say the same in
   every field that it covers, and so commit to the same capability key, whenever each was accepted.
   */
  lemma OneCommitmentOneKey(env: EdgeEnv, a: Manifest, b: Manifest, now: nat, later: nat)
    requires Shaped(a) && Shaped(b) && BytesTellPoints(env) && NoCollision(env, a, b)
    requires CheckManifest(env, a, now).None? && CheckManifest(env, b, later).None?
    ensures a.commitment == b.commitment <==> SameContents(env, a, b)
    ensures a.commitment == b.commitment ==> CommittedKey(env, a, now) == CommittedKey(env, b, later)
  {
    hide BodyBytes, SameContents, BytesTellPoints;
    AcceptedManifest(env, a, now);
    AcceptedManifest(env, b, later);
    BodyBinds(env, a, b);
    if a.commitment == b.commitment {
      ContentsKeys(env, a, b);
      SameBytesSameKey(env, a, b);
    }
  }

  lemma ContentsKeys(env: EdgeEnv, a: Manifest, b: Manifest)
    requires SameContents(env, a, b)
    ensures Encoded(env, a.settlementKeyCommitments) == Encoded(env, b.settlementKeyCommitments)
  {
  }
}
