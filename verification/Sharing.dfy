/**
 Verifiable secret sharing at the participant edge: dealing to seven parties, checking
 shares against committed coefficients, and reconstructing from any three to seven.

 The group has prime order, so each point is modelled by its logarithm to the base point;
 an encoding is either the canonical one of a point or bytes that do not decode.
 */
module Sharing {
  import opened Orders
  import opened Scalars
  import opened Lagrange
  import opened Wire

  const MPC_PARTIES: nat := 7
  const MATCH_FIELD_COUNT: nat := 6
  const SETTLEMENT_FIELD_COUNT: nat := 2
  const VSS_COEFFICIENTS: nat := 3
  const SETTLEMENT_KEY_THRESHOLD: nat := 3
  const VERSION: nat := 7

  datatype Point = Point(log: nat)

  datatype Encoding = Canonical(point: Point) | NonCanonical(bytes: seq<Byte>)

  const IDENTITY: Point := Point(0)
  const BASEPOINT: Point := Point(1)
  const ZERO_BYTES: Encoding := Canonical(IDENTITY)

  datatype EdgeError =
    | ManifestError | SignatureError | ShareError | VssError | CapabilityKeyShareError | CapabilityKeyThreshold

  datatype EdgeResult<+T> = Ok(value: T) | Err(error: EdgeError)

  datatype Manifest = Manifest(
    version: nat,
    marketId: seq<Byte>,
    commitment: Digest32,
    retentionDeadline: U64,
    eligibilityCommitment: Digest32,
    sourceOrderCommitment: Digest32,
    reservationAdmissionDigest: Digest32,
    settlementCapabilityCommitment: Digest32,
    settlementKeyCommitments: seq<Encoding>,
    fieldCommitments: seq<seq<Encoding>>,
    settlementProofEnabled: bool,
    settlementFieldCommitments: seq<seq<Encoding>>,
    signer: Digest32,
    signature: seq<Byte>)

  /** A scalar travels as 32 bytes; here it is the integer those bytes spell. */
  datatype CapabilityKeyShare = CapabilityKeyShare(
    version: nat,
    party: nat,
    orderCommitment: Digest32,
    capabilityCommitment: Digest32,
    value: nat,
    signer: Digest32,
    signature: seq<Byte>)

  datatype PartyOrderShare = PartyOrderShare(
    version: nat,
    party: nat,
    commitment: Digest32,
    valueShares: seq<nat>,
    blindingShares: seq<nat>,
    settlementValueShares: seq<nat>,
    settlementBlindingShares: seq<nat>,
    signer: Digest32,
    signature: seq<Byte>)

  /** The group order, the commitment generators, and the hash and signature checks. */
  datatype EdgeEnv = EdgeEnv(
    order: nat,
    valueBase: Point,
    blindingBase: Point,
    bytesOf: Encoding -> Digest32,
    bodyDigest: seq<Byte> -> Digest32,
    preauthorizedCommitment: Digest32 -> Digest32,
    manifestSigned: Manifest -> bool,
    shareSigned: PartyOrderShare -> bool,
    keyShareSigned: CapabilityKeyShare -> bool)

  ghost predicate ValidEnv(env: EdgeEnv) {
    Prime(env.order) && env.order > MPC_PARTIES
  }

  /** The sizes that the program's array types fix. */
  ghost predicate Shaped(m: Manifest) {
    && m.version < 0x1_0000
    && |m.settlementKeyCommitments| == VSS_COEFFICIENTS
    && |m.fieldCommitments| == MATCH_FIELD_COUNT
    && (forall f :: 0 <= f < |m.fieldCommitments| ==> |m.fieldCommitments[f]| == VSS_COEFFICIENTS)
    && |m.settlementFieldCommitments| == SETTLEMENT_FIELD_COUNT
    && (forall f :: 0 <= f < |m.settlementFieldCommitments| ==> |m.settlementFieldCommitments[f]| == VSS_COEFFICIENTS)
  }

  // ---------------------------------------------------------------- group operations

  function Decompress(e: Encoding, p: nat): Option<Point> {
    if e.Canonical? && e.point.log < p then Some(e.point) else None
  }

  function AddPoints(a: Point, b: Point, p: nat): Point
    requires p > 0
  {
    Point((a.log + b.log) % p)
  }

  function ScalePoint(a: Point, s: int, p: nat): Point
    requires p > 0
  {
    Point((a.log * s) % p)
  }

  function CommitTo(env: EdgeEnv, value: int, blinding: int): Point
    requires env.order > 0
  {
    AddPoints(ScalePoint(env.valueBase, value, env.order), ScalePoint(env.blindingBase, blinding, env.order), env.order)
  }

  ghost predicate Decodes(es: seq<Encoding>, p: nat) {
    forall i :: 0 <= i < |es| ==> Decompress(es[i], p).Some?
  }

  /** The coefficients that a list of committed points stands for. */
  ghost function Logs(es: seq<Encoding>, p: nat): (c: seq<int>)
    requires Decodes(es, p)
    ensures |c| == |es| && forall i :: 0 <= i < |es| ==> c[i] == es[i].point.log
  {
    seq(|es|, i requires 0 <= i < |es| => assert Decompress(es[i], p).Some?; es[i].point.log)
  }

  // ---------------------------------------------------------------- the manifest

  const MANIFEST_DOMAIN := "OCLOB:EDGE-MANIFEST:v2"

  /** The 32-byte strings of a row of commitments. */
  function Encoded(env: EdgeEnv, es: seq<Encoding>): (r: seq<Digest32>)
    ensures |r| == |es| && forall i :: 0 <= i < |es| ==> r[i] == env.bytesOf(es[i])
  {
    seq(|es|, i requires 0 <= i < |es| => env.bytesOf(es[i]))
  }

  function RowsBytes(env: EdgeEnv, rows: seq<seq<Encoding>>): seq<Byte> {
    if rows == [] then [] else Digests(Encoded(env, rows[0])) + RowsBytes(env, rows[1..])
  }

  function FourDigests(m: Manifest): seq<Digest32> {
    [m.eligibilityCommitment, m.sourceOrderCommitment, m.reservationAdmissionDigest, m.settlementCapabilityCommitment]
  }

  /** The fields before the commitments. The market's length is cut to sixteen bits. */
  function HeaderBytes(m: Manifest): seq<Byte> {
    Ascii(MANIFEST_DOMAIN)
    + (BigEndian(m.version, 2) + (BigEndian(|m.marketId|, 2) + (m.marketId + BigEndian(m.retentionDeadline, 8))))
  }

  function FlagByte(m: Manifest): seq<Byte> {
    [if m.settlementProofEnabled then 1 else 0]
  }

  function TrailerBytes(env: EdgeEnv, m: Manifest): seq<Byte> {
    RowsBytes(env, m.fieldCommitments)
    + (FlagByte(m) + (RowsBytes(env, m.settlementFieldCommitments) + BigEndian(m.signer, 32)))
  }

  /** The bytes whose digest is the order commitment. */
  function BodyBytes(env: EdgeEnv, m: Manifest): seq<Byte> {
    HeaderBytes(m)
    + (Digests(FourDigests(m)) + (Digests(Encoded(env, m.settlementKeyCommitments)) + TrailerBytes(env, m)))
  }

  method AppendDigests(body: seq<Byte>, digests: seq<Digest32>) returns (r: seq<Byte>)
    ensures r == body + Digests(digests)
  {
    hide BigEndian;
    r := body;
    assert digests[0..] == digests;
    for k := 0 to |digests|
      invariant r + Digests(digests[k..]) == body + Digests(digests)
    {
      assert digests[k..][0] == digests[k] && digests[k..][1..] == digests[k + 1..];
      assert Digests(digests[k..]) == BigEndian(digests[k], 32) + Digests(digests[k + 1..]);
      r := r + BigEndian(digests[k], 32);
    }
    assert digests[|digests|..] == [];
  }

  method AppendRows(env: EdgeEnv, body: seq<Byte>, rows: seq<seq<Encoding>>) returns (r: seq<Byte>)
    ensures r == body + RowsBytes(env, rows)
  {
    hide Digests, Encoded;
    r := body;
    assert rows[0..] == rows;
    for f := 0 to |rows|
      invariant r + RowsBytes(env, rows[f..]) == body + RowsBytes(env, rows)
    {
      assert rows[f..][0] == rows[f] && rows[f..][1..] == rows[f + 1..];
      r := AppendDigests(r, Encoded(env, rows[f]));
    }
    assert rows[|rows|..] == [];
  }

  method AppendHeader(m: Manifest) returns (body: seq<Byte>)
    ensures body == HeaderBytes(m)
  {
    hide BigEndian, Ascii;
    body := Ascii(MANIFEST_DOMAIN);
    body := body + BigEndian(m.version, 2);
    body := body + BigEndian(|m.marketId| % 0x1_0000, 2);
    LowBytes(|m.marketId|);
    body := body + m.marketId;
    body := body + BigEndian(m.retentionDeadline, 8);
  }

  method AppendTrailer(env: EdgeEnv, m: Manifest, start: seq<Byte>) returns (body: seq<Byte>)
    ensures body == start + TrailerBytes(env, m)
  {
    hide BigEndian, RowsBytes;
    body := AppendRows(env, start, m.fieldCommitments);
    body := body + FlagByte(m);
    body := AppendRows(env, body, m.settlementFieldCommitments);
    body := body + BigEndian(m.signer, 32);
  }

  /** The body as the program builds it, field after field. */
  method UnsignedBody(env: EdgeEnv, m: Manifest) returns (body: seq<Byte>)
    ensures body == BodyBytes(env, m)
  {
    hide Digests, Encoded, HeaderBytes, TrailerBytes;
    body := AppendHeader(m);
    body := AppendDigests(body, FourDigests(m));
    body := AppendDigests(body, Encoded(env, m.settlementKeyCommitments));
    body := AppendTrailer(env, m, body);
  }

  lemma LowBytes(n: nat)
    ensures BigEndian(n % 0x1_0000, 2) == BigEndian(n, 2)
  {
    var l := n % 0x1_0000;
    assert l % 256 == n % 256 && (l / 256) % 256 == (n / 256) % 256;
    assert BigEndian(l / 256, 1) == [(l / 256) % 256] && BigEndian(n / 256, 1) == [(n / 256) % 256];
  }

  ghost function CheckManifest(env: EdgeEnv, m: Manifest, now: nat): Option<EdgeError>
    requires Shaped(m)
  {
    if m.version != VERSION || |m.marketId| == 0 || |m.marketId| > 64 || m.retentionDeadline < now
       || m.eligibilityCommitment == 0 || m.sourceOrderCommitment == 0 || m.settlementCapabilityCommitment == 0
       || m.commitment != env.bodyDigest(BodyBytes(env, m))
    then Some(ManifestError)
    else if m.reservationAdmissionDigest != 0
            && (!m.settlementProofEnabled
                || m.settlementCapabilityCommitment != env.preauthorizedCommitment(m.reservationAdmissionDigest))
    then Some(ManifestError)
    else if exists f :: 0 <= f < |m.fieldCommitments| && !Decodes(m.fieldCommitments[f], env.order)
    then Some(ManifestError)
    else if m.settlementProofEnabled && exists f ::
              0 <= f < |m.settlementFieldCommitments| && !Decodes(m.settlementFieldCommitments[f], env.order)
    then Some(ManifestError)
    else if m.settlementProofEnabled && Decompress(m.settlementFieldCommitments[0][0], env.order) == Some(IDENTITY)
    then Some(ManifestError)
    else if !m.settlementProofEnabled && exists f, k ::
              0 <= f < |m.settlementFieldCommitments| && 0 <= k < VSS_COEFFICIENTS
              && m.settlementFieldCommitments[f][k] != ZERO_BYTES
    then Some(ManifestError)
    else if !Decodes(m.settlementKeyCommitments, env.order) then Some(ManifestError)
    else if Decompress(m.settlementKeyCommitments[0], env.order) == Some(IDENTITY) then Some(ManifestError)
    else if !env.manifestSigned(m) then Some(SignatureError)
    else None
  }

  /** What a manifest must say, its signature aside, with the protocol's numbers written out. */
  ghost predicate Wellmade(env: EdgeEnv, m: Manifest, now: nat)
    requires Shaped(m)
  {
    && m.version == 7 && 1 <= |m.marketId| <= 64 && now <= m.retentionDeadline
    && m.eligibilityCommitment != 0 && m.sourceOrderCommitment != 0 && m.settlementCapabilityCommitment != 0
    && m.commitment == env.bodyDigest(BodyBytes(env, m))
    && (m.reservationAdmissionDigest != 0 ==>
          && m.settlementProofEnabled
          && m.settlementCapabilityCommitment == env.preauthorizedCommitment(m.reservationAdmissionDigest))
    && (forall f, k :: 0 <= f < 6 && 0 <= k < 3 ==> OfGroup(m.fieldCommitments[f][k], env.order))
    && (m.settlementProofEnabled ==>
          && (forall f, k :: 0 <= f < 2 && 0 <= k < 3 ==> OfGroup(m.settlementFieldCommitments[f][k], env.order))
          && m.settlementFieldCommitments[0][0].point.log != 0)
    && (!m.settlementProofEnabled ==>
          forall f, k :: 0 <= f < 2 && 0 <= k < 3 ==> m.settlementFieldCommitments[f][k] == Canonical(Point(0)))
    && (forall k :: 0 <= k < 3 ==> OfGroup(m.settlementKeyCommitments[k], env.order))
    && m.settlementKeyCommitments[0].point.log != 0
  }

  /** The bytes are the canonical ones of a group element. */
  ghost predicate OfGroup(e: Encoding, p: nat) {
    e.Canonical? && e.point.log < p
  }

  /**
   A manifest is accepted exactly when it is well made and signed. One that is well made and not
   signed is refused for its signature, and any other for its contents.
   */
  lemma ManifestAcceptedExactly(env: EdgeEnv, m: Manifest, now: nat)
    requires Shaped(m)
    ensures CheckManifest(env, m, now) == None <==> Wellmade(env, m, now) && env.manifestSigned(m)
    ensures CheckManifest(env, m, now) == Some(SignatureError) <==> Wellmade(env, m, now) && !env.manifestSigned(m)
    ensures CheckManifest(env, m, now) == Some(ManifestError) <==> !Wellmade(env, m, now)
  {
    hide BodyBytes;
    if Wellmade(env, m, now) {
      forall f | 0 <= f < |m.fieldCommitments| ensures Decodes(m.fieldCommitments[f], env.order) {
      }
      if m.settlementProofEnabled {
        forall f | 0 <= f < |m.settlementFieldCommitments|
          ensures Decodes(m.settlementFieldCommitments[f], env.order)
        {
        }
      }
    }
  }

  lemma AcceptedManifest(env: EdgeEnv, m: Manifest, now: nat)
    requires Shaped(m)
    ensures CheckManifest(env, m, now).None? ==>
              && Decodes(m.settlementKeyCommitments, env.order)
              && now <= m.retentionDeadline && m.commitment == env.bodyDigest(BodyBytes(env, m))
  {
  }

  // ---------------------------------------------------------------- the verification equation

  /** The sum of the first `k` coefficients times powers of `x`. */
  ghost function Partial(c: seq<int>, x: int, k: nat): int
    requires k <= |c|
  {
    if k == 0 then 0 else Partial(c, x, k - 1) + c[k - 1] * Power(x, k - 1)
  }

  lemma PartialIsEvaluate(c: seq<int>, x: int)
    requires |c| == 3
    ensures Partial(c, x, 3) == Evaluate(c, x)
  {
    assert Power(x, 0) == 1;
    assert Power(x, 1) == x * Power(x, 0);
    assert Power(x, 2) == x * Power(x, 1);
    assert Partial(c, x, 1) == Partial(c, x, 0) + c[0] * Power(x, 0);
    assert Partial(c, x, 2) == Partial(c, x, 1) + c[1] * Power(x, 1);
    assert c[2] * Power(x, 2) == c[2] * x * x;
  }

  /** Sums the decoded points times the powers of `x`, or finds one that does not decode. */
  method CombineCommitments(es: seq<Encoding>, x: nat, p: nat) returns (r: Option<Point>)
    requires p > 0 && |es| == VSS_COEFFICIENTS
    ensures r.Some? <==> Decodes(es, p)
    ensures r.Some? ==> r.value == Point(Evaluate(Logs(es, p), x) % p)
  {
    hide Power, Evaluate, Partial, Cong;
    var right := IDENTITY;
    var power: nat := 1 % p;
    CongMod(1, p);
    CombineStart(es, x, power, p);
    for k := 0 to |es|
      invariant Decodes(es[..k], p)
      invariant Cong(power, Power(x, k), p)
      invariant right.log < p && Cong(right.log, Partial(Logs(es[..k], p), x, k), p)
    {
      var point := Decompress(es[k], p);
      if point.None? {
        return None;
      }
      CombineStep(es, x, k, power, right.log, p);
      right := AddPoints(right, ScalePoint(point.value, power, p), p);
      power := (power * x) % p;
    }
    assert es[..|es|] == es;
    PartialIsEvaluate(Logs(es, p), x);
    CongToMod(right.log, Evaluate(Logs(es, p), x), p);
    Reduced(right.log, p);
    return Some(right);
  }

  lemma Reduced(a: nat, p: nat)
    requires a < p
    ensures a % p == a
  {
  }

  lemma CombineStart(es: seq<Encoding>, x: int, power: nat, p: nat)
    requires p > 0 && Cong(power, 1, p)
    ensures Cong(power, Power(x, 0), p)
    ensures Decodes(es[..0], p) && Cong(0, Partial(Logs(es[..0], p), x, 0), p)
  {
    CongRefl(0, p);
  }

  lemma CombineStep(es: seq<Encoding>, x: nat, k: nat, power: nat, right: nat, p: nat)
    requires p > 0 && k < |es| && Decodes(es[..k], p) && Decompress(es[k], p).Some?
    requires Cong(power, Power(x, k), p) && Cong(right, Partial(Logs(es[..k], p), x, k), p)
    ensures Decodes(es[..k + 1], p)
    ensures Cong((right + (es[k].point.log * power) % p) % p, Partial(Logs(es[..k + 1], p), x, k + 1), p)
    ensures Cong((power * x) % p, Power(x, k + 1), p)
  {
    assert es[..k + 1] == es[..k] + [es[k]];
    var c, c', l := Logs(es[..k], p), Logs(es[..k + 1], p), es[k].point.log;
    assert forall i :: 0 <= i < k ==> c'[i] == c[i];
    PartialPrefix(c, c', x, k);
    CongScale(power, Power(x, k), l, p);
    CongMod(l * power, p);
    CongTrans((l * power) % p, l * power, l * Power(x, k), p);
    CongAdd(right, Partial(c, x, k), (l * power) % p, l * Power(x, k), p);
    CongMod(right + (l * power) % p, p);
    CongTrans((right + (l * power) % p) % p, right + (l * power) % p, Partial(c', x, k + 1), p);
    CongScale(power, Power(x, k), x, p);
    CongMod(power * x, p);
    CongTrans((power * x) % p, power * x, Power(x, k + 1), p);
  }

  lemma {:induction false} PartialPrefix(c: seq<int>, d: seq<int>, x: int, k: nat)
    requires k <= |c| && k <= |d| && forall i :: 0 <= i < k ==> c[i] == d[i]
    ensures Partial(c, x, k) == Partial(d, x, k)
  {
    if k > 0 {
      PartialPrefix(c, d, x, k - 1);
    }
  }

  // ---------------------------------------------------------------- capability-key shares

  /** The share names the manifest and its party, and lies on the committed polynomial. */
  ghost predicate OnCommittedPolynomial(env: EdgeEnv, share: CapabilityKeyShare, m: Manifest, expectedParty: nat)
    requires ValidEnv(env) && Shaped(m) && Decodes(m.settlementKeyCommitments, env.order)
  {
    && share.version == 7 && share.party == expectedParty && share.party < 7
    && share.orderCommitment == m.commitment
    && share.capabilityCommitment == m.settlementCapabilityCommitment
    && share.signer == m.signer
    && share.value < env.order
    && share.value == Evaluate(Logs(m.settlementKeyCommitments, env.order), share.party + 1) % env.order
  }

  ghost predicate KeyShareValid(env: EdgeEnv, share: CapabilityKeyShare, m: Manifest, expectedParty: nat, now: nat)
    requires ValidEnv(env) && Shaped(m)
  {
    && CheckManifest(env, m, now).None? && OnCommittedPolynomial(env, share, m, expectedParty)
    && env.keyShareSigned(share)
  }

  method VerifyKeyShare(env: EdgeEnv, share: CapabilityKeyShare, m: Manifest, expectedParty: nat, now: nat)
    returns (e: Option<EdgeError>)
    requires ValidEnv(env) && Shaped(m)
    ensures e.None? <==> KeyShareValid(env, share, m, expectedParty, now)
    ensures CheckManifest(env, m, now).Some? ==> e == CheckManifest(env, m, now)
    ensures e.None? ==> Wellmade(env, m, now) && env.manifestSigned(m) && env.keyShareSigned(share)
    ensures e.None? ==> share.orderCommitment == m.commitment == env.bodyDigest(BodyBytes(env, m))
                        && share.signer == m.signer && now <= m.retentionDeadline
    ensures CheckManifest(env, m, now).None? ==>
              && (!OnCommittedPolynomial(env, share, m, expectedParty) ==> e == Some(CapabilityKeyShareError))
              && (OnCommittedPolynomial(env, share, m, expectedParty) && !env.keyShareSigned(share)
                  ==> e == Some(SignatureError))
  {
    hide Evaluate, Prime, BodyBytes, Wellmade, CheckManifest;
    ManifestAcceptedExactly(env, m, now);
    AcceptedManifest(env, m, now);
    var manifestError := VerifyManifest(env, m, now);
    if manifestError.Some? {
      return manifestError;
    }
    if share.version != VERSION || share.party != expectedParty || share.party >= MPC_PARTIES
       || share.orderCommitment != m.commitment
       || share.capabilityCommitment != m.settlementCapabilityCommitment
       || share.signer != m.signer
    {
      return Some(CapabilityKeyShareError);
    }
    if share.value >= env.order {
      return Some(CapabilityKeyShareError);
    }
    var expected := CombineCommitments(m.settlementKeyCommitments, share.party + 1, env.order);
    ScaleBase(share.value, env.order);
    if expected.None? || ScalePoint(BASEPOINT, share.value, env.order) != expected.value {
      return Some(CapabilityKeyShareError);
    }
    if !env.keyShareSigned(share) {
      return Some(SignatureError);
    }
    return None;
  }

  lemma ScaleBase(s: nat, p: nat)
    requires s < p
    ensures ScalePoint(BASEPOINT, s, p) == Point(s)
  {
    assert 1 * s == s;
    Reduced(s, p);
  }

  method AllDecode(es: seq<Encoding>, p: nat) returns (ok: bool)
    ensures ok == Decodes(es, p)
  {
    for k := 0 to |es|
      invariant forall i :: 0 <= i < k ==> Decompress(es[i], p).Some?
    {
      if Decompress(es[k], p).None? {
        return false;
      }
    }
    return true;
  }

  method VerifyManifest(env: EdgeEnv, m: Manifest, now: nat) returns (e: Option<EdgeError>)
    requires Shaped(m)
    ensures e == CheckManifest(env, m, now)
    ensures e == None <==> Wellmade(env, m, now) && env.manifestSigned(m)
    ensures e == Some(SignatureError) <==> Wellmade(env, m, now) && !env.manifestSigned(m)
    ensures e == Some(ManifestError) <==> !Wellmade(env, m, now)
  {
    hide BodyBytes, Wellmade;
    ManifestAcceptedExactly(env, m, now);
    var body := UnsignedBody(env, m);
    if m.version != VERSION || |m.marketId| == 0 || |m.marketId| > 64 || m.retentionDeadline < now
       || m.eligibilityCommitment == 0 || m.sourceOrderCommitment == 0 || m.settlementCapabilityCommitment == 0
       || m.commitment != env.bodyDigest(body)
    {
      return Some(ManifestError);
    }
    if m.reservationAdmissionDigest != 0
       && (!m.settlementProofEnabled
           || m.settlementCapabilityCommitment != env.preauthorizedCommitment(m.reservationAdmissionDigest))
    {
      return Some(ManifestError);
    }
    for f := 0 to |m.fieldCommitments|
      invariant forall g :: 0 <= g < f ==> Decodes(m.fieldCommitments[g], env.order)
    {
      var ok := AllDecode(m.fieldCommitments[f], env.order);
      if !ok {
        return Some(ManifestError);
      }
    }
    if m.settlementProofEnabled {
      for f := 0 to |m.settlementFieldCommitments|
        invariant forall g :: 0 <= g < f ==> Decodes(m.settlementFieldCommitments[g], env.order)
      {
        var ok := AllDecode(m.settlementFieldCommitments[f], env.order);
        if !ok {
          return Some(ManifestError);
        }
      }
      if Decompress(m.settlementFieldCommitments[0][0], env.order) == Some(IDENTITY) {
        return Some(ManifestError);
      }
    } else {
      for f := 0 to |m.settlementFieldCommitments|
        invariant forall g, k :: 0 <= g < f && 0 <= k < VSS_COEFFICIENTS ==>
          m.settlementFieldCommitments[g][k] == ZERO_BYTES
      {
        for k := 0 to VSS_COEFFICIENTS
          invariant forall l :: 0 <= l < k ==> m.settlementFieldCommitments[f][l] == ZERO_BYTES
        {
          if m.settlementFieldCommitments[f][k] != ZERO_BYTES {
            return Some(ManifestError);
          }
        }
      }
    }
    var ok := AllDecode(m.settlementKeyCommitments, env.order);
    if !ok {
      return Some(ManifestError);
    }
    if Decompress(m.settlementKeyCommitments[0], env.order) == Some(IDENTITY) {
      return Some(ManifestError);
    }
    return if env.manifestSigned(m) then None else Some(SignatureError);
  }

  // ---------------------------------------------------------------- reconstruction

  ghost function PointsOf(shares: seq<CapabilityKeyShare>): (xs: seq<int>)
    ensures |xs| == |shares| && forall i :: 0 <= i < |shares| ==> xs[i] == shares[i].party + 1
  {
    seq(|shares|, i requires 0 <= i < |shares| => shares[i].party + 1)
  }

  ghost function ValuesOf(shares: seq<CapabilityKeyShare>): (vs: seq<int>)
    ensures |vs| == |shares| && forall i :: 0 <= i < |shares| ==> vs[i] == shares[i].value
  {
    seq(|shares|, i requires 0 <= i < |shares| => shares[i].value)
  }

  ghost predicate DistinctParties(shares: seq<CapabilityKeyShare>) {
    forall i, j :: 0 <= i < j < |shares| ==> shares[i].party != shares[j].party
  }

  /** A quorum: three to seven shares of different parties, each of which verifies. */
  ghost predicate Quorum(env: EdgeEnv, m: Manifest, shares: seq<CapabilityKeyShare>, now: nat)
    requires ValidEnv(env) && Shaped(m)
  {
    && SETTLEMENT_KEY_THRESHOLD <= |shares| <= MPC_PARTIES
    && DistinctParties(shares)
    && forall i :: 0 <= i < |shares| ==> KeyShareValid(env, shares[i], m, shares[i].party, now)
  }

  /** The secret that the manifest commits to. */
  ghost function CommittedKey(env: EdgeEnv, m: Manifest, now: nat): nat
    requires Shaped(m) && CheckManifest(env, m, now).None?
  {
    m.settlementKeyCommitments[0].point.log
  }

  /** Interpolating any quorum gives the committed key. */
  lemma QuorumInterpolates(env: EdgeEnv, m: Manifest, shares: seq<CapabilityKeyShare>, now: nat)
    requires ValidEnv(env) && Shaped(m) && CheckManifest(env, m, now).None? && Quorum(env, m, shares, now)
    ensures Cong(Interpolate(PointsOf(shares), PointsOf(shares), ValuesOf(shares), env.order),
                 CommittedKey(env, m, now), env.order)
  {
    hide Evaluate, Interpolate, Prime;
    var p := env.order;
    var xs, vs, c := PointsOf(shares), ValuesOf(shares), Logs(m.settlementKeyCommitments, p);
    forall i | 0 <= i < |xs| ensures Cong(vs[i], Evaluate(c, xs[i]), p) {
      assert KeyShareValid(env, shares[i], m, shares[i].party, now);
      CongMod(Evaluate(c, xs[i]), p);
    }
    forall i | 0 <= i < |xs| ensures 0 < xs[i] < p {
      assert KeyShareValid(env, shares[i], m, shares[i].party, now);
    }
    InterpolationAtZero(xs, vs, c, p);
  }

  method LagrangeFractions(shares: seq<CapabilityKeyShare>, i: nat, p: nat) returns (numerator: nat, denominator: nat)
    requires p > 0 && i < |shares|
    ensures numerator < p && denominator < p
    ensures Cong(numerator, Numerator(PointsOf(shares), PointsOf(shares)[i]), p)
    ensures Cong(denominator, Denominator(PointsOf(shares), PointsOf(shares)[i]), p)
    ensures Prime(p) && Points(PointsOf(shares), p) ==> Invertible(denominator, p)
  {
    hide Numerator, Denominator, Cong, Prime;
    ghost var xs := PointsOf(shares);
    var x := shares[i].party + 1;
    numerator, denominator := 1 % p, 1 % p;
    CongMod(1, p);
    FractionsStart(xs, x, numerator, denominator, p);
    for j := 0 to |shares|
      invariant numerator < p && denominator < p
      invariant Cong(numerator * Numerator(xs[j..], x), Numerator(xs, x), p)
      invariant Cong(denominator * Denominator(xs[j..], x), Denominator(xs, x), p)
    {
      FractionsStep(xs, x, j, numerator, denominator, p);
      if shares[j].party != shares[i].party {
        var y := shares[j].party + 1;
        numerator := (numerator * -y) % p;
        denominator := (denominator * (x - y)) % p;
      }
    }
    FractionsEnd(xs, x);
    DenominatorStays(xs, x, denominator, p);
  }

  lemma DenominatorStays(xs: seq<int>, x: int, d: nat, p: nat)
    requires p > 0 && x in xs && Cong(d, Denominator(xs, x), p)
    ensures Prime(p) && Points(xs, p) ==> Invertible(d, p)
  {
    hide Denominator, Cong, Prime;
    if Prime(p) && Points(xs, p) {
      DenominatorInvertible(xs, x, p);
      if Cong(d, 0, p) {
        CongSym(d, Denominator(xs, x), p);
        CongTrans(Denominator(xs, x), d, 0, p);
      }
    }
  }

  lemma FractionsStart(xs: seq<int>, x: int, n: nat, d: nat, p: nat)
    requires p > 0 && Cong(n, 1, p) && Cong(d, 1, p)
    ensures Cong(n * Numerator(xs[0..], x), Numerator(xs, x), p)
    ensures Cong(d * Denominator(xs[0..], x), Denominator(xs, x), p)
  {
    assert xs[0..] == xs;
    CongScale(n, 1, Numerator(xs, x), p);
    CongScale(d, 1, Denominator(xs, x), p);
  }

  lemma FractionsEnd(xs: seq<int>, x: int)
    ensures Numerator(xs[|xs|..], x) == 1 && Denominator(xs[|xs|..], x) == 1
  {
    assert xs[|xs|..] == [];
  }

  lemma FractionsStep(xs: seq<int>, x: int, j: nat, n: nat, d: nat, p: nat)
    requires p > 0 && j < |xs|
    requires Cong(n * Numerator(xs[j..], x), Numerator(xs, x), p)
    requires Cong(d * Denominator(xs[j..], x), Denominator(xs, x), p)
    ensures xs[j] == x ==> Cong(n * Numerator(xs[j + 1..], x), Numerator(xs, x), p)
                           && Cong(d * Denominator(xs[j + 1..], x), Denominator(xs, x), p)
    ensures xs[j] != x ==> Cong((n * -xs[j]) % p * Numerator(xs[j + 1..], x), Numerator(xs, x), p)
                           && Cong((d * (x - xs[j])) % p * Denominator(xs[j + 1..], x), Denominator(xs, x), p)
  {
    var tail := xs[j + 1..];
    assert xs[j..][1..] == tail && xs[j..][0] == xs[j];
    if xs[j] != x {
      AbsorbFactor(n, -xs[j], Numerator(tail, x), Numerator(xs, x), p);
      AbsorbFactor(d, x - xs[j], Denominator(tail, x), Denominator(xs, x), p);
    } else {
      assert Numerator(xs[j..], x) == 1 * Numerator(tail, x);
      assert Denominator(xs[j..], x) == 1 * Denominator(tail, x);
    }
  }

  lemma AbsorbFactor(n: int, f: int, t: int, whole: int, p: nat)
    requires p > 0 && Cong(n * (f * t), whole, p)
    ensures Cong((n * f) % p * t, whole, p)
  {
    CongMod(n * f, p);
    CongScale((n * f) % p, n * f, t, p);
    Regroup(n, f, t);
    CongTrans((n * f) % p * t, n * (f * t), whole, p);
  }

  /** One term of the interpolation sum, as the program computes it. */
  lemma TermStep(xs: seq<int>, vs: seq<int>, i: nat, secret: nat, n: nat, d: nat, total: int, p: nat)
    requires p > 0 && i < |xs| == |vs|
    requires Cong(n, Numerator(xs, xs[i]), p) && Cong(d, Denominator(xs, xs[i]), p)
    requires Cong(secret + Interpolate(xs, xs[i..], vs[i..], p), total, p)
    ensures Cong((secret + vs[i] * n * Inverse(d, p)) % p + Interpolate(xs, xs[i + 1..], vs[i + 1..], p), total, p)
  {
    hide Numerator, Denominator, Inverse, Cong, Interpolate;
    InterpolateStep(xs, vs, i, p);
    TermCong(vs[i], n, d, Numerator(xs, xs[i]), Denominator(xs, xs[i]), p);
    AddTerm(secret, vs[i] * n * Inverse(d, p), vs[i] * Weight(xs, xs[i], p),
            Interpolate(xs, xs[i + 1..], vs[i + 1..], p), total, p);
  }

  lemma InterpolateStep(xs: seq<int>, vs: seq<int>, i: nat, p: nat)
    requires p > 0 && i < |xs| == |vs|
    ensures Interpolate(xs, xs[i..], vs[i..], p)
         == vs[i] * Weight(xs, xs[i], p) + Interpolate(xs, xs[i + 1..], vs[i + 1..], p)
  {
    hide Weight;
    assert xs[i..][0] == xs[i] && xs[i..][1..] == xs[i + 1..] && vs[i..][0] == vs[i] && vs[i..][1..] == vs[i + 1..];
  }

  lemma TermCong(v: int, n: nat, d: nat, numerator: int, denominator: int, p: nat)
    requires p > 0 && Cong(n, numerator, p) && Cong(d, denominator, p)
    ensures Cong(v * n * Inverse(d, p), v * (numerator * Inverse(denominator, p)), p)
  {
    hide Inverse, Cong;
    InverseCong(d, denominator, p);
    CongScale(n, numerator, Inverse(d, p), p);
    CongScale(n * Inverse(d, p), numerator * Inverse(denominator, p), v, p);
    Regroup(v, n, Inverse(d, p));
  }

  lemma AddTerm(secret: nat, term: int, whole: int, rest: int, total: int, p: nat)
    requires p > 0 && Cong(term, whole, p) && Cong(secret + (whole + rest), total, p)
    ensures Cong((secret + term) % p + rest, total, p)
  {
    hide Cong;
    CongRefl(secret, p);
    CongAdd(secret, secret, term, whole, p);
    CongMod(secret + term, p);
    CongTrans((secret + term) % p, secret + term, secret + whole, p);
    CongRefl(rest, p);
    CongAdd((secret + term) % p, secret + whole, rest, rest, p);
    CongTrans((secret + term) % p + rest, secret + whole + rest, total, p);
  }

  /**
   Reconstruction succeeds for exactly the quorums, whichever shares they hold and in whatever
   order, and returns the committed key. The closing comparison with the manifest never fails.
   */
  method ReconstructSettlementCapabilityKey(env: EdgeEnv, m: Manifest, shares: seq<CapabilityKeyShare>, now: nat)
    returns (r: EdgeResult<nat>)
    requires ValidEnv(env) && Shaped(m)
    ensures r.Ok? <==> CheckManifest(env, m, now).None? && Quorum(env, m, shares, now)
    ensures r.Ok? ==> r.value == CommittedKey(env, m, now)
    ensures r.Ok? ==> 0 < r.value < env.order
                      && Canonical(ScalePoint(BASEPOINT, r.value, env.order)) == m.settlementKeyCommitments[0]
    ensures r.Ok? <==>
              && Wellmade(env, m, now) && env.manifestSigned(m) && 3 <= |shares| <= 7 && DistinctParties(shares)
              && forall i :: 0 <= i < |shares| ==> KeyShareValid(env, shares[i], m, shares[i].party, now)
    ensures r.Ok? ==> now <= m.retentionDeadline && m.commitment == env.bodyDigest(BodyBytes(env, m))
    ensures !Wellmade(env, m, now) ==> r == Err(ManifestError)
    ensures Wellmade(env, m, now) && !env.manifestSigned(m) ==> r == Err(SignatureError)
    ensures Wellmade(env, m, now) && env.manifestSigned(m) && (|shares| < 3 || |shares| > 7)
            ==> r == Err(CapabilityKeyThreshold)
  {
    hide Prime, Evaluate, Interpolate, KeyShareValid, Cong, BodyBytes, CheckManifest;
    AcceptedManifest(env, m, now);
    var p := env.order;
    var manifestError := VerifyManifest(env, m, now);
    if manifestError.Some? {
      return Err(manifestError.value);
    }
    if |shares| < SETTLEMENT_KEY_THRESHOLD || |shares| > MPC_PARTIES {
      return Err(CapabilityKeyThreshold);
    }
    var refused := CheckShares(env, m, shares, now);
    if refused.Some? {
      return Err(refused.value);
    }
    QuorumInterpolates(env, m, shares, now);
    var secret := SumTerms(shares, p);
    CommittedKeyFacts(env, m, now);
    CongTrans(secret, Interpolate(PointsOf(shares), PointsOf(shares), ValuesOf(shares), p),
              CommittedKey(env, m, now), p);
    CongEqual(secret, CommittedKey(env, m, now), p);
    ScaleBase(secret, p);
    if secret == 0 || Canonical(ScalePoint(BASEPOINT, secret, p)) != m.settlementKeyCommitments[0] {
      assert false;
    }
    return Ok(secret);
  }

  method SumTerms(shares: seq<CapabilityKeyShare>, p: nat) returns (secret: nat)
    requires p > 0
    ensures secret < p
    ensures Cong(secret, Interpolate(PointsOf(shares), PointsOf(shares), ValuesOf(shares), p), p)
  {
    hide Interpolate, Inverse, Cong;
    ghost var xs, vs := PointsOf(shares), ValuesOf(shares);
    ghost var total := Interpolate(xs, xs, vs, p);
    secret := 0;
    assert xs[0..] == xs && vs[0..] == vs;
    CongRefl(total, p);
    for i := 0 to |shares|
      invariant secret < p
      invariant Cong(secret + Interpolate(xs, xs[i..], vs[i..], p), total, p)
    {
      var numerator, denominator := LagrangeFractions(shares, i, p);
      TermStep(xs, vs, i, secret, numerator, denominator, total, p);
      var term := shares[i].value * numerator * Inverse(denominator, p);
      secret := (secret + term) % p;
    }
    InterpolateEnd(xs, vs, p);
  }

  lemma InterpolateEnd(xs: seq<int>, vs: seq<int>, p: nat)
    requires p > 0 && |vs| == |xs|
    ensures Interpolate(xs, xs[|xs|..], vs[|xs|..], p) == 0
  {
    assert xs[|xs|..] == [];
  }

  lemma CommittedKeyFacts(env: EdgeEnv, m: Manifest, now: nat)
    requires ValidEnv(env) && Shaped(m) && CheckManifest(env, m, now).None?
    ensures 0 < CommittedKey(env, m, now) < env.order
    ensures m.settlementKeyCommitments[0] == Canonical(Point(CommittedKey(env, m, now)))
  {
    assert Decompress(m.settlementKeyCommitments[0], env.order).Some?;
  }

  /** Refuses a repeated party or a share that does not verify. */
  method CheckShares(env: EdgeEnv, m: Manifest, shares: seq<CapabilityKeyShare>, now: nat)
    returns (e: Option<EdgeError>)
    requires ValidEnv(env) && Shaped(m)
    ensures e.None? <==> DistinctParties(shares)
                         && forall i :: 0 <= i < |shares| ==> KeyShareValid(env, shares[i], m, shares[i].party, now)
  {
    hide Prime, KeyShareValid;
    var parties: set<nat> := {};
    for n := 0 to |shares|
      invariant parties == set i | 0 <= i < n :: shares[i].party
      invariant forall i, j :: 0 <= i < j < n ==> shares[i].party != shares[j].party
      invariant forall i :: 0 <= i < n ==> KeyShareValid(env, shares[i], m, shares[i].party, now)
    {
      if shares[n].party in parties {
        return Some(CapabilityKeyThreshold);
      }
      parties := parties + {shares[n].party};
      var refused := VerifyKeyShare(env, shares[n], m, shares[n].party, now);
      if refused.Some? {
        return refused;
      }
    }
    return None;
  }
}
