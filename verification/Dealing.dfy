/**
 Dealing degree-two polynomials to the seven parties, the parties' check of their order
 shares, reconstruction of an order's fields, and why two evaluations fit every secret.
 */
module Dealing {
  import opened Orders
  import opened Scalars
  import opened Lagrange
  import opened Sharing

  // ---------------------------------------------------------------- what a party checks

  /** The value and blinding open the committed polynomials at the party's point. */
  ghost predicate FieldEquation(env: EdgeEnv, es: seq<Encoding>, party: nat, value: nat, blinding: nat)
    requires env.order > 0 && |es| == VSS_COEFFICIENTS
  {
    && value < env.order && blinding < env.order && Decodes(es, env.order)
    && CommitTo(env, value, blinding) == Point(Evaluate(Logs(es, env.order), party + 1) % env.order)
  }

  ghost predicate ShareShaped(s: PartyOrderShare) {
    && |s.valueShares| == |s.blindingShares| == MATCH_FIELD_COUNT
    && |s.settlementValueShares| == |s.settlementBlindingShares| == SETTLEMENT_FIELD_COUNT
  }

  ghost predicate OrderShareValid(env: EdgeEnv, share: PartyOrderShare, m: Manifest, expectedParty: nat, now: nat)
    requires ValidEnv(env) && Shaped(m) && ShareShaped(share)
  {
    && CheckManifest(env, m, now).None?
    && share.version == VERSION && share.party == expectedParty && share.party < MPC_PARTIES
    && share.commitment == m.commitment && share.signer == m.signer
    && env.shareSigned(share)
    && (forall f :: 0 <= f < MATCH_FIELD_COUNT ==>
          FieldEquation(env, m.fieldCommitments[f], share.party, share.valueShares[f], share.blindingShares[f]))
    && (if m.settlementProofEnabled
        then forall f :: 0 <= f < SETTLEMENT_FIELD_COUNT ==>
               FieldEquation(env, m.settlementFieldCommitments[f], share.party,
                             share.settlementValueShares[f], share.settlementBlindingShares[f])
        else forall f :: 0 <= f < SETTLEMENT_FIELD_COUNT ==>
               share.settlementValueShares[f] == 0 && share.settlementBlindingShares[f] == 0)
  }

  method VerifyField(env: EdgeEnv, es: seq<Encoding>, party: nat, value: nat, blinding: nat)
    returns (e: Option<EdgeError>)
    requires env.order > 0 && |es| == VSS_COEFFICIENTS
    ensures e.None? <==> FieldEquation(env, es, party, value, blinding)
    ensures value >= env.order || blinding >= env.order ==> e == Some(ShareError)
    ensures value < env.order && blinding < env.order && e.Some? ==>
              e == Some(if Decodes(es, env.order) then VssError else ManifestError)
  {
    if value >= env.order || blinding >= env.order {
      return Some(ShareError);
    }
    var left := CommitTo(env, value, blinding);
    var right := CombineCommitments(es, party + 1, env.order);
    if right.None? {
      return Some(ManifestError);
    }
    return if left != right.value then Some(VssError) else None;
  }

  method VerifyOrderShare(env: EdgeEnv, share: PartyOrderShare, m: Manifest, expectedParty: nat, now: nat)
    returns (e: Option<EdgeError>)
    requires ValidEnv(env) && Shaped(m) && ShareShaped(share)
    ensures e.None? <==> OrderShareValid(env, share, m, expectedParty, now)
    ensures CheckManifest(env, m, now).Some? ==> e == CheckManifest(env, m, now)
    ensures e.None? ==> Wellmade(env, m, now) && env.manifestSigned(m) && env.shareSigned(share)
    ensures e.None? ==> share.version == 7 && share.party == expectedParty && share.party < 7
                        && share.commitment == m.commitment == env.bodyDigest(BodyBytes(env, m))
                        && share.signer == m.signer && now <= m.retentionDeadline
    ensures e.None? && !m.settlementProofEnabled ==>
              share.settlementValueShares == [0, 0] && share.settlementBlindingShares == [0, 0]
    ensures CheckManifest(env, m, now).None?
            && (share.version != 7 || share.party != expectedParty || share.party >= 7
                || share.commitment != m.commitment || share.signer != m.signer)
            ==> e == Some(ShareError)
    ensures CheckManifest(env, m, now).None? && share.version == 7 && share.party == expectedParty < 7
            && share.commitment == m.commitment && share.signer == m.signer && !env.shareSigned(share)
            ==> e == Some(SignatureError)
  {
    hide Prime, FieldEquation, Wellmade, BodyBytes, CheckManifest;
    AcceptedManifest(env, m, now);
    var manifestError := VerifyManifest(env, m, now);
    if manifestError.Some? {
      return manifestError;
    }
    if share.version != VERSION || share.party != expectedParty || share.party >= MPC_PARTIES
       || share.commitment != m.commitment || share.signer != m.signer
    {
      return Some(ShareError);
    }
    if !env.shareSigned(share) {
      return Some(SignatureError);
    }
    for f := 0 to MATCH_FIELD_COUNT
      invariant forall g :: 0 <= g < f ==>
        FieldEquation(env, m.fieldCommitments[g], share.party, share.valueShares[g], share.blindingShares[g])
    {
      var refused := VerifyField(env, m.fieldCommitments[f], share.party, share.valueShares[f],
                                 share.blindingShares[f]);
      if refused.Some? {
        return refused;
      }
    }
    if m.settlementProofEnabled {
      for f := 0 to SETTLEMENT_FIELD_COUNT
        invariant forall g :: 0 <= g < f ==>
          FieldEquation(env, m.settlementFieldCommitments[g], share.party,
                        share.settlementValueShares[g], share.settlementBlindingShares[g])
      {
        var refused := VerifyField(env, m.settlementFieldCommitments[f], share.party,
                                   share.settlementValueShares[f], share.settlementBlindingShares[f]);
        if refused.Some? {
          return refused;
        }
      }
    } else {
      for f := 0 to SETTLEMENT_FIELD_COUNT
        invariant forall g :: 0 <= g < f ==>
          share.settlementValueShares[g] == 0 && share.settlementBlindingShares[g] == 0
      {
        if share.settlementValueShares[f] != 0 || share.settlementBlindingShares[f] != 0 {
          return Some(ShareError);
        }
      }
    }
    return None;
  }

  // ---------------------------------------------------------------- dealing

  function EvaluateMod(c: seq<nat>, x: nat, p: nat): (r: nat)
    requires |c| == VSS_COEFFICIENTS && p > 0
    ensures r < p
  {
    Evaluate(c, x) % p
  }

  ghost predicate Triples(cs: seq<seq<nat>>) {
    forall f :: 0 <= f < |cs| ==> |cs[f]| == VSS_COEFFICIENTS
  }

  ghost function CommitRow(env: EdgeEnv, v: seq<nat>, b: seq<nat>): (es: seq<Encoding>)
    requires env.order > 0 && |v| == |b| == VSS_COEFFICIENTS
    ensures |es| == VSS_COEFFICIENTS
    ensures forall k :: 0 <= k < VSS_COEFFICIENTS ==> es[k] == Canonical(CommitTo(env, v[k], b[k]))
  {
    seq(VSS_COEFFICIENTS, k requires 0 <= k < VSS_COEFFICIENTS => Canonical(CommitTo(env, v[k], b[k])))
  }

  /**
   The dealing loops: for each field commit to every coefficient, then evaluate both
   polynomials at every party. Each party's evaluations open the commitments at its point.
   */
  method DealFields(env: EdgeEnv, valueCoefficients: seq<seq<nat>>, blindingCoefficients: seq<seq<nat>>)
    returns (commitments: array2<Encoding>, values: array2<nat>, blindings: array2<nat>)
    requires ValidEnv(env) && |valueCoefficients| == |blindingCoefficients|
    requires Triples(valueCoefficients) && Triples(blindingCoefficients)
    ensures fresh(commitments) && fresh(values) && fresh(blindings)
    ensures commitments.Length0 == |valueCoefficients| && commitments.Length1 == VSS_COEFFICIENTS
    ensures values.Length0 == blindings.Length0 == MPC_PARTIES
    ensures values.Length1 == blindings.Length1 == |valueCoefficients|
    ensures forall f, k :: 0 <= f < |valueCoefficients| && 0 <= k < VSS_COEFFICIENTS ==>
              commitments[f, k] == CommitRow(env, valueCoefficients[f], blindingCoefficients[f])[k]
    ensures forall party, f :: 0 <= party < MPC_PARTIES && 0 <= f < |valueCoefficients| ==>
              && values[party, f] == EvaluateMod(valueCoefficients[f], party + 1, env.order)
              && blindings[party, f] == EvaluateMod(blindingCoefficients[f], party + 1, env.order)
    ensures forall party, f :: 0 <= party < MPC_PARTIES && 0 <= f < |valueCoefficients| ==>
              FieldEquation(env, CommitRow(env, valueCoefficients[f], blindingCoefficients[f]), party,
                            values[party, f], blindings[party, f])
  {
    hide Prime, Evaluate, CommitTo, EvaluateMod, FieldEquation;
    var n := |valueCoefficients|;
    commitments := new Encoding[n, VSS_COEFFICIENTS]((_, _) => ZERO_BYTES);
    values := new nat[MPC_PARTIES, n]((_, _) => 0);
    blindings := new nat[MPC_PARTIES, n]((_, _) => 0);
    for f := 0 to n
      invariant forall g, k :: 0 <= g < f && 0 <= k < VSS_COEFFICIENTS ==>
        commitments[g, k] == Canonical(CommitTo(env, valueCoefficients[g][k], blindingCoefficients[g][k]))
      invariant forall party, g :: 0 <= party < MPC_PARTIES && 0 <= g < f ==>
        && values[party, g] == EvaluateMod(valueCoefficients[g], party + 1, env.order)
        && blindings[party, g] == EvaluateMod(blindingCoefficients[g], party + 1, env.order)
    {
      for k := 0 to VSS_COEFFICIENTS
        modifies commitments
        invariant forall l :: 0 <= l < k ==>
          commitments[f, l] == Canonical(CommitTo(env, valueCoefficients[f][l], blindingCoefficients[f][l]))
        invariant forall g, l :: 0 <= g < f && 0 <= l < VSS_COEFFICIENTS ==>
          commitments[g, l] == Canonical(CommitTo(env, valueCoefficients[g][l], blindingCoefficients[g][l]))
      {
        commitments[f, k] := Canonical(CommitTo(env, valueCoefficients[f][k], blindingCoefficients[f][k]));
      }
      for party := 0 to MPC_PARTIES
        modifies values, blindings
        invariant forall q, g :: 0 <= q < MPC_PARTIES && 0 <= g < f ==>
          && values[q, g] == EvaluateMod(valueCoefficients[g], q + 1, env.order)
          && blindings[q, g] == EvaluateMod(blindingCoefficients[g], q + 1, env.order)
        invariant forall q :: 0 <= q < party ==>
          && values[q, f] == EvaluateMod(valueCoefficients[f], q + 1, env.order)
          && blindings[q, f] == EvaluateMod(blindingCoefficients[f], q + 1, env.order)
      {
        values[party, f] := EvaluateMod(valueCoefficients[f], party + 1, env.order);
        blindings[party, f] := EvaluateMod(blindingCoefficients[f], party + 1, env.order);
      }
    }
    forall party, f | 0 <= party < MPC_PARTIES && 0 <= f < n
      ensures FieldEquation(env, CommitRow(env, valueCoefficients[f], blindingCoefficients[f]), party,
                            values[party, f], blindings[party, f])
    {
      DealtFieldVerifies(env, valueCoefficients[f], blindingCoefficients[f], party);
    }
  }

  lemma CommitCong(env: EdgeEnv, v: int, b: int)
    requires env.order > 0
    ensures Cong(CommitTo(env, v, b).log, env.valueBase.log * v + env.blindingBase.log * b, env.order)
  {
    var p, g, h := env.order, env.valueBase.log, env.blindingBase.log;
    CongMod(g * v, p);
    CongMod(h * b, p);
    CongAdd((g * v) % p, g * v, (h * b) % p, h * b, p);
    CongMod((g * v) % p + (h * b) % p, p);
    CongTrans(((g * v) % p + (h * b) % p) % p, (g * v) % p + (h * b) % p, g * v + h * b, p);
  }

  lemma CommitReduced(env: EdgeEnv, v: int, b: int)
    requires env.order > 0
    ensures Cong(CommitTo(env, v % env.order, b % env.order).log,
                 env.valueBase.log * v + env.blindingBase.log * b, env.order)
  {
    var p, g, h := env.order, env.valueBase.log, env.blindingBase.log;
    CommitCong(env, v % p, b % p);
    CongMod(v, p);
    CongMod(b, p);
    CongScale(v % p, v, g, p);
    CongScale(b % p, b, h, p);
    CongAdd(g * (v % p), g * v, h * (b % p), h * b, p);
    CongTrans(CommitTo(env, v % p, b % p).log, g * (v % p) + h * (b % p), g * v + h * b, p);
  }

  /** Evaluating the committed polynomial is committing to the evaluations. */
  lemma EvaluateCommitted(c: seq<int>, v: seq<nat>, b: seq<nat>, g: int, h: int, x: int, p: nat)
    requires p > 0 && |c| == |v| == |b| == VSS_COEFFICIENTS
    requires forall k :: 0 <= k < VSS_COEFFICIENTS ==> Cong(c[k], g * v[k] + h * b[k], p)
    ensures Cong(Evaluate(c, x), g * Evaluate(v, x) + h * Evaluate(b, x), p)
  {
    CongScale(c[1], g * v[1] + h * b[1], x, p);
    CongScale(c[2], g * v[2] + h * b[2], x, p);
    CongScale(c[2] * x, (g * v[2] + h * b[2]) * x, x, p);
    CongAdd(c[0], g * v[0] + h * b[0], c[1] * x, (g * v[1] + h * b[1]) * x, p);
    CongAdd(c[0] + c[1] * x, g * v[0] + h * b[0] + (g * v[1] + h * b[1]) * x,
            c[2] * x * x, (g * v[2] + h * b[2]) * x * x, p);
    Linear(g, h, v[0], v[1], v[2], b[0], b[1], b[2], x);
  }

  lemma Linear(g: int, h: int, v0: int, v1: int, v2: int, b0: int, b1: int, b2: int, x: int)
    ensures g * v0 + h * b0 + (g * v1 + h * b1) * x + (g * v2 + h * b2) * x * x
         == g * (v0 + v1 * x + v2 * x * x) + h * (b0 + b1 * x + b2 * x * x)
  {
    assert g * (v0 + v1 * x + v2 * x * x) == g * v0 + g * (v1 * x) + g * (v2 * x * x);
    assert h * (b0 + b1 * x + b2 * x * x) == h * b0 + h * (b1 * x) + h * (b2 * x * x);
    assert (g * v1 + h * b1) * x == g * (v1 * x) + h * (b1 * x);
    assert (g * v2 + h * b2) * x * x == g * (v2 * x * x) + h * (b2 * x * x);
  }

  /** A dealt share passes the receiving party's check of that field. */
  lemma DealtFieldVerifies(env: EdgeEnv, v: seq<nat>, b: seq<nat>, party: nat)
    requires ValidEnv(env) && |v| == |b| == VSS_COEFFICIENTS
    ensures FieldEquation(env, CommitRow(env, v, b), party,
                          EvaluateMod(v, party + 1, env.order), EvaluateMod(b, party + 1, env.order))
  {
    hide Prime, Evaluate, Cong;
    var p, x, es := env.order, party + 1, CommitRow(env, v, b);
    var g, h := env.valueBase.log, env.blindingBase.log;
    forall k | 0 <= k < VSS_COEFFICIENTS
      ensures Decompress(es[k], p).Some? && Cong(es[k].point.log, g * v[k] + h * b[k], p)
    {
      CommitCong(env, v[k], b[k]);
    }
    EvaluateCommitted(Logs(es, p), v, b, g, h, x, p);
    CommitReduced(env, Evaluate(v, x), Evaluate(b, x));
    var left := CommitTo(env, Evaluate(v, x) % p, Evaluate(b, x) % p).log;
    CongSym(Evaluate(Logs(es, p), x), g * Evaluate(v, x) + h * Evaluate(b, x), p);
    CongTrans(left, g * Evaluate(v, x) + h * Evaluate(b, x), Evaluate(Logs(es, p), x), p);
    CongToMod(left, Evaluate(Logs(es, p), x), p);
    Reduced(left, p);
  }

  /** The manifest commits to the three coefficients `c`. */
  ghost predicate CommitsTo(env: EdgeEnv, m: Manifest, c: seq<nat>)
    requires env.order > 0 && Shaped(m)
  {
    && |c| == VSS_COEFFICIENTS
    && forall k :: 0 <= k < VSS_COEFFICIENTS ==>
         c[k] < env.order && m.settlementKeyCommitments[k] == Canonical(ScalePoint(BASEPOINT, c[k], env.order))
  }

  /** The share the dealer makes and signs for its party. */
  ghost predicate Dealt(env: EdgeEnv, m: Manifest, c: seq<nat>, share: CapabilityKeyShare)
    requires env.order > 0 && |c| == VSS_COEFFICIENTS
  {
    && share.version == VERSION && share.party < MPC_PARTIES && share.orderCommitment == m.commitment
    && share.capabilityCommitment == m.settlementCapabilityCommitment && share.signer == m.signer
    && share.value == EvaluateMod(c, share.party + 1, env.order) && env.keyShareSigned(share)
  }

  /** Any three to seven dealt shares of different parties reconstruct the dealt secret. */
  lemma DealtSharesAreQuorum(env: EdgeEnv, m: Manifest, c: seq<nat>, shares: seq<CapabilityKeyShare>, now: nat)
    requires ValidEnv(env) && Shaped(m) && CheckManifest(env, m, now).None? && CommitsTo(env, m, c)
    requires SETTLEMENT_KEY_THRESHOLD <= |shares| <= MPC_PARTIES && DistinctParties(shares)
    requires forall i :: 0 <= i < |shares| ==> Dealt(env, m, c, shares[i])
    ensures Quorum(env, m, shares, now) && CommittedKey(env, m, now) == c[0]
  {
    hide Prime, Dealt, KeyShareValid, CheckManifest, CommittedKey;
    DealtKeyShareVerifies(env, m, c, shares[0], now);
    forall i | 0 <= i < |shares| ensures KeyShareValid(env, shares[i], m, shares[i].party, now) {
      DealtKeyShareVerifies(env, m, c, shares[i], now);
    }
  }

  /** Every capability-key share dealt from the committed polynomial verifies at its party. */
  lemma DealtKeyShareVerifies(env: EdgeEnv, m: Manifest, c: seq<nat>, share: CapabilityKeyShare, now: nat)
    requires ValidEnv(env) && Shaped(m) && CheckManifest(env, m, now).None?
    requires CommitsTo(env, m, c) && Dealt(env, m, c, share)
    ensures KeyShareValid(env, share, m, share.party, now)
    ensures CommittedKey(env, m, now) == c[0]
  {
    hide Prime;
    var logs := Logs(m.settlementKeyCommitments, env.order);
    forall k | 0 <= k < VSS_COEFFICIENTS ensures logs[k] == c[k] {
      ScaleBase(c[k], env.order);
    }
  }

  // ---------------------------------------------------------------- reconstructing an order field

  lemma {:induction false} InterpolateCombines(xs: seq<int>, ys: seq<int>, vs: seq<int>, bs: seq<int>, us: seq<int>,
                                               g: int, h: int, p: nat)
    requires p > 0 && |ys| == |vs| == |bs| == |us|
    requires forall i :: 0 <= i < |ys| ==> us[i] == g * vs[i] + h * bs[i]
    ensures Interpolate(xs, ys, us, p) == g * Interpolate(xs, ys, vs, p) + h * Interpolate(xs, ys, bs, p)
  {
    hide Weight;
    if ys != [] {
      var v, b := Interpolate(xs, ys[1..], vs[1..], p), Interpolate(xs, ys[1..], bs[1..], p);
      InterpolateCombines(xs, ys[1..], vs[1..], bs[1..], us[1..], g, h, p);
      CombineTerm(g, h, vs[0], bs[0], Weight(xs, ys[0], p), v, b);
    }
  }

  lemma CombineTerm(g: int, h: int, v: int, b: int, w: int, sv: int, sb: int)
    ensures (g * v + h * b) * w + (g * sv + h * sb) == g * (v * w + sv) + h * (b * w + sb)
  {
    assert g * (v * w + sv) == g * v * w + g * sv;
    assert h * (b * w + sb) == h * b * w + h * sb;
  }

  ghost function PartyPoints(parties: seq<nat>): (xs: seq<int>)
    ensures |xs| == |parties| && forall i :: 0 <= i < |parties| ==> xs[i] == parties[i] + 1
  {
    seq(|parties|, i requires 0 <= i < |parties| => parties[i] + 1)
  }

  /** Three to seven different parties of the seven. */
  ghost predicate EnoughParties(parties: seq<nat>) {
    && SETTLEMENT_KEY_THRESHOLD <= |parties| <= MPC_PARTIES
    && (forall i :: 0 <= i < |parties| ==> parties[i] < MPC_PARTIES)
    && (forall i, j :: 0 <= i < j < |parties| ==> parties[i] != parties[j])
  }

  /** The scalar that the parties' evaluations interpolate to at zero. */
  ghost function Reconstructed(parties: seq<nat>, values: seq<int>, p: nat): (r: nat)
    requires p > 0 && |values| == |parties|
    ensures r < p
  {
    Interpolate(PartyPoints(parties), PartyPoints(parties), values, p) % p
  }

  lemma EnoughPoints(parties: seq<nat>, p: nat)
    requires EnoughParties(parties) && p > MPC_PARTIES
    ensures Points(PartyPoints(parties), p)
  {
  }

  lemma FieldPoint(env: EdgeEnv, es: seq<Encoding>, party: nat, value: nat, blinding: nat)
    requires ValidEnv(env) && |es| == VSS_COEFFICIENTS && FieldEquation(env, es, party, value, blinding)
    ensures Cong(env.valueBase.log * value + env.blindingBase.log * blinding,
                 Evaluate(Logs(es, env.order), party + 1), env.order)
  {
    hide Prime, Evaluate, Cong;
    var p, u := env.order, env.valueBase.log * value + env.blindingBase.log * blinding;
    var at := Evaluate(Logs(es, p), party + 1);
    CommitCong(env, value, blinding);
    CongSym(CommitTo(env, value, blinding).log, u, p);
    CongMod(at, p);
    CongTrans(u, at % p, at, p);
  }

  /**
   Soundness for order fields: whatever three to seven different parties hold, if each passes the
   field's check then the values and blindings they interpolate to open the field's own commitment.
   */
  lemma VerifiedFieldOpens(env: EdgeEnv, es: seq<Encoding>, parties: seq<nat>, values: seq<nat>, blindings: seq<nat>)
    requires ValidEnv(env) && |es| == VSS_COEFFICIENTS && EnoughParties(parties)
    requires |values| == |blindings| == |parties|
    requires forall i :: 0 <= i < |parties| ==> FieldEquation(env, es, parties[i], values[i], blindings[i])
    ensures Decompress(es[0], env.order)
         == Some(CommitTo(env, Reconstructed(parties, values, env.order), Reconstructed(parties, blindings, env.order)))
  {
    hide Prime, Evaluate, Cong, Interpolate, FieldEquation;
    var p, g, h := env.order, env.valueBase.log, env.blindingBase.log;
    var xs := PartyPoints(parties);
    FieldDecodes(env, es, parties[0], values[0], blindings[0]);
    var c := Logs(es, p);
    var us: seq<int> := seq(|parties|, i requires 0 <= i < |parties| => g * values[i] + h * blindings[i]);
    forall i | 0 <= i < |xs| ensures Cong(us[i], Evaluate(c, xs[i]), p) {
      FieldPoint(env, es, parties[i], values[i], blindings[i]);
    }
    EnoughPoints(parties, p);
    InterpolationAtZero(xs, us, c, p);
    InterpolateCombines(xs, xs, values, blindings, us, g, h, p);
    var v, b := Interpolate(xs, xs, values, p), Interpolate(xs, xs, blindings, p);
    CommitReduced(env, v, b);
    var log := CommitTo(env, v % p, b % p).log;
    CongTrans(log, g * v + h * b, c[0], p);
    CongEqual(log, c[0], p);
  }

  lemma FieldDecodes(env: EdgeEnv, es: seq<Encoding>, party: nat, value: nat, blinding: nat)
    requires env.order > 0 && |es| == VSS_COEFFICIENTS && FieldEquation(env, es, party, value, blinding)
    ensures Decodes(es, env.order)
  {
  }

  /** What the dealer shared: any three to seven parties' evaluations give back the dealt constant term. */
  lemma DealtFieldReconstructs(c: seq<nat>, parties: seq<nat>, values: seq<nat>, p: nat)
    requires Prime(p) && p > MPC_PARTIES && |c| == VSS_COEFFICIENTS && c[0] < p && EnoughParties(parties)
    requires |values| == |parties|
    requires forall i :: 0 <= i < |parties| ==> values[i] == EvaluateMod(c, parties[i] + 1, p)
    ensures Reconstructed(parties, values, p) == c[0]
  {
    hide Prime, Evaluate, Cong, Interpolate;
    var xs := PartyPoints(parties);
    forall i | 0 <= i < |xs| ensures Cong(values[i], Evaluate(c, xs[i]), p) {
      CongMod(Evaluate(c, xs[i]), p);
    }
    EnoughPoints(parties, p);
    InterpolationAtZero(xs, values, c, p);
    var v := Interpolate(xs, xs, values, p);
    CongToMod(v, c[0], p);
    Reduced(c[0], p);
  }

  ghost function PartiesOf(shares: seq<PartyOrderShare>): (r: seq<nat>)
    ensures |r| == |shares| && forall i :: 0 <= i < |shares| ==> r[i] == shares[i].party
  {
    seq(|shares|, i requires 0 <= i < |shares| => shares[i].party)
  }

  ghost function FieldValues(shares: seq<PartyOrderShare>, f: nat): (r: seq<nat>)
    requires f < MATCH_FIELD_COUNT && forall i :: 0 <= i < |shares| ==> ShareShaped(shares[i])
    ensures |r| == |shares| && forall i :: 0 <= i < |shares| ==>
      ShareShaped(shares[i]) && r[i] == shares[i].valueShares[f]
  {
    seq(|shares|, i requires 0 <= i < |shares| => assert ShareShaped(shares[i]); shares[i].valueShares[f])
  }

  ghost function FieldBlindings(shares: seq<PartyOrderShare>, f: nat): (r: seq<nat>)
    requires f < MATCH_FIELD_COUNT && forall i :: 0 <= i < |shares| ==> ShareShaped(shares[i])
    ensures |r| == |shares| && forall i :: 0 <= i < |shares| ==>
      ShareShaped(shares[i]) && r[i] == shares[i].blindingShares[f]
  {
    seq(|shares|, i requires 0 <= i < |shares| => assert ShareShaped(shares[i]); shares[i].blindingShares[f])
  }

  ghost function SettlementValues(shares: seq<PartyOrderShare>, f: nat): (r: seq<nat>)
    requires f < SETTLEMENT_FIELD_COUNT && forall i :: 0 <= i < |shares| ==> ShareShaped(shares[i])
    ensures |r| == |shares| && forall i :: 0 <= i < |shares| ==>
      ShareShaped(shares[i]) && r[i] == shares[i].settlementValueShares[f]
  {
    seq(|shares|, i requires 0 <= i < |shares| => assert ShareShaped(shares[i]); shares[i].settlementValueShares[f])
  }

  ghost function SettlementBlindings(shares: seq<PartyOrderShare>, f: nat): (r: seq<nat>)
    requires f < SETTLEMENT_FIELD_COUNT && forall i :: 0 <= i < |shares| ==> ShareShaped(shares[i])
    ensures |r| == |shares| && forall i :: 0 <= i < |shares| ==>
      ShareShaped(shares[i]) && r[i] == shares[i].settlementBlindingShares[f]
  {
    seq(|shares|, i requires 0 <= i < |shares| => assert ShareShaped(shares[i]); shares[i].settlementBlindingShares[f])
  }

  /** Any three to seven verified order shares of different parties open every match field the manifest commits to. */
  lemma VerifiedSharesOpenOrder(env: EdgeEnv, m: Manifest, shares: seq<PartyOrderShare>, f: nat, now: nat)
    requires ValidEnv(env) && Shaped(m) && f < MATCH_FIELD_COUNT && EnoughParties(PartiesOf(shares))
    requires forall i :: 0 <= i < |shares| ==>
      ShareShaped(shares[i]) && OrderShareValid(env, shares[i], m, shares[i].party, now)
    ensures var v := Reconstructed(PartiesOf(shares), FieldValues(shares, f), env.order);
            var b := Reconstructed(PartiesOf(shares), FieldBlindings(shares, f), env.order);
            Decompress(m.fieldCommitments[f][0], env.order) == Some(CommitTo(env, v, b))
  {
    hide Prime, FieldEquation, CommitTo, Reconstructed, EnoughParties;
    forall i | 0 <= i < |shares|
      ensures FieldEquation(env, m.fieldCommitments[f], PartiesOf(shares)[i], FieldValues(shares, f)[i],
                            FieldBlindings(shares, f)[i])
    {
      assert OrderShareValid(env, shares[i], m, shares[i].party, now);
    }
    VerifiedFieldOpens(env, m.fieldCommitments[f], PartiesOf(shares), FieldValues(shares, f),
                       FieldBlindings(shares, f));
  }

  /** And, where the manifest carries them, both settlement fields. */
  lemma VerifiedSharesOpenSettlement(env: EdgeEnv, m: Manifest, shares: seq<PartyOrderShare>, f: nat, now: nat)
    requires ValidEnv(env) && Shaped(m) && f < SETTLEMENT_FIELD_COUNT && EnoughParties(PartiesOf(shares))
    requires m.settlementProofEnabled
    requires forall i :: 0 <= i < |shares| ==>
      ShareShaped(shares[i]) && OrderShareValid(env, shares[i], m, shares[i].party, now)
    ensures var v := Reconstructed(PartiesOf(shares), SettlementValues(shares, f), env.order);
            var b := Reconstructed(PartiesOf(shares), SettlementBlindings(shares, f), env.order);
            Decompress(m.settlementFieldCommitments[f][0], env.order) == Some(CommitTo(env, v, b))
  {
    hide Prime, FieldEquation, CommitTo, Reconstructed, EnoughParties;
    forall i | 0 <= i < |shares|
      ensures FieldEquation(env, m.settlementFieldCommitments[f], PartiesOf(shares)[i], SettlementValues(shares, f)[i],
                            SettlementBlindings(shares, f)[i])
    {
      assert OrderShareValid(env, shares[i], m, shares[i].party, now);
    }
    VerifiedFieldOpens(env, m.settlementFieldCommitments[f], PartiesOf(shares), SettlementValues(shares, f),
                       SettlementBlindings(shares, f));
  }

  // ---------------------------------------------------------------- a dealt order share

  /** The rows are commitments to these value and blinding polynomials. */
  ghost predicate CommitsRows(env: EdgeEnv, rows: seq<seq<Encoding>>, vs: seq<seq<nat>>, bs: seq<seq<nat>>)
    requires env.order > 0
  {
    && |vs| == |bs| == |rows| && Triples(vs) && Triples(bs)
    && forall f :: 0 <= f < |rows| ==> rows[f] == CommitRow(env, vs[f], bs[f])
  }

  /** The shares are the polynomials' evaluations at the party's point. */
  ghost predicate EvaluatesRows(env: EdgeEnv, party: nat, cs: seq<seq<nat>>, shares: seq<nat>)
    requires env.order > 0
  {
    && |shares| == |cs| && Triples(cs)
    && forall f :: 0 <= f < |cs| ==> shares[f] == EvaluateMod(cs[f], party + 1, env.order)
  }

  /**
   The share the dealer assembles for a party from the dealing loops' output, signed, passes that
   party's whole check: match fields, and settlement fields or the zeros that stand for none.
   */
  lemma DealtOrderShareVerifies(env: EdgeEnv, m: Manifest, share: PartyOrderShare, vs: seq<seq<nat>>, bs: seq<seq<nat>>,
                                svs: seq<seq<nat>>, sbs: seq<seq<nat>>, now: nat)
    requires ValidEnv(env) && Shaped(m) && ShareShaped(share) && CheckManifest(env, m, now).None?
    requires share.version == VERSION && share.party < MPC_PARTIES && env.shareSigned(share)
    requires share.commitment == m.commitment && share.signer == m.signer
    requires CommitsRows(env, m.fieldCommitments, vs, bs)
    requires EvaluatesRows(env, share.party, vs, share.valueShares)
    requires EvaluatesRows(env, share.party, bs, share.blindingShares)
    requires if m.settlementProofEnabled
             then && CommitsRows(env, m.settlementFieldCommitments, svs, sbs)
                  && EvaluatesRows(env, share.party, svs, share.settlementValueShares)
                  && EvaluatesRows(env, share.party, sbs, share.settlementBlindingShares)
             else share.settlementValueShares == [0, 0] && share.settlementBlindingShares == [0, 0]
    ensures OrderShareValid(env, share, m, share.party, now)
  {
    hide Prime, FieldEquation, EvaluateMod, CommitRow;
    forall f | 0 <= f < MATCH_FIELD_COUNT
      ensures FieldEquation(env, m.fieldCommitments[f], share.party, share.valueShares[f], share.blindingShares[f])
    {
      DealtFieldVerifies(env, vs[f], bs[f], share.party);
    }
    if m.settlementProofEnabled {
      forall f | 0 <= f < SETTLEMENT_FIELD_COUNT
        ensures FieldEquation(env, m.settlementFieldCommitments[f], share.party,
                              share.settlementValueShares[f], share.settlementBlindingShares[f])
      {
        DealtFieldVerifies(env, svs[f], sbs[f], share.party);
      }
    }
  }

  // ---------------------------------------------------------------- two evaluations fit every secret

  /** Coefficients `c1`, `c2` complete the constant `c0` to a polynomial through `(x, s)`. */
  ghost predicate Passes(c0: int, c1: int, c2: int, x: int, s: int, p: nat) {
    0 <= c1 < p && 0 <= c2 < p && Cong(Evaluate([c0, c1, c2], x), s, p)
  }

  lemma Divide(x: int, s: int, p: nat) returns (t: int)
    requires Prime(p) && Invertible(x, p)
    ensures Cong(x * t, s, p)
  {
    hide Inverse;
    InverseWorks(x, p);
    t := Inverse(x, p) * s;
    CongScale(x * Inverse(x, p), 1, s, p);
    Regroup(x, Inverse(x, p), s);
  }

  lemma PointInvertible(x: int, p: nat)
    requires 0 < x < p
    ensures Invertible(x, p)
  {
    DifferenceInvertible(x, 0, p);
  }

  /** Given slopes `t`, `u` at two points, the line through them. */
  lemma LineThrough(x: int, y: int, t: int, u: int, p: nat) returns (c1: int, c2: int)
    requires Prime(p) && 0 < x < p && 0 < y < p && x != y
    ensures 0 <= c1 < p && 0 <= c2 < p
    ensures Cong(c1 + c2 * x, t, p) && Cong(c1 + c2 * y, u, p)
  {
    hide Prime, Cong;
    DifferenceInvertible(x, y, p);
    var k := Divide(x - y, t - u, p);
    c2 := k % p;
    c1 := (t - k * x) % p;
    CongMod(k, p);
    CongMod(t - k * x, p);
    CongScale(c2, k, x, p);
    CongAdd(c1, t - k * x, c2 * x, k * x, p);
    CongScale(c2, k, y, p);
    CongAdd(c1, t - k * x, c2 * y, k * y, p);
    CongRefl(t, p);
    CongSub(t, t, (x - y) * k, t - u, p);
    assert t - k * x + k * y == t - (x - y) * k;
    CongTrans(c1 + c2 * y, t - k * x + k * y, t - (t - u), p);
  }

  /** A slope at a point is a value there, for a given constant term. */
  lemma SlopeToValue(c0: int, c1: int, c2: int, x: int, t: int, s: int, p: nat)
    requires Cong(c1 + c2 * x, t, p) && Cong(x * t, s - c0, p)
    ensures Cong(Evaluate([c0, c1, c2], x), s, p)
  {
    CongScale(c1 + c2 * x, t, x, p);
    CongTrans(x * (c1 + c2 * x), x * t, s - c0, p);
    CongRefl(c0, p);
    CongAdd(c0, c0, x * (c1 + c2 * x), s - c0, p);
    assert x * (c1 + c2 * x) == c1 * x + c2 * x * x;
  }

  /**
   Threshold exactness: for any two parties' points, any two evaluations and any candidate
   constant term there is exactly one polynomial of degree two that fits. So two evaluations
   alone rule out no secret, and favour none.
   */
  lemma TwoSharesFitEverySecret(x: int, s: int, y: int, r: int, c0: int, p: nat) returns (c1: int, c2: int)
    requires Prime(p) && 0 < x < p && 0 < y < p && x != y
    ensures Passes(c0, c1, c2, x, s, p) && Passes(c0, c1, c2, y, r, p)
    ensures forall d1, d2 :: Passes(c0, d1, d2, x, s, p) && Passes(c0, d1, d2, y, r, p) ==> d1 == c1 && d2 == c2
  {
    PointInvertible(x, p);
    PointInvertible(y, p);
    var t := Divide(x, s - c0, p);
    var u := Divide(y, r - c0, p);
    c1, c2 := LineThrough(x, y, t, u, p);
    SlopeToValue(c0, c1, c2, x, t, s, p);
    SlopeToValue(c0, c1, c2, y, u, r, p);
    forall d1, d2 | Passes(c0, d1, d2, x, s, p) && Passes(c0, d1, d2, y, r, p) ensures d1 == c1 && d2 == c2 {
      OnlyOneFits(c0, c1, c2, d1, d2, x, s, y, r, p);
    }
  }

  lemma SlopeGap(c0: int, c1: int, c2: int, d1: int, d2: int, x: int, s: int, p: nat)
    requires Prime(p) && 0 < x < p && Passes(c0, c1, c2, x, s, p) && Passes(c0, d1, d2, x, s, p)
    ensures Cong((c1 - d1) + (c2 - d2) * x, 0, p)
  {
    hide Cong, Prime, Evaluate;
    CongSub(Evaluate([c0, c1, c2], x), s, Evaluate([c0, d1, d2], x), s, p);
    PointInvertible(x, p);
    GapProduct(c0, c1, c2, d1, d2, x);
    assert x * 0 == 0;
    Cancel(x, (c1 - d1) + (c2 - d2) * x, 0, p);
  }

  lemma GapProduct(c0: int, c1: int, c2: int, d1: int, d2: int, x: int)
    ensures Evaluate([c0, c1, c2], x) - Evaluate([c0, d1, d2], x) == x * ((c1 - d1) + (c2 - d2) * x)
  {
    assert x * ((c1 - d1) + (c2 - d2) * x) == (c1 - d1) * x + (c2 - d2) * x * x;
  }

  lemma OnlyOneFits(c0: int, c1: int, c2: int, d1: int, d2: int, x: int, s: int, y: int, r: int, p: nat)
    requires Prime(p) && 0 < x < p && 0 < y < p && x != y
    requires Passes(c0, c1, c2, x, s, p) && Passes(c0, c1, c2, y, r, p)
    requires Passes(c0, d1, d2, x, s, p) && Passes(c0, d1, d2, y, r, p)
    ensures c1 == d1 && c2 == d2
  {
    SlopeGap(c0, c1, c2, d1, d2, x, s, p);
    SlopeGap(c0, c1, c2, d1, d2, y, r, p);
    CongSub((c1 - d1) + (c2 - d2) * x, 0, (c1 - d1) + (c2 - d2) * y, 0, p);
    assert (c2 - d2) * x - (c2 - d2) * y == (x - y) * (c2 - d2);
    DifferenceInvertible(x, y, p);
    assert (x - y) * 0 == 0;
    Cancel(x - y, c2 - d2, 0, p);
    DifferenceZero(c2, d2, p);
    assert (c2 - d2) * x == 0;
    DifferenceZero(c1, d1, p);
  }

  lemma DifferenceZero(a: int, b: int, p: nat)
    requires 0 <= a < p && 0 <= b < p && Cong(a - b, 0, p)
    ensures a == b
  {
    if a != b {
      DifferenceInvertible(a, b, p);
    }
  }
}
