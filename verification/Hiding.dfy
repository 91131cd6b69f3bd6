/**
 Why two parties learn nothing about a dealt order field even with the published commitments
 in hand: for every candidate value there is exactly one dealing that looks the same to them.
 */
module Hiding {
  import opened Orders
  import opened Scalars
  import opened Lagrange
  import opened Sharing
  import opened Dealing

  /** Three coefficients, each reduced. */
  ghost predicate IsPolynomial(c: seq<nat>, p: nat) {
    |c| == VSS_COEFFICIENTS && forall k :: 0 <= k < VSS_COEFFICIENTS ==> c[k] < p
  }

  /** Two polynomials give a party at point `x` the same share. */
  ghost predicate SameShare(c: seq<nat>, d: seq<nat>, x: nat, p: nat)
    requires p > 0 && |c| == |d| == VSS_COEFFICIENTS
  {
    EvaluateMod(c, x, p) == EvaluateMod(d, x, p)
  }

  /**
   The dealing `v'`, `b'` hides the value `c0` behind what the parties at `x` and `y` see of the
   dealing `v`, `b`: the published commitments and both their shares.
   */
  ghost predicate LooksLike(env: EdgeEnv, v: seq<nat>, b: seq<nat>, x: nat, y: nat, c0: nat, v': seq<nat>, b': seq<nat>)
    requires ValidEnv(env) && IsPolynomial(v, env.order) && IsPolynomial(b, env.order)
  {
    var p := env.order;
    && IsPolynomial(v', p) && IsPolynomial(b', p) && v'[0] == c0
    && CommitRow(env, v', b') == CommitRow(env, v, b)
    && SameShare(v', v, x, p) && SameShare(v', v, y, p) && SameShare(b', b, x, p) && SameShare(b', b, y, p)
  }

  // ---------------------------------------------------------------- commitments as congruences

  /** Equal commitments are congruent combinations of value and blinding. */
  lemma SameCommitmentExactly(env: EdgeEnv, v: nat, b: nat, v': nat, b': nat)
    requires ValidEnv(env)
    ensures CommitTo(env, v, b) == CommitTo(env, v', b') <==>
            Cong(env.valueBase.log * v + env.blindingBase.log * b,
                 env.valueBase.log * v' + env.blindingBase.log * b', env.order)
  {
    hide Prime, Cong;
    var p := env.order;
    var u, u' := env.valueBase.log * v + env.blindingBase.log * b, env.valueBase.log * v' + env.blindingBase.log * b';
    var l, l' := CommitTo(env, v, b).log, CommitTo(env, v', b').log;
    CommitCong(env, v, b);
    CommitCong(env, v', b');
    CongSym(l, u, p);
    CongSym(l', u', p);
    if l == l' {
      CongTrans(u, l, u', p);
    }
    if Cong(u, u', p) {
      CongTrans(l, u, u', p);
      CongTrans(l, u', l', p);
      CongEqual(l, l', p);
    }
  }

  lemma SameRowExactly(env: EdgeEnv, v: seq<nat>, b: seq<nat>, v': seq<nat>, b': seq<nat>)
    requires ValidEnv(env) && |v| == |b| == |v'| == |b'| == VSS_COEFFICIENTS
    ensures CommitRow(env, v, b) == CommitRow(env, v', b') <==>
            forall k :: 0 <= k < VSS_COEFFICIENTS ==>
              Cong(env.valueBase.log * v[k] + env.blindingBase.log * b[k],
                   env.valueBase.log * v'[k] + env.blindingBase.log * b'[k], env.order)
  {
    hide Prime, Cong, CommitTo;
    forall k | 0 <= k < VSS_COEFFICIENTS
      ensures CommitRow(env, v, b)[k] == CommitRow(env, v', b')[k] <==>
              Cong(env.valueBase.log * v[k] + env.blindingBase.log * b[k],
                   env.valueBase.log * v'[k] + env.blindingBase.log * b'[k], env.order)
    {
      SameCommitmentExactly(env, v[k], b[k], v'[k], b'[k]);
    }
  }

  /** The blinding that keeps a commitment when the value under it changes. */
  lemma Rebound(g: int, h: int, v: int, b: int, v': int, p: nat) returns (b': nat)
    requires Prime(p) && Invertible(h, p)
    ensures b' < p && Cong(g * v' + h * b', g * v + h * b, p)
  {
    hide Prime, Cong, Inverse;
    PrimePositive(p);
    var t := Divide(h, g * v + h * b - g * v', p);
    b' := t % p;
    CongMod(t, p);
    CongScale(b', t, h, p);
    CongTrans(h * b', h * t, g * v + h * b - g * v', p);
    CongRefl(g * v', p);
    CongAdd(g * v', g * v', h * b', g * v + h * b - g * v', p);
  }

  lemma PrimePositive(p: nat)
    requires Prime(p)
    ensures p > 0
  {
  }

  // ---------------------------------------------------------------- shares as congruences

  lemma SameShareExactly(c: seq<nat>, d: seq<nat>, x: nat, p: nat)
    requires p > 0 && |c| == |d| == VSS_COEFFICIENTS
    ensures SameShare(c, d, x, p) <==> Cong(Evaluate(c, x), Evaluate(d, x), p)
  {
    hide Cong, Evaluate;
    var s, t := Evaluate(c, x), Evaluate(d, x);
    CongMod(s, p);
    CongMod(t, p);
    if s % p == t % p {
      CongSym(s % p, s, p);
      CongTrans(s, s % p, t, p);
    }
    if Cong(s, t, p) {
      CongToMod(s, t, p);
    }
  }

  /**
   With the commitments kept, a party whose value share is unchanged has its blinding share
   unchanged too.
   */
  lemma BlindingFollows(g: int, h: int, v: seq<nat>, b: seq<nat>, v': seq<nat>, b': seq<nat>, x: nat, p: nat)
    requires Prime(p) && Invertible(h, p) && |v| == |b| == |v'| == |b'| == VSS_COEFFICIENTS
    requires forall k :: 0 <= k < VSS_COEFFICIENTS ==> Cong(g * v'[k] + h * b'[k], g * v[k] + h * b[k], p)
    requires Cong(Evaluate(v', x), Evaluate(v, x), p)
    ensures Cong(Evaluate(b', x), Evaluate(b, x), p)
  {
    hide Prime, Cong, Evaluate;
    PrimePositive(p);
    var c: seq<int> := [g * v'[0] + h * b'[0], g * v'[1] + h * b'[1], g * v'[2] + h * b'[2]];
    forall k | 0 <= k < VSS_COEFFICIENTS ensures Cong(c[k], g * v'[k] + h * b'[k], p) {
      CongRefl(c[k], p);
    }
    EvaluateCommitted(c, v', b', g, h, x, p);
    EvaluateCommitted(c, v, b, g, h, x, p);
    var w, w', e, e' := Evaluate(v, x), Evaluate(v', x), Evaluate(b, x), Evaluate(b', x);
    CongSym(Evaluate(c, x), g * w' + h * e', p);
    CongTrans(g * w' + h * e', Evaluate(c, x), g * w + h * e, p);
    CongScale(w', w, g, p);
    CongSub(g * w' + h * e', g * w + h * e, g * w', g * w, p);
    Cancel(h, e', e, p);
  }

  // ---------------------------------------------------------------- existence and uniqueness

  lemma Triple(c: seq<nat>, x: nat)
    requires |c| == VSS_COEFFICIENTS
    ensures Evaluate([c[0] as int, c[1] as int, c[2] as int], x) == Evaluate(c, x)
  {
  }

  /** Among dealings that look the same, the values decide the blindings. */
  lemma BlindingsUnique(env: EdgeEnv, v: seq<nat>, b: seq<nat>, v': seq<nat>, b': seq<nat>, d': seq<nat>)
    requires ValidEnv(env) && Invertible(env.blindingBase.log, env.order)
    requires |v| == |b| == |v'| == VSS_COEFFICIENTS && IsPolynomial(b', env.order) && IsPolynomial(d', env.order)
    requires CommitRow(env, v', b') == CommitRow(env, v, b) == CommitRow(env, v', d')
    ensures b' == d'
  {
    hide Prime, Cong, CommitRow;
    var p, g, h := env.order, env.valueBase.log, env.blindingBase.log;
    SameRowExactly(env, v', b', v', d');
    forall k | 0 <= k < VSS_COEFFICIENTS ensures b'[k] == d'[k] {
      SameBlinding(g * v'[k], h, b'[k], d'[k], p);
    }
  }

  lemma SameBlinding(u: int, h: int, b: nat, d: nat, p: nat)
    requires Prime(p) && Invertible(h, p) && b < p && d < p && Cong(u + h * b, u + h * d, p)
    ensures b == d
  {
    hide Prime, Cong;
    CongRefl(u, p);
    CongSub(u + h * b, u + h * d, u, u, p);
    Cancel(h, b, d, p);
    CongEqual(b, d, p);
  }

  lemma ValuesUnique(v: seq<nat>, v': seq<nat>, d': seq<nat>, x: nat, y: nat, p: nat)
    requires Prime(p) && 0 < x < p && 0 < y < p && x != y && |v| == VSS_COEFFICIENTS
    requires IsPolynomial(v', p) && IsPolynomial(d', p) && v'[0] == d'[0]
    requires SameShare(v', v, x, p) && SameShare(v', v, y, p) && SameShare(d', v, x, p) && SameShare(d', v, y, p)
    ensures v' == d'
  {
    hide Prime, Cong, Evaluate, SameShare;
    PrimePositive(p);
    SameShareExactly(v', v, x, p);
    SameShareExactly(v', v, y, p);
    SameShareExactly(d', v, x, p);
    SameShareExactly(d', v, y, p);
    Triple(v', x);
    Triple(v', y);
    Triple(d', x);
    Triple(d', y);
    OnlyOneFits(v'[0], v'[1], v'[2], d'[1], d'[2], x, Evaluate(v, x), y, Evaluate(v, y), p);
    assert v' == [v'[0], v'[1], v'[2]] && d' == [d'[0], d'[1], d'[2]];
  }

  lemma LikelyDealing(env: EdgeEnv, v: seq<nat>, b: seq<nat>, x: nat, y: nat, c0: nat)
    returns (v': seq<nat>, b': seq<nat>)
    requires ValidEnv(env) && Invertible(env.blindingBase.log, env.order)
    requires IsPolynomial(v, env.order) && IsPolynomial(b, env.order)
    requires 0 < x < env.order && 0 < y < env.order && x != y && c0 < env.order
    ensures LooksLike(env, v, b, x, y, c0, v', b')
  {
    hide Prime, Cong, Evaluate, SameShare;
    var p, g, h := env.order, env.valueBase.log, env.blindingBase.log;
    var c1, c2 := TwoSharesFitEverySecret(x, Evaluate(v, x), y, Evaluate(v, y), c0, p);
    v' := [c0, c1, c2];
    Triple(v', x);
    Triple(v', y);
    SameShareExactly(v', v, x, p);
    SameShareExactly(v', v, y, p);
    var b0 := Rebound(g, h, v[0], b[0], v'[0], p);
    var b1 := Rebound(g, h, v[1], b[1], v'[1], p);
    var b2 := Rebound(g, h, v[2], b[2], v'[2], p);
    b' := [b0, b1, b2];
    SameRowExactly(env, v', b', v, b);
    BlindingFollows(g, h, v, b, v', b', x, p);
    BlindingFollows(g, h, v, b, v', b', y, p);
    SameShareExactly(b', b, x, p);
    SameShareExactly(b', b, y, p);
  }

  /**
   Two parties, the published commitments and any candidate value: exactly one dealing of that
   value looks the same to them. So what they see rules out no value, and favours none. The
   blinding generator is not the identity, as a generator never is.
   */
  lemma TwoPartiesLearnNothing(env: EdgeEnv, v: seq<nat>, b: seq<nat>, x: nat, y: nat, c0: nat)
    returns (v': seq<nat>, b': seq<nat>)
    requires ValidEnv(env) && Invertible(env.blindingBase.log, env.order)
    requires IsPolynomial(v, env.order) && IsPolynomial(b, env.order)
    requires 0 < x < env.order && 0 < y < env.order && x != y && c0 < env.order
    ensures LooksLike(env, v, b, x, y, c0, v', b')
    ensures forall w, d :: LooksLike(env, v, b, x, y, c0, w, d) ==> w == v' && d == b'
  {
    hide Prime, Cong, SameShare, CommitRow;
    v', b' := LikelyDealing(env, v, b, x, y, c0);
    forall w, d | LooksLike(env, v, b, x, y, c0, w, d) ensures w == v' && d == b' {
      ValuesUnique(v, v', w, x, y, env.order);
      BlindingsUnique(env, v, b, v', b', d);
    }
  }
}
