/**
 Price-time matching of one arrival against the ranked orders of the opposite side:
 the unbounded rule (`Greedy`) and the rule limited to a number of live slots (`Slotted`).
 */
module Matching {
  import opened Orders

  const MAX_MATCH_SLOTS: nat := 8

  datatype Resting = Resting(
    secret: SecretOrder,
    authority: OrderAuthority,
    remaining: nat,
    sequence: nat)
  {
    function Commitment(): Digest32 { authority.commitment }
    function Price(): nat { secret.limitPrice }
  }

  datatype PublicFill = PublicFill(makerOrder: Digest32, takerOrder: Digest32, price: nat, quantity: nat)

  /** The arrival, as far as matching looks at it. */
  datatype Taker = Taker(side: Side, price: nat, now: nat, commitment: Digest32)

  /** What a sweep of the opposite side trades, leaves unfilled and leaves resting. */
  datatype Sweep = Sweep(fills: seq<PublicFill>, left: nat, rest: seq<Resting>)

  predicate Crosses(side: Side, price: nat, restingPrice: nat) {
    if side.Buy? then price >= restingPrice else price <= restingPrice
  }

  predicate Expired(r: Resting, now: nat) {
    r.secret.expiresAt < now
  }

  function Min(a: nat, b: nat): nat {
    if a <= b then a else b
  }

  // ---------------------------------------------------------------- priority

  /** Price `p` has strictly better priority than `q` among resting orders of `side`. */
  predicate Better(side: Side, p: nat, q: nat) {
    if side.Buy? then p > q else p < q
  }

  predicate Before(side: Side, a: Resting, b: Resting) {
    Better(side, a.Price(), b.Price()) || (a.Price() == b.Price() && a.sequence < b.sequence)
  }

  ghost predicate Ranked(side: Side, s: seq<Resting>) {
    forall i, j :: 0 <= i < j < |s| ==> Before(side, s[i], s[j])
  }

  /** The commitment `c` rests somewhere in `s`. */
  ghost predicate Rests(s: seq<Resting>, c: Digest32) {
    s != [] && (s[0].Commitment() == c || Rests(s[1..], c))
  }

  ghost predicate Distinct(s: seq<Resting>) {
    s != [] ==> !Rests(s[1..], s[0].Commitment()) && Distinct(s[1..])
  }

  lemma {:induction false} RestsAt(s: seq<Resting>, i: nat)
    requires i < |s|
    ensures Rests(s, s[i].Commitment())
  {
    if i > 0 {
      RestsAt(s[1..], i - 1);
    }
  }

  lemma {:induction false} OneIndex(s: seq<Resting>, i: nat, j: nat)
    requires Distinct(s) && i < j < |s|
    ensures s[i].Commitment() != s[j].Commitment()
  {
    if i == 0 {
      RestsAt(s[1..], j - 1);
    } else {
      OneIndex(s[1..], i - 1, j - 1);
    }
  }

  lemma {:induction false} RestingIndex(s: seq<Resting>, c: Digest32) returns (i: nat)
    requires Rests(s, c)
    ensures i < |s| && s[i].Commitment() == c
  {
    if s[0].Commitment() == c {
      i := 0;
    } else {
      i := RestingIndex(s[1..], c);
      i := i + 1;
    }
  }

  lemma {:induction false} RestsConcat(a: seq<Resting>, b: seq<Resting>, c: Digest32)
    ensures Rests(a + b, c) <==> Rests(a, c) || Rests(b, c)
  {
    if a == [] {
      assert a + b == b;
    } else {
      assert (a + b)[1..] == a[1..] + b;
      RestsConcat(a[1..], b, c);
    }
  }

  ghost predicate AllOpen(s: seq<Resting>) {
    forall i :: 0 <= i < |s| ==> s[i].remaining > 0
  }

  ghost predicate SameOrder(a: Resting, b: Resting) {
    a.secret == b.secret && a.authority == b.authority && a.sequence == b.sequence
    && 1 <= a.remaining <= b.remaining
  }

  /** `a` arises from `s` by dropping orders and lowering remainders; the order is kept. */
  ghost predicate Thinned(a: seq<Resting>, s: seq<Resting>) {
    || a == []
    || (s != [] && (Thinned(a, s[1..]) || (SameOrder(a[0], s[0]) && Thinned(a[1..], s[1..]))))
  }

  lemma {:induction false} ThinnedOrigin(a: seq<Resting>, s: seq<Resting>, i: nat) returns (j: nat)
    requires Thinned(a, s) && i < |a|
    ensures i <= j < |s| && SameOrder(a[i], s[j])
  {
    if Thinned(a, s[1..]) {
      j := ThinnedOrigin(a, s[1..], i);
      j := j + 1;
    } else if i == 0 {
      j := 0;
    } else {
      j := ThinnedOrigin(a[1..], s[1..], i - 1);
      j := j + 1;
    }
  }

  lemma {:induction false} ThinnedOrigins(a: seq<Resting>, s: seq<Resting>, i: nat, k: nat)
    returns (j: nat, l: nat)
    requires Thinned(a, s) && i < k < |a|
    ensures j < l < |s| && SameOrder(a[i], s[j]) && SameOrder(a[k], s[l])
  {
    if Thinned(a, s[1..]) {
      j, l := ThinnedOrigins(a, s[1..], i, k);
      j, l := j + 1, l + 1;
    } else if i == 0 {
      l := ThinnedOrigin(a[1..], s[1..], k - 1);
      j, l := 0, l + 1;
    } else {
      j, l := ThinnedOrigins(a[1..], s[1..], i - 1, k - 1);
      j, l := j + 1, l + 1;
    }
  }

  lemma {:induction false} ThinnedRests(a: seq<Resting>, s: seq<Resting>, c: Digest32)
    requires Thinned(a, s) && Rests(a, c)
    ensures Rests(s, c)
  {
    if Thinned(a, s[1..]) {
      ThinnedRests(a, s[1..], c);
    } else if a[0].Commitment() != c {
      ThinnedRests(a[1..], s[1..], c);
    }
  }

  lemma {:induction false} ThinnedDistinct(a: seq<Resting>, s: seq<Resting>)
    requires Thinned(a, s) && Distinct(s)
    ensures Distinct(a)
  {
    if a == [] {
    } else if Thinned(a, s[1..]) {
      ThinnedDistinct(a, s[1..]);
    } else {
      ThinnedDistinct(a[1..], s[1..]);
      if Rests(a[1..], a[0].Commitment()) {
        ThinnedRests(a[1..], s[1..], a[0].Commitment());
      }
    }
  }

  /** Dropping orders and lowering remainders keeps priority, and what stays is open. */
  lemma ThinnedRanked(side: Side, a: seq<Resting>, s: seq<Resting>)
    requires Thinned(a, s) && Ranked(side, s)
    ensures Ranked(side, a) && AllOpen(a)
  {
    forall i, k | 0 <= i < k < |a| ensures Before(side, a[i], a[k]) {
      var j, l := ThinnedOrigins(a, s, i, k);
    }
    forall i | 0 <= i < |a| ensures a[i].remaining > 0 {
      var j := ThinnedOrigin(a, s, i);
    }
  }

  lemma {:induction false} ThinnedSelf(s: seq<Resting>)
    requires AllOpen(s)
    ensures Thinned(s, s)
  {
    if s != [] {
      ThinnedSelf(s[1..]);
    }
  }

  // ---------------------------------------------------------------- the two rules

  /** Every live crossing order, best first, trades until the arrival is filled. */
  function Greedy(t: Taker, s: seq<Resting>, left: nat): Sweep {
    if s == [] then Sweep([], left, [])
    else if Expired(s[0], t.now) || !Crosses(t.side, t.price, s[0].Price()) || left == 0 then
      var w := Greedy(t, s[1..], left);
      w.(rest := [s[0]] + w.rest)
    else
      var q := Min(left, s[0].remaining);
      Trade(t, s[0], q, Greedy(t, s[1..], left - q))
  }

  /** The same, seeing only the first `slots` live orders. */
  function Slotted(t: Taker, s: seq<Resting>, left: nat, slots: nat): Sweep {
    if s == [] || slots == 0 then Sweep([], left, s)
    else if Expired(s[0], t.now) then
      var w := Slotted(t, s[1..], left, slots);
      w.(rest := [s[0]] + w.rest)
    else if !Crosses(t.side, t.price, s[0].Price()) || left == 0 then
      var w := Slotted(t, s[1..], left, slots - 1);
      w.(rest := [s[0]] + w.rest)
    else
      var q := Min(left, s[0].remaining);
      Trade(t, s[0], q, Slotted(t, s[1..], left - q, slots - 1))
  }

  function Trade(t: Taker, r: Resting, q: nat, w: Sweep): Sweep
    requires q <= r.remaining
  {
    Sweep([PublicFill(r.Commitment(), t.commitment, r.Price(), q)] + w.fills, w.left, Kept(r, q) + w.rest)
  }

  /** What stays of `r` after `q` of it traded. */
  function Kept(r: Resting, q: nat): seq<Resting>
    requires q <= r.remaining
  {
    if q < r.remaining then [r.(remaining := r.remaining - q)] else []
  }

  lemma {:induction false} GreedyStops(t: Taker, s: seq<Resting>, left: nat)
    requires left == 0 || forall i :: 0 <= i < |s| ==> !Crosses(t.side, t.price, s[i].Price())
    ensures Greedy(t, s, left) == Sweep([], left, s)
  {
    if s != [] {
      GreedyStops(t, s[1..], left);
    }
  }

  lemma {:induction false} SlottedStops(t: Taker, s: seq<Resting>, left: nat, slots: nat)
    requires left == 0 || forall i :: 0 <= i < |s| ==> !Crosses(t.side, t.price, s[i].Price())
    ensures Slotted(t, s, left, slots) == Sweep([], left, s)
  {
    if s != [] && slots > 0 {
      SlottedStops(t, s[1..], left, if Expired(s[0], t.now) then slots else slots - 1);
    }
  }

  lemma {:induction false} GreedyWithoutFills(t: Taker, s: seq<Resting>, left: nat)
    requires Greedy(t, s, left).fills == []
    ensures Greedy(t, s, left) == Sweep([], left, s)
  {
    if s != [] {
      GreedyWithoutFills(t, s[1..], left);
    }
  }

  /** The capacity verdict does not depend on the arrival's commitment. */
  lemma {:induction false} FillCountIgnoresName(t: Taker, u: Taker, s: seq<Resting>, left: nat)
    requires t.side == u.side && t.price == u.price && t.now == u.now
    ensures |Greedy(t, s, left).fills| == |Greedy(u, s, left).fills|
  {
    if s != [] {
      FillCountIgnoresName(t, u, s[1..], left);
      if left > 0 {
        FillCountIgnoresName(t, u, s[1..], left - Min(left, s[0].remaining));
      }
    }
  }

  /** In a ranked side an order that does not cross hides no order that does. */
  lemma NoneCrossBehind(t: Taker, s: seq<Resting>)
    requires Ranked(t.side.Opposite(), s)
    requires s != [] && !Crosses(t.side, t.price, s[0].Price())
    ensures forall i :: 0 <= i < |s| ==> !Crosses(t.side, t.price, s[i].Price())
  {
    forall i | 0 < i < |s| ensures !Crosses(t.side, t.price, s[i].Price()) {
      assert Before(t.side.Opposite(), s[0], s[i]);
    }
  }

  /**
   The fixed-slot rule refines the unbounded one: it makes exactly the first `slots`
   of the unbounded fills, and when those are all of them the two sweeps are equal,
   remainder and resting orders included.
   */
  lemma {:induction false} SlottedRefinesGreedy(t: Taker, s: seq<Resting>, left: nat, slots: nat)
    requires Ranked(t.side.Opposite(), s)
    ensures var g := Greedy(t, s, left);
            Slotted(t, s, left, slots).fills == g.fills[..Min(slots, |g.fills|)]
    ensures |Greedy(t, s, left).fills| <= slots ==> Slotted(t, s, left, slots) == Greedy(t, s, left)
    ensures |Greedy(t, s, left).fills| > slots ==> Slotted(t, s, left, slots).left > 0
  {
    var g := Greedy(t, s, left);
    if s == [] {
    } else if slots == 0 {
      if g.fills == [] {
        GreedyWithoutFills(t, s, left);
      }
      if left == 0 {
        GreedyStops(t, s, left);
      }
    } else if Expired(s[0], t.now) {
      SlottedRefinesGreedy(t, s[1..], left, slots);
    } else if left == 0 {
      GreedyStops(t, s, left);
      SlottedStops(t, s, left, slots);
    } else if !Crosses(t.side, t.price, s[0].Price()) {
      NoneCrossBehind(t, s);
      GreedyStops(t, s, left);
      SlottedStops(t, s, left, slots);
    } else {
      var q := Min(left, s[0].remaining);
      SlottedRefinesGreedy(t, s[1..], left - q, slots - 1);
      var h := Greedy(t, s[1..], left - q);
      var f := PublicFill(s[0].Commitment(), t.commitment, s[0].Price(), q);
      assert g.fills == [f] + h.fills;
      assert g.fills[..Min(slots, |g.fills|)] == [f] + h.fills[..Min(slots - 1, |h.fills|)];
    }
  }

  // ---------------------------------------------------------------- conservation

  function Volume(fills: seq<PublicFill>): nat {
    if fills == [] then 0 else fills[0].quantity + Volume(fills[1..])
  }

  function Cost(fills: seq<PublicFill>): nat {
    if fills == [] then 0 else fills[0].price * fills[0].quantity + Cost(fills[1..])
  }

  function MakerVolume(fills: seq<PublicFill>, c: Digest32): nat {
    if fills == [] then 0
    else (if fills[0].makerOrder == c then fills[0].quantity else 0) + MakerVolume(fills[1..], c)
  }

  /** The quantity resting under a commitment. */
  function RemainingOf(s: seq<Resting>, c: Digest32): nat {
    if s == [] then 0
    else (if s[0].Commitment() == c then s[0].remaining else 0) + RemainingOf(s[1..], c)
  }

  lemma {:induction false} RemainingOfConcat(a: seq<Resting>, b: seq<Resting>, c: Digest32)
    ensures RemainingOf(a + b, c) == RemainingOf(a, c) + RemainingOf(b, c)
  {
    if a == [] {
      assert a + b == b;
    } else {
      assert (a + b)[1..] == a[1..] + b;
      RemainingOfConcat(a[1..], b, c);
    }
  }

  lemma {:induction false} RemainingOfAbsent(s: seq<Resting>, c: Digest32)
    requires !Rests(s, c)
    ensures RemainingOf(s, c) == 0
  {
    if s != [] {
      RemainingOfAbsent(s[1..], c);
    }
  }

  /** Nothing is created or lost: what a maker loses in rest it has in fills, and so has the taker. */
  lemma {:induction false} SweepConserves(t: Taker, s: seq<Resting>, left: nat, slots: nat)
    ensures var w := Slotted(t, s, left, slots);
            && Volume(w.fills) + w.left == left
            && (forall c :: RemainingOf(w.rest, c) + MakerVolume(w.fills, c) == RemainingOf(s, c))
            && (forall i :: 0 <= i < |w.fills| ==> w.fills[i].takerOrder == t.commitment)
  {
    if s == [] || slots == 0 {
    } else {
      var traded := !Expired(s[0], t.now) && Crosses(t.side, t.price, s[0].Price()) && left > 0;
      var q := if traded then Min(left, s[0].remaining) else 0;
      var k := if Expired(s[0], t.now) then slots else slots - 1;
      SweepConserves(t, s[1..], left - q, k);
      var w := Slotted(t, s, left, slots);
      var v := Slotted(t, s[1..], left - q, k);
      var kept := if traded then Kept(s[0], q) else [s[0]];
      forall c ensures RemainingOf(w.rest, c) + MakerVolume(w.fills, c) == RemainingOf(s, c) {
        RemainingOfConcat(kept, v.rest, c);
        assert RemainingOf(kept, c) + (if traded && s[0].Commitment() == c then q else 0)
            == if s[0].Commitment() == c then s[0].remaining else 0;
      }
    }
  }

  lemma {:induction false} SweepThins(t: Taker, s: seq<Resting>, left: nat, slots: nat)
    requires AllOpen(s)
    ensures Thinned(Slotted(t, s, left, slots).rest, s)
  {
    if s == [] || slots == 0 {
      ThinnedSelf(s);
    } else {
      var traded := !Expired(s[0], t.now) && Crosses(t.side, t.price, s[0].Price()) && left > 0;
      var q := if traded then Min(left, s[0].remaining) else 0;
      var k := if Expired(s[0], t.now) then slots else slots - 1;
      SweepThins(t, s[1..], left - q, k);
      var a := Slotted(t, s, left, slots).rest;
      var b := Slotted(t, s[1..], left - q, k).rest;
      if q < s[0].remaining {
        assert a[1..] == b;
      } else {
        assert a == b;
      }
    }
  }

  // ---------------------------------------------------------------- best execution

  /** Quantity taken from each order of `s`, in the order of `s`. */
  function Taken(t: Taker, s: seq<Resting>, left: nat, slots: nat): (r: seq<nat>)
    ensures |r| == |s|
  {
    if s == [] then []
    else if slots == 0 then [0] + Taken(t, s[1..], left, 0)
    else if Expired(s[0], t.now) then [0] + Taken(t, s[1..], left, slots)
    else
      var q := if Crosses(t.side, t.price, s[0].Price()) then Min(left, s[0].remaining) else 0;
      [q] + Taken(t, s[1..], left - q, slots - 1)
  }

  function Sum(a: seq<nat>): nat {
    if a == [] then 0 else a[0] + Sum(a[1..])
  }

  /** Cash that changes hands when `a[i]` is taken from `s[i]`, each at its own price. */
  function Cash(a: seq<nat>, s: seq<Resting>): nat
    requires |a| == |s|
  {
    if s == [] then 0 else a[0] * s[0].Price() + Cash(a[1..], s[1..])
  }

  /** `a` takes from live orders only and from none more than it has left. */
  ghost predicate Feasible(a: seq<nat>, s: seq<Resting>, now: nat)
    requires |a| == |s|
  {
    forall i :: 0 <= i < |s| ==> a[i] <= if Expired(s[i], now) then 0 else s[i].remaining
  }

  lemma {:induction false} TakenNothing(t: Taker, s: seq<Resting>, left: nat, slots: nat)
    requires left == 0 || slots == 0 || forall i :: 0 <= i < |s| ==> !Crosses(t.side, t.price, s[i].Price())
    ensures forall i :: 0 <= i < |s| ==> Taken(t, s, left, slots)[i] == 0
  {
    if s != [] {
      TakenNothing(t, s[1..], left, if slots == 0 || Expired(s[0], t.now) then slots else slots - 1);
    }
  }

  lemma {:induction false} TakenIsSweep(t: Taker, s: seq<Resting>, left: nat, slots: nat)
    ensures var f := Slotted(t, s, left, slots).fills; var a := Taken(t, s, left, slots);
            Volume(f) == Sum(a) && Cost(f) == Cash(a, s) && Feasible(a, s, t.now)
  {
    var a := Taken(t, s, left, slots);
    if s == [] {
    } else {
      var q := a[0];
      var k := if slots == 0 || Expired(s[0], t.now) then slots else slots - 1;
      TakenIsSweep(t, s[1..], left - q, k);
      assert a == [q] + Taken(t, s[1..], left - q, k);
      assert a[1..] == Taken(t, s[1..], left - q, k);
      forall i | 0 <= i < |s| ensures a[i] <= if Expired(s[i], t.now) then 0 else s[i].remaining {
        assert i > 0 ==> a[i] == a[1..][i - 1] && s[i] == s[1..][i - 1];
      }
    }
  }

  lemma NoFillsOfAbsent(t: Taker, s: seq<Resting>, left: nat, slots: nat, c: Digest32)
    requires !Rests(s, c)
    ensures MakerVolume(Slotted(t, s, left, slots).fills, c) == 0
  {
    SweepConserves(t, s, left, slots);
    RemainingOfAbsent(s, c);
  }

  /** Order by order: what the fills take from a maker is what the allocation says. */
  lemma {:induction false} FillsAreTaken(t: Taker, s: seq<Resting>, left: nat, slots: nat, i: nat)
    requires Distinct(s) && i < |s|
    ensures MakerVolume(Slotted(t, s, left, slots).fills, s[i].Commitment()) == Taken(t, s, left, slots)[i]
  {
    if slots == 0 {
      TakenNothing(t, s, left, slots);
    } else {
      var q := Taken(t, s, left, slots)[0];
      var k := if Expired(s[0], t.now) then slots else slots - 1;
      var c := s[i].Commitment();
      FillsAfterHead(t, s, left, slots, c);
      if i == 0 {
        NoFillsOfAbsent(t, s[1..], left - q, k, c);
      } else {
        RestsAt(s[1..], i - 1);
        FillsAreTaken(t, s[1..], left - q, k, i - 1);
      }
    }
  }

  lemma FillsAfterHead(t: Taker, s: seq<Resting>, left: nat, slots: nat, c: Digest32)
    requires s != [] && slots > 0
    ensures var q := Taken(t, s, left, slots)[0];
            var k := if Expired(s[0], t.now) then slots else slots - 1;
            && q <= left
            && MakerVolume(Slotted(t, s, left, slots).fills, c)
               == (if s[0].Commitment() == c then q else 0) + MakerVolume(Slotted(t, s[1..], left - q, k).fills, c)
  {
  }

  /** The allocation in priority: whoever ranks ahead of an order taken from is taken whole. */
  lemma {:induction false} TakenInPriority(t: Taker, s: seq<Resting>, left: nat, slots: nat, i: nat, j: nat)
    requires Ranked(t.side.Opposite(), s)
    requires i < j < |s| && !Expired(s[i], t.now)
    requires Taken(t, s, left, slots)[j] > 0
    ensures Taken(t, s, left, slots)[i] == s[i].remaining
  {
    var a := Taken(t, s, left, slots);
    var q := a[0];
    if slots == 0 {
      TakenNothing(t, s, left, slots);
      assert false;
    }
    var k := if Expired(s[0], t.now) then slots else slots - 1;
    if !Expired(s[0], t.now) && !Crosses(t.side, t.price, s[0].Price()) {
      NoneCrossBehind(t, s);
      TakenNothing(t, s, left, slots);
      assert false;
    }
    var b := Taken(t, s[1..], left - q, k);
    assert a == [q] + b;
    assert a[j] == b[j - 1];
    if i > 0 {
      TakenInPriority(t, s[1..], left - q, k, i - 1, j - 1);
    } else if left - q == 0 {
      TakenNothing(t, s[1..], left - q, k);
      assert false;
    }
  }

  /** Price-time priority of the fills: whoever ranks live ahead of a filled order is filled completely. */
  lemma PriorityRespected(t: Taker, s: seq<Resting>, left: nat, slots: nat, i: nat, j: nat)
    requires Ranked(t.side.Opposite(), s) && Distinct(s)
    requires i < j < |s| && !Expired(s[i], t.now)
    requires MakerVolume(Slotted(t, s, left, slots).fills, s[j].Commitment()) > 0
    ensures MakerVolume(Slotted(t, s, left, slots).fills, s[i].Commitment()) == s[i].remaining
  {
    hide Slotted, Taken, Distinct, Ranked;
    FillsAreTaken(t, s, left, slots, i);
    FillsAreTaken(t, s, left, slots, j);
    TakenInPriority(t, s, left, slots, i, j);
  }

  /** Where `a` takes less than `b` the price is no better than `p`, where it takes more no worse. */
  ghost predicate Around(side: Side, a: seq<nat>, b: seq<nat>, s: seq<Resting>, p: nat)
    requires |a| == |b| == |s|
  {
    forall i :: 0 <= i < |s| ==>
      (a[i] < b[i] ==> !Better(side, p, s[i].Price())) && (a[i] > b[i] ==> !Better(side, s[i].Price(), p))
  }

  lemma {:induction false} CashDominates(side: Side, a: seq<nat>, b: seq<nat>, s: seq<Resting>, p: nat)
    requires |a| == |b| == |s| && Around(side, a, b, s, p)
    ensures side.Sell? ==> Cash(a, s) - Cash(b, s) >= p * (Sum(a) - Sum(b))
    ensures side.Buy? ==> Cash(a, s) - Cash(b, s) <= p * (Sum(a) - Sum(b))
  {
    if s != [] {
      CashDominates(side, a[1..], b[1..], s[1..], p);
      MoveOne(side, a[0], b[0], s[0].Price(), p, Sum(a[1..]), Sum(b[1..]));
    }
  }

  /** One term of the exchange argument: moving quantity towards worse prices moves cash away. */
  lemma MoveOne(side: Side, x: nat, y: nat, price: nat, p: nat, m: nat, n: nat)
    requires (x < y ==> !Better(side, p, price)) && (x > y ==> !Better(side, price, p))
    ensures p * ((x + m) - (y + n)) == p * (x - y) + p * (m - n)
    ensures side.Sell? ==> x * price - y * price >= p * (x - y)
    ensures side.Buy? ==> x * price - y * price <= p * (x - y)
  {
    var d, e := x as int - y as int, price as int - p as int;
    assert x * price - y * price == d * price == d * p + d * e;
    assert p * ((d + m) - n) == p * d + p * (m - n);
    if side.Sell? {
      assert d * e >= 0;
    } else {
      assert d * e <= 0;
    }
  }

  /** Where another allocation differs from the sweep, it moves away from the sweep's last price. */
  lemma MovesAway(t: Taker, s: seq<Resting>, left: nat, slots: nat, m: nat, i: nat, x: nat)
    requires Ranked(t.side.Opposite(), s) && m < |s| && i < |s|
    requires x <= if Expired(s[i], t.now) then 0 else s[i].remaining
    requires Taken(t, s, left, slots)[m] > 0
    requires i > m ==> Taken(t, s, left, slots)[i] == 0
    ensures x < Taken(t, s, left, slots)[i] ==> !Better(t.side.Opposite(), s[m].Price(), s[i].Price())
    ensures x > Taken(t, s, left, slots)[i] ==> !Better(t.side.Opposite(), s[i].Price(), s[m].Price())
  {
    if i < m {
      assert Before(t.side.Opposite(), s[i], s[m]);
      if x > 0 {
        TakenInPriority(t, s, left, slots, i, m);
      }
    } else if m < i {
      assert Before(t.side.Opposite(), s[m], s[i]);
    }
  }

  /**
   Best execution: no other way of taking the same total from the live orders of the
   opposite side costs a buyer less or pays a seller more. It holds with and without
   spare slots.
   */
  lemma BestExecution(t: Taker, s: seq<Resting>, left: nat, slots: nat, other: seq<nat>)
    requires Ranked(t.side.Opposite(), s)
    requires |other| == |s| && Feasible(other, s, t.now)
    requires Sum(other) == Volume(Slotted(t, s, left, slots).fills)
    ensures t.side.Buy? ==> Cost(Slotted(t, s, left, slots).fills) <= Cash(other, s)
    ensures t.side.Sell? ==> Cost(Slotted(t, s, left, slots).fills) >= Cash(other, s)
  {
    var a := Taken(t, s, left, slots);
    TakenIsSweep(t, s, left, slots);
    var m := LastTaken(a);
    if m == |a| {
      ZeroSum(a);
      SumOfZero(other);
      assert other == a;
    } else {
      AroundMargin(t, s, left, slots, other, m);
      SameTotalAround(t.side.Opposite(), other, a, s, s[m].Price());
    }
  }

  lemma SameTotalAround(side: Side, a: seq<nat>, b: seq<nat>, s: seq<Resting>, p: nat)
    requires |a| == |b| == |s| && Around(side, a, b, s, p)
    requires Sum(a) == Sum(b)
    ensures side.Sell? ==> Cash(a, s) >= Cash(b, s)
    ensures side.Buy? ==> Cash(a, s) <= Cash(b, s)
  {
    CashDominates(side, a, b, s, p);
    var difference := Sum(a) as int - Sum(b) as int;
    assert p * difference == 0;
  }

  lemma AroundMargin(t: Taker, s: seq<Resting>, left: nat, slots: nat, other: seq<nat>, m: nat)
    requires Ranked(t.side.Opposite(), s)
    requires |other| == |s| && Feasible(other, s, t.now)
    requires m < |s| && Taken(t, s, left, slots)[m] > 0
    requires forall i :: m < i < |s| ==> Taken(t, s, left, slots)[i] == 0
    ensures Around(t.side.Opposite(), other, Taken(t, s, left, slots), s, s[m].Price())
  {
    var a := Taken(t, s, left, slots);
    forall i | 0 <= i < |s|
      ensures other[i] < a[i] ==> !Better(t.side.Opposite(), s[m].Price(), s[i].Price())
      ensures other[i] > a[i] ==> !Better(t.side.Opposite(), s[i].Price(), s[m].Price())
    {
      MovesAway(t, s, left, slots, m, i, other[i]);
    }
  }

  /** The last index with a positive entry, or the length when there is none. */
  lemma LastTaken(a: seq<nat>) returns (m: nat)
    ensures m <= |a|
    ensures m < |a| ==> a[m] > 0
    ensures forall i :: 0 <= i < |a| && (m == |a| || i > m) ==> a[i] == 0
  {
    m := |a|;
    for n := 0 to |a|
      invariant m == |a| || m < n
      invariant m < |a| ==> a[m] > 0
      invariant forall i :: 0 <= i < n && (m == |a| || i > m) ==> a[i] == 0
    {
      if a[n] > 0 {
        m := n;
      }
    }
  }

  lemma {:induction false} ZeroSum(a: seq<nat>)
    requires forall i :: 0 <= i < |a| ==> a[i] == 0
    ensures Sum(a) == 0
  {
    if a != [] {
      ZeroSum(a[1..]);
    }
  }

  lemma {:induction false} SumOfZero(a: seq<nat>)
    requires Sum(a) == 0
    ensures forall i :: 0 <= i < |a| ==> a[i] == 0
  {
    if a != [] {
      SumOfZero(a[1..]);
      assert forall i :: 1 <= i < |a| ==> a[i] == a[1..][i - 1];
    }
  }
}
