/**
 Public depth: price levels in canonical order (bids descending, then asks ascending),
 their validation, and the aggregation of per-order quantities into levels.
 */
module Depth {
  import opened Orders
  import opened Matching

  datatype PriceLevel = PriceLevel(side: Side, price: nat, quantity: nat)

  /** The order of the sort key: side first, then the best price of the side. */
  predicate Precedes(a: PriceLevel, b: PriceLevel) {
    || (a.side.Buy? && b.side.Sell?)
    || (a.side == b.side && Better(a.side, a.price, b.price))
  }

  predicate SameKey(a: PriceLevel, b: PriceLevel) {
    a.side == b.side && a.price == b.price
  }

  ghost predicate Canonical(levels: seq<PriceLevel>) {
    && (forall i, j :: 0 <= i < j < |levels| ==> Precedes(levels[i], levels[j]))
    && (forall i :: 0 <= i < |levels| ==> levels[i].quantity > 0)
  }

  function DepthAt(levels: seq<PriceLevel>, side: Side, price: nat): nat {
    if levels == [] then 0
    else (if levels[0].side == side && levels[0].price == price then levels[0].quantity else 0)
         + DepthAt(levels[1..], side, price)
  }

  function Total(levels: seq<PriceLevel>): nat {
    if levels == [] then 0 else levels[0].quantity + Total(levels[1..])
  }

  // ---------------------------------------------------------------- aggregation

  function AddLevel(levels: seq<PriceLevel>, l: PriceLevel): seq<PriceLevel> {
    if levels == [] then [l]
    else if SameKey(levels[0], l) then
      [levels[0].(quantity := levels[0].quantity + l.quantity)] + levels[1..]
    else if Precedes(l, levels[0]) then [l] + levels
    else [levels[0]] + AddLevel(levels[1..], l)
  }

  /** One level per side and price, in canonical order, holding the sum of its entries. */
  function Aggregate(entries: seq<PriceLevel>): seq<PriceLevel> {
    if entries == [] then [] else AddLevel(Aggregate(entries[1..]), entries[0])
  }

  lemma {:induction false} AddLevelBehind(levels: seq<PriceLevel>, l: PriceLevel, k: PriceLevel)
    requires Precedes(k, l) && forall i :: 0 <= i < |levels| ==> Precedes(k, levels[i])
    ensures forall i :: 0 <= i < |AddLevel(levels, l)| ==> Precedes(k, AddLevel(levels, l)[i])
  {
    if levels != [] && !SameKey(levels[0], l) && !Precedes(l, levels[0]) {
      AddLevelBehind(levels[1..], l, k);
    }
  }

  lemma {:induction false} AddLevelFacts(levels: seq<PriceLevel>, l: PriceLevel)
    requires Canonical(levels) && l.quantity > 0
    ensures Canonical(AddLevel(levels, l))
    ensures forall side, price :: DepthAt(AddLevel(levels, l), side, price)
              == DepthAt(levels, side, price) + (if l.side == side && l.price == price then l.quantity else 0)
    ensures Total(AddLevel(levels, l)) == Total(levels) + l.quantity
    ensures |levels| <= |AddLevel(levels, l)| <= |levels| + 1
  {
    var r := AddLevel(levels, l);
    if levels == [] {
    } else if SameKey(levels[0], l) {
      assert r[1..] == levels[1..];
    } else if Precedes(l, levels[0]) {
      assert r[1..] == levels;
    } else {
      AddLevelFacts(levels[1..], l);
      AddLevelBehind(levels[1..], l, levels[0]);
      assert r[1..] == AddLevel(levels[1..], l);
    }
  }

  lemma {:induction false} AggregateFacts(entries: seq<PriceLevel>)
    requires forall i :: 0 <= i < |entries| ==> entries[i].quantity > 0
    ensures Canonical(Aggregate(entries))
    ensures forall side, price :: DepthAt(Aggregate(entries), side, price) == DepthAt(entries, side, price)
    ensures Total(Aggregate(entries)) == Total(entries)
    ensures |Aggregate(entries)| <= |entries|
  {
    if entries != [] {
      AggregateFacts(entries[1..]);
      AddLevelFacts(Aggregate(entries[1..]), entries[0]);
    }
  }

  lemma {:induction false} NoDepthAhead(levels: seq<PriceLevel>, k: PriceLevel)
    requires forall i :: 0 <= i < |levels| ==> Precedes(k, levels[i])
    ensures DepthAt(levels, k.side, k.price) == 0
  {
    if levels != [] {
      NoDepthAhead(levels[1..], k);
    }
  }

  /** A canonical list is determined by the quantity it shows at each side and price. */
  lemma {:induction false} CanonicalUnique(a: seq<PriceLevel>, b: seq<PriceLevel>)
    requires Canonical(a) && Canonical(b)
    requires forall side, price :: DepthAt(a, side, price) == DepthAt(b, side, price)
    ensures a == b
  {
    if a == [] && b == [] {
    } else if b == [] || (a != [] && Precedes(a[0], b[0])) {
      assert forall i :: 0 <= i < |b| ==> Precedes(a[0], b[i]);
      NoDepthAhead(b, a[0]);
      assert false;
    } else if a == [] || Precedes(b[0], a[0]) {
      assert forall i :: 0 <= i < |a| ==> Precedes(b[0], a[i]);
      NoDepthAhead(a, b[0]);
      assert false;
    } else {
      NoDepthAhead(a[1..], a[0]);
      NoDepthAhead(b[1..], b[0]);
      assert DepthAt(a, a[0].side, a[0].price) == DepthAt(b, a[0].side, a[0].price);
      assert a[0] == b[0];
      forall side, price ensures DepthAt(a[1..], side, price) == DepthAt(b[1..], side, price) {
        assert DepthAt(a, side, price) == DepthAt(b, side, price);
      }
      CanonicalUnique(a[1..], b[1..]);
    }
  }

  lemma {:induction false} DepthAtConcat(a: seq<PriceLevel>, b: seq<PriceLevel>, side: Side, price: nat)
    ensures DepthAt(a + b, side, price) == DepthAt(a, side, price) + DepthAt(b, side, price)
  {
    if a == [] {
      assert a + b == b;
    } else {
      assert (a + b)[1..] == a[1..] + b;
      DepthAtConcat(a[1..], b, side, price);
    }
  }

  /** A canonical list shows a level's own quantity at that level's side and price. */
  lemma {:induction false} DepthOfLevel(levels: seq<PriceLevel>, i: nat)
    requires Canonical(levels) && i < |levels|
    ensures DepthAt(levels, levels[i].side, levels[i].price) == levels[i].quantity
  {
    if i == 0 {
      NoDepthAhead(levels[1..], levels[0]);
    } else {
      assert Precedes(levels[0], levels[i]);
      DepthOfLevel(levels[1..], i - 1);
    }
  }

  // ---------------------------------------------------------------- sums of 64 bits

  const WORD: nat := 0x1_0000_0000_0000_0000

  /** What an unchecked 64-bit sum keeps of a number. */
  function Wrap(n: nat): (r: nat)
    ensures r <= U64_MAX
    ensures r == n <==> n <= U64_MAX
  {
    n % WORD
  }

  lemma WrapAdds(a: nat, b: nat)
    ensures Wrap(Wrap(a) + b) == Wrap(a + b)
  {
  }

  /** The levels as 64-bit sums show them: same sides and prices, wrapped quantities. */
  function Wrapped(levels: seq<PriceLevel>): (r: seq<PriceLevel>)
    ensures |r| == |levels|
    ensures forall i :: 0 <= i < |levels| ==> r[i] == levels[i].(quantity := Wrap(levels[i].quantity))
  {
    seq(|levels|, i requires 0 <= i < |levels| => levels[i].(quantity := Wrap(levels[i].quantity)))
  }

  lemma WrappedConcat(a: seq<PriceLevel>, b: seq<PriceLevel>)
    ensures Wrapped(a + b) == Wrapped(a) + Wrapped(b)
  {
  }

  /** Every side and price holds a sum of 64 bits. */
  ghost predicate DepthFits(entries: seq<PriceLevel>) {
    forall side, price :: DepthAt(entries, side, price) <= U64_MAX
  }

  lemma {:induction false} KeyShown(levels: seq<PriceLevel>, side: Side, price: nat) returns (i: nat)
    requires DepthAt(levels, side, price) > 0
    ensures i < |levels| && levels[i].side == side && levels[i].price == price
  {
    if levels[0].side == side && levels[0].price == price {
      i := 0;
    } else {
      i := KeyShown(levels[1..], side, price);
      i := i + 1;
    }
  }

  lemma {:induction false} DepthOfWrapped(levels: seq<PriceLevel>, side: Side, price: nat)
    requires Canonical(levels)
    ensures DepthAt(Wrapped(levels), side, price) == Wrap(DepthAt(levels, side, price))
  {
    if levels != [] {
      assert Wrapped(levels)[1..] == Wrapped(levels[1..]);
      DepthOfWrapped(levels[1..], side, price);
      if levels[0].side == side && levels[0].price == price {
        NoDepthAhead(levels[1..], levels[0]);
      }
    }
  }

  /** The wrapped levels are the true ones exactly when every sum fits. */
  lemma WrappedExactly(entries: seq<PriceLevel>)
    requires forall i :: 0 <= i < |entries| ==> entries[i].quantity > 0
    ensures Wrapped(Aggregate(entries)) == Aggregate(entries) <==> DepthFits(entries)
  {
    hide Aggregate, DepthAt;
    var levels := Aggregate(entries);
    AggregateFacts(entries);
    if DepthFits(entries) {
      forall i | 0 <= i < |levels| ensures Wrapped(levels)[i] == levels[i] {
        DepthOfLevel(levels, i);
      }
    }
    if Wrapped(levels) == levels {
      forall side, price ensures DepthAt(entries, side, price) <= U64_MAX {
        DepthOfWrapped(levels, side, price);
      }
    }
  }

  /** Two true lists with the same prices, whose sums differ by whole words, look the same. */
  lemma {:induction false} WrappedSame(a: seq<PriceLevel>, b: seq<PriceLevel>)
    requires Canonical(a) && Canonical(b)
    requires forall side, price :: (DepthAt(a, side, price) > 0 <==> DepthAt(b, side, price) > 0)
    requires forall side, price :: Wrap(DepthAt(a, side, price)) == Wrap(DepthAt(b, side, price))
    ensures Wrapped(a) == Wrapped(b)
  {
    if a == [] && b == [] {
    } else if b == [] || (a != [] && Precedes(a[0], b[0])) {
      assert forall i :: 0 <= i < |b| ==> Precedes(a[0], b[i]);
      NoDepthAhead(b, a[0]);
      assert false;
    } else if a == [] || Precedes(b[0], a[0]) {
      assert forall i :: 0 <= i < |a| ==> Precedes(b[0], a[i]);
      NoDepthAhead(a, b[0]);
      assert false;
    } else {
      WrappedSameTails(a, b);
      WrappedSame(a[1..], b[1..]);
      assert Wrapped(a) == [Wrapped(a)[0]] + Wrapped(a[1..]);
      assert Wrapped(b) == [Wrapped(b)[0]] + Wrapped(b[1..]);
    }
  }

  lemma WrappedSameTails(a: seq<PriceLevel>, b: seq<PriceLevel>)
    requires Canonical(a) && Canonical(b) && a != [] && b != [] && SameKey(a[0], b[0])
    requires forall side, price :: (DepthAt(a, side, price) > 0 <==> DepthAt(b, side, price) > 0)
    requires forall side, price :: Wrap(DepthAt(a, side, price)) == Wrap(DepthAt(b, side, price))
    ensures Wrap(a[0].quantity) == Wrap(b[0].quantity)
    ensures forall side, price :: (DepthAt(a[1..], side, price) > 0 <==> DepthAt(b[1..], side, price) > 0)
    ensures forall side, price :: Wrap(DepthAt(a[1..], side, price)) == Wrap(DepthAt(b[1..], side, price))
  {
    hide Wrap, DepthAt, Canonical;
    DepthOfLevel(a, 0);
    DepthOfLevel(b, 0);
    forall side, price
      ensures DepthAt(a[1..], side, price) > 0 <==> DepthAt(b[1..], side, price) > 0
      ensures Wrap(DepthAt(a[1..], side, price)) == Wrap(DepthAt(b[1..], side, price))
    {
      DepthOfTail(a, side, price);
      DepthOfTail(b, side, price);
    }
  }

  lemma DepthOfTail(levels: seq<PriceLevel>, side: Side, price: nat)
    requires Canonical(levels) && levels != []
    ensures DepthAt(levels[1..], side, price)
         == if levels[0].side == side && levels[0].price == price then 0 else DepthAt(levels, side, price)
  {
    NoDepthAhead(levels[1..], levels[0]);
  }

  // ---------------------------------------------------------------- validation

  datatype DepthError = TooManyLevels | OutsideCircuitBounds | DuplicateOrUnordered

  predicate WithinCircuit(l: PriceLevel) {
    1 <= l.price <= U32_MAX && 1 <= l.quantity <= U32_MAX * (MAX_MATCH_SLOTS + 1)
  }

  ghost predicate ValidLevels(levels: seq<PriceLevel>) {
    && |levels| <= MAX_MATCH_SLOTS + 1
    && (forall i :: 0 <= i < |levels| ==> WithinCircuit(levels[i]))
    && Canonical(levels)
  }

  /**
   Comparing each level with the one before it decides the whole: at most nine levels,
   all within the circuit, every earlier level ahead of every later one.
   */
  method ValidatePublicLevels(levels: seq<PriceLevel>) returns (r: Option<DepthError>)
    ensures r.None? <==> ValidLevels(levels)
    ensures r == Some(TooManyLevels) <==> |levels| > 9
    ensures r.None? <==>
              && |levels| <= 9
              && (forall i :: 0 <= i < |levels| ==>
                    1 <= levels[i].price <= 4294967295 && 1 <= levels[i].quantity <= 38654705655)
              && (forall i, j :: 0 <= i < j < |levels| ==>
                    if levels[i].side == levels[j].side
                    then if levels[i].side == Buy then levels[i].price > levels[j].price
                         else levels[i].price < levels[j].price
                    else levels[i].side == Buy)
    ensures r == Some(OutsideCircuitBounds) ==>
              exists n :: 0 <= n < |levels| && !WithinCircuit(levels[n]) && ValidLevels(levels[..n])
    ensures r == Some(DuplicateOrUnordered) ==>
              exists n :: 0 < n < |levels| && !Precedes(levels[n - 1], levels[n]) && ValidLevels(levels[..n])
                          && WithinCircuit(levels[n])
  {
    if |levels| > MAX_MATCH_SLOTS + 1 {
      return Some(TooManyLevels);
    }
    var previous: Option<PriceLevel> := None;
    for n := 0 to |levels|
      invariant n == 0 <==> previous.None?
      invariant n > 0 ==> previous == Some(levels[n - 1])
      invariant forall i :: 0 <= i < n ==> WithinCircuit(levels[i])
      invariant forall i, j :: 0 <= i < j < n ==> Precedes(levels[i], levels[j])
    {
      var level := levels[n];
      if level.price == 0 || level.price > U32_MAX
         || level.quantity == 0 || level.quantity > U32_MAX * (MAX_MATCH_SLOTS + 1)
      {
        assert !WithinCircuit(levels[n]);
        return Some(OutsideCircuitBounds);
      }
      if previous.Some? && !Precedes(previous.value, level) {
        return Some(DuplicateOrUnordered);
      }
      previous := Some(level);
    }
    return None;
  }
}
