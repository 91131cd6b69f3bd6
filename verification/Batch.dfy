/**
 The fixed-shape matching batch: what the book hands to the circuit, what the circuit
 must answer, and how that answer changes the ranked orders it was made from.
 */
module Batch {
  import opened Orders
  import opened Matching
  import opened Depth

  datatype RestingInput = RestingInput(commitment: Digest32, side: Side, price: nat, quantity: nat)

  datatype MatchBatch = MatchBatch(
    resting: seq<RestingInput>,
    arrivingSide: Side,
    arrivingPrice: nat,
    arrivingQuantity: nat,
    arrivingCanRest: bool)

  datatype SlotResult = SlotResult(matched: bool, tradePrice: nat, tradeQuantity: nat)

  datatype BatchResult = BatchResult(
    slots: seq<SlotResult>,
    arrivingRemaining: nat,
    publicLevels: Option<seq<PriceLevel>>)

  // ---------------------------------------------------------------- the expected answer

  function SlotFor(batch: MatchBatch, r: RestingInput, left: nat): (slot: SlotResult)
    ensures slot.tradeQuantity <= left && slot.tradeQuantity <= r.quantity
    ensures slot.matched <==> slot.tradeQuantity > 0
  {
    if r.side != batch.arrivingSide && Crosses(batch.arrivingSide, batch.arrivingPrice, r.price)
       && left > 0 && r.quantity > 0
    then SlotResult(true, r.price, Min(left, r.quantity))
    else SlotResult(false, 0, 0)
  }

  function Slots(batch: MatchBatch, inputs: seq<RestingInput>, left: nat): (slots: seq<SlotResult>)
    ensures |slots| == |inputs|
  {
    if inputs == [] then []
    else
      var slot := SlotFor(batch, inputs[0], left);
      [slot] + Slots(batch, inputs[1..], left - slot.tradeQuantity)
  }

  function LeftAfter(batch: MatchBatch, inputs: seq<RestingInput>, left: nat): (r: nat)
    ensures r <= left
  {
    if inputs == [] then left
    else LeftAfter(batch, inputs[1..], left - SlotFor(batch, inputs[0], left).tradeQuantity)
  }

  ghost predicate Answers(inputs: seq<RestingInput>, slots: seq<SlotResult>) {
    |slots| == |inputs| && forall i :: 0 <= i < |inputs| ==> slots[i].tradeQuantity <= inputs[i].quantity
  }

  lemma {:induction false} SlotsAnswer(batch: MatchBatch, inputs: seq<RestingInput>, left: nat)
    ensures Answers(inputs, Slots(batch, inputs, left))
  {
    if inputs != [] {
      SlotsAnswer(batch, inputs[1..], left - SlotFor(batch, inputs[0], left).tradeQuantity);
    }
  }

  /** What stays of each resting order, dropping those that were filled. */
  ghost function Residue(inputs: seq<RestingInput>, slots: seq<SlotResult>): (r: seq<PriceLevel>)
    requires Answers(inputs, slots)
    ensures |r| <= |inputs|
    ensures forall i :: 0 <= i < |r| ==> r[i].quantity > 0
  {
    if inputs == [] then []
    else
      var q := inputs[0].quantity - slots[0].tradeQuantity;
      (if q > 0 then [PriceLevel(inputs[0].side, inputs[0].price, q)] else [])
      + Residue(inputs[1..], slots[1..])
  }

  function Restable(batch: MatchBatch): nat {
    if batch.arrivingCanRest then LeftAfter(batch, batch.resting, batch.arrivingQuantity) else 0
  }

  ghost function ArrivalEntry(batch: MatchBatch): seq<PriceLevel> {
    if Restable(batch) > 0 then [PriceLevel(batch.arrivingSide, batch.arrivingPrice, Restable(batch))] else []
  }

  ghost function DepthEntries(batch: MatchBatch): seq<PriceLevel> {
    SlotsAnswer(batch, batch.resting, batch.arrivingQuantity);
    Residue(batch.resting, Slots(batch, batch.resting, batch.arrivingQuantity)) + ArrivalEntry(batch)
  }

  ghost function Expected(batch: MatchBatch): BatchResult {
    BatchResult(Slots(batch, batch.resting, batch.arrivingQuantity), Restable(batch),
                Some(Wrapped(Aggregate(DepthEntries(batch)))))
  }

  // ---------------------------------------------------------------- computing it

  type LevelKey = (Side, nat)

  predicate KeyBefore(a: LevelKey, b: LevelKey) {
    Precedes(PriceLevel(a.0, a.1, 0), PriceLevel(b.0, b.1, 0))
  }

  function MapAt(m: map<LevelKey, nat>, side: Side, price: nat): nat {
    if (side, price) in m then m[(side, price)] else 0
  }

  function Raise(m: map<LevelKey, nat>, side: Side, price: nat, q: nat): map<LevelKey, nat> {
    m[(side, price) := Wrap(MapAt(m, side, price) + q)]
  }

  /** The map holds a level for each side and price of the entries, and its 64-bit sum. */
  ghost predicate Shows(m: map<LevelKey, nat>, entries: seq<PriceLevel>) {
    forall side: Side, price: nat ::
      && ((side, price) in m <==> DepthAt(entries, side, price) > 0)
      && MapAt(m, side, price) == Wrap(DepthAt(entries, side, price))
  }

  lemma RaiseShows(m: map<LevelKey, nat>, entries: seq<PriceLevel>, l: PriceLevel)
    requires Shows(m, entries) && l.quantity > 0
    ensures Shows(Raise(m, l.side, l.price, l.quantity), entries + [l])
  {
    hide Wrap, DepthAt;
    var m' := Raise(m, l.side, l.price, l.quantity);
    forall side: Side, price: nat
      ensures (side, price) in m' <==> DepthAt(entries + [l], side, price) > 0
      ensures MapAt(m', side, price) == Wrap(DepthAt(entries + [l], side, price))
    {
      DepthAtConcat(entries, [l], side, price);
      DepthOfOne([l], side, price);
      WrapAdds(DepthAt(entries, side, price), l.quantity);
      assert (side, price) in m <==> DepthAt(entries, side, price) > 0;
    }
  }

  lemma {:induction false} FirstKeyExists(keys: set<LevelKey>) returns (k: LevelKey)
    requires keys != {}
    ensures k in keys && forall j :: j in keys ==> j == k || KeyBefore(k, j)
    decreases |keys|
  {
    k :| k in keys;
    if keys != {k} {
      var others := keys - {k};
      assert keys == others + {k};
      var first := FirstKeyExists(others);
      if KeyBefore(first, k) {
        k := first;
      }
    }
  }

  /** Lists a level map in canonical order. */
  method SortLevels(m: map<LevelKey, nat>, ghost entries: seq<PriceLevel>) returns (levels: seq<PriceLevel>)
    requires Shows(m, entries) && forall i :: 0 <= i < |entries| ==> entries[i].quantity > 0
    ensures levels == Wrapped(Aggregate(entries))
  {
    hide DepthAt, Aggregate, Wrap;
    levels := [];
    var rest := m;
    ghost var exact: seq<PriceLevel> := [];
    DepthOfNone();
    while rest != map[]
      invariant levels == Wrapped(exact) && Canonical(exact)
      invariant forall k :: k in rest ==> k in m && rest[k] == m[k]
      invariant forall i, k :: 0 <= i < |exact| && k in rest ==> KeyBefore((exact[i].side, exact[i].price), k)
      invariant forall side: Side, price: nat ::
        DepthAt(exact, side, price) == if (side, price) in rest then 0 else DepthAt(entries, side, price)
      decreases |rest|
    {
      ghost var first := FirstKeyExists(rest.Keys);
      var k :| k in rest.Keys && forall j :: j in rest.Keys ==> j == k || KeyBefore(k, j);
      assert MapAt(m, k.0, k.1) == rest[k] && DepthAt(entries, k.0, k.1) > 0;
      ghost var level := PriceLevel(k.0, k.1, DepthAt(entries, k.0, k.1));
      AppendLevel(exact, level, rest, entries);
      WrappedConcat(exact, [level]);
      assert Wrapped([level]) == [PriceLevel(k.0, k.1, rest[k])];
      FewerKeys(rest, k);
      levels, rest, exact := levels + [PriceLevel(k.0, k.1, rest[k])], rest - {k}, exact + [level];
    }
    AggregateFacts(entries);
    CanonicalUnique(exact, Aggregate(entries));
  }

  lemma DepthOfNone()
    ensures forall side: Side, price: nat :: DepthAt([], side, price) == 0
  {
  }

  lemma FewerKeys(m: map<LevelKey, nat>, k: LevelKey)
    requires k in m
    ensures |m - {k}| < |m|
  {
    assert (m - {k}).Keys == m.Keys - {k};
  }

  /** The next key, behind everything listed and ahead of everything left, goes at the end. */
  lemma AppendLevel(exact: seq<PriceLevel>, l: PriceLevel, rest: map<LevelKey, nat>, entries: seq<PriceLevel>)
    requires Canonical(exact) && (l.side, l.price) in rest
    requires l.quantity > 0 && l.quantity == DepthAt(entries, l.side, l.price)
    requires forall i, k :: 0 <= i < |exact| && k in rest ==> KeyBefore((exact[i].side, exact[i].price), k)
    requires forall side: Side, price: nat ::
      DepthAt(exact, side, price) == if (side, price) in rest then 0 else DepthAt(entries, side, price)
    ensures Canonical(exact + [l])
    ensures forall side: Side, price: nat ::
      DepthAt(exact + [l], side, price)
      == if (side, price) in rest - {(l.side, l.price)} then 0 else DepthAt(entries, side, price)
  {
    hide DepthAt;
    forall i | 0 <= i < |exact| ensures Precedes(exact[i], l) {
      assert KeyBefore((exact[i].side, exact[i].price), (l.side, l.price));
    }
    forall side: Side, price: nat
      ensures DepthAt(exact + [l], side, price)
           == if (side, price) in rest - {(l.side, l.price)} then 0 else DepthAt(entries, side, price)
    {
      DepthAtConcat(exact, [l], side, price);
      DepthOfOne([l], side, price);
    }
  }

  /** The matcher's pass over the slots, best first. */
  method MatchSlots(batch: MatchBatch) returns (slots: seq<SlotResult>, arrivingRemaining: nat)
    ensures slots == Slots(batch, batch.resting, batch.arrivingQuantity)
    ensures arrivingRemaining == LeftAfter(batch, batch.resting, batch.arrivingQuantity)
  {
    hide Slots, LeftAfter;
    var inputs := batch.resting;
    arrivingRemaining := batch.arrivingQuantity;
    slots := [];
    assert inputs[0..] == inputs;
    for n := 0 to |inputs|
      invariant slots + Slots(batch, inputs[n..], arrivingRemaining) == Slots(batch, inputs, batch.arrivingQuantity)
      invariant LeftAfter(batch, inputs[n..], arrivingRemaining) == LeftAfter(batch, inputs, batch.arrivingQuantity)
    {
      var resting := inputs[n];
      var crossed := resting.side != batch.arrivingSide
                     && Crosses(batch.arrivingSide, batch.arrivingPrice, resting.price)
                     && arrivingRemaining > 0 && resting.quantity > 0;
      var tradeQuantity := if crossed then Min(arrivingRemaining, resting.quantity) else 0;
      var slot := SlotResult(crossed, if crossed then resting.price else 0, tradeQuantity);
      SlotsStep(batch, inputs, n, arrivingRemaining);
      arrivingRemaining := arrivingRemaining - tradeQuantity;
      slots := slots + [slot];
    }
    SlotsEnd(batch, arrivingRemaining);
  }

  lemma SlotsStep(batch: MatchBatch, inputs: seq<RestingInput>, n: nat, left: nat)
    requires n < |inputs|
    ensures var slot := SlotFor(batch, inputs[n], left);
            && Slots(batch, inputs[n..], left) == [slot] + Slots(batch, inputs[n + 1..], left - slot.tradeQuantity)
            && LeftAfter(batch, inputs[n..], left) == LeftAfter(batch, inputs[n + 1..], left - slot.tradeQuantity)
  {
    assert inputs[n..][1..] == inputs[n + 1..];
  }

  lemma SlotsEnd(batch: MatchBatch, left: nat)
    ensures Slots(batch, [], left) == [] && LeftAfter(batch, [], left) == left
  {
  }

  /** The matcher: one pass over the slots, then the depth they and the arrival leave. */
  method ExpectedBatch(batch: MatchBatch) returns (r: BatchResult)
    ensures r == Expected(batch)
  {
    var slots, arrivingRemaining := MatchSlots(batch);
    var remaining := if batch.arrivingCanRest then arrivingRemaining else 0;
    SlotsAnswer(batch, batch.resting, batch.arrivingQuantity);
    var levels := ResidualDepth(batch.resting, slots);
    if remaining > 0 {
      RaiseShows(levels, Residue(batch.resting, slots), PriceLevel(batch.arrivingSide, batch.arrivingPrice, remaining));
      levels := Raise(levels, batch.arrivingSide, batch.arrivingPrice, remaining);
    }
    assert remaining == 0 ==> DepthEntries(batch) == Residue(batch.resting, slots);
    var publicLevels := SortLevels(levels, DepthEntries(batch));
    r := BatchResult(slots, remaining, Some(publicLevels));
  }

  /** Adds what each slot leaves to the level of its side and price, in 64 bits. */
  method ResidualDepth(inputs: seq<RestingInput>, slots: seq<SlotResult>) returns (levels: map<LevelKey, nat>)
    requires Answers(inputs, slots)
    ensures Shows(levels, Residue(inputs, slots))
  {
    hide Residue, Shows, Raise;
    levels := map[];
    ghost var done: seq<PriceLevel> := [];
    assert inputs[0..] == inputs && slots[0..] == slots;
    NothingShown();
    for n := 0 to |inputs|
      invariant Answers(inputs[n..], slots[n..])
      invariant Shows(levels, done) && done + Residue(inputs[n..], slots[n..]) == Residue(inputs, slots)
    {
      var quantity := inputs[n].quantity - slots[n].tradeQuantity;
      ResidueStep(inputs, slots, n);
      if quantity > 0 {
        ghost var entry := PriceLevel(inputs[n].side, inputs[n].price, quantity);
        RaiseShows(levels, done, entry);
        levels := Raise(levels, inputs[n].side, inputs[n].price, quantity);
        done := done + [entry];
      }
    }
    NoResidueLeft(inputs, slots);
    assert done + [] == done;
  }

  lemma NothingShown()
    ensures Shows(map[], [])
  {
  }

  lemma ResidueStep(inputs: seq<RestingInput>, slots: seq<SlotResult>, n: nat)
    requires n < |inputs| == |slots| && Answers(inputs[n..], slots[n..])
    ensures slots[n].tradeQuantity <= inputs[n].quantity && Answers(inputs[n + 1..], slots[n + 1..])
    ensures var quantity := inputs[n].quantity - slots[n].tradeQuantity;
            Residue(inputs[n..], slots[n..])
            == (if quantity > 0 then [PriceLevel(inputs[n].side, inputs[n].price, quantity)] else [])
               + Residue(inputs[n + 1..], slots[n + 1..])
  {
    assert inputs[n..][1..] == inputs[n + 1..] && slots[n..][1..] == slots[n + 1..];
    assert inputs[n..][0] == inputs[n] && slots[n..][0] == slots[n];
  }

  lemma DepthOfOne(levels: seq<PriceLevel>, side: Side, price: nat)
    requires |levels| <= 1
    ensures DepthAt(levels, side, price)
         == if levels != [] && levels[0].side == side && levels[0].price == price then levels[0].quantity else 0
  {
  }

  lemma NoResidueLeft(inputs: seq<RestingInput>, slots: seq<SlotResult>)
    requires |slots| == |inputs|
    ensures Residue(inputs[|inputs|..], slots[|slots|..]) == []
  {
  }

  // ---------------------------------------------------------------- the depth it emits

  lemma {:induction false} ResidueBounds(inputs: seq<RestingInput>, slots: seq<SlotResult>)
    requires Answers(inputs, slots)
    requires forall i :: 0 <= i < |inputs| ==> 1 <= inputs[i].price <= U32_MAX && inputs[i].quantity <= U32_MAX
    ensures forall i :: 0 <= i < |Residue(inputs, slots)| ==>
              1 <= Residue(inputs, slots)[i].price <= U32_MAX && Residue(inputs, slots)[i].quantity <= U32_MAX
  {
    if inputs != [] {
      ResidueBounds(inputs[1..], slots[1..]);
    }
  }

  lemma {:induction false} TotalBound(levels: seq<PriceLevel>, bound: nat)
    requires forall i :: 0 <= i < |levels| ==> levels[i].quantity <= bound
    ensures Total(levels) <= |levels| * bound
  {
    if levels != [] {
      TotalBound(levels[1..], bound);
      assert |levels| * bound == bound + (|levels| - 1) * bound;
    }
  }

  lemma {:induction false} LevelWithinTotal(levels: seq<PriceLevel>, i: nat)
    requires i < |levels|
    ensures levels[i].quantity <= Total(levels)
  {
    if i > 0 {
      LevelWithinTotal(levels[1..], i - 1);
    }
  }

  lemma {:induction false} EntryPrice(entries: seq<PriceLevel>, side: Side, price: nat)
    requires DepthAt(entries, side, price) > 0
    ensures exists i :: 0 <= i < |entries| && entries[i].price == price
  {
    if !(entries[0].side == side && entries[0].price == price) {
      EntryPrice(entries[1..], side, price);
      var i :| 0 <= i < |entries[1..]| && entries[1..][i].price == price;
      assert entries[i + 1].price == price;
    }
  }

  lemma {:induction false} TotalConcat(a: seq<PriceLevel>, b: seq<PriceLevel>)
    ensures Total(a + b) == Total(a) + Total(b)
  {
    if a == [] {
      assert a + b == b;
    } else {
      assert (a + b)[1..] == a[1..] + b;
      TotalConcat(a[1..], b);
    }
  }

  function Offered(inputs: seq<RestingInput>): nat {
    if inputs == [] then 0 else inputs[0].quantity + Offered(inputs[1..])
  }

  function Traded(slots: seq<SlotResult>): nat {
    if slots == [] then 0 else slots[0].tradeQuantity + Traded(slots[1..])
  }

  lemma {:induction false} ResidueTotal(inputs: seq<RestingInput>, slots: seq<SlotResult>)
    requires Answers(inputs, slots)
    ensures Total(Residue(inputs, slots)) + Traded(slots) == Offered(inputs)
  {
    if inputs != [] {
      ResidueTotal(inputs[1..], slots[1..]);
      var q := inputs[0].quantity - slots[0].tradeQuantity;
      assert Residue(inputs, slots)[if q > 0 then 1 else 0..] == Residue(inputs[1..], slots[1..]);
    }
  }

  lemma {:induction false} SlotsSpendArrival(batch: MatchBatch, inputs: seq<RestingInput>, left: nat)
    ensures Traded(Slots(batch, inputs, left)) + LeftAfter(batch, inputs, left) == left
  {
    if inputs != [] {
      var slot := SlotFor(batch, inputs[0], left);
      SlotsSpendArrival(batch, inputs[1..], left - slot.tradeQuantity);
      assert Slots(batch, inputs, left)[1..] == Slots(batch, inputs[1..], left - slot.tradeQuantity);
    }
  }

  /**
   For every batch the circuit can hold, the emitted depth passes the public validator and
   its total is everything offered and arriving, less both sides of each trade and less
   what may not rest. Nothing along the way leaves 64 bits.
   */
  lemma EmittedDepthIsValid(batch: MatchBatch)
    requires |batch.resting| <= MAX_MATCH_SLOTS
    requires forall i :: 0 <= i < |batch.resting| ==>
      1 <= batch.resting[i].price <= U32_MAX && 1 <= batch.resting[i].quantity <= U32_MAX
    requires 1 <= batch.arrivingPrice <= U32_MAX && 1 <= batch.arrivingQuantity <= U32_MAX
    ensures ValidLevels(Expected(batch).publicLevels.value)
    ensures var r := Expected(batch);
            Total(r.publicLevels.value) + Traded(r.slots) == Offered(batch.resting) + r.arrivingRemaining
    ensures var r := Expected(batch);
            Total(r.publicLevels.value) + Traded(r.slots)
            == Offered(batch.resting) + if batch.arrivingCanRest then batch.arrivingQuantity - Traded(r.slots) else 0
    ensures Total(Expected(batch).publicLevels.value) <= U32_MAX * (MAX_MATCH_SLOTS + 1) <= U64_MAX
  {
    var slots := Slots(batch, batch.resting, batch.arrivingQuantity);
    var entries := DepthEntries(batch);
    var levels := Aggregate(entries);
    SlotsAnswer(batch, batch.resting, batch.arrivingQuantity);
    ResidueBounds(batch.resting, slots);
    ResidueTotal(batch.resting, slots);
    SlotsSpendArrival(batch, batch.resting, batch.arrivingQuantity);
    TotalConcat(Residue(batch.resting, slots), ArrivalEntry(batch));
    TotalBound(entries, U32_MAX);
    assert |entries| * U32_MAX <= (MAX_MATCH_SLOTS + 1) * U32_MAX;
    AggregateFacts(entries);
    forall i | 0 <= i < |levels| ensures WithinCircuit(levels[i]) {
      LevelWithinTotal(levels, i);
      DepthOfLevel(levels, i);
      EntryPrice(entries, levels[i].side, levels[i].price);
    }
    assert Wrapped(levels) == levels;
  }

  // ---------------------------------------------------------------- from the ranked side and back

  /** The first `k` live orders of a ranked side, as circuit inputs. */
  function Inputs(s: seq<Resting>, now: nat, k: nat): (r: seq<RestingInput>)
    ensures |r| <= k
  {
    if s == [] || k == 0 then []
    else if Expired(s[0], now) then Inputs(s[1..], now, k)
    else [RestingInput(s[0].Commitment(), s[0].secret.side, s[0].Price(), s[0].remaining)]
         + Inputs(s[1..], now, k - 1)
  }

  /** Filter, take, map: `Inputs` takes from the live orders in their order. */
  lemma {:induction false} InputsOfLive(s: seq<Resting>, now: nat, k: nat)
    ensures Inputs(Live(s, now), now, k) == Inputs(s, now, k)
    ensures |Inputs(s, now, k)| == Min(k, |Live(s, now)|)
    ensures forall i :: 0 <= i < |Inputs(s, now, k)| ==>
              var r := Live(s, now)[i];
              Inputs(s, now, k)[i] == RestingInput(r.Commitment(), r.secret.side, r.Price(), r.remaining)
  {
    if s != [] && k > 0 {
      InputsOfLive(s[1..], now, if Expired(s[0], now) then k else k - 1);
      assert !Expired(s[0], now) ==> Live(s, now)[1..] == Live(s[1..], now);
    }
  }

  function Live(s: seq<Resting>, now: nat): seq<Resting> {
    if s == [] then []
    else if Expired(s[0], now) then Live(s[1..], now)
    else [s[0]] + Live(s[1..], now)
  }

  function FillsOf(taker: Digest32, inputs: seq<RestingInput>, slots: seq<SlotResult>): seq<PublicFill>
    requires |slots| == |inputs|
  {
    if inputs == [] then []
    else
      (if slots[0].matched
       then [PublicFill(inputs[0].commitment, taker, slots[0].tradePrice, slots[0].tradeQuantity)] else [])
      + FillsOf(taker, inputs[1..], slots[1..])
  }

  /** A new remainder for the order with a given commitment; zero removes it. */
  datatype Update = Update(commitment: Digest32, remaining: nat)

  ghost function UpdatesOf(inputs: seq<RestingInput>, slots: seq<SlotResult>): seq<Update>
    requires Answers(inputs, slots)
  {
    if inputs == [] then []
    else
      (if slots[0].matched then [Update(inputs[0].commitment, inputs[0].quantity - slots[0].tradeQuantity)] else [])
      + UpdatesOf(inputs[1..], slots[1..])
  }

  function SetRemaining(s: seq<Resting>, c: Digest32, remaining: nat): seq<Resting> {
    if s == [] then []
    else if s[0].Commitment() == c then
      (if remaining == 0 then [] else [s[0].(remaining := remaining)]) + s[1..]
    else [s[0]] + SetRemaining(s[1..], c, remaining)
  }

  function SetAll(s: seq<Resting>, updates: seq<Update>): seq<Resting>
    decreases |updates|
  {
    if updates == [] then s
    else SetAll(SetRemaining(s, updates[0].commitment, updates[0].remaining), updates[1..])
  }

  lemma {:induction false} SetRemainingAbsent(s: seq<Resting>, c: Digest32, remaining: nat)
    requires !Rests(s, c)
    ensures SetRemaining(s, c, remaining) == s
  {
    if s != [] {
      SetRemainingAbsent(s[1..], c, remaining);
    }
  }

  lemma {:induction false} SetRemainingConcat(a: seq<Resting>, b: seq<Resting>, c: Digest32, remaining: nat)
    ensures SetRemaining(a + b, c, remaining)
         == if Rests(a, c) then SetRemaining(a, c, remaining) + b else a + SetRemaining(b, c, remaining)
  {
    if a == [] {
      assert a + b == b;
    } else {
      assert (a + b)[1..] == a[1..] + b;
      if a[0].Commitment() == c {
        var kept := if remaining == 0 then [] else [a[0].(remaining := remaining)];
        assert kept + (a[1..] + b) == (kept + a[1..]) + b;
      } else {
        SetRemainingConcat(a[1..], b, c, remaining);
        assert [a[0]] + (SetRemaining(a[1..], c, remaining) + b) == ([a[0]] + SetRemaining(a[1..], c, remaining)) + b;
        assert [a[0]] + (a[1..] + SetRemaining(b, c, remaining)) == a + SetRemaining(b, c, remaining);
      }
    }
  }

  /** Updates of orders behind the head leave the head where it is. */
  lemma {:induction false} SetAllBehind(r: Resting, s: seq<Resting>, updates: seq<Update>)
    requires forall i :: 0 <= i < |updates| ==> updates[i].commitment != r.Commitment()
    ensures SetAll([r] + s, updates) == [r] + SetAll(s, updates)
    decreases |updates|
  {
    if updates != [] {
      var u := updates[0];
      assert ([r] + s)[1..] == s;
      SetAllBehind(r, SetRemaining(s, u.commitment, u.remaining), updates[1..]);
    }
  }

  /** The slot of a live head: a trade exactly when the sweep trades it. */
  lemma HeadSlot(t: Taker, s: seq<Resting>, left: nat, k: nat, batch: MatchBatch) returns (slot: SlotResult)
    requires batch.arrivingSide == t.side && batch.arrivingPrice == t.price
    requires s != [] && k > 0 && !Expired(s[0], t.now)
    requires s[0].remaining > 0 && s[0].secret.side == t.side.Opposite()
    ensures slot == if Crosses(t.side, t.price, s[0].Price()) && left > 0
                    then SlotResult(true, s[0].Price(), Min(left, s[0].remaining)) else SlotResult(false, 0, 0)
    ensures var inputs := Inputs(s, t.now, k);
            && inputs != [] && inputs[0].commitment == s[0].Commitment() && inputs[0].quantity == s[0].remaining
            && inputs[1..] == Inputs(s[1..], t.now, k - 1)
            && slot == SlotFor(batch, inputs[0], left)
            && Slots(batch, inputs, left)[0] == slot
            && Slots(batch, inputs, left)[1..] == Slots(batch, inputs[1..], left - slot.tradeQuantity)
  {
    slot := SlotFor(batch, Inputs(s, t.now, k)[0], left);
  }

  lemma {:induction false} FillsAreSweep(t: Taker, s: seq<Resting>, left: nat, k: nat, batch: MatchBatch)
    requires batch.arrivingSide == t.side && batch.arrivingPrice == t.price
    requires AllOpen(s)
    requires forall i :: 0 <= i < |s| ==> s[i].secret.side == t.side.Opposite()
    ensures var inputs := Inputs(s, t.now, k);
            FillsOf(t.commitment, inputs, Slots(batch, inputs, left)) == Slotted(t, s, left, k).fills
    ensures LeftAfter(batch, Inputs(s, t.now, k), left) == Slotted(t, s, left, k).left
  {
    hide SlotFor, Min;
    if s == [] || k == 0 {
    } else if Expired(s[0], t.now) {
      FillsAreSweep(t, s[1..], left, k, batch);
    } else {
      var slot := HeadSlot(t, s, left, k, batch);
      FillsAreSweep(t, s[1..], left - slot.tradeQuantity, k - 1, batch);
    }
  }

  /** The first slot's update turns the head of the side into what the sweep keeps of it. */
  lemma SetAllHead(head: Resting, tail: seq<Resting>, q: nat, updates: seq<Update>)
    requires q <= head.remaining
    requires forall i :: 0 <= i < |updates| ==> updates[i].commitment != head.Commitment()
    ensures SetAll([head] + tail, [Update(head.Commitment(), head.remaining - q)] + updates)
         == Kept(head, q) + SetAll(tail, updates)
  {
    var u := Update(head.Commitment(), head.remaining - q);
    assert ([head] + tail)[1..] == tail && ([u] + updates)[1..] == updates;
    assert SetRemaining([head] + tail, u.commitment, u.remaining) == Kept(head, q) + tail;
    if q < head.remaining {
      SetAllBehind(head.(remaining := head.remaining - q), tail, updates);
    } else {
      assert Kept(head, q) + tail == tail;
    }
  }

  /** The updates a sweep makes, in the order of the ranked side. */
  ghost function SweepUpdates(t: Taker, s: seq<Resting>, left: nat, k: nat): seq<Update> {
    if s == [] || k == 0 then []
    else if Expired(s[0], t.now) then SweepUpdates(t, s[1..], left, k)
    else if !Crosses(t.side, t.price, s[0].Price()) || left == 0 then SweepUpdates(t, s[1..], left, k - 1)
    else
      var q := Min(left, s[0].remaining);
      [Update(s[0].Commitment(), s[0].remaining - q)] + SweepUpdates(t, s[1..], left - q, k - 1)
  }

  lemma {:induction false} UpdatesAreSweepUpdates(t: Taker, s: seq<Resting>, left: nat, k: nat, batch: MatchBatch)
    requires batch.arrivingSide == t.side && batch.arrivingPrice == t.price
    requires AllOpen(s)
    requires forall i :: 0 <= i < |s| ==> s[i].secret.side == t.side.Opposite()
    ensures var inputs := Inputs(s, t.now, k);
            var slots := Slots(batch, inputs, left);
            Answers(inputs, slots) && UpdatesOf(inputs, slots) == SweepUpdates(t, s, left, k)
  {
    hide Slots, SlotFor, Min;
    var inputs := Inputs(s, t.now, k);
    SlotsAnswer(batch, inputs, left);
    if s == [] || k == 0 {
    } else if Expired(s[0], t.now) {
      UpdatesAreSweepUpdates(t, s[1..], left, k, batch);
    } else {
      var slot := HeadSlot(t, s, left, k, batch);
      UpdatesAreSweepUpdates(t, s[1..], left - slot.tradeQuantity, k - 1, batch);
    }
  }

  lemma {:induction false} SweepUpdatesRest(t: Taker, s: seq<Resting>, left: nat, k: nat, i: nat)
    requires i < |SweepUpdates(t, s, left, k)|
    ensures Rests(s, SweepUpdates(t, s, left, k)[i].commitment)
  {
    if Expired(s[0], t.now) {
      SweepUpdatesRest(t, s[1..], left, k, i);
    } else if !Crosses(t.side, t.price, s[0].Price()) || left == 0 {
      SweepUpdatesRest(t, s[1..], left, k - 1, i);
    } else if i > 0 {
      SweepUpdatesRest(t, s[1..], left - Min(left, s[0].remaining), k - 1, i - 1);
    }
  }

  lemma SweepUpdatesSpare(t: Taker, s: seq<Resting>, left: nat, k: nat, c: Digest32)
    requires !Rests(s, c)
    ensures forall i :: 0 <= i < |SweepUpdates(t, s, left, k)| ==> SweepUpdates(t, s, left, k)[i].commitment != c
  {
    forall i | 0 <= i < |SweepUpdates(t, s, left, k)| ensures SweepUpdates(t, s, left, k)[i].commitment != c {
      SweepUpdatesRest(t, s, left, k, i);
    }
  }

  lemma {:induction false} SetAllSweeps(t: Taker, s: seq<Resting>, left: nat, k: nat)
    requires Distinct(s)
    ensures SetAll(s, SweepUpdates(t, s, left, k)) == Slotted(t, s, left, k).rest
  {
    hide SetRemaining;
    if s == [] || k == 0 {
    } else {
      var head, tail := s[0], s[1..];
      assert s == [head] + tail;
      if Expired(head, t.now) {
        SetAllSweeps(t, tail, left, k);
        SweepUpdatesSpare(t, tail, left, k, head.Commitment());
        SetAllBehind(head, tail, SweepUpdates(t, tail, left, k));
      } else if !Crosses(t.side, t.price, head.Price()) || left == 0 {
        SetAllSweeps(t, tail, left, k - 1);
        SweepUpdatesSpare(t, tail, left, k - 1, head.Commitment());
        SetAllBehind(head, tail, SweepUpdates(t, tail, left, k - 1));
      } else {
        var q := Min(left, head.remaining);
        SetAllSweeps(t, tail, left - q, k - 1);
        SweepUpdatesSpare(t, tail, left - q, k - 1, head.Commitment());
        SetAllHead(head, tail, q, SweepUpdates(t, tail, left - q, k - 1));
      }
    }
  }

  /**
   Handing the first `k` live orders to the circuit, and setting by commitment the
   remainders its answer implies, is the fixed-slot sweep of the ranked side.
   */
  lemma BatchIsSweep(t: Taker, s: seq<Resting>, left: nat, k: nat, batch: MatchBatch)
    requires batch.arrivingSide == t.side && batch.arrivingPrice == t.price
    requires Distinct(s) && AllOpen(s)
    requires forall i :: 0 <= i < |s| ==> s[i].secret.side == t.side.Opposite()
    ensures var inputs := Inputs(s, t.now, k);
            var slots := Slots(batch, inputs, left);
            var w := Slotted(t, s, left, k);
            && FillsOf(t.commitment, inputs, slots) == w.fills
            && LeftAfter(batch, inputs, left) == w.left
            && Answers(inputs, slots)
            && SetAll(s, UpdatesOf(inputs, slots)) == w.rest
  {
    FillsAreSweep(t, s, left, k, batch);
    UpdatesAreSweepUpdates(t, s, left, k, batch);
    SetAllSweeps(t, s, left, k);
  }
}
