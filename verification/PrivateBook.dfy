/**
 The private book as the program keeps it: two maps of queues, the admitted commitments and
 the sequence, changed in place. Every operation is proved to be the function of `BookModel`
 on the ranked lists the maps stand for, error cases and what they leave behind included.
 */
module PrivateBooks {
  import opened Orders
  import opened Matching
  import opened Depth
  import opened Batch
  import opened BookModel
  import opened ExpiryLaws
  import opened Publication
  import opened Ladder
  import opened Acceptance

  class PrivateBook {
    const env: Env
    const marketId: seq<Byte>
    var sequence: nat
    var bids: Levels
    var asks: Levels
    var admitted: set<Digest32>

    ghost function View(): Book
      reads this
    {
      Book(marketId, sequence, Flat(Buy, bids), Flat(Sell, asks), admitted)
    }

    ghost predicate Valid()
      reads this
    {
      Keyed(bids) && Keyed(asks) && BookInv(View())
    }

    constructor (env: Env, marketId: seq<Byte>)
      ensures Valid() && this.env == env && View() == Empty(marketId)
    {
      this.env, this.marketId := env, marketId;
      sequence, bids, asks, admitted := 0, map[], map[], {};
    }

    static method Create(env: Env, marketId: seq<Byte>) returns (r: Result<PrivateBook>)
      ensures r.Success? <==> 1 <= |marketId| <= 64
      ensures r.Success? ==> fresh(r.value) && r.value.Valid() && r.value.env == env
                             && r.value.View() == Empty(marketId)
    {
      if |marketId| == 0 || |marketId| > 64 {
        return Failure(Invalid(MarketLength));
      }
      var book := new PrivateBook(env, marketId);
      return Success(book);
    }

    // -------------------------------------------------------------- reading

    function Side(side: Side): Levels
      reads this
    {
      if side.Buy? then bids else asks
    }

    lemma SideIsFlat(side: Side)
      ensures View().On(side) == Flat(side, Side(side))
    {
    }

    function CheckAdmission(order: SecretOrder, commitment: Digest32, cert: nat): (e: Option<OrderError>)
      reads this
      ensures e == AdmissionError(View(), order, commitment, cert)
    {
      if order.marketId != marketId then Some(WrongMarket)
      else if commitment in admitted then Some(Replay)
      else if cert != sequence + 1 then Some(Invalid(SequenceNotNext))
      else None
    }

    function PrivateMatchBatch(arriving: SecretOrder, now: nat): (r: Result<MatchBatch>)
      reads this
      ensures r == if arriving.marketId == marketId then Success(BatchOf(View(), arriving, now))
                   else Failure(WrongMarket)
      ensures r.Success? ==>
                var live := Live(View().On(arriving.side.Opposite()), now);
                && |r.value.resting| == (if |live| <= 8 then |live| else 8)
                && forall i :: 0 <= i < |r.value.resting| ==>
                     && r.value.resting[i].commitment == live[i].Commitment()
                     && r.value.resting[i].price == live[i].Price() && r.value.resting[i].quantity == live[i].remaining
    {
      BatchHoldsEight(View(), arriving, now);
      if arriving.marketId != marketId then Failure(WrongMarket)
      else
        var ordered := Flat(arriving.side.Opposite(), Side(arriving.side.Opposite()));
        Success(MatchBatch(Inputs(ordered, now, MAX_MATCH_SLOTS), arriving.side, arriving.limitPrice, arriving.quantity,
                           arriving.timeInForce == GoodTilCancelled))
    }

    /**
     Counts fills until the arrival is spent, does not cross or needs a ninth slot. Stopping
     at the first order that does not cross is right because the side is ranked.
     */
    method ExceedsFixedMatchCapacity(arriving: SecretOrder, now: nat) returns (exceeds: bool)
      requires Valid()
      ensures exceeds == ExceedsCapacity(View(), arriving, now)
      ensures exceeds <==> |Greedy(Taker(arriving.side, arriving.limitPrice, now, 0),
                                   View().On(arriving.side.Opposite()), arriving.quantity).fills| > 8
    {
      hide BookInv, Flat, Greedy;
      var side := arriving.side.Opposite();
      var ordered := Flat(side, Side(side));
      OpenSide(View(), side);
      SideIsFlat(side);
      ghost var t := Taker(arriving.side, arriving.limitPrice, now, 0);
      ghost var all := |Greedy(t, ordered, arriving.quantity).fills|;
      var remaining: nat := arriving.quantity;
      var matches: nat := 0;
      assert ordered[0..] == ordered;
      for n := 0 to |ordered|
        invariant matches <= MAX_MATCH_SLOTS
        invariant matches + |Greedy(t, ordered[n..], remaining).fills| == all
      {
        var resting := ordered[n];
        FillCountStep(t, ordered, n, remaining);
        if !Expired(resting, now) {
          var crossed := Crosses(arriving.side, arriving.limitPrice, resting.Price());
          if !crossed || remaining == 0 {
            return false;
          }
          remaining := remaining - Min(remaining, resting.remaining);
          matches := matches + 1;
          if matches > MAX_MATCH_SLOTS {
            return true;
          }
        }
      }
      assert ordered[|ordered|..] == [];
      GreedyStops(t, [], remaining);
      return false;
    }

    method FindRecord(commitment: Digest32) returns (r: Option<Resting>)
      requires Valid()
      ensures r == Find(View(), commitment)
    {
      hide BookInv, Flat;
      OpenSide(View(), Buy);
      OpenSide(View(), Sell);
      var place := Locate(bids, commitment);
      if place.Some? {
        FlatSetRemaining(Buy, bids, commitment, place.value, 0);
        return Some(bids[place.value.price][place.value.index]);
      }
      RestsInQueue(Buy, bids, commitment);
      FindOnAbsent(Flat(Buy, bids), commitment);
      place := Locate(asks, commitment);
      if place.Some? {
        FlatSetRemaining(Sell, asks, commitment, place.value, 0);
        return Some(asks[place.value.price][place.value.index]);
      }
      RestsInQueue(Sell, asks, commitment);
      FindOnAbsent(Flat(Sell, asks), commitment);
      return None;
    }

    /**
     One level per price, the bids from the highest and then the asks from the lowest, each
     summed in 64 bits; so the true depth exactly when every level fits.
     */
    method PublicSnapshot() returns (levels: seq<PriceLevel>)
      requires Valid()
      ensures levels == ShownLevels(View())
      ensures levels == SnapshotLevels(View()) <==> LevelsFit(View())
    {
      hide BookInv, Flat, SnapshotLevels, SideLevels, DepthAt, LevelsFit;
      var bidLevels := LevelsOf(Buy);
      var askLevels := LevelsOf(Sell);
      levels := bidLevels + askLevels;
      ghost var bidDepth, askDepth := SideLevels(Buy, bids), SideLevels(Sell, asks);
      BothSidesCanonical(bidDepth, askDepth);
      SnapshotFacts(View());
      forall at, price ensures DepthAt(bidDepth + askDepth, at, price) == DepthAt(SnapshotLevels(View()), at, price) {
        DepthAtConcat(bidDepth, askDepth, at, price);
      }
      CanonicalUnique(bidDepth + askDepth, SnapshotLevels(View()));
      WrappedConcat(bidDepth, askDepth);
      SnapshotExactly(View());
    }

    method LevelsOf(side: Side) returns (levels: seq<PriceLevel>)
      requires Valid()
      ensures var depth := SideLevels(side, Side(side));
              && levels == Wrapped(depth) && Canonical(depth)
              && (forall i :: 0 <= i < |depth| ==> depth[i].side == side)
              && forall at, price :: DepthAt(depth, at, price) == DepthAt(Entries(View().On(side)), at, price)
    {
      hide BookInv, Flat, SideLevels, Entries, DepthAt, OnSide;
      levels := ListLevels(side, Side(side));
      OpenSide(View(), side);
      SideIsFlat(side);
      QueuesOnSide(side, Side(side));
      SideLevelsCanonical(side, Side(side));
      forall at, price
        ensures DepthAt(SideLevels(side, Side(side)), at, price) == DepthAt(Entries(View().On(side)), at, price)
      {
        SideLevelsDepth(side, Side(side), at, price);
      }
    }

    // -------------------------------------------------------------- changing one queue

    method SetSide(side: Side, levels: Levels)
      modifies this`bids, this`asks
      ensures Side(side) == levels && Side(side.Opposite()) == old(Side(side.Opposite()))
    {
      if side.Buy? {
        bids := levels;
      } else {
        asks := levels;
      }
    }

    method InsertRecord(record: Resting)
      requires Keyed(bids) && Keyed(asks)
      modifies this`bids, this`asks
      ensures Keyed(bids) && Keyed(asks) && View() == Rest(old(View()), record)
    {
      hide Flat, InsertRanked;
      var side := record.secret.side;
      FlatInsert(side, Side(side), record);
      SideIsFlat(side);
      SetSide(side, Side(side)[record.Price() := QueueAt(Side(side), record.Price()) + [record]]);
    }

    /** Sets or removes the order with the commitment, looking at the bids before the asks. */
    method UpdateRemainder(commitment: Digest32, remaining: nat) returns (found: bool)
      requires Keyed(bids) && Keyed(asks) && Distinct(View().bids) && Distinct(View().asks)
      requires !(Rests(View().bids, commitment) && Rests(View().asks, commitment))
      modifies this`bids, this`asks
      ensures Keyed(bids) && Keyed(asks)
      ensures found == (Rests(old(View().bids), commitment) || Rests(old(View().asks), commitment))
      ensures View() == old(View()).(bids := SetRemaining(old(View().bids), commitment, remaining),
                                     asks := SetRemaining(old(View().asks), commitment, remaining))
    {
      hide Flat, SetRemaining;
      found := UpdateSide(Buy, commitment, remaining);
      if found {
        SetRemainingAbsent(View().asks, commitment, remaining);
      } else {
        SetRemainingAbsent(View().bids, commitment, remaining);
        found := UpdateSide(Sell, commitment, remaining);
        if !found {
          SetRemainingAbsent(View().asks, commitment, remaining);
        }
      }
    }

    method UpdateSide(side: Side, commitment: Digest32, remaining: nat) returns (found: bool)
      requires Keyed(Side(side)) && Distinct(View().On(side))
      modifies this`bids, this`asks
      ensures found == Rests(old(View().On(side)), commitment)
      ensures Keyed(Side(side)) && Side(side.Opposite()) == old(Side(side.Opposite()))
      ensures View().On(side) == if found then SetRemaining(old(View().On(side)), commitment, remaining)
                                 else old(View().On(side))
    {
      hide Flat, SetRemaining;
      var levels := Side(side);
      SideIsFlat(side);
      var place := Locate(levels, commitment);
      if place.None? {
        RestsInQueue(side, levels, commitment);
        return false;
      }
      var price, index := place.value.price, place.value.index;
      var queue := levels[price];
      FlatSetRemaining(side, levels, commitment, place.value, remaining);
      SetRemainingAt(queue, commitment, index, remaining);
      queue := if remaining == 0 then queue[..index] + queue[index + 1..]
               else queue[index := queue[index].(remaining := remaining)];
      SetSide(side, if queue == [] then levels - {price} else levels[price := queue]);
      return true;
    }

    // -------------------------------------------------------------- the five operations

    method InsertResting(order: SecretOrder, authority: OrderAuthority, cert: nat, now: U64) returns (r: Result<()>)
      requires Valid() && ValidOrder(order)
      modifies this
      ensures Valid() && Step(r, View()) == BookModel.InsertResting(env, old(View()), order, authority, cert, now)
      ensures r.Success? <==>
                Entitled(env, old(View()), order, authority, cert, now) && order.timeInForce == GoodTilCancelled
    {
      InsertExactly(env, View(), order, authority, cert, now);
      hide BookInv, Flat, ValidOrder;
      InsertKeeps(env, View(), order, authority, cert, now);
      if !AuthorityVerifies(env, authority, order, now) {
        return Failure(Authority);
      }
      var e := CheckAdmission(order, authority.commitment, cert);
      if e.Some? {
        return Failure(e.value);
      }
      if order.timeInForce != GoodTilCancelled {
        return Failure(Invalid(OnlyGtcRests));
      }
      InsertRecord(Resting(order, authority, order.quantity, cert));
      admitted := admitted + {authority.commitment};
      sequence := cert;
      return Success(());
    }

    /** Rests a good-til-cancelled remainder and records the admission. */
    method SettleArrival(order: SecretOrder, authority: OrderAuthority, cert: nat, remaining: nat)
      requires Keyed(bids) && Keyed(asks) && cert == sequence + 1
      modifies this
      ensures Keyed(bids) && Keyed(asks) && View() == Settle(old(View()), order, authority, remaining)
    {
      hide Flat, Rest;
      if remaining > 0 && order.timeInForce == GoodTilCancelled {
        InsertRecord(Resting(order, authority, remaining, cert));
      }
      admitted := admitted + {authority.commitment};
      sequence := cert;
    }

    method ApplyMpcBatchResult(order: SecretOrder, authority: OrderAuthority, cert: nat, now: U64, result: BatchResult)
      returns (r: Result<Transition>)
      requires Valid() && ValidOrder(order)
      modifies this
      ensures Valid() && Step(r, View()) == ApplyBatch(env, old(View()), order, authority, cert, now, result)
      ensures r.Success? <==> Entitled(env, old(View()), order, authority, cert, now)
                              && result == Expected(BatchOf(old(View()), order, now))
    {
      BatchExactly(env, View(), order, authority, cert, now, result);
      hide BookInv, Flat, ValidOrder, Aggregate, DepthEntries, Slots, Slotted, Inputs, Settle;
      ghost var before := View();
      BatchKeeps(env, before, order, authority, cert, now, result);
      if !AuthorityVerifies(env, authority, order, now) {
        return Failure(Authority);
      }
      var e := CheckAdmission(order, authority.commitment, cert);
      if e.Some? {
        return Failure(e.value);
      }
      var batch := PrivateMatchBatch(order, now).value;
      var expected := ExpectedBatch(batch);
      if result != expected {
        return Failure(InvalidMpcResult);
      }
      var fills := ApplySlots(order, authority, now, batch.resting, result.slots);
      SweepLeftIsRestable(before, order, authority, now);
      SettleArrival(order, authority, cert, result.arrivingRemaining);
      return Success(Transition(cert, fills, result.arrivingRemaining));
    }

    /** One slot: if it matched, its order's remainder is set and the fill recorded. The lookup cannot fail. */
    method ApplySlot(side: Side, resting: RestingInput, slot: SlotResult, taker: Digest32)
      returns (fills: seq<PublicFill>)
      requires Keyed(bids) && Keyed(asks) && Distinct(View().On(side)) && Distinct(View().On(side.Opposite()))
      requires Rests(View().On(side), resting.commitment) && !Rests(View().On(side.Opposite()), resting.commitment)
      requires slot.tradeQuantity <= resting.quantity
      modifies this`bids, this`asks
      ensures Keyed(bids) && Keyed(asks)
      ensures View() == if !slot.matched then old(View())
                        else old(View()).With(side, SetRemaining(old(View().On(side)), resting.commitment,
                                                                 resting.quantity - slot.tradeQuantity))
      ensures fills == if slot.matched
                       then [PublicFill(resting.commitment, taker, slot.tradePrice, slot.tradeQuantity)] else []
    {
      hide Flat, SetRemaining, Rests, Keyed, Distinct;
      fills := [];
      if slot.matched {
        var remaining := resting.quantity - slot.tradeQuantity;
        SetRemainingAbsent(View().On(side.Opposite()), resting.commitment, remaining);
        var found := UpdateRemainder(resting.commitment, remaining);
        if !found {
          assert false;
        }
        fills := [PublicFill(resting.commitment, taker, slot.tradePrice, slot.tradeQuantity)];
      }
    }

    /**
     The fill loop: each matched slot sets one remainder by commitment. No lookup fails and
     no subtraction underflows, so nothing can stop it half-way.
     */
    method ApplySlots(order: SecretOrder, authority: OrderAuthority, now: nat,
                      resting: seq<RestingInput>, slots: seq<SlotResult>) returns (fills: seq<PublicFill>)
      requires Valid()
      requires resting == BatchOf(View(), order, now).resting
      requires slots == Slots(BatchOf(View(), order, now), resting, order.quantity)
      modifies this`bids, this`asks
      ensures Keyed(bids) && Keyed(asks)
      ensures View() == old(View()).With(order.side.Opposite(), SweepOf(old(View()), order, authority, now).rest)
      ensures fills == SweepOf(old(View()), order, authority, now).fills
    {
      hide BookInv, Flat, Slots, Slotted, Inputs, SetRemaining, Rests, SetAll, UpdatesOf, FillsOf;
      hide Pending, Keyed, Distinct, Answers;
      ghost var before := View();
      var side := order.side.Opposite();
      ghost var own := before.On(order.side);
      ghost var w := SweepOf(before, order, authority, now);
      SlotsReady(before, order, authority, now);
      fills := [];
      assert resting[0..] == resting && slots[0..] == slots;
      for n := 0 to |resting|
        invariant Keyed(bids) && Keyed(asks)
        invariant View() == before.With(side, View().On(side)) && View().On(order.side) == own
        invariant Pending(View().On(side), own, resting[n..], slots[n..]) && Answers(resting[n..], slots[n..])
        invariant SetAll(View().On(side), UpdatesOf(resting[n..], slots[n..])) == w.rest
        invariant fills + FillsOf(authority.commitment, resting[n..], slots[n..]) == w.fills
      {
        ghost var current := View().On(side);
        PendingStep(current, own, resting, slots, n);
        FillsStep(authority.commitment, resting, slots, n);
        var made := ApplySlot(side, resting[n], slots[n], authority.commitment);
        fills := fills + made;
      }
      assert resting[|resting|..] == [] && slots[|slots|..] == [];
      NoSlotsLeft(View().On(side), authority.commitment);
    }

    method ApplyMpcResult(order: SecretOrder, authority: OrderAuthority, cert: nat, now: U64, result: MatchResult)
      returns (r: Result<Transition>)
      requires Valid() && ValidOrder(order)
      modifies this
      ensures Valid() && Step(r, View()) == ApplySingle(env, old(View()), order, authority, cert, now, result)
      ensures r.Success? <==> Entitled(env, old(View()), order, authority, cert, now)
                              && SingleAnswer(old(View()), order, result)
    {
      SingleExactly(env, View(), order, authority, cert, now, result);
      hide BookInv, Flat, ValidOrder, Settle;
      SingleKeeps(env, View(), order, authority, cert, now, result);
      if !AuthorityVerifies(env, authority, order, now) {
        return Failure(Authority);
      }
      var e := CheckAdmission(order, authority.commitment, cert);
      if e.Some? {
        return Failure(e.value);
      }
      var expected := ExpectedResult(order);
      if result != expected {
        return Failure(InvalidMpcResult);
      }
      var fills := [];
      if result.matched {
        var maker := FillBest(order.side.Opposite(), result.tradeQuantity);
        fills := [PublicFill(maker, authority.commitment, result.tradePrice, result.tradeQuantity)];
      }
      SettleArrival(order, authority, cert, result.arrivingRemaining);
      return Success(Transition(cert, fills, result.arrivingRemaining));
    }

    /** The front of the best price's queue. */
    method BestOpposite(side: Side) returns (r: Option<Resting>)
      requires Keyed(Side(side))
      ensures r == if View().On(side) == [] then None else Some(View().On(side)[0])
    {
      if Side(side) == map[] {
        return None;
      }
      var price := Best(side, Side(side).Keys);
      FlatUnfold(side, Side(side), price);
      return Some(Side(side)[price][0]);
    }

    method ExpectedResult(order: SecretOrder) returns (r: MatchResult)
      requires Valid()
      ensures r == ExpectedSingle(View(), order)
    {
      hide BookInv, Flat;
      var best := BestOpposite(order.side.Opposite());
      if best.None? {
        return MatchResult(false, 0, 0, 0, order.quantity);
      }
      var resting := best.value;
      var crossed := Crosses(order.side, order.limitPrice, resting.Price());
      var quantity := if crossed then Min(order.quantity, resting.remaining) else 0;
      return MatchResult(crossed, if crossed then resting.Price() else 0, quantity,
                         resting.remaining - quantity, order.quantity - quantity);
    }

    /** Takes `quantity` from the front of the best queue, popping it and its price when they run out. */
    method FillBest(side: Side, quantity: nat) returns (maker: Digest32)
      requires Keyed(bids) && Keyed(asks)
      requires View().On(side) != [] && quantity <= View().On(side)[0].remaining
      modifies this`bids, this`asks
      ensures Keyed(bids) && Keyed(asks)
      ensures maker == old(View().On(side))[0].Commitment()
      ensures View() == old(View()).With(side, Kept(old(View().On(side))[0], quantity) + old(View().On(side))[1..])
    {
      hide Flat;
      var levels := Side(side);
      SideIsFlat(side);
      FlatNonempty(side, levels);
      var price := Best(side, levels.Keys);
      BestFilled(side, levels, price, quantity);
      var queue := levels[price];
      maker := queue[0].Commitment();
      var left := queue[0].remaining - quantity;
      queue := if left == 0 then queue[1..] else queue[0 := queue[0].(remaining := left)];
      ReplaceKeyed(levels, price, queue);
      SetSide(side, if queue == [] then levels - {price} else levels[price := queue]);
    }

    method ApplyCancellation(cancellation: SecretCancellation, cert: nat) returns (r: Result<Cancelled>)
      requires Valid()
      modifies this
      ensures Valid() && Step(r, View()) == Cancel(env, old(View()), cancellation, cert)
      ensures r.Success? <==>
                && cert == old(sequence) + 1 && env.cancellationCommitment(cancellation) !in old(admitted)
                && SomeOpens(env, old(View()), cancellation)
    {
      CancelExactly(env, View(), cancellation, cert);
      hide BookInv, Flat, SetRemaining, FindOn;
      CancelKeeps(env, View(), cancellation, cert);
      if cert != sequence + 1 {
        return Failure(Invalid(SequenceNotNext));
      }
      var command := env.cancellationCommitment(cancellation);
      if command in admitted {
        return Failure(Replay);
      }
      var record := FindRecord(cancellation.target);
      if record.None? {
        return Failure(UnknownOrder);
      }
      if record.value.secret.cancellationSecretDigest != env.cancellationDigest(cancellation.secret) {
        return Failure(InvalidCancellation);
      }
      var found := RemoveByCommitment(cancellation.target);
      admitted := admitted + {command};
      sequence := cert;
      return Success(Cancelled(cert, command, cancellation.target, record.value.remaining));
    }

    method RemoveByCommitment(commitment: Digest32) returns (found: bool)
      requires Valid()
      modifies this`bids, this`asks
      ensures Valid() && View() == Drop(old(View()), commitment)
      ensures found == Find(old(View()), commitment).Some?
    {
      hide Flat, SetRemaining, FindOn;
      DropKeeps(View(), commitment);
      FindRests(View().bids, commitment);
      FindRests(View().asks, commitment);
      found := UpdateRemainder(commitment, 0);
    }

    /**
     The removal loop changes the book as it goes. Its lookups never fail, but the released
     total can leave 64 bits, and then the orders already removed stay removed.
     */
    method ApplyExpiry(cutoff: U64, command: Digest32, cert: nat) returns (r: Result<ExpiryDone>)
      requires Valid()
      modifies this
      ensures Valid() && Step(r, View()) == Expire(env, old(View()), cutoff, command, cert)
      ensures r.Success? ==> r.value.sequence == cert == old(sequence) + 1 && r.value.cutoff == cutoff
                             && r.value.expiredOrders == ExpiredCommitments(old(View()), cutoff)
                             && View().bids == Live(old(View()).bids, cutoff)
                             && View().asks == Live(old(View()).asks, cutoff)
    {
      hide BookInv, Flat, SetRemaining, FindOn, Names, ExpireAll, ExpiredOn, SortDigests, Live;
      ExpireSurvivors(env, View(), cutoff, command, cert);
      ghost var before := View();
      ExpireKeeps(env, before, cutoff, command, cert);
      if cert != sequence + 1 {
        return Failure(Invalid(SequenceNotNext));
      }
      if command in admitted {
        return Failure(Replay);
      }
      var orders := SortDigests(ExpiredOn(Flat(Buy, bids), cutoff) + ExpiredOn(Flat(Sell, asks), cutoff));
      if orders == [] || command != env.expiryCommitment(marketId, cutoff, orders) {
        return Failure(Invalid(ExpiryNotCanonical));
      }
      ExpiredCommitmentsExact(before, cutoff);
      var released: nat := 0;
      assert orders[0..] == orders;
      for n := 0 to |orders|
        invariant Valid() && Names(View(), cutoff, orders[n..]) && released <= U64_MAX
        invariant ExpireAll(View(), orders[n..], released) == ExpireAll(before, orders, 0)
        invariant View().sequence == before.sequence && View().admitted == before.admitted
      {
        assert orders[n..][0] == orders[n] && orders[n..][1..] == orders[n + 1..];
        DropNamed(View(), cutoff, orders[n..]);
        ExpireAllStep(View(), orders, n, released);
        var record := FindRecord(orders[n]);
        if released + record.value.remaining > U64_MAX {
          return Failure(Invalid(ExpiredQuantityOverflowed));
        }
        released := released + record.value.remaining;
        var found := RemoveByCommitment(orders[n]);
      }
      ExpireAllEnd(View(), orders, released);
      admitted := admitted + {command};
      sequence := cert;
      return Success(ExpiryDone(cert, cutoff, orders, released));
    }
  }

  lemma ExpireSurvivors(env: Env, b: Book, cutoff: U64, command: Digest32, cert: nat)
    requires BookInv(b)
    ensures var s := Expire(env, b, cutoff, command, cert);
            s.result.Success? ==>
              && s.result.value.sequence == cert == b.sequence + 1 && s.result.value.cutoff == cutoff
              && s.result.value.expiredOrders == ExpiredCommitments(b, cutoff)
              && s.book.bids == Live(b.bids, cutoff) && s.book.asks == Live(b.asks, cutoff)
  {
    hide BookInv, Expire, ExpiredCommitments, Live;
    ExpireExactly(env, b, cutoff, command, cert);
  }

  lemma ExpireAllStep(b: Book, orders: seq<Digest32>, n: nat, released: nat)
    requires n < |orders| && Find(b, orders[n]).Some?
    ensures var q := Find(b, orders[n]).value.remaining;
            ExpireAll(b, orders[n..], released)
            == if released + q > U64_MAX then Step(Failure(Invalid(ExpiredQuantityOverflowed)), b)
               else ExpireAll(Drop(b, orders[n]), orders[n + 1..], released + q)
  {
    assert orders[n..][0] == orders[n] && orders[n..][1..] == orders[n + 1..];
  }

  lemma ExpireAllEnd(b: Book, orders: seq<Digest32>, released: nat)
    ensures ExpireAll(b, orders[|orders|..], released) == Step(Success(released), b)
  {
  }

  /** How the count of unbounded fills unfolds along a ranked side. */
  lemma FillCountStep(t: Taker, s: seq<Resting>, n: nat, left: nat)
    requires n < |s| && Ranked(t.side.Opposite(), s)
    ensures var count := |Greedy(t, s[n..], left).fills|;
            if Expired(s[n], t.now) then count == |Greedy(t, s[n + 1..], left).fills|
            else if !Crosses(t.side, t.price, s[n].Price()) || left == 0 then count == 0
            else count == 1 + |Greedy(t, s[n + 1..], left - Min(left, s[n].remaining)).fills|
  {
    assert s[n..][0] == s[n] && s[n..][1..] == s[n + 1..];
    if !Expired(s[n], t.now) && (!Crosses(t.side, t.price, s[n].Price()) || left == 0) {
      if left > 0 {
        NoneCrossBehind(t, s[n..]);
      }
      GreedyStops(t, s[n..], left);
    }
  }

  lemma FlatNonempty(side: Side, m: Levels)
    requires Flat(side, m) != []
    ensures m != map[]
  {
  }

  /** Taking from the front of the best queue takes from the head of the ranked list. */
  lemma BestFilled(side: Side, m: Levels, k: nat, q: nat)
    requires Keyed(m) && k in m && forall j :: j in m ==> j == k || Better(side, k, j)
    requires Flat(side, m) != [] && q <= Flat(side, m)[0].remaining
    ensures Flat(side, m)[0] == m[k][0]
    ensures var front := m[k][0];
            var queue := if front.remaining - q == 0 then m[k][1..]
                         else m[k][0 := front.(remaining := front.remaining - q)];
            Flat(side, Replace(m, k, queue)) == Kept(Flat(side, m)[0], q) + Flat(side, m)[1..]
  {
    hide Flat;
    FlatUnfold(side, m, k);
    var front := m[k][0];
    var queue := if front.remaining - q == 0 then m[k][1..]
                 else m[k][0 := front.(remaining := front.remaining - q)];
    BestReplaced(side, m, k, queue);
    KeptFront(m[k], Flat(side, m - {k}), q);
  }

  lemma KeptFront(queue: seq<Resting>, behind: seq<Resting>, q: nat)
    requires queue != [] && q <= queue[0].remaining
    ensures (queue + behind)[0] == queue[0]
    ensures Kept(queue[0], q) + (queue + behind)[1..]
         == (if queue[0].remaining - q == 0 then queue[1..]
             else queue[0 := queue[0].(remaining := queue[0].remaining - q)]) + behind
  {
    assert (queue + behind)[1..] == queue[1..] + behind;
    if q < queue[0].remaining {
      var r := queue[0].(remaining := queue[0].remaining - q);
      assert queue[0 := r] == [r] + queue[1..];
    }
  }

  lemma BestReplaced(side: Side, m: Levels, k: nat, queue: seq<Resting>)
    requires k in m && forall j :: j in m ==> j == k || Better(side, k, j)
    ensures Flat(side, Replace(m, k, queue)) == queue + Flat(side, m - {k})
  {
    hide Flat;
    FlatReplace(side, m, k, queue);
    assert Ahead(side, m, k) == map[];
    assert Behind(side, m, k) == m - {k};
    FlatEmpty(side);
  }

  lemma FlatEmpty(side: Side)
    ensures Flat(side, map[]) == []
  {
  }

  // ---------------------------------------------------------------- the fill loop's invariant

  /** The slots still to do: their orders rest, once each and on one side only. */
  ghost predicate Pending(current: seq<Resting>, own: seq<Resting>, inputs: seq<RestingInput>, slots: seq<SlotResult>) {
    && Answers(inputs, slots) && Distinct(current) && Distinct(own)
    && (forall i :: 0 <= i < |inputs| ==> Rests(current, inputs[i].commitment) && !Rests(own, inputs[i].commitment))
    && (forall i, j :: 0 <= i < j < |inputs| ==> inputs[i].commitment != inputs[j].commitment)
  }

  lemma {:induction false} InputsRest(s: seq<Resting>, now: nat, k: nat, i: nat)
    requires i < |Inputs(s, now, k)|
    ensures Rests(s, Inputs(s, now, k)[i].commitment)
  {
    if Expired(s[0], now) {
      InputsRest(s[1..], now, k, i);
    } else if i > 0 {
      InputsRest(s[1..], now, k - 1, i - 1);
    }
  }

  lemma {:induction false} InputsDistinct(s: seq<Resting>, now: nat, k: nat, i: nat, j: nat)
    requires Distinct(s) && i < j < |Inputs(s, now, k)|
    ensures Inputs(s, now, k)[i].commitment != Inputs(s, now, k)[j].commitment
  {
    if Expired(s[0], now) {
      InputsDistinct(s[1..], now, k, i, j);
    } else if i > 0 {
      InputsDistinct(s[1..], now, k - 1, i - 1, j - 1);
    } else {
      InputsRest(s[1..], now, k - 1, j - 1);
    }
  }

  lemma SlotsReady(b: Book, order: SecretOrder, authority: OrderAuthority, now: nat)
    requires BookInv(b)
    ensures var inputs := BatchOf(b, order, now).resting;
            var slots := Slots(BatchOf(b, order, now), inputs, order.quantity);
            var w := SweepOf(b, order, authority, now);
            && Pending(b.On(order.side.Opposite()), b.On(order.side), inputs, slots) && Answers(inputs, slots)
            && SetAll(b.On(order.side.Opposite()), UpdatesOf(inputs, slots)) == w.rest
            && FillsOf(authority.commitment, inputs, slots) == w.fills
  {
    var side := order.side.Opposite();
    var s := b.On(side);
    var inputs := BatchOf(b, order, now).resting;
    OpenSide(b, side);
    OpenSide(b, order.side);
    BatchIsSweep(TakerOf(order, authority, now), s, order.quantity, MAX_MATCH_SLOTS, BatchOf(b, order, now));
    forall i | 0 <= i < |inputs|
      ensures Rests(s, inputs[i].commitment) && !Rests(b.On(order.side), inputs[i].commitment)
    {
      InputsRest(s, now, MAX_MATCH_SLOTS, i);
    }
    forall i, j | 0 <= i < j < |inputs| ensures inputs[i].commitment != inputs[j].commitment {
      InputsDistinct(s, now, MAX_MATCH_SLOTS, i, j);
    }
  }

  lemma {:induction false} SetRemainingKeepsOthers(s: seq<Resting>, c: Digest32, remaining: nat, d: Digest32)
    requires c != d
    ensures Rests(SetRemaining(s, c, remaining), d) <==> Rests(s, d)
  {
    if s != [] {
      var s' := SetRemaining(s, c, remaining);
      if s[0].Commitment() == c {
        assert s'[if remaining == 0 then 0 else 1..] == s[1..];
      } else {
        SetRemainingKeepsOthers(s[1..], c, remaining, d);
        assert s'[1..] == SetRemaining(s[1..], c, remaining);
      }
    }
  }

  lemma {:induction false} SetRemainingDistinct(s: seq<Resting>, c: Digest32, remaining: nat)
    requires Distinct(s)
    ensures Distinct(SetRemaining(s, c, remaining))
  {
    if s != [] {
      var s' := SetRemaining(s, c, remaining);
      if s[0].Commitment() == c {
        assert s'[if remaining == 0 then 0 else 1..] == s[1..];
      } else {
        SetRemainingDistinct(s[1..], c, remaining);
        SetRemainingKeepsOthers(s[1..], c, remaining, s[0].Commitment());
        assert s'[1..] == SetRemaining(s[1..], c, remaining);
      }
    }
  }

  lemma PendingNext(current: seq<Resting>, own: seq<Resting>, inputs: seq<RestingInput>, slots: seq<SlotResult>)
    requires inputs != [] && Pending(current, own, inputs, slots)
    ensures Pending(current, own, inputs[1..], slots[1..])
    ensures var remaining := inputs[0].quantity - slots[0].tradeQuantity;
            Pending(SetRemaining(current, inputs[0].commitment, remaining), own, inputs[1..], slots[1..])
  {
    hide SetRemaining, Rests, Distinct;
    var c, remaining := inputs[0].commitment, inputs[0].quantity - slots[0].tradeQuantity;
    SetRemainingDistinct(current, c, remaining);
    forall j | 0 <= j < |inputs[1..]| ensures Rests(SetRemaining(current, c, remaining), inputs[1..][j].commitment) {
      assert inputs[1..][j] == inputs[j + 1];
      SetRemainingKeepsOthers(current, c, remaining, inputs[j + 1].commitment);
    }
  }

  lemma PendingStep(current: seq<Resting>, own: seq<Resting>, inputs: seq<RestingInput>, slots: seq<SlotResult>, n: nat)
    requires n < |inputs| == |slots| && Pending(current, own, inputs[n..], slots[n..])
    ensures slots[n].tradeQuantity <= inputs[n].quantity
    ensures Distinct(current) && Distinct(own)
    ensures Rests(current, inputs[n].commitment) && !Rests(own, inputs[n].commitment)
    ensures var u := Update(inputs[n].commitment, inputs[n].quantity - slots[n].tradeQuantity);
            var next := if slots[n].matched then SetRemaining(current, u.commitment, u.remaining) else current;
            && Pending(next, own, inputs[n + 1..], slots[n + 1..]) && Answers(inputs[n + 1..], slots[n + 1..])
            && SetAll(current, UpdatesOf(inputs[n..], slots[n..]))
               == SetAll(next, UpdatesOf(inputs[n + 1..], slots[n + 1..]))
  {
    hide SetRemaining, Rests, Distinct;
    var i, s := inputs[n..], slots[n..];
    assert i[0] == inputs[n] && s[0] == slots[n];
    assert i[1..] == inputs[n + 1..] && s[1..] == slots[n + 1..];
    PendingNext(current, own, i, s);
    SetFirst(current, i, s);
  }

  lemma SetFirst(current: seq<Resting>, inputs: seq<RestingInput>, slots: seq<SlotResult>)
    requires inputs != [] && Answers(inputs, slots)
    ensures var remaining := inputs[0].quantity - slots[0].tradeQuantity;
            var next := if slots[0].matched then SetRemaining(current, inputs[0].commitment, remaining) else current;
            && Answers(inputs[1..], slots[1..])
            && SetAll(current, UpdatesOf(inputs, slots)) == SetAll(next, UpdatesOf(inputs[1..], slots[1..]))
  {
    hide SetRemaining;
    var updates := UpdatesOf(inputs[1..], slots[1..]);
    if slots[0].matched {
      var u := Update(inputs[0].commitment, inputs[0].quantity - slots[0].tradeQuantity);
      assert UpdatesOf(inputs, slots) == [u] + updates;
      assert ([u] + updates)[1..] == updates;
    } else {
      assert UpdatesOf(inputs, slots) == updates;
    }
  }

  lemma NoSlotsLeft(s: seq<Resting>, taker: Digest32)
    ensures SetAll(s, UpdatesOf([], [])) == s && FillsOf(taker, [], []) == []
  {
  }

  lemma FillsStep(taker: Digest32, inputs: seq<RestingInput>, slots: seq<SlotResult>, n: nat)
    requires n < |inputs| == |slots|
    ensures FillsOf(taker, inputs[n..], slots[n..])
         == (if slots[n].matched
             then [PublicFill(inputs[n].commitment, taker, slots[n].tradePrice, slots[n].tradeQuantity)] else [])
            + FillsOf(taker, inputs[n + 1..], slots[n + 1..])
  {
    assert inputs[n..][1..] == inputs[n + 1..] && slots[n..][1..] == slots[n + 1..];
  }

  /** What the answer says may rest is what the sweep leaves of a good-til-cancelled arrival. */
  lemma SweepLeftIsRestable(b: Book, order: SecretOrder, authority: OrderAuthority, now: nat)
    requires BookInv(b)
    ensures var w := SweepOf(b, order, authority, now);
            var shown := Restable(BatchOf(b, order, now));
            && shown == (if order.timeInForce == GoodTilCancelled then w.left else 0)
            && forall c: Book :: Settle(c, order, authority, shown) == Settle(c, order, authority, w.left)
  {
    hide BookInv, Rest;
    var s := b.On(order.side.Opposite());
    OpenSide(b, order.side.Opposite());
    BatchIsSweep(TakerOf(order, authority, now), s, order.quantity, MAX_MATCH_SLOTS, BatchOf(b, order, now));
  }

  // ---------------------------------------------------------------- queues of a valid book

  lemma QueuesOnSide(side: Side, m: Levels)
    requires Keyed(m) && AllOpen(Flat(side, m))
    requires forall i :: 0 <= i < |Flat(side, m)| ==> Flat(side, m)[i].secret.side == side
    ensures OnSide(m, side)
  {
    hide Flat, Keyed, Ahead, Behind;
    forall p | p in m ensures AllOpen(m[p]) && forall i :: 0 <= i < |m[p]| ==> m[p][i].secret.side == side {
      FlatAround(side, m, p);
      var a := Flat(side, Ahead(side, m, p));
      assert forall i :: 0 <= i < |m[p]| ==> Flat(side, m)[|a| + i] == m[p][i];
    }
  }

  /** In a valid book the queue of a price is in strict certificate order. */
  lemma QueuesInCertificateOrder(side: Side, m: Levels, p: nat, i: nat, j: nat)
    requires Keyed(m) && Ranked(side, Flat(side, m)) && p in m && i < j < |m[p]|
    ensures m[p][i].sequence < m[p][j].sequence
  {
    hide Flat;
    FlatAround(side, m, p);
    var a := Flat(side, Ahead(side, m, p));
    assert Flat(side, m)[|a| + i] == m[p][i] && Flat(side, m)[|a| + j] == m[p][j];
    assert Before(side, m[p][i], m[p][j]);
  }
}
