/** When the single-slot transition and the batch transition do the same, exactly. */
module SingleSlot {
  import opened Orders
  import opened Matching
  import opened Batch
  import opened BookModel

  /** A live order of `s` that the arrival crosses. */
  ghost predicate SomeCross(t: Taker, s: seq<Resting>) {
    exists i :: 0 <= i < |s| && !Expired(s[i], t.now) && Crosses(t.side, t.price, s[i].Price())
  }

  /**
   The best opposite order is absent, or does not cross, or it is live and either absorbs
   the whole arrival or hides no second live order that crosses.
   */
  ghost predicate OneSlotSuffices(b: Book, order: SecretOrder, now: nat) {
    var s := b.On(order.side.Opposite());
    || s == []
    || !Crosses(order.side, order.limitPrice, s[0].Price())
    || (&& !Expired(s[0], now)
        && (s[0].remaining >= order.quantity || !SomeCross(Taker(order.side, order.limitPrice, now, 0), s[1..])))
  }

  lemma {:induction false} NothingToTrade(t: Taker, s: seq<Resting>, left: nat, slots: nat)
    requires !SomeCross(t, s)
    ensures Slotted(t, s, left, slots) == Sweep([], left, s)
  {
    if s != [] && slots > 0 {
      assert Expired(s[0], t.now) || !Crosses(t.side, t.price, s[0].Price());
      NothingToTrade(t, s[1..], left, if Expired(s[0], t.now) then slots else slots - 1);
    }
  }

  lemma {:induction false} SomethingTrades(t: Taker, s: seq<Resting>, left: nat, slots: nat)
    requires Ranked(t.side.Opposite(), s) && SomeCross(t, s) && left > 0 && slots > 0
    ensures Slotted(t, s, left, slots).fills != []
  {
    var i :| 0 <= i < |s| && !Expired(s[i], t.now) && Crosses(t.side, t.price, s[i].Price());
    if Expired(s[0], t.now) {
      assert s[1..][i - 1] == s[i];
      SomethingTrades(t, s[1..], left, slots);
    } else if !Crosses(t.side, t.price, s[0].Price()) {
      NoneCrossBehind(t, s);
      assert false;
    }
  }

  lemma {:induction false} MakersRest(t: Taker, s: seq<Resting>, left: nat, slots: nat)
    requires Slotted(t, s, left, slots).fills != []
    ensures Rests(s, Slotted(t, s, left, slots).fills[0].makerOrder)
  {
    if Expired(s[0], t.now) {
      MakersRest(t, s[1..], left, slots);
    } else if !Crosses(t.side, t.price, s[0].Price()) || left == 0 {
      MakersRest(t, s[1..], left, slots - 1);
    }
  }

  /** The head crosses and is live: both trade it, and they differ only behind it. */
  lemma LiveHead(t: Taker, s: seq<Resting>, left: nat)
    requires Ranked(t.side.Opposite(), s) && s != [] && left > 0
    requires !Expired(s[0], t.now) && Crosses(t.side, t.price, s[0].Price())
    ensures var q := Min(left, s[0].remaining);
            var w := Slotted(t, s, left, MAX_MATCH_SLOTS);
            var once := Sweep([PublicFill(s[0].Commitment(), t.commitment, s[0].Price(), q)], left - q,
                              Kept(s[0], q) + s[1..]);
            if s[0].remaining >= left || !SomeCross(t, s[1..]) then w == once else w.fills != once.fills
  {
    var q := Min(left, s[0].remaining);
    if left - q == 0 {
      SlottedStops(t, s[1..], 0, MAX_MATCH_SLOTS - 1);
    } else if !SomeCross(t, s[1..]) {
      NothingToTrade(t, s[1..], left - q, MAX_MATCH_SLOTS - 1);
    } else {
      SomethingTrades(t, s[1..], left - q, MAX_MATCH_SLOTS - 1);
      assert |Slotted(t, s, left, MAX_MATCH_SLOTS).fills| > 1;
    }
  }

  lemma SweepsAgreeExactly(b: Book, order: SecretOrder, authority: OrderAuthority, now: nat)
    requires BookInv(b) && order.quantity > 0
    ensures SingleSweep(b, order, authority).fills == SweepOf(b, order, authority, now).fills
       <==> OneSlotSuffices(b, order, now)
    ensures OneSlotSuffices(b, order, now) ==> SingleSweep(b, order, authority) == SweepOf(b, order, authority, now)
  {
    hide BookInv;
    var s, t := b.On(order.side.Opposite()), TakerOf(order, authority, now);
    OpenSide(b, order.side.Opposite());
    if s == [] {
    } else if !Crosses(order.side, order.limitPrice, s[0].Price()) {
      NoneCrossBehind(t, s);
      SlottedStops(t, s, order.quantity, MAX_MATCH_SLOTS);
    } else if Expired(s[0], now) {
      if SweepOf(b, order, authority, now).fills != [] {
        MakersRest(t, s[1..], order.quantity, MAX_MATCH_SLOTS);
      }
    } else {
      LiveHead(t, s, order.quantity);
    }
  }

  /**
   Accepted with their own answers from the same book, the two transitions make the same
   fills exactly when one slot suffices, and then they leave the same book.
   */
  lemma SingleEqualsBatchExactly(env: Env, b: Book, order: SecretOrder, authority: OrderAuthority, cert: nat, now: U64,
                                 single: MatchResult, batch: BatchResult)
    requires BookInv(b) && ValidOrder(order)
    requires ApplySingle(env, b, order, authority, cert, now, single).result.Success?
    requires ApplyBatch(env, b, order, authority, cert, now, batch).result.Success?
    ensures var x := ApplySingle(env, b, order, authority, cert, now, single);
            var y := ApplyBatch(env, b, order, authority, cert, now, batch);
            && (x.result.value.fills == y.result.value.fills <==> OneSlotSuffices(b, order, now))
            && (OneSlotSuffices(b, order, now) ==> x.book == y.book)
  {
    hide BookInv, OneSlotSuffices, Slotted, Expected;
    SweepsAgreeExactly(b, order, authority, now);
    assert SingleSweep(b, order, authority).left == ExpectedSingle(b, order).arrivingRemaining;
  }
}
