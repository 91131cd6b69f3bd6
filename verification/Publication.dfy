/** The public snapshot of the book, and how the depth a batch emits compares with it. */
module Publication {
  import opened Orders
  import opened Matching
  import opened Depth
  import opened Batch
  import opened BookModel

  ghost function Entries(s: seq<Resting>): seq<PriceLevel> {
    if s == [] then [] else [PriceLevel(s[0].secret.side, s[0].Price(), s[0].remaining)] + Entries(s[1..])
  }

  ghost function BookEntries(b: Book): seq<PriceLevel> {
    Entries(b.bids) + Entries(b.asks)
  }

  /** The true depth: one level per side and price, bids from the highest, then asks from the lowest. */
  ghost function SnapshotLevels(b: Book): seq<PriceLevel> {
    Aggregate(BookEntries(b))
  }

  /** The depth as the program shows it, summed in 64 bits. */
  ghost function ShownLevels(b: Book): seq<PriceLevel> {
    Wrapped(SnapshotLevels(b))
  }

  /** No side and price holds more than 64 bits can count. A caller can compute it. */
  ghost predicate LevelsFit(b: Book) {
    DepthFits(BookEntries(b))
  }

  lemma {:induction false} EntriesOpen(s: seq<Resting>)
    requires AllOpen(s)
    ensures forall i :: 0 <= i < |Entries(s)| ==> Entries(s)[i].quantity > 0
  {
    if s != [] {
      EntriesOpen(s[1..]);
    }
  }

  lemma {:induction false} EntriesConcat(a: seq<Resting>, b: seq<Resting>)
    ensures Entries(a + b) == Entries(a) + Entries(b)
  {
    if a == [] {
      assert a + b == b;
    } else {
      assert (a + b)[1..] == a[1..] + b;
      EntriesConcat(a[1..], b);
    }
  }

  lemma SnapshotFacts(b: Book)
    requires BookInv(b)
    ensures Canonical(SnapshotLevels(b))
    ensures forall side, price :: DepthAt(SnapshotLevels(b), side, price)
              == DepthAt(Entries(b.bids), side, price) + DepthAt(Entries(b.asks), side, price)
  {
    hide BookInv;
    OpenSide(b, Buy);
    OpenSide(b, Sell);
    EntriesOpen(b.bids);
    EntriesOpen(b.asks);
    AggregateFacts(BookEntries(b));
    forall side, price
      ensures DepthAt(SnapshotLevels(b), side, price)
           == DepthAt(Entries(b.bids), side, price) + DepthAt(Entries(b.asks), side, price)
    {
      DepthAtConcat(Entries(b.bids), Entries(b.asks), side, price);
    }
  }

  /** The program shows the true depth exactly when every sum fits. */
  lemma SnapshotExactly(b: Book)
    requires BookInv(b)
    ensures ShownLevels(b) == SnapshotLevels(b) <==> LevelsFit(b)
  {
    hide BookInv, Aggregate;
    OpenSide(b, Buy);
    OpenSide(b, Sell);
    EntriesOpen(b.bids);
    EntriesOpen(b.asks);
    WrappedExactly(BookEntries(b));
  }

  lemma {:induction false} InsertDepth(side: Side, s: seq<Resting>, r: Resting, at: Side, price: nat)
    ensures DepthAt(Entries(InsertRanked(side, s, r)), at, price)
         == DepthAt(Entries(s), at, price) + if r.secret.side == at && r.Price() == price then r.remaining else 0
  {
    if s == [] || Better(side, r.Price(), s[0].Price()) {
      assert InsertRanked(side, s, r)[1..] == s;
      assert Entries(InsertRanked(side, s, r))[1..] == Entries(s);
    } else {
      InsertDepth(side, s[1..], r, at, price);
      assert InsertRanked(side, s, r)[1..] == InsertRanked(side, s[1..], r);
      assert Entries(InsertRanked(side, s, r))[1..] == Entries(InsertRanked(side, s[1..], r));
      assert Entries(s)[1..] == Entries(s[1..]);
    }
  }

  ghost predicate AllLive(s: seq<Resting>, now: nat) {
    forall i :: 0 <= i < |s| ==> !Expired(s[i], now)
  }

  /** The resting orders that get no slot: expired ones, and whatever is behind the last slot. */
  function Unseen(s: seq<Resting>, now: nat, k: nat): seq<Resting> {
    if s == [] || k == 0 then s
    else if Expired(s[0], now) then [s[0]] + Unseen(s[1..], now, k)
    else Unseen(s[1..], now, k - 1)
  }

  lemma {:induction false} NoneUnseenExactly(s: seq<Resting>, now: nat, k: nat)
    ensures Unseen(s, now, k) == [] <==> |s| <= k && AllLive(s, now)
  {
    if s != [] && k > 0 && !Expired(s[0], now) {
      NoneUnseenExactly(s[1..], now, k - 1);
      assert s == [s[0]] + s[1..];
    }
  }

  lemma {:induction false} UnseenOpen(s: seq<Resting>, now: nat, k: nat)
    requires AllOpen(s)
    ensures AllOpen(Unseen(s, now, k))
  {
    if s != [] && k > 0 {
      UnseenOpen(s[1..], now, if Expired(s[0], now) then k else k - 1);
    }
  }

  /** What the sweep leaves resting is the circuit's residue and the orders it never saw. */
  lemma {:induction false} RestIsResidueAndUnseen(t: Taker, s: seq<Resting>, left: nat, k: nat, batch: MatchBatch,
                                                  at: Side, price: nat)
    requires batch.arrivingSide == t.side && batch.arrivingPrice == t.price
    requires AllOpen(s)
    requires forall i :: 0 <= i < |s| ==> s[i].secret.side == t.side.Opposite()
    ensures var inputs := Inputs(s, t.now, k);
            var slots := Slots(batch, inputs, left);
            && Answers(inputs, slots)
            && DepthAt(Entries(Slotted(t, s, left, k).rest), at, price)
               == DepthAt(Residue(inputs, slots), at, price) + DepthAt(Entries(Unseen(s, t.now, k)), at, price)
  {
    hide Residue, DepthAt, Entries, Slots, SlotFor, Min;
    var inputs := Inputs(s, t.now, k);
    SlotsAnswer(batch, inputs, left);
    if s == [] || k == 0 {
      NoResidue(inputs, Slots(batch, inputs, left), at, price);
    } else if Expired(s[0], t.now) {
      RestIsResidueAndUnseen(t, s[1..], left, k, batch, at, price);
      EntriesHead(s[0], Slotted(t, s[1..], left, k).rest, at, price);
      EntriesHead(s[0], Unseen(s[1..], t.now, k), at, price);
    } else {
      var slot := HeadSlot(t, s, left, k, batch);
      var rest := Slotted(t, s[1..], left - slot.tradeQuantity, k - 1).rest;
      RestIsResidueAndUnseen(t, s[1..], left - slot.tradeQuantity, k - 1, batch, at, price);
      ResidueHead(s[0], slot.tradeQuantity, rest, inputs, Slots(batch, inputs, left), at, price);
      assert slot.tradeQuantity == 0 ==> Kept(s[0], slot.tradeQuantity) == [s[0]];
    }
  }

  lemma NoResidue(inputs: seq<RestingInput>, slots: seq<SlotResult>, at: Side, price: nat)
    requires inputs == [] && Answers(inputs, slots)
    ensures DepthAt(Residue(inputs, slots), at, price) == 0
  {
  }

  lemma EntriesHead(r: Resting, s: seq<Resting>, at: Side, price: nat)
    ensures DepthAt(Entries([r] + s), at, price) == DepthAt(Entries([r]), at, price) + DepthAt(Entries(s), at, price)
  {
    EntriesConcat([r], s);
    DepthAtConcat(Entries([r]), Entries(s), at, price);
  }

  /** The first slot adds to the residue what its order keeps. */
  lemma ResidueSplit(r: Resting, q: nat, inputs: seq<RestingInput>, slots: seq<SlotResult>)
    returns (tail: seq<PriceLevel>)
    requires Answers(inputs, slots) && inputs != []
    requires q <= r.remaining && slots[0].tradeQuantity == q
    requires inputs[0] == RestingInput(r.Commitment(), r.secret.side, r.Price(), r.remaining)
    ensures Answers(inputs[1..], slots[1..]) && tail == Residue(inputs[1..], slots[1..])
    ensures Residue(inputs, slots) == Entries(Kept(r, q)) + tail
  {
    EntriesOfKept(r, q);
    tail := Residue(inputs[1..], slots[1..]);
  }

  lemma ResidueHead(r: Resting, q: nat, rest: seq<Resting>, inputs: seq<RestingInput>, slots: seq<SlotResult>,
                    at: Side, price: nat)
    requires Answers(inputs, slots) && inputs != []
    requires q <= r.remaining && slots[0].tradeQuantity == q
    requires inputs[0] == RestingInput(r.Commitment(), r.secret.side, r.Price(), r.remaining)
    ensures DepthAt(Residue(inputs, slots), at, price) + DepthAt(Entries(rest), at, price)
         == DepthAt(Entries(Kept(r, q) + rest), at, price) + DepthAt(Residue(inputs[1..], slots[1..]), at, price)
  {
    hide DepthAt, Residue, Entries, Kept, Answers;
    var tail := ResidueSplit(r, q, inputs, slots);
    EntriesConcat(Kept(r, q), rest);
    DepthAtConcat(Entries(Kept(r, q)), tail, at, price);
    DepthAtConcat(Entries(Kept(r, q)), Entries(rest), at, price);
  }

  lemma EntriesOfKept(r: Resting, q: nat)
    requires q <= r.remaining
    ensures Entries(Kept(r, q))
         == if q < r.remaining then [PriceLevel(r.secret.side, r.Price(), r.remaining - q)] else []
  {
  }

  /** What rests where the matcher does not look: the arrival's own side and the orders without a slot. */
  ghost function Hidden(b: Book, order: SecretOrder, now: nat): seq<PriceLevel> {
    Entries(b.On(order.side)) + Entries(Unseen(b.On(order.side.Opposite()), now, MAX_MATCH_SLOTS))
  }

  ghost predicate FullView(b: Book, order: SecretOrder, now: nat) {
    var s := b.On(order.side.Opposite());
    |s| <= MAX_MATCH_SLOTS && AllLive(s, now) && b.On(order.side) == []
  }

  lemma EntriesLength(s: seq<Resting>)
    ensures |Entries(s)| == |s|
  {
  }

  lemma FullViewExactly(b: Book, order: SecretOrder, now: nat)
    ensures FullView(b, order, now) <==> Hidden(b, order, now) == []
  {
    hide Entries, Unseen;
    NoneUnseenExactly(b.On(order.side.Opposite()), now, MAX_MATCH_SLOTS);
    EntriesLength(b.On(order.side));
    EntriesLength(Unseen(b.On(order.side.Opposite()), now, MAX_MATCH_SLOTS));
  }

  lemma HiddenOpen(b: Book, order: SecretOrder, now: nat)
    requires BookInv(b)
    ensures forall i :: 0 <= i < |Hidden(b, order, now)| ==> Hidden(b, order, now)[i].quantity > 0
  {
    hide BookInv, Unseen, Entries;
    OpenSide(b, order.side);
    OpenSide(b, order.side.Opposite());
    UnseenOpen(b.On(order.side.Opposite()), now, MAX_MATCH_SLOTS);
    EntriesOpen(b.On(order.side));
    EntriesOpen(Unseen(b.On(order.side.Opposite()), now, MAX_MATCH_SLOTS));
  }

  /** Nothing is lost between the two views: the depth left is what the matcher emits plus what it does not see. */
  lemma DepthLeft(b: Book, order: SecretOrder, authority: OrderAuthority, now: nat, at: Side, price: nat)
    requires BookInv(b)
    ensures var w := SweepOf(b, order, authority, now);
            var b' := Settle(b.With(order.side.Opposite(), w.rest), order, authority, w.left);
            DepthAt(Entries(b'.bids), at, price) + DepthAt(Entries(b'.asks), at, price)
            == DepthAt(DepthEntries(BatchOf(b, order, now)), at, price) + DepthAt(Hidden(b, order, now), at, price)
  {
    hide BookInv, Slotted, Slots, Residue, Entries, DepthAt, InsertRanked, Inputs, AllLive, LeftAfter, Unseen;
    var side, t := order.side.Opposite(), TakerOf(order, authority, now);
    var w, batch := SweepOf(b, order, authority, now), BatchOf(b, order, now);
    OpenSide(b, side);
    BatchIsSweep(t, b.On(side), order.quantity, MAX_MATCH_SLOTS, batch);
    RestIsResidueAndUnseen(t, b.On(side), order.quantity, MAX_MATCH_SLOTS, batch, at, price);
    DepthAtConcat(Residue(batch.resting, Slots(batch, batch.resting, batch.arrivingQuantity)), ArrivalEntry(batch),
                  at, price);
    DepthAtConcat(Entries(b.On(order.side)), Entries(Unseen(b.On(side), now, MAX_MATCH_SLOTS)), at, price);
    InsertDepth(order.side, b.On(order.side), Resting(order, authority, w.left, b.sequence + 1), at, price);
    ArrivalDepth(batch, at, price);
  }

  lemma ArrivalDepth(batch: MatchBatch, at: Side, price: nat)
    ensures DepthAt(ArrivalEntry(batch), at, price)
         == if at == batch.arrivingSide && price == batch.arrivingPrice then Restable(batch) else 0
  {
  }

  lemma EntriesPositive(batch: MatchBatch)
    ensures forall i :: 0 <= i < |DepthEntries(batch)| ==> DepthEntries(batch)[i].quantity > 0
  {
  }

  /** The same for the levels of an accepted batch and of the snapshot after it. */
  lemma SnapshotAfterBatch(env: Env, b: Book, order: SecretOrder, authority: OrderAuthority, cert: nat, now: U64,
                           result: BatchResult)
    requires BookInv(b) && ValidOrder(order)
    requires ApplyBatch(env, b, order, authority, cert, now, result).result.Success?
    ensures var b' := ApplyBatch(env, b, order, authority, cert, now, result).book;
            var exact := Aggregate(DepthEntries(BatchOf(b, order, now)));
            && Canonical(exact) && Canonical(SnapshotLevels(b')) && result.publicLevels == Some(Wrapped(exact))
            && forall side, price ::
                 DepthAt(SnapshotLevels(b'), side, price)
                 == DepthAt(exact, side, price) + DepthAt(Hidden(b, order, now), side, price)
  {
    hide BookInv, Slotted, DepthEntries, Aggregate, BookEntries, Settle, Hidden;
    var b' := ApplyBatch(env, b, order, authority, cert, now, result).book;
    var entries := DepthEntries(BatchOf(b, order, now));
    BatchKeeps(env, b, order, authority, cert, now, result);
    SnapshotFacts(b');
    EntriesPositive(BatchOf(b, order, now));
    AggregateFacts(entries);
    forall side, price
      ensures DepthAt(SnapshotLevels(b'), side, price)
           == DepthAt(Aggregate(entries), side, price) + DepthAt(Hidden(b, order, now), side, price)
    {
      DepthLeft(b, order, authority, now, side, price);
    }
  }

  /** Adding in 64 bits gives at least the first part exactly when the parts do not carry. */
  lemma CarryExactly(shown: nat, hidden: nat)
    ensures Wrap(shown) <= Wrap(shown + hidden) <==> Wrap(shown) + Wrap(hidden) <= U64_MAX
  {
    var s, h := Wrap(shown), Wrap(hidden);
    assert Wrap(shown + hidden) == Wrap(s + h);
    assert s + h > U64_MAX ==> Wrap(s + h) == s + h - WORD;
  }

  lemma SameWordExactly(shown: nat, hidden: nat)
    ensures Wrap(shown) == Wrap(shown + hidden) <==> Wrap(hidden) == 0
  {
    var s, h := Wrap(shown), Wrap(hidden);
    assert Wrap(shown + hidden) == Wrap(s + h);
    assert s + h > U64_MAX ==> Wrap(s + h) == s + h - WORD;
  }

  /** Nothing the matcher does not see can be told from the depth: whole words on prices it shows anyway. */
  ghost predicate HiddenVanishes(b: Book, order: SecretOrder, now: nat) {
    forall side, price ::
      && Wrap(DepthAt(Hidden(b, order, now), side, price)) == 0
      && (DepthAt(Hidden(b, order, now), side, price) > 0
          ==> DepthAt(DepthEntries(BatchOf(b, order, now)), side, price) > 0)
  }

  /**
   After an accepted batch, as 64-bit sums: an emitted level is at most the snapshot's level at
   that side and price exactly when it and the hidden depth there do not carry past 64 bits,
   and the two lists are equal exactly when the hidden depth vanishes.
   */
  lemma EmittedDepthExactly(env: Env, b: Book, order: SecretOrder, authority: OrderAuthority, cert: nat, now: U64,
                            result: BatchResult)
    requires BookInv(b) && ValidOrder(order)
    requires ApplyBatch(env, b, order, authority, cert, now, result).result.Success?
    ensures var shown := ShownLevels(ApplyBatch(env, b, order, authority, cert, now, result).book);
            && result.publicLevels.Some?
            && var emitted := result.publicLevels.value;
            && (forall i :: 0 <= i < |emitted| ==>
                  (emitted[i].quantity <= DepthAt(shown, emitted[i].side, emitted[i].price) <==>
                   emitted[i].quantity + Wrap(DepthAt(Hidden(b, order, now), emitted[i].side, emitted[i].price))
                   <= U64_MAX))
            && (emitted == shown <==> HiddenVanishes(b, order, now))
  {
    hide BookInv, ApplyBatch, DepthEntries, Aggregate, BookEntries, Hidden, DepthAt, Wrap, Canonical;
    SnapshotAfterBatch(env, b, order, authority, cert, now, result);
    var entries := DepthEntries(BatchOf(b, order, now));
    var exact, hidden := Aggregate(entries), Hidden(b, order, now);
    var full := SnapshotLevels(ApplyBatch(env, b, order, authority, cert, now, result).book);
    EntriesPositive(BatchOf(b, order, now));
    AggregateFacts(entries);
    forall i | 0 <= i < |exact|
      ensures Wrapped(exact)[i].quantity <= DepthAt(Wrapped(full), exact[i].side, exact[i].price) <==>
              Wrapped(exact)[i].quantity + Wrap(DepthAt(hidden, exact[i].side, exact[i].price)) <= U64_MAX
    {
      DepthOfLevel(exact, i);
      DepthOfWrapped(full, exact[i].side, exact[i].price);
      CarryExactly(exact[i].quantity, DepthAt(hidden, exact[i].side, exact[i].price));
    }
    forall side, price
      ensures Wrap(DepthAt(exact, side, price)) == Wrap(DepthAt(full, side, price))
         <==> Wrap(DepthAt(hidden, side, price)) == 0
    {
      SameWordExactly(DepthAt(exact, side, price), DepthAt(hidden, side, price));
    }
    if HiddenVanishes(b, order, now) {
      WrappedSame(exact, full);
    }
    if Wrapped(exact) == Wrapped(full) {
      SameLookVanishes(exact, full, hidden, entries);
    }
  }

  lemma SameLookVanishes(exact: seq<PriceLevel>, full: seq<PriceLevel>, hidden: seq<PriceLevel>,
                         entries: seq<PriceLevel>)
    requires Canonical(exact) && Canonical(full) && Wrapped(exact) == Wrapped(full)
    requires forall side, price :: DepthAt(exact, side, price) == DepthAt(entries, side, price)
    requires forall side, price ::
      DepthAt(full, side, price) == DepthAt(exact, side, price) + DepthAt(hidden, side, price)
    requires forall side, price ::
      (Wrap(DepthAt(exact, side, price)) == Wrap(DepthAt(full, side, price))
       <==> Wrap(DepthAt(hidden, side, price)) == 0)
    ensures forall side, price ::
      && Wrap(DepthAt(hidden, side, price)) == 0
      && (DepthAt(hidden, side, price) > 0 ==> DepthAt(entries, side, price) > 0)
  {
    hide DepthAt, Wrap;
    forall side, price
      ensures Wrap(DepthAt(hidden, side, price)) == 0
      ensures DepthAt(hidden, side, price) > 0 ==> DepthAt(entries, side, price) > 0
    {
      DepthOfWrapped(exact, side, price);
      DepthOfWrapped(full, side, price);
      if DepthAt(full, side, price) > 0 {
        var i := KeyShown(full, side, price);
        assert Wrapped(exact)[i] == Wrapped(full)[i];
        DepthOfLevel(exact, i);
      }
    }
  }

  /**
   When every level of the book left behind fits 64 bits, each emitted level is at most the
   snapshot's and the two lists are equal exactly when the opposite side held at most eight
   orders, all live, and the arrival's own side was empty.
   */
  lemma EmittedDepthWithinSnapshot(env: Env, b: Book, order: SecretOrder, authority: OrderAuthority, cert: nat,
                                   now: U64, result: BatchResult)
    requires BookInv(b) && ValidOrder(order)
    requires ApplyBatch(env, b, order, authority, cert, now, result).result.Success?
    requires LevelsFit(ApplyBatch(env, b, order, authority, cert, now, result).book)
    ensures var shown := ShownLevels(ApplyBatch(env, b, order, authority, cert, now, result).book);
            && result.publicLevels.Some?
            && var emitted := result.publicLevels.value;
            && (forall i :: 0 <= i < |emitted| ==>
                  emitted[i].quantity <= DepthAt(shown, emitted[i].side, emitted[i].price))
            && (emitted == shown <==> FullView(b, order, now))
  {
    hide BookInv, ApplyBatch, DepthEntries, Aggregate, Hidden, DepthAt, Canonical, FullView;
    var b' := ApplyBatch(env, b, order, authority, cert, now, result).book;
    var entries, hidden := DepthEntries(BatchOf(b, order, now)), Hidden(b, order, now);
    EmittedDepthExactly(env, b, order, authority, cert, now, result);
    SnapshotAfterBatch(env, b, order, authority, cert, now, result);
    FittingDepths(env, b, order, authority, cert, now, result);
    var emitted := result.publicLevels.value;
    forall i | 0 <= i < |emitted|
      ensures emitted[i].quantity + Wrap(DepthAt(hidden, emitted[i].side, emitted[i].price)) <= U64_MAX
    {
      DepthOfLevel(Aggregate(entries), i);
    }
    FullViewExactly(b, order, now);
    HiddenOpen(b, order, now);
    if hidden != [] {
      DepthOfMember(hidden, 0);
      assert Wrap(DepthAt(hidden, hidden[0].side, hidden[0].price)) > 0;
    }
    if hidden == [] {
      forall side, price ensures DepthAt(hidden, side, price) == 0 {
        DepthOfOne(hidden, side, price);
      }
    }
  }

  lemma FittingDepths(env: Env, b: Book, order: SecretOrder, authority: OrderAuthority, cert: nat, now: U64,
                      result: BatchResult)
    requires BookInv(b) && ValidOrder(order)
    requires ApplyBatch(env, b, order, authority, cert, now, result).result.Success?
    requires LevelsFit(ApplyBatch(env, b, order, authority, cert, now, result).book)
    ensures forall side, price ::
              DepthAt(Aggregate(DepthEntries(BatchOf(b, order, now))), side, price)
              + DepthAt(Hidden(b, order, now), side, price) <= U64_MAX
  {
    hide BookInv, ApplyBatch, DepthEntries, Aggregate, Hidden, DepthAt, Canonical;
    var b' := ApplyBatch(env, b, order, authority, cert, now, result).book;
    SnapshotAfterBatch(env, b, order, authority, cert, now, result);
    BatchKeeps(env, b, order, authority, cert, now, result);
    BookDepth(b');
  }

  lemma BookDepth(b: Book)
    requires BookInv(b)
    ensures forall side, price :: DepthAt(SnapshotLevels(b), side, price) == DepthAt(BookEntries(b), side, price)
  {
    hide BookInv;
    OpenSide(b, Buy);
    OpenSide(b, Sell);
    EntriesOpen(b.bids);
    EntriesOpen(b.asks);
    AggregateFacts(BookEntries(b));
  }

  lemma {:induction false} DepthOfMember(levels: seq<PriceLevel>, i: nat)
    requires i < |levels|
    ensures DepthAt(levels, levels[i].side, levels[i].price) >= levels[i].quantity
  {
    if i > 0 {
      DepthOfMember(levels[1..], i - 1);
    }
  }
}
