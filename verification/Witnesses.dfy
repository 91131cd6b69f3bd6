/**
 Concrete runs from the empty book for what does not hold in general: an expiry that fails
 and still removes an order, an insertion and a batch over capacity that cross the book, a
 published level that wraps, and a single-slot match that differs from the batch.
 */
module Witnesses {
  import opened Orders
  import opened Matching
  import opened Depth
  import opened Batch
  import opened BookModel
  import opened ExpiryLaws
  import opened Accounting
  import opened Publication
  import opened Ladder
  import opened Acceptance
  import opened Uncrossed
  import opened SingleSlot
  import opened StaleFills

  const MARKET: seq<Byte> := [65]

  /** Commitments that read the salt, and signatures that always check. */
  function PlainEnv(): Env {
    Env((o: SecretOrder) => o.salt, (c: SecretCancellation) => c.salt, (d: Digest32) => d,
        (m: seq<Byte>, cutoff: U64, orders: seq<Digest32>) => 3, (a: OrderAuthority) => true)
  }

  /** A good-til-cancelled order with the largest reservation. */
  function Plain(side: Side, salt: Digest32, price: U64, quantity: U64, expiresAt: U64): SecretOrder {
    SecretOrder(2, 1, 1, MARKET, side, price, quantity, GoodTilCancelled, expiresAt, 1, 1, 1, U64_MAX, 1, 0, 1, 1, salt)
  }

  function Signed(salt: Digest32, deadline: U64): OrderAuthority {
    OrderAuthority(salt, deadline, 1, [])
  }

  lemma OneByte()
    ensures ValidUtf8(MARKET)
  {
    assert MARKET[1..] == [];
  }

  lemma PlainIsValid(side: Side, salt: Digest32, price: U64, quantity: U64, expiresAt: U64)
    requires salt > 0 && price > 0 && quantity > 0 && expiresAt > 0
    requires RequiredReserve(side, price, quantity, 0) <= U64_MAX
    ensures ValidOrder(Plain(side, salt, price, quantity, expiresAt))
  {
    hide ValidUtf8;
    OneByte();
  }

  lemma {:induction false} RunSnoc(env: Env, w: World, cmds: seq<Command>, cmd: Command)
    ensures Run(env, w, cmds + [cmd]) == Next(env, Run(env, w, cmds), cmd)
    decreases |cmds|
  {
    hide Next;
    if cmds == [] {
      assert [cmd][1..] == [] && cmds + [cmd] == [cmd];
    } else {
      assert (cmds + [cmd])[1..] == cmds[1..] + [cmd];
      RunSnoc(env, Next(env, w, cmds[0]), cmds[1..], cmd);
    }
  }

  // ---------------------------------------------------------------- large sells

  /** A sell order of the largest quantity, expiring at time 1. */
  function LargeSell(salt: Digest32, price: U64): SecretOrder {
    Plain(Sell, salt, price, U64_MAX, 1)
  }

  function InsertFirst(): seq<Command> {
    [InsertCommand(LargeSell(1, 1), Signed(1, 1), 1, 0)]
  }

  function OneSellBook(): Book {
    Book(MARKET, 1, [], [Resting(LargeSell(1, 1), Signed(1, 1), U64_MAX, 1)], {1})
  }

  lemma FirstSell()
    ensures WellFormed(InsertFirst()[0])
    ensures Run(PlainEnv(), Start(MARKET), InsertFirst()).book == OneSellBook()
  {
    PlainIsValid(Sell, 1, 1, U64_MAX, 1);
    var w, cmd := Start(MARKET), InsertFirst()[0];
    assert InsertFirst()[1..] == [];
    assert Execute(PlainEnv(), w.book, cmd) == OneSellBook();
  }

  function TwoSells(): seq<Command> {
    InsertFirst() + [InsertCommand(LargeSell(2, 2), Signed(2, 1), 2, 0)]
  }

  function SecondResting(price: U64): Resting {
    Resting(LargeSell(2, price), Signed(2, 1), U64_MAX, 2)
  }

  function TwoSellsBook(price: U64): Book {
    Book(MARKET, 2, [], OneSellBook().asks + [SecondResting(price)], {1, 2})
  }

  lemma RestSecond(price: U64)
    requires price >= 1
    ensures Commit(Rest(OneSellBook(), SecondResting(price)), 2) == TwoSellsBook(price)
  {
    InsertBetween(Sell, OneSellBook().asks, [], SecondResting(price));
    assert OneSellBook().asks + [] == OneSellBook().asks;
    assert {1} + {2} == {1, 2};
  }

  lemma SecondSell()
    ensures forall i :: 0 <= i < |TwoSells()| ==> WellFormed(TwoSells()[i])
    ensures Run(PlainEnv(), Start(MARKET), TwoSells()).book == TwoSellsBook(2)
  {
    hide Run, InsertRanked, ValidOrder, Rest;
    FirstSell();
    PlainIsValid(Sell, 2, 2, U64_MAX, 1);
    RunSnoc(PlainEnv(), Start(MARKET), InsertFirst(), TwoSells()[1]);
    RestSecond(2);
  }

  // ---------------------------------------------------------------- a failed expiry

  lemma TwoSellsExpire()
    ensures Accepted(PlainEnv(), TwoSellsBook(2), 2, 3, 3) && ReleasedAt(TwoSellsBook(2), 2) > U64_MAX
  {
    var b := TwoSellsBook(2);
    assert b.asks[1..] == [b.asks[1]] && b.asks[1..][1..] == [];
    assert ExpiredQuantity(b.asks[1..], 2) == U64_MAX;
    assert ExpiredOn(b.asks, 2)[0] == 1;
    SortFacts(ExpiredOn(b.bids, 2) + ExpiredOn(b.asks, 2));
    assert 1 in ExpiredOn(b.bids, 2) + ExpiredOn(b.asks, 2);
  }

  /** The third command of this run passes every check, fails, and leaves an order removed. */
  lemma FailedExpiryCanStrand()
    ensures var cmds := TwoSells() + [ExpireCommand(2, 3, 3)];
            && (forall i :: 0 <= i < |cmds| ==> WellFormed(cmds[i]))
            && Strands(Run(PlainEnv(), Start(MARKET), cmds).history)
            && var b := Run(PlainEnv(), Start(MARKET), TwoSells()).book;
            && Expire(PlainEnv(), b, 2, 3, 3).result.Failure? && Expire(PlainEnv(), b, 2, 3, 3).book != b
  {
    hide ValidOrder, Expire, Accepted, ReleasedAt, Lawful, Strands, BookInv, Run, TwoSells, Execute, Events;
    var env, cmd := PlainEnv(), ExpireCommand(2, 3, 3);
    var w := Run(env, Start(MARKET), TwoSells());
    SecondSell();
    TwoSellsExpire();
    RunSnoc(env, Start(MARKET), TwoSells(), cmd);
    ReachableBookInvariant(env, MARKET, TwoSells());
    ExpiryAtomicExactly(env, w.book, 2, 3, 3);
    StrandsExactly(env, w.book, cmd);
    StrandsConcat(w.history, Events(env, w.book, cmd));
  }

  // ---------------------------------------------------------------- a level that wraps

  function SecondBatch(): SecretOrder {
    LargeSell(2, 1)
  }

  ghost function WrapCommand(): Command {
    BatchCommand(SecondBatch(), Signed(2, 1), 2, 0, Expected(BatchOf(OneSellBook(), SecondBatch(), 0)))
  }

  lemma WrapBatch()
    ensures var b := OneSellBook(); var order := SecondBatch();
            && DepthEntries(BatchOf(b, order, 0)) == [PriceLevel(Sell, 1, U64_MAX)]
            && SweepOf(b, order, Signed(2, 1), 0) == Sweep([], U64_MAX, [])
  {
    var batch := BatchOf(OneSellBook(), SecondBatch(), 0);
    assert batch.resting == [];
  }

  lemma TwoAsksDepth()
    ensures DepthAt(Entries(TwoSellsBook(1).asks), Sell, 1) == 2 * U64_MAX
    ensures DepthAt(Entries(TwoSellsBook(1).bids), Sell, 1) == 0
  {
    var s := TwoSellsBook(1).asks;
    assert s[1..] == [s[1]] && s[1..][1..] == [];
    assert Entries(s[1..]) == [PriceLevel(Sell, 1, U64_MAX)];
    assert Entries(s)[1..] == Entries(s[1..]);
    DepthOfOne(Entries(s[1..]), Sell, 1);
  }

  /**
   Two largest sell orders at one price: an accepted batch emits the second's quantity there,
   and the snapshot after it shows one unit less, the true sum less a whole word.
   */
  lemma PublishedLevelCanWrap()
    ensures var cmds := InsertFirst() + [WrapCommand()];
            var b := Run(PlainEnv(), Start(MARKET), cmds).book;
            && (forall i :: 0 <= i < |cmds| ==> WellFormed(cmds[i]))
            && WrapCommand().batch.publicLevels == Some([PriceLevel(Sell, 1, U64_MAX)])
            && DepthAt(SnapshotLevels(b), Sell, 1) == 2 * U64_MAX
            && DepthAt(ShownLevels(b), Sell, 1) == U64_MAX - 1
            && !LevelsFit(b)
  {
    hide Run, WellFormed, BookInv, WrapCommand, Execute, DepthAt, LevelsFit, Events, Admits;
    var env, cmds := PlainEnv(), InsertFirst() + [WrapCommand()];
    FirstSell();
    RunSnoc(env, Start(MARKET), InsertFirst(), WrapCommand());
    WrapEmitted();
    WrapAccepted();
    ReachableBookInvariant(env, MARKET, cmds);
    TwoAsksShown();
  }

  lemma WrapAccepted()
    ensures WellFormed(WrapCommand()) && Execute(PlainEnv(), OneSellBook(), WrapCommand()) == TwoSellsBook(1)
  {
    hide Expected, Rest, Slotted, ValidOrder;
    PlainIsValid(Sell, 2, 1, U64_MAX, 1);
    WrapBatch();
    RestSecond(1);
    assert OneSellBook().With(Buy, []) == OneSellBook();
  }

  lemma TwoAsksShown()
    requires BookInv(TwoSellsBook(1))
    ensures var b := TwoSellsBook(1);
            && DepthAt(SnapshotLevels(b), Sell, 1) == 2 * U64_MAX
            && DepthAt(ShownLevels(b), Sell, 1) == U64_MAX - 1
            && !LevelsFit(b)
  {
    hide BookInv, Entries, DepthAt, Canonical, TwoSellsBook;
    var b := TwoSellsBook(1);
    SnapshotFacts(b);
    TwoAsksDepth();
    DepthOfWrapped(SnapshotLevels(b), Sell, 1);
    BookDepth(b);
  }

  lemma WrapEmitted()
    ensures WrapCommand().batch.publicLevels == Some([PriceLevel(Sell, 1, U64_MAX)])
  {
    hide Slots, Residue, DepthEntries;
    WrapBatch();
    var l := PriceLevel(Sell, 1, U64_MAX);
    assert [l][1..] == [];
    assert Aggregate([l]) == [l];
    assert Wrapped([l]) == [l];
  }

  // ---------------------------------------------------------------- crossing without matching

  /** A direct insertion does no matching, so it can rest a sell below a live bid. */
  lemma InsertionCanCross()
    ensures var cmds := [InsertCommand(Plain(Buy, 1, 2, 1, 1), Signed(1, 1), 1, 0),
                         InsertCommand(LargeSell(2, 1), Signed(2, 1), 2, 0)];
            && (forall i :: 0 <= i < |cmds| ==> WellFormed(cmds[i]))
            && !IsUncrossed(Run(PlainEnv(), Start(MARKET), cmds).book, 0)
  {
    var env, w := PlainEnv(), Start(MARKET);
    var buy := Plain(Buy, 1, 2, 1, 1);
    var cmds := [InsertCommand(buy, Signed(1, 1), 1, 0), InsertCommand(LargeSell(2, 1), Signed(2, 1), 2, 0)];
    PlainIsValid(Buy, 1, 2, 1, 1);
    PlainIsValid(Sell, 2, 1, U64_MAX, 1);
    var w1 := Next(env, w, cmds[0]);
    assert w1.book == Book(MARKET, 1, [Resting(buy, Signed(1, 1), 1, 1)], [], {1});
    var b2 := Execute(env, w1.book, cmds[1]);
    assert b2.bids == w1.book.bids && b2.asks == [SecondResting(1)];
    assert cmds[1..] == [cmds[1]] && cmds[1..][1..] == [];
    assert Run(env, w1, cmds[1..]).book == b2;
    assert !Expired(b2.bids[0], 0) && !Expired(b2.asks[0], 0);
  }

  // ---------------------------------------------------------------- crossing over capacity

  function Ask(n: nat): SecretOrder
    requires n <= U64_MAX
  {
    Plain(Sell, n, 1, 1, 1)
  }

  /** The first n one-unit asks at price 1, in queue order. */
  function Asks(n: nat): (s: seq<Resting>)
    requires n <= U64_MAX
    ensures |s| == n
    ensures forall i :: 0 <= i < n ==> s[i].Price() == 1 && s[i].remaining == 1 && s[i].secret.expiresAt == 1
  {
    if n == 0 then [] else Asks(n - 1) + [Resting(Ask(n), Signed(n, 1), 1, n)]
  }

  ghost function Salts(n: nat): (r: set<Digest32>)
    requires n <= U64_MAX
    ensures forall d :: d in r <==> 1 <= d <= n
  {
    if n == 0 then {} else Salts(n - 1) + {n}
  }

  ghost function AsksBook(n: nat): Book
    requires n <= U64_MAX
  {
    Book(MARKET, n, [], Asks(n), Salts(n))
  }

  function InsertAsks(n: nat): (cmds: seq<Command>)
    requires n <= U64_MAX
    ensures |cmds| == n
  {
    if n == 0 then [] else InsertAsks(n - 1) + [InsertCommand(Ask(n), Signed(n, 1), n, 0)]
  }

  lemma InsertAsk(n: nat)
    requires 1 <= n <= U64_MAX
    ensures Execute(PlainEnv(), AsksBook(n - 1), InsertAsks(n)[n - 1]) == AsksBook(n)
  {
    hide InsertRanked;
    var r := Resting(Ask(n), Signed(n, 1), 1, n);
    InsertBetween(Sell, Asks(n - 1), [], r);
    assert Asks(n - 1) + [] == Asks(n - 1);
  }

  lemma {:induction false} AsksRun(n: nat)
    requires n <= U64_MAX
    ensures forall i :: 0 <= i < n ==> WellFormed(InsertAsks(n)[i])
    ensures Run(PlainEnv(), Start(MARKET), InsertAsks(n)).book == AsksBook(n)
  {
    hide Run, ValidOrder, Execute, AsksBook, Events, Admits;
    if n == 0 {
      assert Run(PlainEnv(), Start(MARKET), []) == Start(MARKET) by {
        NoCommands();
      }
      NoAsks();
    } else {
      AsksRun(n - 1);
      PlainIsValid(Sell, n, 1, 1, 1);
      InsertAsk(n);
      RunSnoc(PlainEnv(), Start(MARKET), InsertAsks(n - 1), InsertAsks(n)[n - 1]);
    }
  }

  lemma NoCommands()
    ensures Run(PlainEnv(), Start(MARKET), []) == Start(MARKET)
  {
  }

  lemma NoAsks()
    ensures AsksBook(0) == Empty(MARKET)
  {
  }

  ghost predicate UnitFillsOf(fills: seq<PublicFill>, s: seq<Resting>) {
    |fills| <= |s| && forall i :: 0 <= i < |fills| ==>
      fills[i].makerOrder == s[i].Commitment() && fills[i].price == s[i].Price() && fills[i].quantity == 1
  }

  lemma {:induction false} UnitFills(t: Taker, s: seq<Resting>, left: nat)
    requires t.side.Buy? && left >= |s|
    requires forall i :: 0 <= i < |s| ==> s[i].Price() <= t.price && s[i].remaining == 1 && !Expired(s[i], t.now)
    ensures |Greedy(t, s, left).fills| == |s| && UnitFillsOf(Greedy(t, s, left).fills, s)
  {
    if s != [] {
      UnitFills(t, s[1..], left - 1);
    }
  }

  lemma {:induction false} UnitVolume(fills: seq<PublicFill>)
    requires forall i :: 0 <= i < |fills| ==> fills[i].quantity == 1
    ensures Volume(fills) == |fills|
  {
    if fills != [] {
      UnitVolume(fills[1..]);
    }
  }

  /** A good-til-cancelled buy of n units at the asks' price. */
  function BuyOf(n: nat): SecretOrder
    requires n < U64_MAX
  {
    Plain(Buy, n + 1, 1, n, 1)
  }

  ghost function BuyCommand(n: nat): Command
    requires n < U64_MAX
  {
    BatchCommand(BuyOf(n), Signed(n + 1, 1), n + 1, 0, Expected(BatchOf(AsksBook(n), BuyOf(n), 0)))
  }

  lemma AsksFill(n: nat)
    requires 1 <= n < U64_MAX && BookInv(AsksBook(n))
    ensures var fills := SweepOf(AsksBook(n), BuyOf(n), Signed(n + 1, 1), 0).fills;
            && |fills| == (if n <= 8 then n else 8) && UnitFillsOf(fills, Asks(n)) && Volume(fills) == |fills|
            && (ExceedsCapacity(AsksBook(n), BuyOf(n), 0) <==> n > 8)
  {
    hide BookInv, Slotted, Greedy, Volume, Asks;
    UnitFills(Taker(Buy, 1, 0, n + 1), Asks(n), n);
    CapacityIsEight(AsksBook(n), BuyOf(n), Signed(n + 1, 1), 0);
    UnitVolume(SweepOf(AsksBook(n), BuyOf(n), Signed(n + 1, 1), 0).fills);
  }

  /**
   n one-unit asks and then a buy of n, from the empty book: the buy takes the first eight, one unit each
   in queue order, or all of them when there are no more, and exceeds the capacity when there are.
   */
  lemma AsksThenBuy(n: nat)
    requires 1 <= n < U64_MAX
    ensures var env := PlainEnv(); var cmds := InsertAsks(n) + [BuyCommand(n)];
            var b := Run(env, Start(MARKET), InsertAsks(n)).book; var b' := Run(env, Start(MARKET), cmds).book;
            var s := ApplyBatch(env, b, BuyOf(n), Signed(n + 1, 1), n + 1, 0, BuyCommand(n).batch);
            && (forall i :: 0 <= i < |cmds| ==> WellFormed(cmds[i]))
            && b == AsksBook(n) && s.result.Success? && s.book == b'
            && |s.result.value.fills| == (if n <= 8 then n else 8)
            && UnitFillsOf(s.result.value.fills, Asks(n))
            && s.result.value.arrivingRemaining == (if n <= 8 then 0 else n - 8)
            && (ExceedsCapacity(b, BuyOf(n), 0) <==> n > 8)
            && (if n <= 8 then b'.bids == []
                else multiset(b'.bids) == multiset{Resting(BuyOf(n), Signed(n + 1, 1), n - 8, n + 1)})
  {
    hide Run, ValidOrder, BookInv, Expected, ExceedsCapacity, Slotted, InsertAsks, Asks, Salts, ApplyBatch, BatchOf;
    var env, b := PlainEnv(), AsksBook(n);
    AsksRun(n);
    PlainIsValid(Buy, n + 1, 1, n, 1);
    RunSnoc(env, Start(MARKET), InsertAsks(n), BuyCommand(n));
    ReachableBookInvariant(env, MARKET, InsertAsks(n));
    AsksFill(n);
    BatchExactly(env, b, BuyOf(n), Signed(n + 1, 1), n + 1, 0, BuyCommand(n).batch);
  }

  /** Eight asks fill a buy of eight; of nine asks a buy of nine fills eight and keeps one unit. */
  lemma EightFillAndNotNine()
    ensures var env := PlainEnv();
            var eight := ApplyBatch(env, Run(env, Start(MARKET), InsertAsks(8)).book, BuyOf(8), Signed(9, 1), 9, 0,
                                    BuyCommand(8).batch).result;
            var nine := ApplyBatch(env, Run(env, Start(MARKET), InsertAsks(9)).book, BuyOf(9), Signed(10, 1), 10, 0,
                                   BuyCommand(9).batch).result;
            && eight.Success? && |eight.value.fills| == 8 && eight.value.arrivingRemaining == 0
            && !ExceedsCapacity(AsksBook(8), BuyOf(8), 0)
            && nine.Success? && |nine.value.fills| == 8 && nine.value.arrivingRemaining == 1
            && ExceedsCapacity(AsksBook(9), BuyOf(9), 0)
  {
    hide Run, ApplyBatch, ExceedsCapacity, AsksBook, BuyCommand;
    AsksThenBuy(8);
    AsksThenBuy(9);
  }

  /** Nine one-unit asks and a buy of nine: the unit that found no slot rests against a live ask. */
  lemma BatchOverCapacityCanCross()
    ensures var cmds := InsertAsks(9) + [BuyCommand(9)];
            && (forall i :: 0 <= i < |cmds| ==> WellFormed(cmds[i]))
            && ApplyBatch(PlainEnv(), AsksBook(9), BuyOf(9), Signed(10, 1), 10, 0, BuyCommand(9).batch).result.Success?
            && !IsUncrossed(Run(PlainEnv(), Start(MARKET), cmds).book, 0)
  {
    hide Run, BookInv, ExceedsCapacity, IsUncrossed, InsertAsks, ApplyBatch, WellFormed, UnitFillsOf;
    var env, b := PlainEnv(), AsksBook(9);
    AsksThenBuy(9);
    AsksRun(9);
    ReachableBookInvariant(env, MARKET, InsertAsks(9));
    NoBidsUncrossed(b, 0);
    BatchUncrossedExactly(env, b, BuyOf(9), Signed(10, 1), 10, 0, BuyCommand(9).batch);
  }

  lemma NoBidsUncrossed(b: Book, now: nat)
    requires b.bids == []
    ensures IsUncrossed(b, now)
  {
  }

  // ---------------------------------------------------------------- one slot against eight

  function LateBuy(): SecretOrder {
    Plain(Buy, 2, 1, 1, 9)
  }

  function LateSingle(b: Book): Command {
    SingleCommand(LateBuy(), Signed(2, 9), 2, 5, ExpectedSingle(b, LateBuy()))
  }

  /** At time 5 the only ask has expired: the single-slot match still fills it, the batch does not. */
  lemma SingleCanDifferFromBatch()
    ensures var env := PlainEnv(); var b := Run(env, Start(MARKET), InsertFirst()).book;
            var single := ApplySingle(env, b, LateBuy(), Signed(2, 9), 2, 5, ExpectedSingle(b, LateBuy()));
            var batch := ApplyBatch(env, b, LateBuy(), Signed(2, 9), 2, 5, Expected(BatchOf(b, LateBuy(), 5)));
            && WellFormed(InsertFirst()[0]) && ValidOrder(LateBuy())
            && single.result.Success? && batch.result.Success?
            && single.result.value.fills != batch.result.value.fills
            && TradesStale(env, b, LateSingle(b))
  {
    hide Run, ValidOrder, BookInv, Expected, Slotted, Settle, TradesStale;
    var env, b := PlainEnv(), Run(PlainEnv(), Start(MARKET), InsertFirst()).book;
    FirstSell();
    PlainIsValid(Buy, 2, 1, 1, 9);
    ReachableBookInvariant(env, MARKET, InsertFirst());
    SingleEqualsBatchExactly(env, b, LateBuy(), Signed(2, 9), 2, 5, ExpectedSingle(b, LateBuy()),
                             Expected(BatchOf(b, LateBuy(), 5)));
    assert !OneSlotSuffices(b, LateBuy(), 5);
    CommandStaleExactly(env, b, LateSingle(b));
  }
}
