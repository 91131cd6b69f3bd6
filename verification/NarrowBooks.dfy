/**
 Books of bounded orders: when the published depth fits 64 bits, and why the sequence counter
 of 64 bits never wraps.
 */
module NarrowBooks {
  import opened Orders
  import opened Matching
  import opened Depth
  import opened Batch
  import opened BookModel
  import opened Accounting
  import opened Publication

  // ---------------------------------------------------------------- the counter

  lemma {:induction false} ExpiryCountsNothing(b: Book, orders: seq<Digest32>, released: nat)
    ensures ExpireAll(b, orders, released).book.sequence == b.sequence
    decreases |orders|
  {
    if orders != [] && Find(b, orders[0]).Some? {
      ExpiryCountsNothing(Drop(b, orders[0]), orders[1..], released + Find(b, orders[0]).value.remaining);
    }
  }

  lemma CommandCountsOne(env: Env, b: Book, cmd: Command)
    ensures b.sequence <= Execute(env, b, cmd).sequence <= b.sequence + 1
  {
    hide Slotted, Expected, ExpireAll;
    if cmd.ExpireCommand? {
      ExpiryCountsNothing(b, ExpiredCommitments(b, cmd.cutoff), 0);
    }
  }

  /** A run of n commands leaves a counter of at most n more, so 64 bits hold it for any shorter run. */
  lemma {:induction false} CounterWithinRun(env: Env, w: World, cmds: seq<Command>)
    ensures w.book.sequence <= Run(env, w, cmds).book.sequence <= w.book.sequence + |cmds|
    decreases |cmds|
  {
    hide Execute;
    if cmds != [] {
      CommandCountsOne(env, w.book, cmds[0]);
      CounterWithinRun(env, Next(env, w, cmds[0]), cmds[1..]);
    }
  }

  lemma LawfulBook(w: World)
    requires Lawful(w)
    ensures BookInv(w.book) && BookRegistered(w.orders, w.book)
  {
  }

  // ---------------------------------------------------------------- how many orders rest

  ghost function CommitmentsOf(s: seq<Resting>): set<Digest32> {
    if s == [] then {} else {s[0].Commitment()} + CommitmentsOf(s[1..])
  }

  lemma {:induction false} CommitmentsExactly(s: seq<Resting>, c: Digest32)
    ensures c in CommitmentsOf(s) <==> Rests(s, c)
  {
    if s != [] {
      CommitmentsExactly(s[1..], c);
    }
  }

  lemma {:induction false} CommitmentsCount(s: seq<Resting>)
    requires Distinct(s)
    ensures |CommitmentsOf(s)| == |s|
  {
    if s != [] {
      CommitmentsCount(s[1..]);
      CommitmentsExactly(s[1..], s[0].Commitment());
    }
  }

  lemma SmallerSet(a: set<Digest32>, b: set<Digest32>)
    requires a <= b
    ensures |a| <= |b|
  {
    assert b == a + (b - a);
  }

  /** No more orders rest than commands were counted. */
  lemma RestingWithinSequence(b: Book)
    requires BookInv(b)
    ensures |b.bids| + |b.asks| <= b.sequence
  {
    hide BookInv, Distinct, Rests, CommitmentsOf, SideInv;
    var bids, asks := CommitmentsOf(b.bids), CommitmentsOf(b.asks);
    OpenSide(b, Buy);
    OpenSide(b, Sell);
    CommitmentsCount(b.bids);
    CommitmentsCount(b.asks);
    forall c ensures c in bids ==> c !in asks && c in b.admitted
             ensures c in asks ==> c in b.admitted
    {
      CommitmentsExactly(b.bids, c);
      CommitmentsExactly(b.asks, c);
      SidesApart(b, c);
    }
    assert |bids + asks| == |bids| + |asks|;
    SmallerSet(bids + asks, b.admitted);
    AdmittedCount(b);
  }

  lemma SidesApart(b: Book, c: Digest32)
    requires BookInv(b)
    ensures !(Rests(b.bids, c) && Rests(b.asks, c))
    ensures Rests(b.bids, c) || Rests(b.asks, c) ==> c in b.admitted
  {
    RestingAdmitted(b, Buy, c);
    RestingAdmitted(b, Sell, c);
  }

  lemma AdmittedCount(b: Book)
    requires BookInv(b)
    ensures |b.admitted| == b.sequence
  {
  }

  // ---------------------------------------------------------------- 32-bit orders

  ghost predicate NarrowSide(s: seq<Resting>) {
    forall i :: 0 <= i < |s| ==> s[i].remaining <= U32_MAX
  }

  lemma {:induction false} NarrowDepth(s: seq<Resting>, side: Side, price: nat)
    requires NarrowSide(s)
    ensures DepthAt(Entries(s), side, price) <= |s| * U32_MAX
  {
    if s != [] {
      NarrowDepth(s[1..], side, price);
      assert Entries(s)[1..] == Entries(s[1..]);
      assert |s| * U32_MAX == U32_MAX + (|s| - 1) * U32_MAX;
    }
  }

  /** Orders of 32 bits, at most 2^32 + 1 of them: every level fits 64 bits. */
  lemma NarrowBookFits(b: Book)
    requires NarrowSide(b.bids) && NarrowSide(b.asks) && |b.bids| + |b.asks| <= U32_MAX + 2
    ensures LevelsFit(b)
  {
    forall side: Side, price: nat ensures DepthAt(BookEntries(b), side, price) <= U64_MAX {
      NarrowDepth(b.bids, side, price);
      NarrowDepth(b.asks, side, price);
      DepthAtConcat(Entries(b.bids), Entries(b.asks), side, price);
      var n, m := |b.bids|, |b.asks|;
      assert n * U32_MAX + m * U32_MAX == (n + m) * U32_MAX <= (U32_MAX + 2) * U32_MAX == U64_MAX;
    }
  }

  ghost predicate NarrowCommand(cmd: Command) {
    cmd.InsertCommand? || cmd.SingleCommand? || cmd.BatchCommand? ==> cmd.order.quantity <= U32_MAX
  }

  ghost predicate NarrowOrders(w: World) {
    forall c :: c in w.orders ==> w.orders[c].quantity <= U32_MAX
  }

  lemma {:induction false} NarrowRun(env: Env, w: World, cmds: seq<Command>)
    requires NarrowOrders(w) && forall i :: 0 <= i < |cmds| ==> NarrowCommand(cmds[i])
    ensures NarrowOrders(Run(env, w, cmds))
    decreases |cmds|
  {
    hide Execute, Events, InsertResting, ApplySingle, ApplyBatch;
    if cmds != [] {
      assert NarrowOrders(Next(env, w, cmds[0]));
      NarrowRun(env, Next(env, w, cmds[0]), cmds[1..]);
    }
  }

  lemma NarrowWorldSides(w: World)
    requires Lawful(w) && NarrowOrders(w)
    ensures NarrowSide(w.book.bids) && NarrowSide(w.book.asks)
  {
    var b := w.book;
    forall i | 0 <= i < |b.bids| ensures b.bids[i].remaining <= U32_MAX {
      assert Good(b, Buy, b.bids[i]);
    }
    forall i | 0 <= i < |b.asks| ensures b.asks[i].remaining <= U32_MAX {
      assert Good(b, Sell, b.asks[i]);
    }
  }

  /**
   In every run of at most 2^32 + 1 commands whose orders have 32-bit quantities, the program
   shows the true depth.
   */
  lemma NarrowRunsShowTrueDepth(env: Env, market: seq<Byte>, cmds: seq<Command>)
    requires forall i :: 0 <= i < |cmds| ==> WellFormed(cmds[i]) && NarrowCommand(cmds[i])
    requires |cmds| <= U32_MAX + 2
    ensures var b := Run(env, Start(market), cmds).book; LevelsFit(b) && ShownLevels(b) == SnapshotLevels(b)
  {
    hide Lawful, BookInv, Run, LevelsFit, NarrowSide, NarrowOrders;
    StartIsLawful(market);
    StartIsNarrow(market);
    RunsAreLawful(env, Start(market), cmds);
    var w := Run(env, Start(market), cmds);
    CounterWithinRun(env, Start(market), cmds);
    NarrowRun(env, Start(market), cmds);
    NarrowWorldSides(w);
    LawfulBook(w);
    RestingWithinSequence(w.book);
    NarrowBookFits(w.book);
    SnapshotExactly(w.book);
  }

  lemma StartIsNarrow(market: seq<Byte>)
    ensures NarrowOrders(Start(market))
  {
  }
}
