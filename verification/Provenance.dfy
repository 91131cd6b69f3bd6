/**
 Who may do what, over whole runs: every admitted order was vouched for when it arrived, what rests
 is genuine, and whatever leaves an order leaves it through a command entitled to take it.
 */
module Provenance {
  import opened Orders
  import opened Matching
  import opened Batch
  import opened BookModel
  import opened ExpiryLaws
  import opened Accounting
  import opened Acceptance

  // ---------------------------------------------------------------- genuine books

  /** The record is a good-til-cancelled order of this market, under its own commitment, validly signed for. */
  ghost predicate GenuineRecord(env: Env, market: seq<Byte>, r: Resting) {
    && env.orderCommitment(r.secret) == r.authority.commitment && env.signatureValid(r.authority)
    && r.secret.marketId == market && r.secret.timeInForce == GoodTilCancelled
  }

  ghost predicate GenuineSide(env: Env, market: seq<Byte>, s: seq<Resting>) {
    forall i :: 0 <= i < |s| ==> GenuineRecord(env, market, s[i])
  }

  ghost predicate GenuineBook(env: Env, market: seq<Byte>, b: Book) {
    b.market == market && GenuineSide(env, market, b.bids) && GenuineSide(env, market, b.asks)
  }

  ghost predicate GenuineOrders(env: Env, market: seq<Byte>, orders: map<Digest32, SecretOrder>) {
    forall c :: c in orders ==> env.orderCommitment(orders[c]) == c && orders[c].marketId == market
  }

  lemma ThinnedGenuine(env: Env, market: seq<Byte>, a: seq<Resting>, s: seq<Resting>)
    requires Thinned(a, s) && GenuineSide(env, market, s)
    ensures GenuineSide(env, market, a)
  {
    hide Thinned;
    forall i | 0 <= i < |a| ensures GenuineRecord(env, market, a[i]) {
      var j := ThinnedOrigin(a, s, i);
      assert GenuineRecord(env, market, s[j]);
    }
  }

  lemma GainedGenuine(env: Env, market: seq<Byte>, s: seq<Resting>, s': seq<Resting>, r: Resting)
    requires GenuineSide(env, market, s) && GenuineRecord(env, market, r)
    requires multiset(s') == multiset(s) + multiset{r}
    ensures GenuineSide(env, market, s')
  {
    hide GenuineRecord;
    forall i | 0 <= i < |s'| ensures GenuineRecord(env, market, s'[i]) {
      assert s'[i] in multiset(s');
      if s'[i] != r {
        assert s'[i] in multiset(s);
        var j :| 0 <= j < |s| && s[j] == s'[i];
      }
    }
  }

  lemma DroppedGenuine(env: Env, market: seq<Byte>, b: Book, c: Digest32)
    requires BookInv(b) && GenuineBook(env, market, b)
    ensures GenuineBook(env, market, Drop(b, c))
  {
    hide BookInv, SetRemaining, GenuineSide;
    OpenSide(b, Buy);
    OpenSide(b, Sell);
    SetZeroThins(b.bids, c);
    SetZeroThins(b.asks, c);
    ThinnedGenuine(env, market, SetRemaining(b.bids, c, 0), b.bids);
    ThinnedGenuine(env, market, SetRemaining(b.asks, c, 0), b.asks);
  }

  lemma {:induction false} ExpiredGenuine(env: Env, market: seq<Byte>, b: Book, orders: seq<Digest32>, released: nat)
    requires BookInv(b) && GenuineBook(env, market, b)
    ensures GenuineBook(env, market, ExpireAll(b, orders, released).book)
    decreases |orders|
  {
    hide BookInv, GenuineBook, Drop;
    if orders != [] && Find(b, orders[0]).Some? {
      var q := Find(b, orders[0]).value.remaining;
      if released + q <= U64_MAX {
        DroppedGenuine(env, market, b, orders[0]);
        DropKeeps(b, orders[0]);
        ExpiredGenuine(env, market, Drop(b, orders[0]), orders[1..], released + q);
      }
    }
  }

  /** An arrival that leaves a thinner opposite side and may rest keeps the book genuine. */
  lemma ArrivedGenuine(env: Env, market: seq<Byte>, b: Book, b': Book, order: SecretOrder, authority: OrderAuthority,
                       cert: nat, now: nat, left: nat)
    requires GenuineBook(env, market, b) && Entitled(env, b, order, authority, cert, now)
    requires b'.market == b.market && RestsLeft(b, b', order, authority, cert, left)
    requires Thinned(b'.On(order.side.Opposite()), b.On(order.side.Opposite()))
    ensures GenuineBook(env, market, b')
  {
    hide GenuineSide, Thinned;
    ThinnedGenuine(env, market, b'.On(order.side.Opposite()), b.On(order.side.Opposite()));
    if left > 0 && order.timeInForce == GoodTilCancelled {
      GainedGenuine(env, market, b.On(order.side), b'.On(order.side), Resting(order, authority, left, cert));
    }
  }

  lemma InsertGenuine(env: Env, market: seq<Byte>, b: Book, cmd: Command)
    requires BookInv(b) && GenuineBook(env, market, b) && cmd.InsertCommand?
    ensures GenuineBook(env, market, Execute(env, b, cmd))
  {
    hide BookInv, GenuineSide, Thinned, InsertResting;
    InsertExactly(env, b, cmd.order, cmd.authority, cmd.cert, cmd.now);
    InsertFailsUnchanged(env, b, cmd);
    if InsertResting(env, b, cmd.order, cmd.authority, cmd.cert, cmd.now).result.Success? {
      GainedGenuine(env, market, b.On(cmd.order.side), Execute(env, b, cmd).On(cmd.order.side),
                    Resting(cmd.order, cmd.authority, cmd.order.quantity, cmd.cert));
    }
  }

  lemma InsertFailsUnchanged(env: Env, b: Book, cmd: Command)
    requires cmd.InsertCommand?
    ensures InsertResting(env, b, cmd.order, cmd.authority, cmd.cert, cmd.now).result.Failure?
            ==> Execute(env, b, cmd) == b
  {
  }

  lemma SingleGenuine(env: Env, market: seq<Byte>, b: Book, cmd: Command)
    requires BookInv(b) && GenuineBook(env, market, b) && cmd.SingleCommand?
    ensures GenuineBook(env, market, Execute(env, b, cmd))
  {
    hide BookInv, GenuineBook, Thinned, Settle, SingleSweep;
    SingleExactly(env, b, cmd.order, cmd.authority, cmd.cert, cmd.now, cmd.single);
    if ApplySingle(env, b, cmd.order, cmd.authority, cmd.cert, cmd.now, cmd.single).result.Success? {
      SingleSweepThins(b, cmd.order, cmd.authority);
      SettleExactly(b, cmd.order, cmd.authority, SingleSweep(b, cmd.order, cmd.authority).rest,
                    cmd.single.arrivingRemaining);
      ArrivedGenuine(env, market, b, Execute(env, b, cmd), cmd.order, cmd.authority, cmd.cert, cmd.now,
                     cmd.single.arrivingRemaining);
    }
  }

  lemma BatchGenuine(env: Env, market: seq<Byte>, b: Book, cmd: Command)
    requires BookInv(b) && GenuineBook(env, market, b) && cmd.BatchCommand?
    ensures GenuineBook(env, market, Execute(env, b, cmd))
  {
    hide BookInv, GenuineBook, Thinned, ApplyBatch, Slotted, Expected;
    BatchExactly(env, b, cmd.order, cmd.authority, cmd.cert, cmd.now, cmd.batch);
    BatchFailsUnchanged(env, b, cmd);
    if ApplyBatch(env, b, cmd.order, cmd.authority, cmd.cert, cmd.now, cmd.batch).result.Success? {
      var side := cmd.order.side.Opposite();
      OpenSide(b, side);
      SweepThins(TakerOf(cmd.order, cmd.authority, cmd.now), b.On(side), cmd.order.quantity, MAX_MATCH_SLOTS);
      ArrivedGenuine(env, market, b, Execute(env, b, cmd), cmd.order, cmd.authority, cmd.cert, cmd.now,
                     cmd.order.quantity - Volume(SweepOf(b, cmd.order, cmd.authority, cmd.now).fills));
    }
  }

  lemma BatchFailsUnchanged(env: Env, b: Book, cmd: Command)
    requires cmd.BatchCommand?
    ensures ApplyBatch(env, b, cmd.order, cmd.authority, cmd.cert, cmd.now, cmd.batch).result.Failure?
            ==> Execute(env, b, cmd) == b
  {
    hide Expected, Slotted, Settle;
  }

  lemma CommandKeepsGenuine(env: Env, market: seq<Byte>, b: Book, cmd: Command)
    requires BookInv(b) && GenuineBook(env, market, b)
    ensures GenuineBook(env, market, Execute(env, b, cmd))
  {
    hide BookInv, GenuineSide, ApplyBatch, ApplySingle, InsertResting, Drop, ExpireAll;
    match cmd
    case InsertCommand(_, _, _, _) => InsertGenuine(env, market, b, cmd);
    case SingleCommand(_, _, _, _, _) => SingleGenuine(env, market, b, cmd);
    case BatchCommand(_, _, _, _, _) => BatchGenuine(env, market, b, cmd);
    case CancelCommand(cancellation, _) => DroppedGenuine(env, market, b, cancellation.target);
    case ExpireCommand(cutoff, _, _) => ExpiredGenuine(env, market, b, ExpiredCommitments(b, cutoff), 0);
  }

  // ---------------------------------------------------------------- who was admitted

  /** The command brings the order with an authority that is signed, names it and is still current. */
  ghost predicate Brings(env: Env, cmd: Command, c: Digest32, order: SecretOrder) {
    && (cmd.InsertCommand? || cmd.SingleCommand? || cmd.BatchCommand?)
    && cmd.order == order && cmd.authority.commitment == c == env.orderCommitment(order)
    && env.signatureValid(cmd.authority)
    && cmd.now <= cmd.authority.authorizationDeadline && cmd.now <= order.expiresAt
  }

  lemma AdmitsVouched(env: Env, b: Book, cmd: Command, c: Digest32)
    requires BookInv(b) && c in Admits(env, b, cmd)
    ensures Brings(env, cmd, c, Admits(env, b, cmd)[c]) && Admits(env, b, cmd)[c].marketId == b.market
  {
    hide BookInv, InsertResting, ApplySingle, ApplyBatch, SingleAnswer, Expected, Slotted;
    match cmd
    case InsertCommand(order, authority, cert, now) => InsertExactly(env, b, order, authority, cert, now);
    case SingleCommand(order, authority, cert, now, r) => SingleExactly(env, b, order, authority, cert, now, r);
    case BatchCommand(order, authority, cert, now, r) => BatchExactly(env, b, order, authority, cert, now, r);
  }

  ghost predicate Genuine(env: Env, market: seq<Byte>, w: World) {
    GenuineBook(env, market, w.book) && GenuineOrders(env, market, w.orders)
  }

  lemma NextIsGenuine(env: Env, market: seq<Byte>, w: World, cmd: Command)
    requires Lawful(w) && Genuine(env, market, w)
    ensures Genuine(env, market, Next(env, w, cmd))
  {
    hide BookInv, GenuineBook, Execute, Admits, Events;
    CommandKeepsGenuine(env, market, w.book, cmd);
    var orders := Next(env, w, cmd).orders;
    forall c | c in orders ensures env.orderCommitment(orders[c]) == c && orders[c].marketId == market {
      if c in Admits(env, w.book, cmd) {
        AdmitsVouched(env, w.book, cmd, c);
        MarketOf(env, market, w.book);
      }
    }
  }

  lemma MarketOf(env: Env, market: seq<Byte>, b: Book)
    requires GenuineBook(env, market, b)
    ensures b.market == market
  {
  }

  lemma {:induction false} RunsStayGenuine(env: Env, market: seq<Byte>, w: World, cmds: seq<Command>)
    requires Lawful(w) && Genuine(env, market, w) && forall i :: 0 <= i < |cmds| ==> WellFormed(cmds[i])
    ensures Genuine(env, market, Run(env, w, cmds))
    decreases |cmds|
  {
    hide Lawful, Genuine, Next;
    if cmds != [] {
      NextIsGenuine(env, market, w, cmds[0]);
      CommandKeepsLawful(env, w, cmds[0]);
      RunsStayGenuine(env, market, Next(env, w, cmds[0]), cmds[1..]);
    }
  }

  /**
   In every reachable state each admitted order belongs to the book's market and is filed under its own
   commitment, and every resting record carries a validly signed authority for the order it holds.
   */
  lemma ReachableIsGenuine(env: Env, market: seq<Byte>, cmds: seq<Command>)
    requires forall i :: 0 <= i < |cmds| ==> WellFormed(cmds[i])
    ensures var w := Run(env, Start(market), cmds);
            && (forall c :: c in w.orders ==> env.orderCommitment(w.orders[c]) == c && w.orders[c].marketId == market)
            && (forall r :: r in w.book.bids || r in w.book.asks ==>
                  && env.orderCommitment(r.secret) == r.authority.commitment && env.signatureValid(r.authority)
                  && r.secret.marketId == market && r.secret.timeInForce == GoodTilCancelled)
  {
    hide Lawful, Run;
    StartIsLawful(market);
    RunsStayGenuine(env, market, Start(market), cmds);
  }

  lemma OrdersStay(env: Env, w: World, cmd: Command, c: Digest32)
    requires Lawful(w) && WellFormed(cmd) && c in w.orders
    ensures c in Next(env, w, cmd).orders && Next(env, w, cmd).orders[c] == w.orders[c]
  {
    hide BookInv, Execute, Admits, Events;
    AdmitsFresh(env, w.book, cmd);
  }

  lemma {:induction false} OrdersStayInRun(env: Env, w: World, cmds: seq<Command>, c: Digest32)
    requires Lawful(w) && c in w.orders && forall i :: 0 <= i < |cmds| ==> WellFormed(cmds[i])
    ensures c in Run(env, w, cmds).orders && Run(env, w, cmds).orders[c] == w.orders[c]
    decreases |cmds|
  {
    hide Lawful, Next;
    if cmds != [] {
      OrdersStay(env, w, cmds[0], c);
      CommandKeepsLawful(env, w, cmds[0]);
      OrdersStayInRun(env, Next(env, w, cmds[0]), cmds[1..], c);
    }
  }

  /** Every order a run admits was brought by one of its commands, with a current signed authority. */
  lemma {:induction false} EveryAdmissionVouched(env: Env, w: World, cmds: seq<Command>, c: Digest32) returns (i: nat)
    requires Lawful(w) && forall k :: 0 <= k < |cmds| ==> WellFormed(cmds[k])
    requires c in Run(env, w, cmds).orders && c !in w.orders
    ensures i < |cmds| && Brings(env, cmds[i], c, Run(env, w, cmds).orders[c])
    decreases |cmds|
  {
    hide Lawful, Brings, Execute, Events, Admits;
    var next := Next(env, w, cmds[0]);
    CommandKeepsLawful(env, w, cmds[0]);
    if c in next.orders {
      LawfulHasBook(w);
      AdmitsVouched(env, w.book, cmds[0], c);
      OrdersStayInRun(env, next, cmds[1..], c);
      i := 0;
    } else {
      i := EveryAdmissionVouched(env, next, cmds[1..], c);
      i := i + 1;
    }
  }

  lemma LawfulHasBook(w: World)
    requires Lawful(w)
    ensures BookInv(w.book) && BookRegistered(w.orders, w.book)
  {
  }

  // ---------------------------------------------------------------- who took what

  /** The command may do this to that order: trade it, withdraw it by its secret, expire it, or discard its rest. */
  ghost predicate Justifies(env: Env, orders: map<Digest32, SecretOrder>, cmd: Command, e: Event) {
    match e
    case Filled(f) => (cmd.SingleCommand? || cmd.BatchCommand?) && cmd.authority.commitment == f.takerOrder
    case Withdrawn(c, _) =>
      && cmd.CancelCommand? && cmd.cancellation.target == c && c in orders
      && orders[c].cancellationSecretDigest == env.cancellationDigest(cmd.cancellation.secret)
    case Released(c, _) => cmd.ExpireCommand? && c in orders && orders[c].expiresAt < cmd.cutoff
    case Stranded(c, _) => cmd.ExpireCommand? && c in orders && orders[c].expiresAt < cmd.cutoff
    case Discarded(c, _) =>
      && (cmd.SingleCommand? || cmd.BatchCommand?) && cmd.authority.commitment == c
      && c in orders && orders[c].timeInForce == ImmediateOrCancel
  }

  lemma ArrivalEventsJustified(env: Env, orders: map<Digest32, SecretOrder>, cmd: Command, fills: seq<PublicFill>,
                               left: nat, i: nat)
    requires (cmd.SingleCommand? || cmd.BatchCommand?) && cmd.authority.commitment in orders
    requires orders[cmd.authority.commitment] == cmd.order
    requires forall k :: 0 <= k < |fills| ==> fills[k].takerOrder == cmd.authority.commitment
    requires i < |ArrivalEvents(cmd.order, cmd.authority.commitment, fills, left)|
    ensures Justifies(env, orders, cmd, ArrivalEvents(cmd.order, cmd.authority.commitment, fills, left)[i])
  {
    FillEventsAre(fills);
  }

  lemma {:induction false} RemovalsNamed(b: Book, orders: seq<Digest32>, released: nat, stranded: bool, i: nat)
    requires i < |Removals(b, orders, released, stranded)|
    ensures var e := Removals(b, orders, released, stranded)[i];
            (e.Released? || e.Stranded?) && e.commitment in orders
    decreases |orders|
  {
    if i > 0 {
      var q := Find(b, orders[0]).value.remaining;
      RemovalsNamed(Drop(b, orders[0]), orders[1..], released + q, stranded, i - 1);
    }
  }

  lemma {:induction false} ExpiresAt(s: seq<Resting>, cutoff: nat, c: Digest32) returns (i: nat)
    requires Expires(s, cutoff, c)
    ensures i < |s| && s[i].Commitment() == c && s[i].secret.expiresAt < cutoff
  {
    if s[0].Commitment() == c && Expired(s[0], cutoff) {
      i := 0;
    } else {
      i := ExpiresAt(s[1..], cutoff, c);
      i := i + 1;
    }
  }

  lemma ExpiryJustified(env: Env, w: World, cmd: Command, i: nat)
    requires Lawful(w) && cmd.ExpireCommand? && i < |Events(env, w.book, cmd)|
    ensures Justifies(env, w.orders, cmd, Events(env, w.book, cmd)[i])
  {
    hide BookInv, Expire, ExpiredCommitments, Balanced, FillWithinLimits, Names;
    var b, orders := w.book, ExpiredCommitments(w.book, cmd.cutoff);
    RemovalsNamed(b, orders, 0, Expire(env, b, cmd.cutoff, cmd.command, cmd.cert).result.Failure?, i);
    var c := Events(env, b, cmd)[i].commitment;
    NamedExpires(b, cmd.cutoff, c);
    if Expires(b.bids, cmd.cutoff, c) {
      var k := ExpiresAt(b.bids, cmd.cutoff, c);
    } else {
      var k := ExpiresAt(b.asks, cmd.cutoff, c);
    }
  }

  lemma NamedExpires(b: Book, cutoff: nat, c: Digest32)
    requires BookInv(b) && c in ExpiredCommitments(b, cutoff)
    ensures Expires(b.bids, cutoff, c) || Expires(b.asks, cutoff, c)
  {
    hide BookInv, ExpiredCommitments;
    ExpiredCommitmentsExact(b, cutoff);
  }

  lemma CancelJustified(env: Env, w: World, cmd: Command, i: nat)
    requires Lawful(w) && cmd.CancelCommand? && i < |Events(env, w.book, cmd)|
    ensures Justifies(env, w.orders, cmd, Events(env, w.book, cmd)[i])
  {
    hide BookInv, Cancel, Balanced, FillWithinLimits;
    CancelExactly(env, w.book, cmd.cancellation, cmd.cert);
    var side: Side, k: nat :| Opens(env, w.book, cmd.cancellation, side, k);
    assert Registered(w.orders, w.book.On(side));
  }

  lemma ArrivalJustified(env: Env, w: World, cmd: Command, i: nat)
    requires Lawful(w) && (cmd.SingleCommand? || cmd.BatchCommand?) && i < |Events(env, w.book, cmd)|
    ensures Justifies(env, w.orders + Admits(env, w.book, cmd), cmd, Events(env, w.book, cmd)[i])
  {
    hide Lawful, Slotted, Expected, Settle, Justifies, ArrivalEvents;
    var orders := w.orders + Admits(env, w.book, cmd);
    if cmd.SingleCommand? {
      SingleSweepFacts(w.book, cmd.order, cmd.authority, 0);
      ArrivalEventsJustified(env, orders, cmd, SingleSweep(w.book, cmd.order, cmd.authority).fills,
                             cmd.single.arrivingRemaining, i);
    } else {
      var sweep := SweepOf(w.book, cmd.order, cmd.authority, cmd.now);
      SweepConserves(TakerOf(cmd.order, cmd.authority, cmd.now), w.book.On(cmd.order.side.Opposite()),
                     cmd.order.quantity, MAX_MATCH_SLOTS);
      ArrivalEventsJustified(env, orders, cmd, sweep.fills, sweep.left, i);
    }
  }

  lemma EventsJustified(env: Env, w: World, cmd: Command, i: nat)
    requires Lawful(w) && i < |Events(env, w.book, cmd)|
    ensures Justifies(env, Next(env, w, cmd).orders, cmd, Events(env, w.book, cmd)[i])
  {
    hide Lawful, Justifies, InsertResting, ApplySingle, ApplyBatch, Cancel, Expire, Removals, Accepted;
    match cmd
    case SingleCommand(_, _, _, _, _) => ArrivalJustified(env, w, cmd, i);
    case BatchCommand(_, _, _, _, _) => ArrivalJustified(env, w, cmd, i);
    case CancelCommand(_, _) =>
      CancelJustified(env, w, cmd, i);
      assert w.orders + map[] == w.orders;
    case ExpireCommand(_, _, _) =>
      ExpiryJustified(env, w, cmd, i);
      assert w.orders + map[] == w.orders;
  }

  lemma JustifiedLater(env: Env, w: World, cmds: seq<Command>, cmd: Command, e: Event)
    requires Lawful(w) && (forall i :: 0 <= i < |cmds| ==> WellFormed(cmds[i])) && Justifies(env, w.orders, cmd, e)
    ensures Justifies(env, Run(env, w, cmds).orders, cmd, e)
  {
    hide Lawful, Run;
    if !e.Filled? {
      OrdersStayInRun(env, w, cmds, e.commitment);
    }
  }

  lemma {:induction false} HistoryGrows(env: Env, w: World, cmds: seq<Command>)
    ensures w.history <= Run(env, w, cmds).history
    decreases |cmds|
  {
    hide Execute, Events, Admits;
    if cmds != [] {
      HistoryGrows(env, Next(env, w, cmds[0]), cmds[1..]);
    }
  }

  /** Everything that happens in a run was done by one of its commands, and that command was entitled to it. */
  lemma {:induction false} EveryEventJustified(env: Env, w: World, cmds: seq<Command>, k: nat) returns (i: nat)
    requires Lawful(w) && forall j :: 0 <= j < |cmds| ==> WellFormed(cmds[j])
    requires |w.history| <= k < |Run(env, w, cmds).history|
    ensures i < |cmds| && Justifies(env, Run(env, w, cmds).orders, cmds[i], Run(env, w, cmds).history[k])
    decreases |cmds|
  {
    hide Lawful, Justifies, Execute, Events, Admits;
    var next := Next(env, w, cmds[0]);
    CommandKeepsLawful(env, w, cmds[0]);
    if k < |next.history| {
      HistoryGrows(env, next, cmds[1..]);
      EventsJustified(env, w, cmds[0], k - |w.history|);
      JustifiedLater(env, next, cmds[1..], cmds[0], next.history[k]);
      i := 0;
    } else {
      i := EveryEventJustified(env, next, cmds[1..], k);
      i := i + 1;
    }
  }

  // ---------------------------------------------------------------- what an order can count on

  lemma {:induction false} TallyShows(h: seq<Event>, c: Digest32, kind: Kind) returns (k: nat)
    requires Tally(h, c, kind) > 0
    ensures k < |h| && Weight(h[k], c, kind) > 0
  {
    if Weight(h[0], c, kind) > 0 {
      k := 0;
    } else {
      k := TallyShows(h[1..], c, kind);
      k := k + 1;
    }
  }

  /** The command withdraws this order with a secret that opens it. */
  ghost predicate CancelsBySecret(env: Env, cmd: Command, c: Digest32, order: SecretOrder) {
    && cmd.CancelCommand? && cmd.cancellation.target == c
    && env.cancellationDigest(cmd.cancellation.secret) == order.cancellationSecretDigest
  }

  ghost predicate ExpiresOrder(cmd: Command, order: SecretOrder) {
    cmd.ExpireCommand? && order.expiresAt < cmd.cutoff
  }

  lemma OnlyBySecret(env: Env, market: seq<Byte>, cmds: seq<Command>, c: Digest32)
    requires (forall i :: 0 <= i < |cmds| ==> WellFormed(cmds[i])) && c in Run(env, Start(market), cmds).orders
    requires forall i :: 0 <= i < |cmds| ==>
      !CancelsBySecret(env, cmds[i], c, Run(env, Start(market), cmds).orders[c])
    ensures Tally(Run(env, Start(market), cmds).history, c, AsWithdrawn) == 0
  {
    hide Lawful, Run, Tally;
    StartIsLawful(market);
    var w := Run(env, Start(market), cmds);
    if Tally(w.history, c, AsWithdrawn) > 0 {
      var k := TallyShows(w.history, c, AsWithdrawn);
      var i := EveryEventJustified(env, Start(market), cmds, k);
      assert false;
    }
  }

  lemma OnlyByExpiry(env: Env, market: seq<Byte>, cmds: seq<Command>, c: Digest32, kind: Kind)
    requires (forall i :: 0 <= i < |cmds| ==> WellFormed(cmds[i])) && c in Run(env, Start(market), cmds).orders
    requires forall i :: 0 <= i < |cmds| ==> !ExpiresOrder(cmds[i], Run(env, Start(market), cmds).orders[c])
    requires kind.AsReleased? || kind.AsStranded?
    ensures Tally(Run(env, Start(market), cmds).history, c, kind) == 0
  {
    hide Lawful, Run, Tally;
    StartIsLawful(market);
    var w := Run(env, Start(market), cmds);
    if Tally(w.history, c, kind) > 0 {
      var k := TallyShows(w.history, c, kind);
      var i := EveryEventJustified(env, Start(market), cmds, k);
      assert false;
    }
  }

  lemma OnlyImmediateDiscards(env: Env, market: seq<Byte>, cmds: seq<Command>, c: Digest32)
    requires (forall i :: 0 <= i < |cmds| ==> WellFormed(cmds[i])) && c in Run(env, Start(market), cmds).orders
    requires Run(env, Start(market), cmds).orders[c].timeInForce == GoodTilCancelled
    ensures Tally(Run(env, Start(market), cmds).history, c, AsDiscarded) == 0
  {
    hide Lawful, Run, Tally;
    StartIsLawful(market);
    var w := Run(env, Start(market), cmds);
    if Tally(w.history, c, AsDiscarded) > 0 {
      var k := TallyShows(w.history, c, AsDiscarded);
      var i := EveryEventJustified(env, Start(market), cmds, k);
      assert false;
    }
  }

  /** An order that no cancellation of the run opens leaves the book by fills or expiry only. */
  lemma UnopenedOrderStays(env: Env, market: seq<Byte>, cmds: seq<Command>, c: Digest32)
    requires (forall i :: 0 <= i < |cmds| ==> WellFormed(cmds[i])) && c in Run(env, Start(market), cmds).orders
    requires forall i :: 0 <= i < |cmds| ==>
      !CancelsBySecret(env, cmds[i], c, Run(env, Start(market), cmds).orders[c])
    ensures var w := Run(env, Start(market), cmds);
            w.orders[c].quantity
            == Tally(w.history, c, AsMaker) + Tally(w.history, c, AsTaker) + RestingQuantity(w.book, c)
               + Tally(w.history, c, AsReleased) + Tally(w.history, c, AsStranded) + Tally(w.history, c, AsDiscarded)
  {
    hide Run, Tally, RestingQuantity;
    OnlyBySecret(env, market, cmds, c);
    EveryOrderAccounted(env, market, cmds, c);
  }

  /**
   A good-til-cancelled order that no cancellation opens and no expiry reaches is traded or still
   resting, to the last unit, whatever else the run does.
   */
  lemma UndisturbedOrderTradesOrRests(env: Env, market: seq<Byte>, cmds: seq<Command>, c: Digest32)
    requires (forall i :: 0 <= i < |cmds| ==> WellFormed(cmds[i])) && c in Run(env, Start(market), cmds).orders
    requires forall i :: 0 <= i < |cmds| ==>
      && !CancelsBySecret(env, cmds[i], c, Run(env, Start(market), cmds).orders[c])
      && !ExpiresOrder(cmds[i], Run(env, Start(market), cmds).orders[c])
    requires Run(env, Start(market), cmds).orders[c].timeInForce == GoodTilCancelled
    ensures var w := Run(env, Start(market), cmds);
            w.orders[c].quantity
            == Tally(w.history, c, AsMaker) + Tally(w.history, c, AsTaker) + RestingQuantity(w.book, c)
  {
    hide Run, Tally, RestingQuantity;
    UnopenedOrderStays(env, market, cmds, c);
    OnlyByExpiry(env, market, cmds, c, AsReleased);
    OnlyByExpiry(env, market, cmds, c, AsStranded);
    OnlyImmediateDiscards(env, market, cmds, c);
  }
}
