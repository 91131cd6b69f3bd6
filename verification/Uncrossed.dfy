/**
 When each command leaves the book uncrossed, exactly, over whole runs too, and that guarded
 runs keep it so.
 */
module Uncrossed {
  import opened Orders
  import opened Matching
  import opened Batch
  import opened BookModel
  import opened Accounting

  /** Every bid live at `now` is priced strictly below every ask live at `now`. */
  ghost predicate IsUncrossed(b: Book, now: nat) {
    forall i, j :: 0 <= i < |b.bids| && 0 <= j < |b.asks|
      && !Expired(b.bids[i], now) && !Expired(b.asks[j], now)
      ==> b.bids[i].Price() < b.asks[j].Price()
  }

  lemma LaterStaysUncrossed(b: Book, now: nat, later: nat)
    requires IsUncrossed(b, now) && now <= later
    ensures IsUncrossed(b, later)
  {
  }

  lemma ThinningStaysUncrossed(b: Book, bids: seq<Resting>, asks: seq<Resting>, now: nat)
    requires IsUncrossed(b, now) && Thinned(bids, b.bids) && Thinned(asks, b.asks)
    ensures IsUncrossed(b.(bids := bids, asks := asks), now)
  {
    forall i, j | 0 <= i < |bids| && 0 <= j < |asks| && !Expired(bids[i], now) && !Expired(asks[j], now)
      ensures bids[i].Price() < asks[j].Price()
    {
      var k := ThinnedOrigin(bids, b.bids, i);
      var l := ThinnedOrigin(asks, b.asks, j);
    }
  }

  // ---------------------------------------------------------------- what a sweep leaves behind

  /** Unbounded matching that could not fill the arrival has cleared every live order it crosses. */
  lemma {:induction false} GreedyClears(t: Taker, s: seq<Resting>, left: nat)
    requires Greedy(t, s, left).left > 0
    ensures var rest := Greedy(t, s, left).rest;
            forall i :: 0 <= i < |rest| ==> Expired(rest[i], t.now) || !Crosses(t.side, t.price, rest[i].Price())
  {
    if s == [] {
    } else if Expired(s[0], t.now) || !Crosses(t.side, t.price, s[0].Price()) || left == 0 {
      GreedyClears(t, s[1..], left);
      GreedyLeft(t, s[1..], left);
    } else {
      var q := Min(left, s[0].remaining);
      GreedyClears(t, s[1..], left - q);
      GreedyLeft(t, s[1..], left - q);
    }
  }

  lemma {:induction false} GreedyLeft(t: Taker, s: seq<Resting>, left: nat)
    ensures Greedy(t, s, left).left <= left
  {
    if s != [] {
      GreedyLeft(t, s[1..], left);
      if left > 0 {
        GreedyLeft(t, s[1..], left - Min(left, s[0].remaining));
      }
    }
  }

  ghost predicate LiveCrosser(t: Taker, s: seq<Resting>, i: int) {
    0 <= i < |s| && !Expired(s[i], t.now) && Crosses(t.side, t.price, s[i].Price())
  }

  /** Matching that runs out of slots leaves a live order it crosses. */
  lemma {:induction false} SlotsLeaveCrosser(t: Taker, s: seq<Resting>, left: nat, slots: nat) returns (i: nat)
    requires |Greedy(t, s, left).fills| > slots
    ensures LiveCrosser(t, Slotted(t, s, left, slots).rest, i)
  {
    var rest := Slotted(t, s, left, slots).rest;
    if Expired(s[0], t.now) || !Crosses(t.side, t.price, s[0].Price()) || left == 0 {
      i := SlotsLeaveCrosser(t, s[1..], left, if slots == 0 || Expired(s[0], t.now) then slots else slots - 1);
      if slots == 0 {
        assert Slotted(t, s[1..], left, slots).rest == s[1..];
      }
      i := i + 1;
    } else if slots == 0 {
      i := 0;
    } else {
      var q := Min(left, s[0].remaining);
      i := SlotsLeaveCrosser(t, s[1..], left - q, slots - 1);
      i := i + |Kept(s[0], q)|;
    }
  }

  // ---------------------------------------------------------------- resting an arrival

  lemma {:induction false} InsertedAt(side: Side, s: seq<Resting>, r: Resting) returns (i: nat)
    ensures i < |InsertRanked(side, s, r)| && InsertRanked(side, s, r)[i] == r
  {
    if s == [] || Better(side, r.Price(), s[0].Price()) {
      i := 0;
    } else {
      i := InsertedAt(side, s[1..], r);
      i := i + 1;
    }
  }

  ghost predicate CrossesNoneLive(t: Taker, s: seq<Resting>) {
    forall i :: 0 <= i < |s| ==> Expired(s[i], t.now) || !Crosses(t.side, t.price, s[i].Price())
  }

  /** A live order may rest exactly when it crosses no live order of the other side. */
  lemma RestUncrossedExactly(b: Book, r: Resting, now: nat)
    requires IsUncrossed(b, now) && !Expired(r, now)
    ensures IsUncrossed(Commit(Rest(b, r), r.Commitment()), now)
       <==> CrossesNoneLive(Taker(r.secret.side, r.Price(), now, r.Commitment()), b.On(r.secret.side.Opposite()))
  {
    hide InsertRanked;
    var side := r.secret.side;
    var t := Taker(side, r.Price(), now, r.Commitment());
    var s, o := b.On(side), b.On(side.Opposite());
    if CrossesNoneLive(t, o) {
      var s' := InsertRanked(side, s, r);
      forall i, j | 0 <= i < |s'| && 0 <= j < |o| && !Expired(s'[i], now) && !Expired(o[j], now)
        ensures if side.Buy? then s'[i].Price() < o[j].Price() else o[j].Price() < s'[i].Price()
      {
        InsertedOrigin(side, s, r, i);
        if s'[i] != r {
          var k :| 0 <= k < |s| && s[k] == s'[i];
        }
      }
    } else {
      var j :| 0 <= j < |o| && !Expired(o[j], now) && Crosses(side, r.Price(), o[j].Price());
      var i := InsertedAt(side, s, r);
    }
  }

  lemma {:induction false} InsertedOrigin(side: Side, s: seq<Resting>, r: Resting, i: nat)
    requires i < |InsertRanked(side, s, r)|
    ensures InsertRanked(side, s, r)[i] == r || InsertRanked(side, s, r)[i] in s
  {
    if s != [] && !Better(side, r.Price(), s[0].Price()) && i > 0 {
      InsertedOrigin(side, s[1..], r, i - 1);
    }
  }

  /** Inserting without matching can cross the book: exactly when the order crosses a live one. */
  lemma InsertUncrossedExactly(env: Env, b: Book, order: SecretOrder, authority: OrderAuthority, cert: nat, now: U64)
    requires IsUncrossed(b, now) && InsertResting(env, b, order, authority, cert, now).result.Success?
    ensures IsUncrossed(InsertResting(env, b, order, authority, cert, now).book, now)
       <==> CrossesNoneLive(TakerOf(order, authority, now), b.On(order.side.Opposite()))
  {
    hide IsUncrossed, CrossesNoneLive;
    RestUncrossedExactly(b, Resting(order, authority, order.quantity, cert), now);
  }

  /** The fixed-slot sweep leaves a live order to cross exactly when it ran out of slots. */
  lemma SweepLeavesCrosserExactly(b: Book, order: SecretOrder, authority: OrderAuthority, now: nat)
    requires BookInv(b)
    ensures var w := SweepOf(b, order, authority, now);
            && (ExceedsCapacity(b, order, now) ==> w.left > 0)
            && (w.left > 0 ==>
                  (CrossesNoneLive(TakerOf(order, authority, now), w.rest) <==> !ExceedsCapacity(b, order, now)))
  {
    hide BookInv;
    var s, t := b.On(order.side.Opposite()), TakerOf(order, authority, now);
    OpenSide(b, order.side.Opposite());
    SlottedRefinesGreedy(t, s, order.quantity, MAX_MATCH_SLOTS);
    FillCountIgnoresName(t, Taker(order.side, order.limitPrice, now, 0), s, order.quantity);
    if ExceedsCapacity(b, order, now) {
      var i := SlotsLeaveCrosser(t, s, order.quantity, MAX_MATCH_SLOTS);
    } else if SweepOf(b, order, authority, now).left > 0 {
      GreedyClears(t, s, order.quantity);
    }
  }

  lemma SweepStaysUncrossed(b: Book, order: SecretOrder, authority: OrderAuthority, now: nat)
    requires BookInv(b) && IsUncrossed(b, now)
    ensures IsUncrossed(b.With(order.side.Opposite(), SweepOf(b, order, authority, now).rest), now)
  {
    hide BookInv, IsUncrossed;
    var side := order.side.Opposite();
    var b' := b.With(side, SweepOf(b, order, authority, now).rest);
    OpenSide(b, side);
    OpenSide(b, order.side);
    SweepThins(TakerOf(order, authority, now), b.On(side), order.quantity, MAX_MATCH_SLOTS);
    ThinnedSelf(b.On(order.side));
    ThinningStaysUncrossed(b, b'.bids, b'.asks, now);
    assert b' == b.(bids := b'.bids, asks := b'.asks);
  }

  /**
   From an uncrossed book, an accepted batch leaves the book uncrossed exactly when the
   arrival is immediate-or-cancel or does not exceed the matching capacity.
   */
  lemma BatchUncrossedExactly(env: Env, b: Book, order: SecretOrder, authority: OrderAuthority, cert: nat, now: U64,
                              result: BatchResult)
    requires BookInv(b) && IsUncrossed(b, now)
    requires ApplyBatch(env, b, order, authority, cert, now, result).result.Success?
    ensures IsUncrossed(ApplyBatch(env, b, order, authority, cert, now, result).book, now)
       <==> !(order.timeInForce == GoodTilCancelled && ExceedsCapacity(b, order, now))
  {
    hide BookInv, IsUncrossed, CrossesNoneLive, ExceedsCapacity, Expected, Slotted;
    var w := SweepOf(b, order, authority, now);
    var b' := b.With(order.side.Opposite(), w.rest);
    SweepStaysUncrossed(b, order, authority, now);
    SweepLeavesCrosserExactly(b, order, authority, now);
    if order.timeInForce == GoodTilCancelled && w.left > 0 {
      RestUncrossedExactly(b', Resting(order, authority, w.left, b.sequence + 1), now);
    } else {
      CommitStaysUncrossed(b', authority.commitment, now);
    }
  }

  /** What the single-slot match leaves of a good-til-cancelled arrival crosses a live order it left. */
  ghost predicate SingleLeavesCrosser(b: Book, order: SecretOrder, authority: OrderAuthority, now: nat) {
    var w := SingleSweep(b, order, authority);
    order.timeInForce == GoodTilCancelled && w.left > 0 && !CrossesNoneLive(TakerOf(order, authority, now), w.rest)
  }

  lemma SingleSweepStaysUncrossed(b: Book, order: SecretOrder, authority: OrderAuthority, now: nat)
    requires BookInv(b) && IsUncrossed(b, now)
    ensures IsUncrossed(b.With(order.side.Opposite(), SingleSweep(b, order, authority).rest), now)
  {
    hide BookInv, IsUncrossed, SingleSweep;
    var side := order.side.Opposite();
    var b' := b.With(side, SingleSweep(b, order, authority).rest);
    OpenSide(b, order.side);
    SingleSweepThins(b, order, authority);
    ThinnedSelf(b.On(order.side));
    ThinningStaysUncrossed(b, b'.bids, b'.asks, now);
    assert b' == b.(bids := b'.bids, asks := b'.asks);
  }

  /**
   From an uncrossed book, an accepted single-slot match leaves the book uncrossed exactly when
   no resting remainder of the arrival crosses a live order behind the one it looked at.
   */
  lemma SingleUncrossedExactly(env: Env, b: Book, order: SecretOrder, authority: OrderAuthority, cert: nat, now: U64,
                               result: MatchResult)
    requires BookInv(b) && IsUncrossed(b, now)
    requires ApplySingle(env, b, order, authority, cert, now, result).result.Success?
    ensures IsUncrossed(ApplySingle(env, b, order, authority, cert, now, result).book, now)
       <==> !SingleLeavesCrosser(b, order, authority, now)
  {
    hide BookInv, IsUncrossed, CrossesNoneLive, SingleSweep;
    var w := SingleSweep(b, order, authority);
    var b' := b.With(order.side.Opposite(), w.rest);
    SingleSweepStaysUncrossed(b, order, authority, now);
    SingleLeft(b, order, authority);
    if order.timeInForce == GoodTilCancelled && w.left > 0 {
      RestUncrossedExactly(b', Resting(order, authority, w.left, b.sequence + 1), now);
    } else {
      CommitStaysUncrossed(b', authority.commitment, now);
    }
  }

  lemma SingleLeft(b: Book, order: SecretOrder, authority: OrderAuthority)
    ensures SingleSweep(b, order, authority).left == ExpectedSingle(b, order).arrivingRemaining
  {
  }

  // ---------------------------------------------------------------- one command of any kind

  /** The command is accepted and rests an order that crosses a live one. A caller can compute it beforehand. */
  ghost predicate AdmitsCrosser(env: Env, b: Book, cmd: Command) {
    match cmd
    case InsertCommand(order, authority, cert, now) =>
      && InsertResting(env, b, order, authority, cert, now).result.Success?
      && !CrossesNoneLive(TakerOf(order, authority, now), b.On(order.side.Opposite()))
    case SingleCommand(order, authority, cert, now, r) =>
      && ApplySingle(env, b, order, authority, cert, now, r).result.Success?
      && SingleLeavesCrosser(b, order, authority, now)
    case BatchCommand(order, authority, cert, now, r) =>
      && ApplyBatch(env, b, order, authority, cert, now, r).result.Success?
      && order.timeInForce == GoodTilCancelled && ExceedsCapacity(b, order, now)
    case CancelCommand(_, _) => false
    case ExpireCommand(_, _, _) => false
  }

  lemma CancelStaysUncrossed(env: Env, b: Book, cancellation: SecretCancellation, cert: nat, clock: nat)
    requires BookInv(b) && IsUncrossed(b, clock)
    ensures IsUncrossed(Cancel(env, b, cancellation, cert).book, clock)
  {
    hide BookInv, IsUncrossed;
    var s := Cancel(env, b, cancellation, cert);
    if s.result.Success? {
      DropStaysUncrossed(b, cancellation.target, clock);
      CommitStaysUncrossed(Drop(b, cancellation.target), s.result.value.command, clock);
    }
  }

  lemma ExpireStaysUncrossed(env: Env, b: Book, cutoff: U64, command: Digest32, cert: nat, clock: nat)
    requires BookInv(b) && IsUncrossed(b, clock)
    ensures IsUncrossed(Expire(env, b, cutoff, command, cert).book, clock)
  {
    hide BookInv, IsUncrossed, ExpireAll;
    var orders := ExpiredCommitments(b, cutoff);
    ExpiryStaysUncrossed(b, orders, 0, clock);
    CommitStaysUncrossed(ExpireAll(b, orders, 0).book, command, clock);
  }

  /** A command of any kind, accepted or not, crosses an uncrossed book exactly when it admits a crosser. */
  lemma CommandUncrossedExactly(env: Env, b: Book, clock: nat, cmd: Command)
    requires BookInv(b) && IsUncrossed(b, clock) && clock <= Clock(clock, cmd)
    ensures IsUncrossed(Execute(env, b, cmd), Clock(clock, cmd)) <==> !AdmitsCrosser(env, b, cmd)
  {
    hide BookInv, IsUncrossed, CrossesNoneLive, ExceedsCapacity, SingleLeavesCrosser;
    hide InsertResting, ApplySingle, ApplyBatch, Cancel, Expire;
    LaterStaysUncrossed(b, clock, Clock(clock, cmd));
    match cmd
    case InsertCommand(order, authority, cert, now) => InsertStep(env, b, order, authority, cert, now);
    case SingleCommand(order, authority, cert, now, r) => SingleStep(env, b, order, authority, cert, now, r);
    case BatchCommand(order, authority, cert, now, r) => BatchStep(env, b, order, authority, cert, now, r);
    case CancelCommand(cancellation, cert) => CancelStaysUncrossed(env, b, cancellation, cert, clock);
    case ExpireCommand(cutoff, command, cert) => ExpireStaysUncrossed(env, b, cutoff, command, cert, clock);
  }

  lemma InsertStep(env: Env, b: Book, order: SecretOrder, authority: OrderAuthority, cert: nat, now: U64)
    requires IsUncrossed(b, now)
    ensures var s := InsertResting(env, b, order, authority, cert, now);
            IsUncrossed(s.book, now) <==>
            !(s.result.Success? && !CrossesNoneLive(TakerOf(order, authority, now), b.On(order.side.Opposite())))
  {
    hide IsUncrossed, CrossesNoneLive;
    if InsertResting(env, b, order, authority, cert, now).result.Success? {
      InsertUncrossedExactly(env, b, order, authority, cert, now);
    }
  }

  lemma SingleStep(env: Env, b: Book, order: SecretOrder, authority: OrderAuthority, cert: nat, now: U64,
                   r: MatchResult)
    requires BookInv(b) && IsUncrossed(b, now)
    ensures var s := ApplySingle(env, b, order, authority, cert, now, r);
            IsUncrossed(s.book, now) <==> !(s.result.Success? && SingleLeavesCrosser(b, order, authority, now))
  {
    hide BookInv, IsUncrossed, SingleLeavesCrosser;
    if ApplySingle(env, b, order, authority, cert, now, r).result.Success? {
      SingleUncrossedExactly(env, b, order, authority, cert, now, r);
    }
  }

  lemma BatchStep(env: Env, b: Book, order: SecretOrder, authority: OrderAuthority, cert: nat, now: U64, r: BatchResult)
    requires BookInv(b) && IsUncrossed(b, now)
    ensures var s := ApplyBatch(env, b, order, authority, cert, now, r);
            IsUncrossed(s.book, now) <==>
            !(s.result.Success? && order.timeInForce == GoodTilCancelled && ExceedsCapacity(b, order, now))
  {
    hide BookInv, IsUncrossed, ExceedsCapacity, Expected, Slotted;
    if ApplyBatch(env, b, order, authority, cert, now, r).result.Success? {
      BatchUncrossedExactly(env, b, order, authority, cert, now, r);
    }
  }

  // ---------------------------------------------------------------- runs

  /** Batches guarded by the capacity check and a clock that never runs back, cancellations and expiries. */
  ghost predicate Guarded(env: Env, b: Book, clock: nat, cmds: seq<Command>)
    decreases |cmds|
  {
    cmds != [] ==>
      && WellFormed(cmds[0])
      && (match cmds[0]
          case BatchCommand(order, _, _, now, _) => clock <= now && !ExceedsCapacity(b, order, now)
          case CancelCommand(_, _) => true
          case ExpireCommand(_, _, _) => true
          case _ => false)
      && Guarded(env, Execute(env, b, cmds[0]), Clock(clock, cmds[0]), cmds[1..])
  }

  function Clock(clock: nat, cmd: Command): nat {
    if cmd.InsertCommand? || cmd.SingleCommand? || cmd.BatchCommand? then cmd.now else clock
  }

  function ClockAfter(clock: nat, cmds: seq<Command>): nat
    decreases |cmds|
  {
    if cmds == [] then clock else ClockAfter(Clock(clock, cmds[0]), cmds[1..])
  }

  lemma DropStaysUncrossed(b: Book, c: Digest32, now: nat)
    requires BookInv(b) && IsUncrossed(b, now)
    ensures IsUncrossed(Drop(b, c), now)
  {
    hide BookInv;
    OpenSide(b, Buy);
    OpenSide(b, Sell);
    SetZeroThins(b.bids, c);
    SetZeroThins(b.asks, c);
    ThinningStaysUncrossed(b, SetRemaining(b.bids, c, 0), SetRemaining(b.asks, c, 0), now);
  }

  lemma {:induction false} ExpiryStaysUncrossed(b: Book, orders: seq<Digest32>, released: nat, now: nat)
    requires BookInv(b) && IsUncrossed(b, now)
    ensures IsUncrossed(ExpireAll(b, orders, released).book, now)
    decreases |orders|
  {
    hide BookInv, IsUncrossed;
    if orders != [] && Find(b, orders[0]).Some? {
      var q := Find(b, orders[0]).value.remaining;
      if released + q <= U64_MAX {
        DropStaysUncrossed(b, orders[0], now);
        DropKeeps(b, orders[0]);
        ExpiryStaysUncrossed(Drop(b, orders[0]), orders[1..], released + q, now);
      }
    }
  }

  lemma CommitStaysUncrossed(b: Book, c: Digest32, now: nat)
    requires IsUncrossed(b, now)
    ensures IsUncrossed(Commit(b, c), now)
  {
  }

  lemma GuardedCommandStaysUncrossed(env: Env, b: Book, clock: nat, cmd: Command)
    requires BookInv(b) && IsUncrossed(b, clock) && Guarded(env, b, clock, [cmd])
    ensures IsUncrossed(Execute(env, b, cmd), Clock(clock, cmd))
  {
    hide BookInv, IsUncrossed, Execute, ExceedsCapacity, ApplyBatch;
    CommandUncrossedExactly(env, b, clock, cmd);
  }

  // ---------------------------------------------------------------- any run at all

  /** The clocks the commands carry never run back. */
  ghost predicate TimeOrdered(clock: nat, cmds: seq<Command>)
    decreases |cmds|
  {
    cmds != [] ==> clock <= Clock(clock, cmds[0]) && TimeOrdered(Clock(clock, cmds[0]), cmds[1..])
  }

  /** After some command of the run the book is crossed, by that command's clock. */
  ghost predicate EverCrossed(env: Env, w: World, clock: nat, cmds: seq<Command>)
    decreases |cmds|
  {
    && cmds != []
    && (|| !IsUncrossed(Next(env, w, cmds[0]).book, Clock(clock, cmds[0]))
        || EverCrossed(env, Next(env, w, cmds[0]), Clock(clock, cmds[0]), cmds[1..]))
  }

  ghost predicate EverAdmitsCrosser(env: Env, w: World, cmds: seq<Command>)
    decreases |cmds|
  {
    && cmds != []
    && (AdmitsCrosser(env, w.book, cmds[0]) || EverAdmitsCrosser(env, Next(env, w, cmds[0]), cmds[1..]))
  }

  /**
   Over any run of all five commands in time order from an uncrossed book: the book is ever
   crossed exactly when some command of the run admits a crosser.
   */
  lemma {:induction false} RunCrossedExactly(env: Env, w: World, clock: nat, cmds: seq<Command>)
    requires BookInv(w.book) && IsUncrossed(w.book, clock) && TimeOrdered(clock, cmds)
    requires forall i :: 0 <= i < |cmds| ==> WellFormed(cmds[i])
    ensures EverCrossed(env, w, clock, cmds) <==> EverAdmitsCrosser(env, w, cmds)
    decreases |cmds|
  {
    hide BookInv, IsUncrossed, AdmitsCrosser, Execute, Events, Admits;
    if cmds != [] {
      CommandUncrossedExactly(env, w.book, clock, cmds[0]);
      if IsUncrossed(Next(env, w, cmds[0]).book, Clock(clock, cmds[0])) {
        CommandKeepsInvariant(env, w.book, cmds[0]);
        RunCrossedExactly(env, Next(env, w, cmds[0]), Clock(clock, cmds[0]), cmds[1..]);
      }
    }
  }

  /** In particular from the empty book. */
  lemma RunsFromEmptyCrossedExactly(env: Env, market: seq<Byte>, cmds: seq<Command>)
    requires TimeOrdered(0, cmds) && forall i :: 0 <= i < |cmds| ==> WellFormed(cmds[i])
    ensures EverCrossed(env, Start(market), 0, cmds) <==> EverAdmitsCrosser(env, Start(market), cmds)
  {
    hide EverCrossed, EverAdmitsCrosser;
    RunCrossedExactly(env, Start(market), 0, cmds);
  }

  // ---------------------------------------------------------------- guarded runs

  /** Safety over runs: a guarded run never leaves a live bid at or above a live ask. */
  lemma {:induction false} GuardedRunStaysUncrossed(env: Env, w: World, clock: nat, cmds: seq<Command>, now: nat)
    requires BookInv(w.book) && IsUncrossed(w.book, clock) && Guarded(env, w.book, clock, cmds)
    requires ClockAfter(clock, cmds) <= now
    ensures IsUncrossed(Run(env, w, cmds).book, now)
    decreases |cmds|
  {
    hide BookInv, IsUncrossed, Execute, Events, Admits;
    if cmds == [] {
      LaterStaysUncrossed(w.book, clock, now);
    } else {
      assert [cmds[0]][1..] == [];
      GuardedCommandStaysUncrossed(env, w.book, clock, cmds[0]);
      CommandKeepsInvariant(env, w.book, cmds[0]);
      GuardedRunStaysUncrossed(env, Next(env, w, cmds[0]), Clock(clock, cmds[0]), cmds[1..], now);
    }
  }

  /** In particular from the empty book. */
  lemma GuardedRunsFromEmpty(env: Env, market: seq<Byte>, cmds: seq<Command>, now: nat)
    requires Guarded(env, Empty(market), 0, cmds) && ClockAfter(0, cmds) <= now
    ensures IsUncrossed(Run(env, Start(market), cmds).book, now)
  {
    GuardedRunStaysUncrossed(env, Start(market), 0, cmds, now);
  }
}
