/**
 Whole runs of the book: every order's quantity is accounted for, no order trades through
 its limit, and no reservation is overdrawn, whatever commands are attempted.
 */
module Accounting {
  import opened Orders
  import opened Matching
  import opened Batch
  import opened BookModel
  import opened ExpiryLaws

  datatype Event =
    | Filled(fill: PublicFill)
    | Withdrawn(commitment: Digest32, quantity: nat)  // by a cancellation
    | Released(commitment: Digest32, quantity: nat)   // by an expiry
    | Discarded(commitment: Digest32, quantity: nat)  // what an immediate-or-cancel order could not trade
    | Stranded(commitment: Digest32, quantity: nat)   // removed by an expiry that then failed

  /** The book, the orders it ever admitted and everything that happened to them. */
  datatype World = World(book: Book, orders: map<Digest32, SecretOrder>, history: seq<Event>)

  ghost function Start(market: seq<Byte>): World {
    World(Empty(market), map[], [])
  }

  // ---------------------------------------------------------------- what a command does

  function FillEvents(fills: seq<PublicFill>): seq<Event> {
    if fills == [] then [] else [Filled(fills[0])] + FillEvents(fills[1..])
  }

  function ArrivalEvents(order: SecretOrder, c: Digest32, fills: seq<PublicFill>, left: nat): seq<Event> {
    FillEvents(fills) + if order.timeInForce == ImmediateOrCancel then [Discarded(c, left)] else []
  }

  /** The orders the expiry loop removes before it ends, in its order. */
  function Removals(b: Book, orders: seq<Digest32>, released: nat, stranded: bool): seq<Event>
    decreases |orders|
  {
    if orders == [] || Find(b, orders[0]).None? then []
    else
      var q := Find(b, orders[0]).value.remaining;
      if released + q > U64_MAX then []
      else [if stranded then Stranded(orders[0], q) else Released(orders[0], q)]
           + Removals(Drop(b, orders[0]), orders[1..], released + q, stranded)
  }

  ghost function Events(env: Env, b: Book, cmd: Command): seq<Event> {
    match cmd
    case InsertCommand(order, authority, cert, now) => []
    case SingleCommand(order, authority, cert, now, r) =>
      var s := ApplySingle(env, b, order, authority, cert, now, r);
      if s.result.Failure? then []
      else ArrivalEvents(order, authority.commitment, s.result.value.fills, r.arrivingRemaining)
    case BatchCommand(order, authority, cert, now, r) =>
      var s := ApplyBatch(env, b, order, authority, cert, now, r);
      if s.result.Failure? then []
      else ArrivalEvents(order, authority.commitment, s.result.value.fills, SweepOf(b, order, authority, now).left)
    case CancelCommand(cancellation, cert) =>
      var s := Cancel(env, b, cancellation, cert);
      if s.result.Failure? then [] else [Withdrawn(cancellation.target, s.result.value.releasedQuantity)]
    case ExpireCommand(cutoff, command, cert) =>
      if !Accepted(env, b, cutoff, command, cert) then []
      else Removals(b, ExpiredCommitments(b, cutoff), 0, Expire(env, b, cutoff, command, cert).result.Failure?)
  }

  /** The order a command admits, if it is accepted. */
  ghost function Admits(env: Env, b: Book, cmd: Command): map<Digest32, SecretOrder> {
    match cmd
    case InsertCommand(order, authority, cert, now) =>
      if InsertResting(env, b, order, authority, cert, now).result.Success?
      then map[authority.commitment := order] else map[]
    case SingleCommand(order, authority, cert, now, r) =>
      if ApplySingle(env, b, order, authority, cert, now, r).result.Success?
      then map[authority.commitment := order] else map[]
    case BatchCommand(order, authority, cert, now, r) =>
      if ApplyBatch(env, b, order, authority, cert, now, r).result.Success?
      then map[authority.commitment := order] else map[]
    case CancelCommand(_, _) => map[]
    case ExpireCommand(_, _, _) => map[]
  }

  ghost function Next(env: Env, w: World, cmd: Command): World {
    World(Execute(env, w.book, cmd), w.orders + Admits(env, w.book, cmd), w.history + Events(env, w.book, cmd))
  }

  ghost function Run(env: Env, w: World, cmds: seq<Command>): World
    decreases |cmds|
  {
    if cmds == [] then w else Run(env, Next(env, w, cmds[0]), cmds[1..])
  }

  // ---------------------------------------------------------------- tallies

  datatype Kind = AsMaker | AsTaker | AsWithdrawn | AsReleased | AsDiscarded | AsStranded

  function Weight(e: Event, c: Digest32, kind: Kind): nat {
    match e
    case Filled(f) =>
      if (kind.AsMaker? && f.makerOrder == c) || (kind.AsTaker? && f.takerOrder == c) then f.quantity else 0
    case Withdrawn(d, q) => if kind.AsWithdrawn? && d == c then q else 0
    case Released(d, q) => if kind.AsReleased? && d == c then q else 0
    case Discarded(d, q) => if kind.AsDiscarded? && d == c then q else 0
    case Stranded(d, q) => if kind.AsStranded? && d == c then q else 0
  }

  function Tally(h: seq<Event>, c: Digest32, kind: Kind): nat {
    if h == [] then 0 else Weight(h[0], c, kind) + Tally(h[1..], c, kind)
  }

  function Spent(e: Event, c: Digest32): nat {
    match e
    case Filled(f) => (if f.makerOrder == c then f.quantity else 0) + (if f.takerOrder == c then f.quantity else 0)
    case Withdrawn(d, q) => if d == c then q else 0
    case Released(d, q) => if d == c then q else 0
    case Discarded(d, q) => if d == c then q else 0
    case Stranded(d, q) => if d == c then q else 0
  }

  /** Everything that left an order, by whatever way. */
  function Gone(h: seq<Event>, c: Digest32): nat {
    if h == [] then 0 else Spent(h[0], c) + Gone(h[1..], c)
  }

  lemma {:induction false} GoneSplits(h: seq<Event>, c: Digest32)
    ensures Gone(h, c) == Tally(h, c, AsMaker) + Tally(h, c, AsTaker) + Tally(h, c, AsWithdrawn)
                          + Tally(h, c, AsReleased) + Tally(h, c, AsDiscarded) + Tally(h, c, AsStranded)
  {
    if h != [] {
      GoneSplits(h[1..], c);
    }
  }

  function RestingQuantity(b: Book, c: Digest32): nat {
    RemainingOf(b.bids, c) + RemainingOf(b.asks, c)
  }

  lemma {:induction false} GoneConcat(a: seq<Event>, b: seq<Event>, c: Digest32)
    ensures Gone(a + b, c) == Gone(a, c) + Gone(b, c)
  {
    if a == [] {
      assert a + b == b;
    } else {
      assert (a + b)[1..] == a[1..] + b;
      GoneConcat(a[1..], b, c);
    }
  }

  lemma {:induction false} GoneByFills(fills: seq<PublicFill>, taker: Digest32, c: Digest32)
    requires forall i :: 0 <= i < |fills| ==> fills[i].takerOrder == taker
    ensures Gone(FillEvents(fills), c) == MakerVolume(fills, c) + if taker == c then Volume(fills) else 0
  {
    if fills != [] {
      GoneByFills(fills[1..], taker, c);
      assert FillEvents(fills)[1..] == FillEvents(fills[1..]);
    }
  }

  // ---------------------------------------------------------------- one command conserves

  /** A sweep of the opposite side followed by resting or discarding the remainder. */
  lemma ArrivalConserves(b: Book, order: SecretOrder, authority: OrderAuthority, w: Sweep, c: Digest32)
    requires BookInv(b) && authority.commitment !in b.admitted
    requires Volume(w.fills) + w.left == order.quantity
    requires RemainingOf(w.rest, c) + MakerVolume(w.fills, c) == RemainingOf(b.On(order.side.Opposite()), c)
    requires forall i :: 0 <= i < |w.fills| ==> w.fills[i].takerOrder == authority.commitment
    ensures Gone(ArrivalEvents(order, authority.commitment, w.fills, w.left), c)
            + RestingQuantity(Settle(b.With(order.side.Opposite(), w.rest), order, authority, w.left), c)
         == RestingQuantity(b, c) + if c == authority.commitment then order.quantity else 0
  {
    var tail := if order.timeInForce == ImmediateOrCancel then [Discarded(authority.commitment, w.left)] else [];
    GoneByFills(w.fills, authority.commitment, c);
    GoneConcat(FillEvents(w.fills), tail, c);
    SettleConserves(b.With(order.side.Opposite(), w.rest), order, authority, w.left, c);
  }

  lemma SettleConserves(b: Book, order: SecretOrder, authority: OrderAuthority, left: nat, c: Digest32)
    ensures RestingQuantity(Settle(b, order, authority, left), c)
         == RestingQuantity(b, c)
            + if c == authority.commitment && order.timeInForce == GoodTilCancelled then left else 0
  {
    InsertRankedFacts(order.side, b.On(order.side), Resting(order, authority, left, b.sequence + 1), c);
  }

  lemma {:induction false} SetZeroConserves(s: seq<Resting>, c: Digest32, d: Digest32)
    ensures RemainingOf(SetRemaining(s, c, 0), d)
            + (if d == c && FindOn(s, c).Some? then FindOn(s, c).value.remaining else 0)
         == RemainingOf(s, d)
  {
    if s != [] {
      if s[0].Commitment() == c {
        assert SetRemaining(s, c, 0) == s[1..];
      } else {
        SetZeroConserves(s[1..], c, d);
        assert SetRemaining(s, c, 0)[1..] == SetRemaining(s[1..], c, 0);
      }
    }
  }

  lemma DropConserves(b: Book, c: Digest32, d: Digest32)
    requires BookInv(b) && Find(b, c).Some?
    ensures RestingQuantity(Drop(b, c), d) + (if d == c then Find(b, c).value.remaining else 0)
         == RestingQuantity(b, d)
  {
    SetZeroConserves(b.bids, c, d);
    SetZeroConserves(b.asks, c, d);
    FindRests(b.bids, c);
    FindRests(b.asks, c);
  }

  lemma {:induction false} RemovalsConserve(b: Book, orders: seq<Digest32>, released: nat, stranded: bool, c: Digest32)
    requires BookInv(b)
    ensures Gone(Removals(b, orders, released, stranded), c)
            + RestingQuantity(ExpireAll(b, orders, released).book, c) == RestingQuantity(b, c)
    decreases |orders|
  {
    hide BookInv, Drop, RestingQuantity, Find;
    if orders != [] && Find(b, orders[0]).Some? {
      var q := Find(b, orders[0]).value.remaining;
      if released + q <= U64_MAX {
        DropConserves(b, orders[0], c);
        DropKeeps(b, orders[0]);
        RemovalsConserve(Drop(b, orders[0]), orders[1..], released + q, stranded, c);
        var e := if stranded then Stranded(orders[0], q) else Released(orders[0], q);
        GoneConcat([e], Removals(Drop(b, orders[0]), orders[1..], released + q, stranded), c);
      }
    }
  }

  lemma SingleSweepFacts(b: Book, order: SecretOrder, authority: OrderAuthority, c: Digest32)
    ensures var w := SingleSweep(b, order, authority);
            && Volume(w.fills) + w.left == order.quantity
            && w.left == ExpectedSingle(b, order).arrivingRemaining
            && RemainingOf(w.rest, c) + MakerVolume(w.fills, c) == RemainingOf(b.On(order.side.Opposite()), c)
            && (forall i :: 0 <= i < |w.fills| ==> w.fills[i].takerOrder == authority.commitment)
  {
    var s := b.On(order.side.Opposite());
    var w := SingleSweep(b, order, authority);
    if w.fills != [] {
      RemainingOfConcat(Kept(s[0], w.fills[0].quantity), s[1..], c);
      assert w.fills[1..] == [];
      assert s == [s[0]] + s[1..];
    }
  }

  /** The command's effect on one order: what leaves it and what rests make up what it had or came with. */
  ghost predicate Conserves(env: Env, b: Book, cmd: Command, c: Digest32) {
    Gone(Events(env, b, cmd), c) + RestingQuantity(Execute(env, b, cmd), c)
    == RestingQuantity(b, c) + if c in Admits(env, b, cmd) then Admits(env, b, cmd)[c].quantity else 0
  }

  lemma InsertConserves(env: Env, b: Book, cmd: Command, c: Digest32)
    requires BookInv(b) && cmd.InsertCommand?
    ensures Conserves(env, b, cmd, c)
  {
    hide BookInv, AuthorityVerifies, InsertRanked;
    var r := Resting(cmd.order, cmd.authority, cmd.order.quantity, cmd.cert);
    InsertRankedFacts(cmd.order.side, b.On(cmd.order.side), r, c);
  }

  lemma SingleConserves(env: Env, b: Book, cmd: Command, c: Digest32)
    requires BookInv(b) && cmd.SingleCommand?
    ensures Conserves(env, b, cmd, c)
  {
    hide BookInv, Settle, ArrivalEvents, Distinct, AuthorityVerifies;
    if ApplySingle(env, b, cmd.order, cmd.authority, cmd.cert, cmd.now, cmd.single).result.Success? {
      SingleSweepFacts(b, cmd.order, cmd.authority, c);
      ArrivalConserves(b, cmd.order, cmd.authority, SingleSweep(b, cmd.order, cmd.authority), c);
    }
  }

  lemma BatchConserves(env: Env, b: Book, cmd: Command, c: Digest32)
    requires BookInv(b) && cmd.BatchCommand?
    ensures Conserves(env, b, cmd, c)
  {
    hide BookInv, Slotted, Expected, Settle, ArrivalEvents, Distinct;
    if ApplyBatch(env, b, cmd.order, cmd.authority, cmd.cert, cmd.now, cmd.batch).result.Success? {
      SweepConserves(TakerOf(cmd.order, cmd.authority, cmd.now), b.On(cmd.order.side.Opposite()),
                     cmd.order.quantity, MAX_MATCH_SLOTS);
      ArrivalConserves(b, cmd.order, cmd.authority, SweepOf(b, cmd.order, cmd.authority, cmd.now), c);
    }
  }

  lemma CancelConserves(env: Env, b: Book, cmd: Command, c: Digest32)
    requires BookInv(b) && cmd.CancelCommand?
    ensures Conserves(env, b, cmd, c)
  {
    if Cancel(env, b, cmd.cancellation, cmd.cert).result.Success? {
      DropConserves(b, cmd.cancellation.target, c);
    }
  }

  lemma ExpireConserves(env: Env, b: Book, cmd: Command, c: Digest32)
    requires BookInv(b) && cmd.ExpireCommand?
    ensures Conserves(env, b, cmd, c)
  {
    if Accepted(env, b, cmd.cutoff, cmd.command, cmd.cert) {
      var stranded := Expire(env, b, cmd.cutoff, cmd.command, cmd.cert).result.Failure?;
      RemovalsConserve(b, ExpiredCommitments(b, cmd.cutoff), 0, stranded, c);
    }
  }

  lemma CommandConserves(env: Env, b: Book, cmd: Command, c: Digest32)
    requires BookInv(b)
    ensures Conserves(env, b, cmd, c)
  {
    match cmd
    case InsertCommand(_, _, _, _) => InsertConserves(env, b, cmd, c);
    case SingleCommand(_, _, _, _, _) => SingleConserves(env, b, cmd, c);
    case BatchCommand(_, _, _, _, _) => BatchConserves(env, b, cmd, c);
    case CancelCommand(_, _) => CancelConserves(env, b, cmd, c);
    case ExpireCommand(_, _, _) => ExpireConserves(env, b, cmd, c);
  }

  // ---------------------------------------------------------------- fills respect limits

  /** The price is no worse for the order than its limit. */
  predicate WithinLimit(o: SecretOrder, price: nat) {
    if o.side.Buy? then price <= o.limitPrice else price >= o.limitPrice
  }

  /** The fill is made at the resting order's own price, which the arrival accepts. */
  ghost predicate Fair(f: PublicFill, s: seq<Resting>, t: Taker) {
    && f.takerOrder == t.commitment && Crosses(t.side, t.price, f.price)
    && exists i :: 0 <= i < |s| && s[i].Commitment() == f.makerOrder && s[i].Price() == f.price
  }

  lemma {:induction false} SweepFair(t: Taker, s: seq<Resting>, left: nat, slots: nat, i: nat)
    requires i < |Slotted(t, s, left, slots).fills|
    ensures Fair(Slotted(t, s, left, slots).fills[i], s, t)
  {
    var traded := !Expired(s[0], t.now) && Crosses(t.side, t.price, s[0].Price()) && left > 0;
    if traded && i == 0 {
      assert s[0].Commitment() == s[0].Commitment();
    } else {
      var q := if traded then Min(left, s[0].remaining) else 0;
      var k := if Expired(s[0], t.now) then slots else slots - 1;
      var j := if traded then i - 1 else i;
      SweepFair(t, s[1..], left - q, k, j);
      var f := Slotted(t, s[1..], left - q, k).fills[j];
      var m :| 0 <= m < |s[1..]| && s[1..][m].Commitment() == f.makerOrder && s[1..][m].Price() == f.price;
      assert s[m + 1].Commitment() == f.makerOrder;
    }
  }

  // ---------------------------------------------------------------- the invariant of a run

  /** Whatever rests is an admitted order, with the terms it was admitted with. */
  ghost predicate Registered(orders: map<Digest32, SecretOrder>, s: seq<Resting>) {
    forall i :: 0 <= i < |s| ==> s[i].Commitment() in orders && orders[s[i].Commitment()] == s[i].secret
  }

  ghost predicate FillWithinLimits(orders: map<Digest32, SecretOrder>, e: Event) {
    e.Filled? ==>
      && e.fill.makerOrder in orders && WithinLimit(orders[e.fill.makerOrder], e.fill.price)
      && e.fill.takerOrder in orders && WithinLimit(orders[e.fill.takerOrder], e.fill.price)
      && e.fill.makerOrder != e.fill.takerOrder
  }

  ghost predicate Balanced(w: World, c: Digest32) {
    Gone(w.history, c) + RestingQuantity(w.book, c) == if c in w.orders then w.orders[c].quantity else 0
  }

  ghost predicate BookRegistered(orders: map<Digest32, SecretOrder>, b: Book) {
    Registered(orders, b.bids) && Registered(orders, b.asks)
  }

  ghost predicate Tracked(w: World) {
    && BookInv(w.book)
    && (forall c :: c in w.orders ==> c in w.book.admitted && ValidOrder(w.orders[c]))
    && BookRegistered(w.orders, w.book)
  }

  ghost predicate Lawful(w: World) {
    && Tracked(w)
    && (forall c :: Balanced(w, c))
    && (forall i :: 0 <= i < |w.history| ==> FillWithinLimits(w.orders, w.history[i]))
  }

  lemma AdmitsFresh(env: Env, b: Book, cmd: Command)
    requires WellFormed(cmd)
    ensures forall c :: c in Admits(env, b, cmd) ==> c !in b.admitted && ValidOrder(Admits(env, b, cmd)[c])
    ensures forall c :: c in Admits(env, b, cmd) ==> c in Execute(env, b, cmd).admitted
  {
  }

  lemma AdmittedGrows(env: Env, b: Book, cmd: Command)
    requires BookInv(b)
    ensures b.admitted <= Execute(env, b, cmd).admitted
  {
    hide BookInv, Slotted, Expected, ExpireAll;
    if cmd.ExpireCommand? {
      ExpireAllKeeps(b, ExpiredCommitments(b, cmd.cutoff), 0);
    }
  }

  lemma {:induction false} FillEventsAre(fills: seq<PublicFill>)
    ensures |FillEvents(fills)| == |fills|
    ensures forall i :: 0 <= i < |fills| ==> FillEvents(fills)[i] == Filled(fills[i])
  {
    if fills != [] {
      FillEventsAre(fills[1..]);
    }
  }

  lemma {:induction false} RemovalsAreNoFills(b: Book, orders: seq<Digest32>, released: nat, stranded: bool)
    ensures forall i :: 0 <= i < |Removals(b, orders, released, stranded)| ==>
              !Removals(b, orders, released, stranded)[i].Filled?
    decreases |orders|
  {
    if orders != [] && Find(b, orders[0]).Some? {
      var q := Find(b, orders[0]).value.remaining;
      if released + q <= U64_MAX {
        RemovalsAreNoFills(Drop(b, orders[0]), orders[1..], released + q, stranded);
      }
    }
  }

  /** A fair fill against registered orders is within both limits. */
  lemma FairWithinLimits(w: World, order: SecretOrder, t: Taker, f: PublicFill)
    requires Tracked(w) && t.commitment !in w.book.admitted
    requires t.side == order.side && t.price == order.limitPrice
    requires Fair(f, w.book.On(t.side.Opposite()), t)
    ensures FillWithinLimits(w.orders[t.commitment := order], Filled(f))
  {
    var side := t.side.Opposite();
    var s := w.book.On(side);
    var i :| 0 <= i < |s| && s[i].Commitment() == f.makerOrder && s[i].Price() == f.price;
    assert Registered(w.orders, s);
    assert SideInv(w.book, side);
    assert Good(w.book, side, s[i]);
  }

  lemma ArrivalWithinLimits(w: World, order: SecretOrder, t: Taker, fills: seq<PublicFill>, left: nat)
    requires Tracked(w) && t.commitment !in w.book.admitted
    requires t.side == order.side && t.price == order.limitPrice
    requires forall i :: 0 <= i < |fills| ==> Fair(fills[i], w.book.On(t.side.Opposite()), t)
    ensures var es := ArrivalEvents(order, t.commitment, fills, left);
            forall i :: 0 <= i < |es| ==> FillWithinLimits(w.orders[t.commitment := order], es[i])
  {
    FillEventsAre(fills);
    forall i | 0 <= i < |fills| ensures FillWithinLimits(w.orders[t.commitment := order], Filled(fills[i])) {
      FairWithinLimits(w, order, t, fills[i]);
    }
  }

  ghost predicate EventsWithinLimits(env: Env, w: World, cmd: Command) {
    var es := Events(env, w.book, cmd);
    forall i :: 0 <= i < |es| ==> FillWithinLimits(w.orders + Admits(env, w.book, cmd), es[i])
  }

  lemma SingleWithinLimits(env: Env, w: World, cmd: Command)
    requires Tracked(w) && cmd.SingleCommand?
    ensures EventsWithinLimits(env, w, cmd)
  {
    hide BookInv, Settle, BookRegistered;
    var b, order, authority := w.book, cmd.order, cmd.authority;
    if ApplySingle(env, b, order, authority, cmd.cert, cmd.now, cmd.single).result.Success? {
      var fills := SingleSweep(b, order, authority).fills;
      var t := TakerOf(order, authority, cmd.now);
      forall i | 0 <= i < |fills| ensures Fair(fills[i], b.On(t.side.Opposite()), t) {
        assert b.On(t.side.Opposite())[0].Commitment() == fills[i].makerOrder;
      }
      ArrivalWithinLimits(w, order, t, fills, cmd.single.arrivingRemaining);
      assert w.orders + map[t.commitment := order] == w.orders[t.commitment := order];
    }
  }

  lemma BatchWithinLimits(env: Env, w: World, cmd: Command)
    requires Tracked(w) && cmd.BatchCommand?
    ensures EventsWithinLimits(env, w, cmd)
  {
    hide BookInv, Slotted, Expected, Settle, Fair, BookRegistered;
    var b, order, authority := w.book, cmd.order, cmd.authority;
    if ApplyBatch(env, b, order, authority, cmd.cert, cmd.now, cmd.batch).result.Success? {
      var t := TakerOf(order, authority, cmd.now);
      var sweep := SweepOf(b, order, authority, cmd.now);
      forall i | 0 <= i < |sweep.fills| ensures Fair(sweep.fills[i], b.On(t.side.Opposite()), t) {
        SweepFair(t, b.On(t.side.Opposite()), order.quantity, MAX_MATCH_SLOTS, i);
      }
      ArrivalWithinLimits(w, order, t, sweep.fills, sweep.left);
      assert w.orders + map[t.commitment := order] == w.orders[t.commitment := order];
    }
  }

  lemma NewFillsWithinLimits(env: Env, w: World, cmd: Command)
    requires Tracked(w)
    ensures EventsWithinLimits(env, w, cmd)
  {
    match cmd
    case InsertCommand(_, _, _, _) =>
    case SingleCommand(_, _, _, _, _) => SingleWithinLimits(env, w, cmd);
    case BatchCommand(_, _, _, _, _) => BatchWithinLimits(env, w, cmd);
    case CancelCommand(_, _) =>
    case ExpireCommand(cutoff, command, cert) =>
      RemovalsAreNoFills(w.book, ExpiredCommitments(w.book, cutoff), 0, true);
      RemovalsAreNoFills(w.book, ExpiredCommitments(w.book, cutoff), 0, false);
  }

  // ---------------------------------------------------------------- who rests afterwards

  lemma ThinnedRegistered(orders: map<Digest32, SecretOrder>, a: seq<Resting>, s: seq<Resting>)
    requires Thinned(a, s) && Registered(orders, s)
    ensures Registered(orders, a)
  {
    forall i | 0 <= i < |a| ensures a[i].Commitment() in orders && orders[a[i].Commitment()] == a[i].secret {
      var j := ThinnedOrigin(a, s, i);
    }
  }

  lemma InsertRegistered(orders: map<Digest32, SecretOrder>, side: Side, s: seq<Resting>, r: Resting)
    requires Registered(orders, s) && r.Commitment() in orders && orders[r.Commitment()] == r.secret
    ensures Registered(orders, InsertRanked(side, s, r))
  {
    InsertRankedFacts(side, s, r, 0);
    var s' := InsertRanked(side, s, r);
    forall i | 0 <= i < |s'| ensures s'[i].Commitment() in orders && orders[s'[i].Commitment()] == s'[i].secret {
      if s'[i] != r {
        var j :| 0 <= j < |s| && s[j] == s'[i];
      }
    }
  }

  lemma SettleRegistered(orders: map<Digest32, SecretOrder>, b: Book, order: SecretOrder, authority: OrderAuthority,
                         left: nat)
    requires BookRegistered(orders, b)
    requires authority.commitment in orders && orders[authority.commitment] == order
    ensures BookRegistered(orders, Settle(b, order, authority, left))
  {
    InsertRegistered(orders, order.side, b.On(order.side), Resting(order, authority, left, b.sequence + 1));
  }

  lemma SideRegistered(orders: map<Digest32, SecretOrder>, b: Book, side: Side, s: seq<Resting>)
    requires BookRegistered(orders, b) && Thinned(s, b.On(side))
    ensures BookRegistered(orders, b.With(side, s))
  {
    ThinnedRegistered(orders, s, b.On(side));
  }

  lemma DropRegistered(orders: map<Digest32, SecretOrder>, b: Book, c: Digest32)
    requires BookInv(b) && BookRegistered(orders, b)
    ensures BookRegistered(orders, Drop(b, c))
  {
    OpenSide(b, Buy);
    OpenSide(b, Sell);
    SetZeroThins(b.bids, c);
    SetZeroThins(b.asks, c);
    ThinnedRegistered(orders, SetRemaining(b.bids, c, 0), b.bids);
    ThinnedRegistered(orders, SetRemaining(b.asks, c, 0), b.asks);
  }

  lemma {:induction false} ExpireRegistered(orders: map<Digest32, SecretOrder>, b: Book, expired: seq<Digest32>,
                                            released: nat)
    requires BookInv(b) && BookRegistered(orders, b)
    ensures BookRegistered(orders, ExpireAll(b, expired, released).book)
    decreases |expired|
  {
    if expired != [] && Find(b, expired[0]).Some? {
      var q := Find(b, expired[0]).value.remaining;
      if released + q <= U64_MAX {
        DropRegistered(orders, b, expired[0]);
        DropKeeps(b, expired[0]);
        ExpireRegistered(orders, Drop(b, expired[0]), expired[1..], released + q);
      }
    }
  }

  /** Registering a newly admitted order disturbs no registered one. */
  lemma RegistryGrows(w: World, c: Digest32, order: SecretOrder)
    requires Tracked(w) && c !in w.book.admitted
    ensures BookRegistered(w.orders[c := order], w.book)
  {
  }

  lemma ArrivalRegistered(w: World, order: SecretOrder, authority: OrderAuthority, s: seq<Resting>, left: nat)
    requires Tracked(w) && authority.commitment !in w.book.admitted
    requires Thinned(s, w.book.On(order.side.Opposite()))
    ensures BookRegistered(w.orders[authority.commitment := order],
                           Settle(w.book.With(order.side.Opposite(), s), order, authority, left))
  {
    var orders := w.orders[authority.commitment := order];
    RegistryGrows(w, authority.commitment, order);
    SideRegistered(orders, w.book, order.side.Opposite(), s);
    SettleRegistered(orders, w.book.With(order.side.Opposite(), s), order, authority, left);
  }

  lemma SingleSweepThins(b: Book, order: SecretOrder, authority: OrderAuthority)
    requires BookInv(b)
    ensures Thinned(SingleSweep(b, order, authority).rest, b.On(order.side.Opposite()))
  {
    var s := b.On(order.side.Opposite());
    var a := SingleSweep(b, order, authority).rest;
    OpenSide(b, order.side.Opposite());
    ThinnedSelf(s);
    if SingleSweep(b, order, authority).fills != [] {
      ThinnedSelf(s[1..]);
      assert a == s[1..] || a[1..] == s[1..];
    }
  }

  lemma InsertRegisters(env: Env, w: World, cmd: Command)
    requires Tracked(w) && cmd.InsertCommand?
    ensures BookRegistered(w.orders + Admits(env, w.book, cmd), Execute(env, w.book, cmd))
  {
    hide BookInv, AuthorityVerifies, InsertRanked, ValidOrder, Registered;
    var b, order, authority := w.book, cmd.order, cmd.authority;
    if InsertResting(env, b, order, authority, cmd.cert, cmd.now).result.Success? {
      var orders := w.orders[authority.commitment := order];
      assert w.orders + Admits(env, w.book, cmd) == orders;
      RegistryGrows(w, authority.commitment, order);
      InsertRegistered(orders, order.side, b.On(order.side), Resting(order, authority, order.quantity, cmd.cert));
    } else {
      assert w.orders + Admits(env, w.book, cmd) == w.orders;
    }
  }

  lemma SingleRegisters(env: Env, w: World, cmd: Command)
    requires Tracked(w) && cmd.SingleCommand?
    ensures BookRegistered(w.orders + Admits(env, w.book, cmd), Execute(env, w.book, cmd))
  {
    var b, order, authority := w.book, cmd.order, cmd.authority;
    if ApplySingle(env, b, order, authority, cmd.cert, cmd.now, cmd.single).result.Success? {
      assert w.orders + Admits(env, w.book, cmd) == w.orders[authority.commitment := order];
      SingleSweepThins(b, order, authority);
      ArrivalRegistered(w, order, authority, SingleSweep(b, order, authority).rest, cmd.single.arrivingRemaining);
    } else {
      assert w.orders + Admits(env, w.book, cmd) == w.orders;
    }
  }

  lemma BatchRegisters(env: Env, w: World, cmd: Command)
    requires Tracked(w) && cmd.BatchCommand?
    ensures BookRegistered(w.orders + Admits(env, w.book, cmd), Execute(env, w.book, cmd))
  {
    hide Slotted, Expected, Settle, BookRegistered, ValidOrder;
    var b, order, authority := w.book, cmd.order, cmd.authority;
    if ApplyBatch(env, b, order, authority, cmd.cert, cmd.now, cmd.batch).result.Success? {
      assert w.orders + Admits(env, w.book, cmd) == w.orders[authority.commitment := order];
      OpenSide(b, order.side.Opposite());
      SweepThins(TakerOf(order, authority, cmd.now), b.On(order.side.Opposite()), order.quantity, MAX_MATCH_SLOTS);
      var sweep := SweepOf(b, order, authority, cmd.now);
      ArrivalRegistered(w, order, authority, sweep.rest, sweep.left);
    } else {
      assert w.orders + Admits(env, w.book, cmd) == w.orders;
    }
  }

  lemma CommandRegisters(env: Env, w: World, cmd: Command)
    requires Tracked(w)
    ensures BookRegistered(w.orders + Admits(env, w.book, cmd), Execute(env, w.book, cmd))
  {
    hide BookInv, Registered, ApplyBatch, ApplySingle, InsertResting, ExpireAll, Drop;
    match cmd
    case InsertCommand(_, _, _, _) => InsertRegisters(env, w, cmd);
    case SingleCommand(_, _, _, _, _) => SingleRegisters(env, w, cmd);
    case BatchCommand(_, _, _, _, _) => BatchRegisters(env, w, cmd);
    case CancelCommand(cancellation, cert) =>
      assert w.orders + Admits(env, w.book, cmd) == w.orders;
      DropRegistered(w.orders, w.book, cancellation.target);
    case ExpireCommand(cutoff, command, cert) =>
      assert w.orders + Admits(env, w.book, cmd) == w.orders;
      ExpireRegistered(w.orders, w.book, ExpiredCommitments(w.book, cutoff), 0);
  }

  // ---------------------------------------------------------------- runs

  lemma CommandBalances(env: Env, w: World, cmd: Command, c: Digest32)
    requires Lawful(w) && WellFormed(cmd)
    ensures Balanced(Next(env, w, cmd), c)
  {
    CommandConserves(env, w.book, cmd, c);
    GoneConcat(w.history, Events(env, w.book, cmd), c);
    AdmitsFresh(env, w.book, cmd);
    assert Balanced(w, c);
  }

  lemma OldFillsStayWithinLimits(env: Env, w: World, cmd: Command, e: Event)
    requires Lawful(w) && WellFormed(cmd) && FillWithinLimits(w.orders, e)
    ensures FillWithinLimits(w.orders + Admits(env, w.book, cmd), e)
  {
    AdmitsFresh(env, w.book, cmd);
  }

  /** Every attempted command, accepted or refused, keeps a world lawful. */
  lemma CommandKeepsLawful(env: Env, w: World, cmd: Command)
    requires Lawful(w) && WellFormed(cmd)
    ensures Lawful(Next(env, w, cmd))
  {
    var w' := Next(env, w, cmd);
    CommandKeepsInvariant(env, w.book, cmd);
    AdmitsFresh(env, w.book, cmd);
    AdmittedGrows(env, w.book, cmd);
    CommandRegisters(env, w, cmd);
    forall c ensures Balanced(w', c) {
      CommandBalances(env, w, cmd, c);
    }
    NewFillsWithinLimits(env, w, cmd);
    forall i | 0 <= i < |w'.history| ensures FillWithinLimits(w'.orders, w'.history[i]) {
      if i < |w.history| {
        OldFillsStayWithinLimits(env, w, cmd, w.history[i]);
      }
    }
  }

  lemma {:induction false} RunsAreLawful(env: Env, w: World, cmds: seq<Command>)
    requires Lawful(w) && forall i :: 0 <= i < |cmds| ==> WellFormed(cmds[i])
    ensures Lawful(Run(env, w, cmds))
    decreases |cmds|
  {
    if cmds != [] {
      CommandKeepsLawful(env, w, cmds[0]);
      RunsAreLawful(env, Next(env, w, cmds[0]), cmds[1..]);
    }
  }

  /**
   Whole-run accounting. In every state any run can reach, each order ever admitted is
   made up of its maker fills, its taker fills, what rests of it, what was cancelled,
   what expired, what was discarded and what a failed expiry stranded.
   */
  lemma EveryOrderAccounted(env: Env, market: seq<Byte>, cmds: seq<Command>, c: Digest32)
    requires forall i :: 0 <= i < |cmds| ==> WellFormed(cmds[i])
    requires c in Run(env, Start(market), cmds).orders
    ensures var w := Run(env, Start(market), cmds);
            w.orders[c].quantity
            == Tally(w.history, c, AsMaker) + Tally(w.history, c, AsTaker) + RestingQuantity(w.book, c)
               + Tally(w.history, c, AsWithdrawn) + Tally(w.history, c, AsReleased)
               + Tally(w.history, c, AsDiscarded) + Tally(w.history, c, AsStranded)
  {
    RunsAreLawful(env, Start(market), cmds);
    var w := Run(env, Start(market), cmds);
    assert Balanced(w, c);
    GoneSplits(w.history, c);
  }

  lemma StartIsLawful(market: seq<Byte>)
    ensures Lawful(Start(market))
  {
  }

  /** The invariant of the book, in every state any run can reach. */
  lemma ReachableBookInvariant(env: Env, market: seq<Byte>, cmds: seq<Command>)
    requires forall i :: 0 <= i < |cmds| ==> WellFormed(cmds[i])
    ensures BookInv(Run(env, Start(market), cmds).book)
  {
    RunsAreLawful(env, Start(market), cmds);
  }

  // ---------------------------------------------------------------- reservations

  /** Cash that changed hands in the fills of an order. */
  function Paid(h: seq<Event>, c: Digest32): nat {
    if h == [] then 0
    else (if h[0].Filled? && (h[0].fill.makerOrder == c || h[0].fill.takerOrder == c)
          then h[0].fill.price * h[0].fill.quantity else 0) + Paid(h[1..], c)
  }

  function TradedBy(h: seq<Event>, c: Digest32): nat {
    Tally(h, c, AsMaker) + Tally(h, c, AsTaker)
  }

  /** One more trade of `q` at `p` keeps the cash on the right side of the limit. */
  lemma PayOnce(limit: nat, p: nat, q: nat, paid: nat, traded: nat)
    ensures limit * (q + traded) == limit * q + limit * traded
    ensures p <= limit ==> p * q <= limit * q
    ensures p >= limit ==> p * q >= limit * q
  {
  }

  lemma {:induction false} CashWithinLimit(orders: map<Digest32, SecretOrder>, h: seq<Event>, c: Digest32)
    requires c in orders && forall i :: 0 <= i < |h| ==> FillWithinLimits(orders, h[i])
    ensures orders[c].side.Buy? ==> Paid(h, c) <= orders[c].limitPrice * TradedBy(h, c)
    ensures orders[c].side.Sell? ==> Paid(h, c) >= orders[c].limitPrice * TradedBy(h, c)
  {
    if h != [] {
      CashWithinLimit(orders, h[1..], c);
      assert FillWithinLimits(orders, h[0]);
      if h[0].Filled? && (h[0].fill.makerOrder == c || h[0].fill.takerOrder == c) {
        var f := h[0].fill;
        assert TradedBy(h, c) == f.quantity + TradedBy(h[1..], c);
        PayOnce(orders[c].limitPrice, f.price, f.quantity, Paid(h[1..], c), TradedBy(h[1..], c));
      } else {
        assert TradedBy(h, c) == TradedBy(h[1..], c);
      }
    }
  }

  lemma FullFillCosts(o: SecretOrder, traded: nat)
    requires ValidOrder(o) && traded <= o.quantity
    ensures o.side.Buy? ==> o.limitPrice * traded + o.maxFee <= o.reservationLimit
    ensures o.side.Sell? ==> traded <= o.reservationLimit
  {
    assert o.limitPrice * traded <= o.limitPrice * o.quantity;
  }

  /**
   Reservation coverage over whole runs: all a buyer ever pays, as maker and as taker,
   together with its maximum fee, and all a seller ever delivers, stays within the order's
   reservation; and a seller's fills never bring less than its limit.
   */
  lemma ReservationsCover(env: Env, market: seq<Byte>, cmds: seq<Command>, c: Digest32)
    requires forall i :: 0 <= i < |cmds| ==> WellFormed(cmds[i])
    requires c in Run(env, Start(market), cmds).orders
    ensures var w := Run(env, Start(market), cmds);
            var o := w.orders[c];
            if o.side.Buy? then Paid(w.history, c) + o.maxFee <= o.reservationLimit
            else TradedBy(w.history, c) <= o.reservationLimit
                 && Paid(w.history, c) >= o.limitPrice * TradedBy(w.history, c)
  {
    RunsAreLawful(env, Start(market), cmds);
    EveryOrderAccounted(env, market, cmds, c);
    var w := Run(env, Start(market), cmds);
    CashWithinLimit(w.orders, w.history, c);
    FullFillCosts(w.orders[c], TradedBy(w.history, c));
  }

  // ---------------------------------------------------------------- departed orders

  /** What rests after a command rested before it or was not admitted before it. */
  lemma NobodyReturns(env: Env, w: World, cmd: Command, c: Digest32)
    requires Lawful(w) && WellFormed(cmd)
    requires c in w.book.admitted && RestingQuantity(w.book, c) == 0
    ensures RestingQuantity(Execute(env, w.book, cmd), c) == 0
  {
    CommandConserves(env, w.book, cmd, c);
    AdmitsFresh(env, w.book, cmd);
  }

  /** An admitted order that no longer rests never rests again, in any continuation of the run. */
  lemma {:induction false} DepartedForGood(env: Env, w: World, cmds: seq<Command>, c: Digest32)
    requires Lawful(w) && forall i :: 0 <= i < |cmds| ==> WellFormed(cmds[i])
    requires c in w.book.admitted && RestingQuantity(w.book, c) == 0
    ensures RestingQuantity(Run(env, w, cmds).book, c) == 0
    decreases |cmds|
  {
    if cmds != [] {
      NobodyReturns(env, w, cmds[0], c);
      AdmittedGrows(env, w.book, cmds[0]);
      CommandKeepsLawful(env, w, cmds[0]);
      DepartedForGood(env, Next(env, w, cmds[0]), cmds[1..], c);
    }
  }

  // ---------------------------------------------------------------- when anything is stranded

  ghost predicate Overflows(env: Env, b: Book, cmd: Command) {
    cmd.ExpireCommand? && Accepted(env, b, cmd.cutoff, cmd.command, cmd.cert) && ReleasedAt(b, cmd.cutoff) > U64_MAX
  }

  ghost predicate EverOverflows(env: Env, w: World, cmds: seq<Command>)
    decreases |cmds|
  {
    cmds != [] && (Overflows(env, w.book, cmds[0]) || EverOverflows(env, Next(env, w, cmds[0]), cmds[1..]))
  }

  ghost predicate Strands(h: seq<Event>) {
    exists i :: 0 <= i < |h| && h[i].Stranded?
  }

  lemma {:induction false} RemovalKinds(b: Book, orders: seq<Digest32>, released: nat, stranded: bool)
    ensures forall i :: 0 <= i < |Removals(b, orders, released, stranded)| ==>
              (Removals(b, orders, released, stranded)[i].Stranded? <==> stranded)
    decreases |orders|
  {
    if orders != [] && Find(b, orders[0]).Some? {
      var q := Find(b, orders[0]).value.remaining;
      if released + q <= U64_MAX {
        RemovalKinds(Drop(b, orders[0]), orders[1..], released + q, stranded);
      }
    }
  }

  /** A command strands orders exactly when it is an accepted expiry whose total leaves 64 bits. */
  lemma StrandsExactly(env: Env, b: Book, cmd: Command)
    requires BookInv(b)
    ensures Strands(Events(env, b, cmd)) <==> Overflows(env, b, cmd)
  {
    hide BookInv, Slotted, Expected;
    var es := Events(env, b, cmd);
    if cmd.ExpireCommand? && Accepted(env, b, cmd.cutoff, cmd.command, cmd.cert) {
      var orders := ExpiredCommitments(b, cmd.cutoff);
      var failed := Expire(env, b, cmd.cutoff, cmd.command, cmd.cert).result.Failure?;
      ExpiryAtomicExactly(env, b, cmd.cutoff, cmd.command, cmd.cert);
      RemovalKinds(b, orders, 0, failed);
      if failed {
        ExpiredCommitmentsExact(b, cmd.cutoff);
        FirstIsGone(b, cmd.cutoff, orders);
        assert es[0].Stranded?;
      }
    } else if cmd.SingleCommand? {
      FillEventsAre(SingleSweep(b, cmd.order, cmd.authority).fills);
    } else if cmd.BatchCommand? {
      FillEventsAre(SweepOf(b, cmd.order, cmd.authority, cmd.now).fills);
    }
  }

  ghost predicate Fails(env: Env, b: Book, cmd: Command) {
    match cmd
    case InsertCommand(order, authority, cert, now) =>
      InsertResting(env, b, order, authority, cert, now).result.Failure?
    case SingleCommand(order, authority, cert, now, r) =>
      ApplySingle(env, b, order, authority, cert, now, r).result.Failure?
    case BatchCommand(order, authority, cert, now, r) =>
      ApplyBatch(env, b, order, authority, cert, now, r).result.Failure?
    case CancelCommand(cancellation, cert) => Cancel(env, b, cancellation, cert).result.Failure?
    case ExpireCommand(cutoff, command, cert) => Expire(env, b, cutoff, command, cert).result.Failure?
  }

  /** Every failed command of any kind leaves the whole book as it was, except an overflowing expiry. */
  lemma FailureAtomicExactly(env: Env, b: Book, cmd: Command)
    requires BookInv(b) && Fails(env, b, cmd)
    ensures Execute(env, b, cmd) == b <==> !Overflows(env, b, cmd)
  {
    hide BookInv, Slotted, Expected, Settle, ExpireAll, ReleasedAt, ExpiredCommitments;
    if cmd.ExpireCommand? {
      ExpiryAtomicExactly(env, b, cmd.cutoff, cmd.command, cmd.cert);
    }
  }

  /** Over whole runs: something was stranded exactly when some accepted expiry overflowed. */
  lemma {:induction false} RunStrandsExactly(env: Env, w: World, cmds: seq<Command>)
    requires Lawful(w) && forall i :: 0 <= i < |cmds| ==> WellFormed(cmds[i])
    ensures Strands(Run(env, w, cmds).history) <==> Strands(w.history) || EverOverflows(env, w, cmds)
    decreases |cmds|
  {
    if cmds != [] {
      var h, es := w.history, Events(env, w.book, cmds[0]);
      StrandsExactly(env, w.book, cmds[0]);
      CommandKeepsLawful(env, w, cmds[0]);
      RunStrandsExactly(env, Next(env, w, cmds[0]), cmds[1..]);
      StrandsConcat(h, es);
    }
  }

  lemma StrandsConcat(a: seq<Event>, b: seq<Event>)
    ensures Strands(a + b) <==> Strands(a) || Strands(b)
  {
    if Strands(a) {
      var i :| 0 <= i < |a| && a[i].Stranded?;
      assert (a + b)[i].Stranded?;
    }
    if Strands(b) {
      var i :| 0 <= i < |b| && b[i].Stranded?;
      assert (a + b)[|a| + i].Stranded?;
    }
  }
}
