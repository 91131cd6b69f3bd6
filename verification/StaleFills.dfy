/** Whether an expired order can trade: never in a batch, and exactly when on the single-slot path. */
module StaleFills {
  import opened Orders
  import opened Matching
  import opened Batch
  import opened BookModel
  import opened Accounting

  /** The order resting in `s` under commitment `c` has expired. */
  ghost predicate StaleMaker(s: seq<Resting>, c: Digest32, now: nat) {
    exists i :: 0 <= i < |s| && s[i].Commitment() == c && Expired(s[i], now)
  }

  ghost predicate LiveMaker(s: seq<Resting>, c: Digest32, now: nat) {
    exists i :: 0 <= i < |s| && s[i].Commitment() == c && !Expired(s[i], now)
  }

  lemma LiveIsNotStale(s: seq<Resting>, c: Digest32, now: nat)
    requires Distinct(s) && LiveMaker(s, c, now)
    ensures !StaleMaker(s, c, now)
  {
    var i :| 0 <= i < |s| && s[i].Commitment() == c && !Expired(s[i], now);
    forall j | 0 <= j < |s| && s[j].Commitment() == c ensures j == i {
      if j < i {
        OneIndex(s, j, i);
      } else if i < j {
        OneIndex(s, i, j);
      }
    }
  }

  /** Every maker the fixed-slot sweep fills is live. */
  lemma {:induction false} SweepMakersLive(t: Taker, s: seq<Resting>, left: nat, slots: nat, j: nat)
    requires j < |Slotted(t, s, left, slots).fills|
    ensures LiveMaker(s, Slotted(t, s, left, slots).fills[j].makerOrder, t.now)
  {
    var traded := !Expired(s[0], t.now) && Crosses(t.side, t.price, s[0].Price()) && left > 0;
    if traded && j == 0 {
      assert s[0].Commitment() == Slotted(t, s, left, slots).fills[0].makerOrder;
    } else {
      var q := if traded then Min(left, s[0].remaining) else 0;
      var k := if Expired(s[0], t.now) then slots else slots - 1;
      var l := if traded then j - 1 else j;
      SweepMakersLive(t, s[1..], left - q, k, l);
      var maker := Slotted(t, s[1..], left - q, k).fills[l].makerOrder;
      var m :| 0 <= m < |s[1..]| && s[1..][m].Commitment() == maker && !Expired(s[1..][m], t.now);
      assert s[m + 1].Commitment() == maker;
    }
  }

  // ---------------------------------------------------------------- commands

  /** The fills an attempted command makes. */
  ghost function FillsMade(env: Env, b: Book, cmd: Command): seq<PublicFill> {
    match cmd
    case SingleCommand(order, authority, cert, now, r) =>
      var s := ApplySingle(env, b, order, authority, cert, now, r);
      if s.result.Success? then s.result.value.fills else []
    case BatchCommand(order, authority, cert, now, r) =>
      var s := ApplyBatch(env, b, order, authority, cert, now, r);
      if s.result.Success? then s.result.value.fills else []
    case _ => []
  }

  /** The command fills an order that has expired by its own clock. */
  ghost predicate TradesStale(env: Env, b: Book, cmd: Command) {
    && (cmd.SingleCommand? || cmd.BatchCommand?)
    && exists j :: 0 <= j < |FillsMade(env, b, cmd)|
                   && StaleMaker(b.On(cmd.order.side.Opposite()), FillsMade(env, b, cmd)[j].makerOrder, cmd.now)
  }

  /** The best opposite order crosses the arrival and has expired. A caller can look it up. */
  ghost predicate StaleHead(b: Book, order: SecretOrder, now: nat) {
    var s := b.On(order.side.Opposite());
    s != [] && Crosses(order.side, order.limitPrice, s[0].Price()) && Expired(s[0], now)
  }

  lemma BatchNeverStale(env: Env, b: Book, cmd: Command)
    requires BookInv(b) && cmd.BatchCommand?
    ensures !TradesStale(env, b, cmd)
  {
    hide BookInv, Slotted, Expected, Settle, StaleMaker, LiveMaker, Distinct;
    var s, t := b.On(cmd.order.side.Opposite()), TakerOf(cmd.order, cmd.authority, cmd.now);
    OpenSide(b, cmd.order.side.Opposite());
    var fills := FillsMade(env, b, cmd);
    forall j | 0 <= j < |fills| ensures !StaleMaker(s, fills[j].makerOrder, cmd.now) {
      SweepMakersLive(t, s, cmd.order.quantity, MAX_MATCH_SLOTS, j);
      LiveIsNotStale(s, fills[j].makerOrder, cmd.now);
    }
  }

  lemma SingleStaleExactly(env: Env, b: Book, cmd: Command)
    requires BookInv(b) && cmd.SingleCommand? && ValidOrder(cmd.order)
    requires ApplySingle(env, b, cmd.order, cmd.authority, cmd.cert, cmd.now, cmd.single).result.Success?
    ensures TradesStale(env, b, cmd) <==> StaleHead(b, cmd.order, cmd.now)
  {
    hide BookInv, Settle, Distinct, ValidUtf8;
    var s := b.On(cmd.order.side.Opposite());
    OpenSide(b, cmd.order.side.Opposite());
    var fills := FillsMade(env, b, cmd);
    if s != [] && Crosses(cmd.order.side, cmd.order.limitPrice, s[0].Price()) {
      assert |fills| == 1 && fills[0].makerOrder == s[0].Commitment();
      if Expired(s[0], cmd.now) {
        assert StaleMaker(s, fills[0].makerOrder, cmd.now);
      } else {
        LiveIsNotStale(s, fills[0].makerOrder, cmd.now);
      }
    }
  }

  ghost predicate AcceptsStaleHead(env: Env, b: Book, cmd: Command) {
    && cmd.SingleCommand?
    && ApplySingle(env, b, cmd.order, cmd.authority, cmd.cert, cmd.now, cmd.single).result.Success?
    && StaleHead(b, cmd.order, cmd.now)
  }

  /** An expired order trades exactly when an accepted single-slot match meets one that crosses at the front. */
  lemma CommandStaleExactly(env: Env, b: Book, cmd: Command)
    requires BookInv(b) && WellFormed(cmd)
    ensures TradesStale(env, b, cmd) <==> AcceptsStaleHead(env, b, cmd)
  {
    hide BookInv, StaleHead, ApplyBatch;
    if cmd.BatchCommand? {
      BatchNeverStale(env, b, cmd);
    } else if cmd.SingleCommand? {
      if ApplySingle(env, b, cmd.order, cmd.authority, cmd.cert, cmd.now, cmd.single).result.Success? {
        SingleStaleExactly(env, b, cmd);
      }
    }
  }

  // ---------------------------------------------------------------- runs

  ghost predicate EverTradesStale(env: Env, w: World, cmds: seq<Command>)
    decreases |cmds|
  {
    cmds != [] && (TradesStale(env, w.book, cmds[0]) || EverTradesStale(env, Next(env, w, cmds[0]), cmds[1..]))
  }

  ghost predicate EverAcceptsStaleHead(env: Env, w: World, cmds: seq<Command>)
    decreases |cmds|
  {
    && cmds != []
    && (AcceptsStaleHead(env, w.book, cmds[0]) || EverAcceptsStaleHead(env, Next(env, w, cmds[0]), cmds[1..]))
  }

  lemma {:induction false} RunStaleExactly(env: Env, w: World, cmds: seq<Command>)
    requires BookInv(w.book) && forall i :: 0 <= i < |cmds| ==> WellFormed(cmds[i])
    ensures EverTradesStale(env, w, cmds) <==> EverAcceptsStaleHead(env, w, cmds)
    decreases |cmds|
  {
    hide BookInv, TradesStale, AcceptsStaleHead, Execute, Events, Admits;
    if cmds != [] {
      CommandStaleExactly(env, w.book, cmds[0]);
      CommandKeepsInvariant(env, w.book, cmds[0]);
      RunStaleExactly(env, Next(env, w, cmds[0]), cmds[1..]);
    }
  }

  /** Without single-slot matches no expired order ever trades, in any run. */
  lemma {:induction false} RunsWithoutSinglesNeverStale(env: Env, w: World, cmds: seq<Command>)
    requires BookInv(w.book)
    requires forall i :: 0 <= i < |cmds| ==> WellFormed(cmds[i]) && !cmds[i].SingleCommand?
    ensures !EverTradesStale(env, w, cmds)
    decreases |cmds|
  {
    hide BookInv, TradesStale, Execute, Events, Admits, StaleHead;
    if cmds != [] {
      CommandStaleExactly(env, w.book, cmds[0]);
      CommandKeepsInvariant(env, w.book, cmds[0]);
      RunsWithoutSinglesNeverStale(env, Next(env, w, cmds[0]), cmds[1..]);
    }
  }
}
