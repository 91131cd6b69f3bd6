/**
 The private book as a value: each side is the list of its resting orders, best first,
 and every operation is a function from book to outcome and book.
 */
module BookModel {
  import opened Orders
  import opened Matching
  import opened Batch

  datatype Book = Book(
    market: seq<Byte>,
    sequence: nat,
    bids: seq<Resting>,
    asks: seq<Resting>,
    admitted: set<Digest32>)
  {
    function On(side: Side): seq<Resting> {
      if side.Buy? then bids else asks
    }

    function With(side: Side, s: seq<Resting>): Book {
      if side.Buy? then this.(bids := s) else this.(asks := s)
    }
  }

  /** An operation's result and the book it leaves behind, on errors too. */
  datatype Step<+T> = Step(result: Result<T>, book: Book)

  function Empty(market: seq<Byte>): Book {
    Book(market, 0, [], [], {})
  }

  // ---------------------------------------------------------------- building blocks

  /** Behind every order of an equal or better price, ahead of every worse one. */
  function InsertRanked(side: Side, s: seq<Resting>, r: Resting): seq<Resting> {
    if s == [] || Better(side, r.Price(), s[0].Price()) then [r] + s
    else [s[0]] + InsertRanked(side, s[1..], r)
  }

  function Rest(b: Book, r: Resting): Book {
    b.With(r.secret.side, InsertRanked(r.secret.side, b.On(r.secret.side), r))
  }

  function Commit(b: Book, c: Digest32): Book {
    b.(admitted := b.admitted + {c}, sequence := b.sequence + 1)
  }

  function AdmissionError(b: Book, order: SecretOrder, c: Digest32, cert: nat): Option<OrderError> {
    if order.marketId != b.market then Some(WrongMarket)
    else if c in b.admitted then Some(Replay)
    else if cert != b.sequence + 1 then Some(Invalid(SequenceNotNext))
    else None
  }

  function FindOn(s: seq<Resting>, c: Digest32): Option<Resting> {
    if s == [] then None else if s[0].Commitment() == c then Some(s[0]) else FindOn(s[1..], c)
  }

  function Find(b: Book, c: Digest32): Option<Resting> {
    var r := FindOn(b.bids, c);
    if r.Some? then r else FindOn(b.asks, c)
  }

  function Drop(b: Book, c: Digest32): Book {
    b.(bids := SetRemaining(b.bids, c, 0), asks := SetRemaining(b.asks, c, 0))
  }

  // ---------------------------------------------------------------- insertion

  function InsertResting(env: Env, b: Book, order: SecretOrder, authority: OrderAuthority, cert: nat,
                         now: U64): Step<()>
  {
    if !AuthorityVerifies(env, authority, order, now) then Step(Failure(Authority), b)
    else
      var e := AdmissionError(b, order, authority.commitment, cert);
      if e.Some? then Step(Failure(e.value), b)
      else if order.timeInForce != GoodTilCancelled then Step(Failure(Invalid(OnlyGtcRests)), b)
      else
        var r := Resting(order, authority, order.quantity, cert);
        Step(Success(()), Commit(Rest(b, r), authority.commitment))
  }

  // ---------------------------------------------------------------- matching

  datatype Transition = Transition(sequence: nat, fills: seq<PublicFill>, arrivingRemaining: nat)

  function TakerOf(order: SecretOrder, authority: OrderAuthority, now: nat): Taker {
    Taker(order.side, order.limitPrice, now, authority.commitment)
  }

  /** Rests what is left of a good-til-cancelled arrival, then records its admission. */
  function Settle(b: Book, order: SecretOrder, authority: OrderAuthority, left: nat): Book {
    var b' := if left > 0 && order.timeInForce == GoodTilCancelled
              then Rest(b, Resting(order, authority, left, b.sequence + 1)) else b;
    Commit(b', authority.commitment)
  }

  function BatchOf(b: Book, order: SecretOrder, now: nat): MatchBatch {
    MatchBatch(Inputs(b.On(order.side.Opposite()), now, MAX_MATCH_SLOTS),
               order.side, order.limitPrice, order.quantity, order.timeInForce == GoodTilCancelled)
  }

  function SweepOf(b: Book, order: SecretOrder, authority: OrderAuthority, now: nat): Sweep {
    Slotted(TakerOf(order, authority, now), b.On(order.side.Opposite()), order.quantity, MAX_MATCH_SLOTS)
  }

  ghost function ApplyBatch(env: Env, b: Book, order: SecretOrder, authority: OrderAuthority, cert: nat, now: U64,
                            result: BatchResult): Step<Transition>
  {
    if !AuthorityVerifies(env, authority, order, now) then Step(Failure(Authority), b)
    else
      var e := AdmissionError(b, order, authority.commitment, cert);
      if e.Some? then Step(Failure(e.value), b)
      else if result != Expected(BatchOf(b, order, now)) then Step(Failure(InvalidMpcResult), b)
      else
        var w := SweepOf(b, order, authority, now);
        Step(Success(Transition(cert, w.fills, result.arrivingRemaining)),
             Settle(b.With(order.side.Opposite(), w.rest), order, authority, w.left))
  }

  /** Whether unbounded matching of the arrival would take more fills than there are slots. */
  function ExceedsCapacity(b: Book, order: SecretOrder, now: nat): bool {
    |Greedy(Taker(order.side, order.limitPrice, now, 0), b.On(order.side.Opposite()), order.quantity).fills|
    > MAX_MATCH_SLOTS
  }

  datatype MatchResult = MatchResult(
    matched: bool,
    tradePrice: nat,
    tradeQuantity: nat,
    restingRemaining: nat,
    arrivingRemaining: nat)

  /** The single-slot answer: the best opposite order alone, expired or not. */
  function ExpectedSingle(b: Book, order: SecretOrder): (r: MatchResult)
    ensures r.tradeQuantity <= order.quantity
  {
    var s := b.On(order.side.Opposite());
    if s == [] then MatchResult(false, 0, 0, 0, order.quantity)
    else if Crosses(order.side, order.limitPrice, s[0].Price()) then
      var q := Min(order.quantity, s[0].remaining);
      MatchResult(true, s[0].Price(), q, s[0].remaining - q, order.quantity - q)
    else MatchResult(false, 0, 0, s[0].remaining, order.quantity)
  }

  function ApplySingle(env: Env, b: Book, order: SecretOrder, authority: OrderAuthority, cert: nat, now: U64,
                       result: MatchResult): Step<Transition>
  {
    if !AuthorityVerifies(env, authority, order, now) then Step(Failure(Authority), b)
    else
      var e := AdmissionError(b, order, authority.commitment, cert);
      if e.Some? then Step(Failure(e.value), b)
      else if result != ExpectedSingle(b, order) then Step(Failure(InvalidMpcResult), b)
      else
        var w := SingleSweep(b, order, authority);
        Step(Success(Transition(cert, w.fills, result.arrivingRemaining)),
             Settle(b.With(order.side.Opposite(), w.rest), order, authority, result.arrivingRemaining))
  }

  /** What the single-slot answer does to the opposite side. */
  function SingleSweep(b: Book, order: SecretOrder, authority: OrderAuthority): Sweep {
    var s := b.On(order.side.Opposite());
    var e := ExpectedSingle(b, order);
    if e.matched then
      Sweep([PublicFill(s[0].Commitment(), authority.commitment, e.tradePrice, e.tradeQuantity)],
            e.arrivingRemaining, Kept(s[0], e.tradeQuantity) + s[1..])
    else Sweep([], order.quantity, s)
  }

  // ---------------------------------------------------------------- cancellation

  datatype Cancelled = Cancelled(sequence: nat, command: Digest32, target: Digest32, releasedQuantity: nat)

  function Cancel(env: Env, b: Book, cancellation: SecretCancellation, cert: nat): Step<Cancelled> {
    var command := env.cancellationCommitment(cancellation);
    if cert != b.sequence + 1 then Step(Failure(Invalid(SequenceNotNext)), b)
    else if command in b.admitted then Step(Failure(Replay), b)
    else
      var record := Find(b, cancellation.target);
      if record.None? then Step(Failure(UnknownOrder), b)
      else if record.value.secret.cancellationSecretDigest != env.cancellationDigest(cancellation.secret)
      then Step(Failure(InvalidCancellation), b)
      else Step(Success(Cancelled(cert, command, cancellation.target, record.value.remaining)),
                Commit(Drop(b, cancellation.target), command))
  }

  // ---------------------------------------------------------------- expiry

  datatype ExpiryDone = ExpiryDone(sequence: nat, cutoff: nat, expiredOrders: seq<Digest32>, releasedQuantity: nat)

  function ExpiredOn(s: seq<Resting>, cutoff: nat): seq<Digest32> {
    if s == [] then []
    else (if Expired(s[0], cutoff) then [s[0].Commitment()] else []) + ExpiredOn(s[1..], cutoff)
  }

  function InsertDigest(s: seq<Digest32>, d: Digest32): seq<Digest32> {
    if s == [] || d <= s[0] then [d] + s else [s[0]] + InsertDigest(s[1..], d)
  }

  function SortDigests(s: seq<Digest32>): seq<Digest32> {
    if s == [] then [] else InsertDigest(SortDigests(s[1..]), s[0])
  }

  function ExpiredCommitments(b: Book, cutoff: nat): seq<Digest32> {
    SortDigests(ExpiredOn(b.bids, cutoff) + ExpiredOn(b.asks, cutoff))
  }

  /** The removal loop: stops where the released total would leave 64 bits. */
  function ExpireAll(b: Book, orders: seq<Digest32>, released: nat): Step<nat>
    decreases |orders|
  {
    if orders == [] then Step(Success(released), b)
    else
      var record := Find(b, orders[0]);
      if record.None? then Step(Failure(UnknownOrder), b)
      else if released + record.value.remaining > U64_MAX
      then Step(Failure(Invalid(ExpiredQuantityOverflowed)), b)
      else ExpireAll(Drop(b, orders[0]), orders[1..], released + record.value.remaining)
  }

  function Expire(env: Env, b: Book, cutoff: U64, command: Digest32, cert: nat): Step<ExpiryDone> {
    if cert != b.sequence + 1 then Step(Failure(Invalid(SequenceNotNext)), b)
    else if command in b.admitted then Step(Failure(Replay), b)
    else
      var orders := ExpiredCommitments(b, cutoff);
      if orders == [] || command != env.expiryCommitment(b.market, cutoff, orders)
      then Step(Failure(Invalid(ExpiryNotCanonical)), b)
      else
        var s := ExpireAll(b, orders, 0);
        match s.result
        case Failure(e) => Step(Failure(e), s.book)
        case Success(released) =>
          Step(Success(ExpiryDone(cert, cutoff, orders, released)), Commit(s.book, command))
  }

  // ---------------------------------------------------------------- the invariant

  ghost predicate Good(b: Book, side: Side, r: Resting) {
    && r.secret.side == side && ValidOrder(r.secret)
    && 1 <= r.remaining <= r.secret.quantity
    && r.sequence <= b.sequence
    && r.Commitment() in b.admitted
  }

  ghost predicate SideInv(b: Book, side: Side) {
    var s := b.On(side);
    Ranked(side, s) && Distinct(s) && forall i :: 0 <= i < |s| ==> Good(b, side, s[i])
  }

  ghost predicate BookInv(b: Book) {
    && SideInv(b, Buy) && SideInv(b, Sell)
    && (forall c :: Rests(b.bids, c) ==> !Rests(b.asks, c))
    && |b.admitted| == b.sequence
  }

  /** A side that lost orders or quantity is still a good side. */
  lemma SideThins(b: Book, side: Side, s: seq<Resting>)
    requires SideInv(b, side) && Thinned(s, b.On(side))
    ensures SideInv(b.With(side, s), side)
    ensures forall c :: Rests(s, c) ==> Rests(b.On(side), c)
  {
    var was := b.On(side);
    ThinnedRanked(side, s, was);
    ThinnedDistinct(s, was);
    forall i | 0 <= i < |s| ensures Good(b, side, s[i]) {
      var j := ThinnedOrigin(s, was, i);
      assert Good(b, side, was[j]);
    }
    forall c | Rests(s, c) ensures Rests(was, c) {
      ThinnedRests(s, was, c);
    }
  }

  lemma BookThins(b: Book, bids: seq<Resting>, asks: seq<Resting>)
    requires BookInv(b) && Thinned(bids, b.bids) && Thinned(asks, b.asks)
    ensures BookInv(b.(bids := bids, asks := asks))
  {
    SideThins(b, Buy, bids);
    SideThins(b, Sell, asks);
    var b' := b.(bids := bids, asks := asks);
    assert forall r :: Good(b, Buy, r) ==> Good(b', Buy, r);
    assert forall r :: Good(b, Sell, r) ==> Good(b', Sell, r);
    forall i | 0 <= i < |bids| ensures Good(b', Buy, bids[i]) {
      assert Good(b.With(Buy, bids), Buy, bids[i]);
    }
    forall i | 0 <= i < |asks| ensures Good(b', Sell, asks[i]) {
      assert Good(b.With(Sell, asks), Sell, asks[i]);
    }
  }

  lemma CommitKeeps(b: Book, c: Digest32)
    requires BookInv(b) && c !in b.admitted
    ensures BookInv(Commit(b, c))
  {
    var b' := Commit(b, c);
    forall side ensures SideInv(b', side) {
      var s := b.On(side);
      assert SideInv(b, side);
      forall i | 0 <= i < |s| ensures Good(b', side, s[i]) {
        assert Good(b, side, s[i]);
      }
    }
  }

  lemma {:induction false} InsertRankedFacts(side: Side, s: seq<Resting>, r: Resting, c: Digest32)
    ensures |InsertRanked(side, s, r)| == |s| + 1
    ensures forall i :: 0 <= i <= |s| ==> InsertRanked(side, s, r)[i] == r || InsertRanked(side, s, r)[i] in s
    ensures Rests(InsertRanked(side, s, r), c) <==> Rests(s, c) || r.Commitment() == c
    ensures RemainingOf(InsertRanked(side, s, r), c)
         == RemainingOf(s, c) + if r.Commitment() == c then r.remaining else 0
  {
    var s' := InsertRanked(side, s, r);
    if s == [] || Better(side, r.Price(), s[0].Price()) {
      assert s'[1..] == s;
    } else {
      InsertRankedFacts(side, s[1..], r, c);
      assert s'[1..] == InsertRanked(side, s[1..], r);
    }
  }

  lemma {:induction false} InsertRankedDistinct(side: Side, s: seq<Resting>, r: Resting)
    requires Distinct(s) && !Rests(s, r.Commitment())
    ensures Distinct(InsertRanked(side, s, r))
  {
    var s' := InsertRanked(side, s, r);
    if s == [] || Better(side, r.Price(), s[0].Price()) {
      assert s'[1..] == s;
    } else {
      InsertRankedDistinct(side, s[1..], r);
      InsertRankedFacts(side, s[1..], r, s[0].Commitment());
      assert s'[1..] == InsertRanked(side, s[1..], r);
    }
  }

  /** A new order joins the back of its price: earlier certificates keep their place. */
  lemma {:induction false} InsertRankedRanks(side: Side, s: seq<Resting>, r: Resting)
    requires Ranked(side, s) && forall i :: 0 <= i < |s| ==> s[i].sequence < r.sequence
    ensures Ranked(side, InsertRanked(side, s, r))
  {
    if s == [] {
    } else if Better(side, r.Price(), s[0].Price()) {
      forall j | 0 <= j < |s| ensures Before(side, r, s[j]) {
        assert j > 0 ==> Before(side, s[0], s[j]);
      }
      RankedCons(side, r, s);
    } else {
      var tail := InsertRanked(side, s[1..], r);
      InsertRankedRanks(side, s[1..], r);
      InsertRankedFacts(side, s[1..], r, 0);
      forall j | 0 <= j < |tail| ensures Before(side, s[0], tail[j]) {
        if tail[j] != r {
          var k :| 0 <= k < |s[1..]| && s[1..][k] == tail[j];
          assert Before(side, s[0], s[k + 1]);
        }
      }
      RankedCons(side, s[0], tail);
    }
  }

  lemma RankedCons(side: Side, r: Resting, s: seq<Resting>)
    requires Ranked(side, s) && forall j :: 0 <= j < |s| ==> Before(side, r, s[j])
    ensures Ranked(side, [r] + s)
  {
    forall i, j | 0 <= i < j < |[r] + s| ensures Before(side, ([r] + s)[i], ([r] + s)[j]) {
      assert i > 0 ==> Before(side, s[i - 1], s[j - 1]);
    }
  }

  lemma RestSide(b: Book, r: Resting)
    requires SideInv(b, r.secret.side) && !Rests(b.On(r.secret.side), r.Commitment())
    requires ValidOrder(r.secret) && 1 <= r.remaining <= r.secret.quantity
    requires r.sequence == b.sequence + 1
    ensures SideInv(Commit(Rest(b, r), r.Commitment()), r.secret.side)
  {
    var side := r.secret.side;
    var s := b.On(side);
    var s' := InsertRanked(side, s, r);
    forall i | 0 <= i < |s| ensures s[i].sequence < r.sequence {
      assert Good(b, side, s[i]);
    }
    InsertRankedRanks(side, s, r);
    InsertRankedDistinct(side, s, r);
    InsertRankedFacts(side, s, r, r.Commitment());
    forall i | 0 <= i < |s'| ensures Good(Commit(Rest(b, r), r.Commitment()), side, s'[i]) {
      if s'[i] != r {
        var j :| 0 <= j < |s| && s[j] == s'[i];
        assert Good(b, side, s[j]);
      }
    }
  }

  lemma RestKeeps(b: Book, r: Resting)
    requires BookInv(b)
    requires ValidOrder(r.secret) && 1 <= r.remaining <= r.secret.quantity
    requires r.sequence == b.sequence + 1 && r.Commitment() !in b.admitted
    ensures BookInv(Commit(Rest(b, r), r.Commitment()))
  {
    var side := r.secret.side;
    var b' := Commit(Rest(b, r), r.Commitment());
    NotResting(b, r.Commitment());
    RestSide(b, r);
    var o := b.On(side.Opposite());
    assert SideInv(b, side.Opposite());
    forall i | 0 <= i < |o| ensures Good(b', side.Opposite(), o[i]) {
      assert Good(b, side.Opposite(), o[i]);
    }
    forall c | Rests(InsertRanked(side, b.On(side), r), c) ensures !Rests(o, c) {
      InsertRankedFacts(side, b.On(side), r, c);
    }
  }

  lemma RestingAdmitted(b: Book, side: Side, c: Digest32)
    requires SideInv(b, side)
    ensures Rests(b.On(side), c) ==> c in b.admitted
  {
    if Rests(b.On(side), c) {
      var i := RestingIndex(b.On(side), c);
      assert Good(b, side, b.On(side)[i]);
    }
  }

  /** What was never admitted rests on neither side. */
  lemma NotResting(b: Book, c: Digest32)
    requires BookInv(b) && c !in b.admitted
    ensures !Rests(b.bids, c) && !Rests(b.asks, c)
  {
    RestingAdmitted(b, Buy, c);
    RestingAdmitted(b, Sell, c);
  }

  lemma SettleKeeps(b: Book, order: SecretOrder, authority: OrderAuthority, left: nat)
    requires BookInv(b) && ValidOrder(order) && left <= order.quantity
    requires authority.commitment !in b.admitted
    ensures BookInv(Settle(b, order, authority, left))
  {
    if left > 0 && order.timeInForce == GoodTilCancelled {
      RestKeeps(b, Resting(order, authority, left, b.sequence + 1));
    } else {
      CommitKeeps(b, authority.commitment);
    }
  }

  lemma OpenSide(b: Book, side: Side)
    requires BookInv(b)
    ensures AllOpen(b.On(side)) && Distinct(b.On(side)) && Ranked(side, b.On(side))
    ensures forall i :: 0 <= i < |b.On(side)| ==> b.On(side)[i].secret.side == side
  {
    assert SideInv(b, side);
    var s := b.On(side);
    forall i | 0 <= i < |s| ensures s[i].remaining > 0 && s[i].secret.side == side {
      assert Good(b, side, s[i]);
    }
  }

  lemma {:induction false} SetZeroThins(s: seq<Resting>, c: Digest32)
    requires AllOpen(s)
    ensures Thinned(SetRemaining(s, c, 0), s)
  {
    if s == [] {
    } else if s[0].Commitment() == c {
      assert SetRemaining(s, c, 0) == s[1..];
      ThinnedSelf(s[1..]);
    } else {
      SetZeroThins(s[1..], c);
      assert SetRemaining(s, c, 0)[1..] == SetRemaining(s[1..], c, 0);
    }
  }

  lemma OneSideThins(b: Book, side: Side, s: seq<Resting>)
    requires BookInv(b) && Thinned(s, b.On(side))
    ensures BookInv(b.With(side, s))
  {
    OpenSide(b, side.Opposite());
    ThinnedSelf(b.On(side.Opposite()));
    if side.Buy? {
      BookThins(b, s, b.asks);
      assert b.With(side, s) == b.(bids := s, asks := b.asks);
    } else {
      BookThins(b, b.bids, s);
      assert b.With(side, s) == b.(bids := b.bids, asks := s);
    }
  }

  lemma DropKeeps(b: Book, c: Digest32)
    requires BookInv(b)
    ensures BookInv(Drop(b, c))
  {
    OpenSide(b, Buy);
    OpenSide(b, Sell);
    SetZeroThins(b.bids, c);
    SetZeroThins(b.asks, c);
    BookThins(b, SetRemaining(b.bids, c, 0), SetRemaining(b.asks, c, 0));
  }

  lemma {:induction false} ExpireAllKeeps(b: Book, orders: seq<Digest32>, released: nat)
    requires BookInv(b)
    ensures BookInv(ExpireAll(b, orders, released).book)
    ensures ExpireAll(b, orders, released).book.admitted == b.admitted
    ensures ExpireAll(b, orders, released).book.market == b.market
    decreases |orders|
  {
    hide BookInv;
    if orders != [] && Find(b, orders[0]).Some? {
      DropKeeps(b, orders[0]);
      var q := Find(b, orders[0]).value.remaining;
      if released + q <= U64_MAX {
        ExpireAllKeeps(Drop(b, orders[0]), orders[1..], released + q);
      }
    }
  }

  // ---------------------------------------------------------------- commands

  datatype Command =
    | InsertCommand(order: SecretOrder, authority: OrderAuthority, cert: nat, now: U64)
    | SingleCommand(order: SecretOrder, authority: OrderAuthority, cert: nat, now: U64, single: MatchResult)
    | BatchCommand(order: SecretOrder, authority: OrderAuthority, cert: nat, now: U64, batch: BatchResult)
    | CancelCommand(cancellation: SecretCancellation, cert: nat)
    | ExpireCommand(cutoff: U64, command: Digest32, cert: nat)

  /** Orders reach the book only through their validating constructor. */
  ghost predicate WellFormed(cmd: Command) {
    cmd.InsertCommand? || cmd.SingleCommand? || cmd.BatchCommand? ==> ValidOrder(cmd.order)
  }

  /** The book after an attempted command, successful or not. */
  ghost function Execute(env: Env, b: Book, cmd: Command): Book {
    match cmd
    case InsertCommand(order, authority, cert, now) => InsertResting(env, b, order, authority, cert, now).book
    case SingleCommand(order, authority, cert, now, r) => ApplySingle(env, b, order, authority, cert, now, r).book
    case BatchCommand(order, authority, cert, now, r) => ApplyBatch(env, b, order, authority, cert, now, r).book
    case CancelCommand(cancellation, cert) => Cancel(env, b, cancellation, cert).book
    case ExpireCommand(cutoff, command, cert) => Expire(env, b, cutoff, command, cert).book
  }

  lemma BatchSweepKeeps(b: Book, order: SecretOrder, authority: OrderAuthority, now: nat)
    requires BookInv(b)
    ensures BookInv(b.With(order.side.Opposite(), SweepOf(b, order, authority, now).rest))
    ensures SweepOf(b, order, authority, now).left <= order.quantity
  {
    var side := order.side.Opposite();
    var t := TakerOf(order, authority, now);
    OpenSide(b, side);
    SweepThins(t, b.On(side), order.quantity, MAX_MATCH_SLOTS);
    SweepConserves(t, b.On(side), order.quantity, MAX_MATCH_SLOTS);
    OneSideThins(b, side, SweepOf(b, order, authority, now).rest);
  }

  lemma SingleSweepKeeps(b: Book, order: SecretOrder, authority: OrderAuthority)
    requires BookInv(b) && ValidOrder(order)
    ensures BookInv(b.With(order.side.Opposite(), SingleSweep(b, order, authority).rest))
  {
    var side := order.side.Opposite();
    var s := b.On(side);
    var a := SingleSweep(b, order, authority).rest;
    OpenSide(b, side);
    ThinnedSelf(s);
    if s != [] {
      ThinnedSelf(s[1..]);
      var e := ExpectedSingle(b, order);
      if e.matched && e.tradeQuantity < s[0].remaining {
        assert a[1..] == s[1..];
      } else if e.matched {
        assert a == s[1..];
      }
    }
    OneSideThins(b, side, a);
  }

  lemma InsertKeeps(env: Env, b: Book, order: SecretOrder, authority: OrderAuthority, cert: nat, now: U64)
    requires BookInv(b) && ValidOrder(order)
    ensures BookInv(InsertResting(env, b, order, authority, cert, now).book)
  {
    if InsertResting(env, b, order, authority, cert, now).result.Success? {
      RestKeeps(b, Resting(order, authority, order.quantity, cert));
    }
  }

  lemma SingleKeeps(env: Env, b: Book, order: SecretOrder, authority: OrderAuthority, cert: nat, now: U64,
                    r: MatchResult)
    requires BookInv(b) && ValidOrder(order)
    ensures BookInv(ApplySingle(env, b, order, authority, cert, now, r).book)
  {
    if ApplySingle(env, b, order, authority, cert, now, r).result.Success? {
      SingleSweepKeeps(b, order, authority);
      var b' := b.With(order.side.Opposite(), SingleSweep(b, order, authority).rest);
      SettleKeeps(b', order, authority, r.arrivingRemaining);
    }
  }

  lemma BatchKeeps(env: Env, b: Book, order: SecretOrder, authority: OrderAuthority, cert: nat, now: U64,
                   r: BatchResult)
    requires BookInv(b) && ValidOrder(order)
    ensures BookInv(ApplyBatch(env, b, order, authority, cert, now, r).book)
  {
    if ApplyBatch(env, b, order, authority, cert, now, r).result.Success? {
      BatchSweepKeeps(b, order, authority, now);
      var w := SweepOf(b, order, authority, now);
      SettleKeeps(b.With(order.side.Opposite(), w.rest), order, authority, w.left);
    }
  }

  lemma CancelKeeps(env: Env, b: Book, cancellation: SecretCancellation, cert: nat)
    requires BookInv(b)
    ensures BookInv(Cancel(env, b, cancellation, cert).book)
  {
    var s := Cancel(env, b, cancellation, cert);
    if s.result.Success? {
      DropKeeps(b, cancellation.target);
      CommitKeeps(Drop(b, cancellation.target), s.result.value.command);
    }
  }

  lemma ExpireKeeps(env: Env, b: Book, cutoff: U64, command: Digest32, cert: nat)
    requires BookInv(b)
    ensures BookInv(Expire(env, b, cutoff, command, cert).book)
  {
    var orders := ExpiredCommitments(b, cutoff);
    ExpireAllKeeps(b, orders, 0);
    if Expire(env, b, cutoff, command, cert).result.Success? {
      CommitKeeps(ExpireAll(b, orders, 0).book, command);
    }
  }

  /** Every command, accepted or refused, keeps the book's invariant. */
  lemma CommandKeepsInvariant(env: Env, b: Book, cmd: Command)
    requires BookInv(b) && WellFormed(cmd)
    ensures BookInv(Execute(env, b, cmd))
  {
    match cmd
    case InsertCommand(order, authority, cert, now) => InsertKeeps(env, b, order, authority, cert, now);
    case SingleCommand(order, authority, cert, now, r) => SingleKeeps(env, b, order, authority, cert, now, r);
    case BatchCommand(order, authority, cert, now, r) => BatchKeeps(env, b, order, authority, cert, now, r);
    case CancelCommand(cancellation, cert) => CancelKeeps(env, b, cancellation, cert);
    case ExpireCommand(cutoff, command, cert) => ExpireKeeps(env, b, cutoff, command, cert);
  }

  // ---------------------------------------------------------------- accepted batches

  /** The fills of an accepted batch: a live order ranked ahead of a filled one is filled completely. */
  lemma BatchFillsInPriority(env: Env, b: Book, order: SecretOrder, authority: OrderAuthority, cert: nat, now: U64,
                             result: BatchResult, i: nat, j: nat)
    requires BookInv(b) && ApplyBatch(env, b, order, authority, cert, now, result).result.Success?
    requires i < j < |b.On(order.side.Opposite())| && !Expired(b.On(order.side.Opposite())[i], now)
    requires MakerVolume(ApplyBatch(env, b, order, authority, cert, now, result).result.value.fills,
                         b.On(order.side.Opposite())[j].Commitment()) > 0
    ensures MakerVolume(ApplyBatch(env, b, order, authority, cert, now, result).result.value.fills,
                        b.On(order.side.Opposite())[i].Commitment()) == b.On(order.side.Opposite())[i].remaining
  {
    hide BookInv, Slotted, Expected, Settle, Distinct, Ranked;
    OpenSide(b, order.side.Opposite());
    PriorityRespected(TakerOf(order, authority, now), b.On(order.side.Opposite()), order.quantity, MAX_MATCH_SLOTS,
                      i, j);
  }

  /** No other allocation of an accepted batch's volume over the live opposite orders is cheaper or pays more. */
  lemma BatchBestExecution(env: Env, b: Book, order: SecretOrder, authority: OrderAuthority, cert: nat, now: U64,
                           result: BatchResult, other: seq<nat>)
    requires BookInv(b) && ApplyBatch(env, b, order, authority, cert, now, result).result.Success?
    requires |other| == |b.On(order.side.Opposite())| && Feasible(other, b.On(order.side.Opposite()), now)
    requires Sum(other) == Volume(ApplyBatch(env, b, order, authority, cert, now, result).result.value.fills)
    ensures var cost := Cost(ApplyBatch(env, b, order, authority, cert, now, result).result.value.fills);
            var cash := Cash(other, b.On(order.side.Opposite()));
            if order.side.Buy? then cost <= cash else cost >= cash
  {
    hide BookInv, Slotted, Expected, Settle, Distinct, Ranked, Feasible, Cash;
    OpenSide(b, order.side.Opposite());
    BestExecution(TakerOf(order, authority, now), b.On(order.side.Opposite()), order.quantity, MAX_MATCH_SLOTS, other);
  }
}
