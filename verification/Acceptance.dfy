/**
 When each of the book's five operations succeeds, exactly, what it refuses otherwise, and what
 every field of its answer and every part of the new book then is.
 */
module Acceptance {
  import opened Orders
  import opened Matching
  import opened Depth
  import opened Batch
  import opened BookModel
  import opened ExpiryLaws
  import opened Ladder

  /** A signed, current authority for this very order. */
  ghost predicate Vouched(env: Env, order: SecretOrder, authority: OrderAuthority, now: nat) {
    && now <= authority.authorizationDeadline && now <= order.expiresAt
    && env.orderCommitment(order) == authority.commitment && env.signatureValid(authority)
  }

  /** The vouched order is for this market, new to this book, and certified as the next command. */
  ghost predicate Entitled(env: Env, b: Book, order: SecretOrder, authority: OrderAuthority, cert: nat, now: nat) {
    && Vouched(env, order, authority, now)
    && order.marketId == b.market && authority.commitment !in b.admitted && cert == b.sequence + 1
  }

  /** How an arrival is refused, before its answer is looked at. */
  ghost predicate RefusedAs<T>(env: Env, b: Book, order: SecretOrder, authority: OrderAuthority, cert: nat, now: nat,
                               r: Result<T>)
  {
    && (!Vouched(env, order, authority, now) ==> r == Failure(Authority))
    && (Vouched(env, order, authority, now) ==>
          && (order.marketId != b.market ==> r == Failure(WrongMarket))
          && (order.marketId == b.market && authority.commitment in b.admitted ==> r == Failure(Replay))
          && (order.marketId == b.market && authority.commitment !in b.admitted && cert != b.sequence + 1
              ==> r == Failure(Invalid(SequenceNotNext))))
  }

  /** The certificate is taken, the commitment recorded, and the market is the same. */
  ghost predicate Recorded(b: Book, b': Book, c: Digest32, cert: nat) {
    b'.market == b.market && b'.sequence == cert && b'.admitted == b.admitted + {c}
  }

  lemma {:induction false} InsertGains(side: Side, s: seq<Resting>, r: Resting)
    ensures multiset(InsertRanked(side, s, r)) == multiset(s) + multiset{r}
  {
    if s == [] || Better(side, r.Price(), s[0].Price()) {
    } else {
      InsertGains(side, s[1..], r);
      assert s == [s[0]] + s[1..];
    }
  }

  // ---------------------------------------------------------------- insertion

  /** An insertion succeeds exactly for an entitled good-til-cancelled order, and then the book gains just it. */
  lemma InsertExactly(env: Env, b: Book, order: SecretOrder, authority: OrderAuthority, cert: nat, now: U64)
    ensures var s := InsertResting(env, b, order, authority, cert, now);
            && (s.result.Success? <==>
                  Entitled(env, b, order, authority, cert, now) && order.timeInForce == GoodTilCancelled)
            && RefusedAs(env, b, order, authority, cert, now, s.result)
            && (Entitled(env, b, order, authority, cert, now) && order.timeInForce == ImmediateOrCancel
                ==> s.result == Failure(Invalid(OnlyGtcRests)))
            && (s.result.Success? ==>
                  && Recorded(b, s.book, authority.commitment, cert)
                  && s.book.On(order.side.Opposite()) == b.On(order.side.Opposite())
                  && multiset(s.book.On(order.side))
                     == multiset(b.On(order.side)) + multiset{Resting(order, authority, order.quantity, cert)})
  {
    hide InsertRanked;
    InsertGains(order.side, b.On(order.side), Resting(order, authority, order.quantity, cert));
  }

  // ---------------------------------------------------------------- arrivals that match

  /** A good-til-cancelled remainder rests under the certificate; nothing else joins the arrival's side. */
  ghost predicate RestsLeft(b: Book, b': Book, order: SecretOrder, authority: OrderAuthority, cert: nat, left: nat) {
    if left > 0 && order.timeInForce == GoodTilCancelled
    then multiset(b'.On(order.side)) == multiset(b.On(order.side)) + multiset{Resting(order, authority, left, cert)}
    else b'.On(order.side) == b.On(order.side)
  }

  lemma SettleExactly(b: Book, order: SecretOrder, authority: OrderAuthority, rest: seq<Resting>, left: nat)
    ensures var b' := Settle(b.With(order.side.Opposite(), rest), order, authority, left);
            && Recorded(b, b', authority.commitment, b.sequence + 1)
            && b'.On(order.side.Opposite()) == rest
            && RestsLeft(b, b', order, authority, b.sequence + 1, left)
  {
    hide InsertRanked;
    InsertGains(order.side, b.On(order.side), Resting(order, authority, left, b.sequence + 1));
  }

  // ---------------------------------------------------------------- the single-slot match

  /** The answer for the best opposite order, said by what it must add up to. */
  ghost predicate SingleAnswer(b: Book, order: SecretOrder, r: MatchResult) {
    var s := b.On(order.side.Opposite());
    if s == [] then r == MatchResult(false, 0, 0, 0, order.quantity)
    else
      var best := s[0].secret.limitPrice;
      && (r.matched <==> if order.side.Buy? then order.limitPrice >= best else order.limitPrice <= best)
      && r.tradePrice == (if r.matched then best else 0)
      && r.tradeQuantity + r.arrivingRemaining == order.quantity
      && r.tradeQuantity + r.restingRemaining == s[0].remaining
      && (if r.matched then r.arrivingRemaining == 0 || r.restingRemaining == 0 else r.tradeQuantity == 0)
  }

  lemma SingleAnswerExactly(b: Book, order: SecretOrder, r: MatchResult)
    ensures r == ExpectedSingle(b, order) <==> SingleAnswer(b, order, r)
  {
  }

  /**
   A single-slot match succeeds exactly for an entitled arrival with the right answer. Then the best
   opposite order keeps the answer's remainder or is gone, and the rest of its side is untouched.
   */
  lemma SingleExactly(env: Env, b: Book, order: SecretOrder, authority: OrderAuthority, cert: nat, now: U64,
                      r: MatchResult)
    ensures var s := ApplySingle(env, b, order, authority, cert, now, r);
            && (s.result.Success? <==> Entitled(env, b, order, authority, cert, now) && SingleAnswer(b, order, r))
            && RefusedAs(env, b, order, authority, cert, now, s.result)
            && (Entitled(env, b, order, authority, cert, now) && !SingleAnswer(b, order, r)
                ==> s.result == Failure(InvalidMpcResult))
            && (s.result.Success? ==>
                  var o, o' := b.On(order.side.Opposite()), s.book.On(order.side.Opposite());
                  && s.result.value.sequence == cert
                  && s.result.value.arrivingRemaining == r.arrivingRemaining
                  && Recorded(b, s.book, authority.commitment, cert)
                  && RestsLeft(b, s.book, order, authority, cert, r.arrivingRemaining)
                  && if !r.matched then s.result.value.fills == [] && o' == o
                     else && s.result.value.fills
                             == [PublicFill(o[0].Commitment(), authority.commitment, r.tradePrice, r.tradeQuantity)]
                          && o' == (if r.restingRemaining == 0 then o[1..]
                                    else [o[0].(remaining := r.restingRemaining)] + o[1..]))
  {
    hide Settle;
    SingleAnswerExactly(b, order, r);
    SettleExactly(b, order, authority, SingleSweep(b, order, authority).rest, r.arrivingRemaining);
  }

  // ---------------------------------------------------------------- the batch

  /**
   Slot by slot: it matches exactly when the arrival has quantity left and crosses, trades all it can at
   the resting price, and is blank otherwise.
   */
  lemma {:induction false} SlotsExactly(batch: MatchBatch, inputs: seq<RestingInput>, left: nat, i: nat)
    requires i < |inputs|
    ensures var slots := Slots(batch, inputs, left);
            && Traded(slots[..i]) <= left
            && var open := left - Traded(slots[..i]);
            && (slots[i].matched <==>
                  && inputs[i].side != batch.arrivingSide && open > 0 && inputs[i].quantity > 0
                  && (if batch.arrivingSide.Buy? then batch.arrivingPrice >= inputs[i].price
                      else batch.arrivingPrice <= inputs[i].price))
            && (if slots[i].matched
                then && slots[i].tradePrice == inputs[i].price
                     && slots[i].tradeQuantity == (if open <= inputs[i].quantity then open else inputs[i].quantity)
                else slots[i].tradePrice == 0 && slots[i].tradeQuantity == 0)
  {
    var slots := Slots(batch, inputs, left);
    if i > 0 {
      var q := SlotFor(batch, inputs[0], left).tradeQuantity;
      SlotsExactly(batch, inputs[1..], left - q, i - 1);
      assert slots[1..] == Slots(batch, inputs[1..], left - q);
      assert slots[..i][1..] == slots[1..][..i - 1];
    }
  }

  /** The circuit is given the first eight live opposite orders, best first, and the arrival's own terms. */
  lemma BatchHoldsEight(b: Book, order: SecretOrder, now: nat)
    ensures var batch := BatchOf(b, order, now);
            var live := Live(b.On(order.side.Opposite()), now);
            && |batch.resting| == (if |live| <= 8 then |live| else 8)
            && (forall i :: 0 <= i < |batch.resting| ==>
                  batch.resting[i]
                  == RestingInput(live[i].Commitment(), live[i].secret.side, live[i].Price(), live[i].remaining))
            && batch.arrivingSide == order.side && batch.arrivingPrice == order.limitPrice
            && batch.arrivingQuantity == order.quantity
            && (batch.arrivingCanRest <==> order.timeInForce == GoodTilCancelled)
  {
    hide Live, Inputs;
    InputsOfLive(b.On(order.side.Opposite()), now, MAX_MATCH_SLOTS);
  }

  /** The capacity check is about eight fills. */
  lemma CapacityIsEight(b: Book, order: SecretOrder, authority: OrderAuthority, now: nat)
    requires BookInv(b)
    ensures var all := Greedy(TakerOf(order, authority, now), b.On(order.side.Opposite()), order.quantity);
            && (ExceedsCapacity(b, order, now) <==> |all.fills| > 8)
            && SweepOf(b, order, authority, now).fills == all.fills[..if |all.fills| <= 8 then |all.fills| else 8]
  {
    hide BookInv, Greedy, Slotted;
    var s, t := b.On(order.side.Opposite()), TakerOf(order, authority, now);
    OpenSide(b, order.side.Opposite());
    SlottedRefinesGreedy(t, s, order.quantity, MAX_MATCH_SLOTS);
    FillCountIgnoresName(t, Taker(order.side, order.limitPrice, now, 0), s, order.quantity);
  }

  /**
   A batch succeeds exactly for an entitled arrival with the expected answer, immediate-or-cancel or not.
   Its transition names the certificate, the sweep's fills and what may still rest.
   */
  lemma BatchExactly(env: Env, b: Book, order: SecretOrder, authority: OrderAuthority, cert: nat, now: U64,
                     r: BatchResult)
    requires BookInv(b)
    ensures var s := ApplyBatch(env, b, order, authority, cert, now, r);
            && (s.result.Success? <==>
                  Entitled(env, b, order, authority, cert, now) && r == Expected(BatchOf(b, order, now)))
            && RefusedAs(env, b, order, authority, cert, now, s.result)
            && (Entitled(env, b, order, authority, cert, now) && r != Expected(BatchOf(b, order, now))
                ==> s.result == Failure(InvalidMpcResult))
            && (s.result.Success? ==>
                  var w := SweepOf(b, order, authority, now);
                  && s.result.value.sequence == cert && s.result.value.fills == w.fills
                  && Volume(w.fills) <= order.quantity
                  && s.result.value.arrivingRemaining == r.arrivingRemaining
                  && r.arrivingRemaining
                     == (if order.timeInForce == GoodTilCancelled then order.quantity - Volume(w.fills) else 0)
                  && Recorded(b, s.book, authority.commitment, cert)
                  && s.book.On(order.side.Opposite()) == w.rest
                  && RestsLeft(b, s.book, order, authority, cert, order.quantity - Volume(w.fills)))
  {
    hide BookInv, Slotted, Settle, Expected, BatchOf, SweepOf, Volume;
    var w := SweepOf(b, order, authority, now);
    BatchAmounts(b, order, authority, now);
    SettleExactly(b, order, authority, w.rest, w.left);
  }

  /** What the expected answer says is left is what the sweep leaves. */
  lemma BatchAmounts(b: Book, order: SecretOrder, authority: OrderAuthority, now: nat)
    requires BookInv(b)
    ensures var w := SweepOf(b, order, authority, now);
            && Volume(w.fills) + w.left == order.quantity
            && Expected(BatchOf(b, order, now)).arrivingRemaining
               == (if order.timeInForce == GoodTilCancelled then w.left else 0)
  {
    hide BookInv, Slotted, Slots, LeftAfter, Inputs, DepthEntries, Aggregate, Volume, SetAll, Answers;
    var side, t := order.side.Opposite(), TakerOf(order, authority, now);
    OpenSide(b, side);
    SweepConserves(t, b.On(side), order.quantity, MAX_MATCH_SLOTS);
    BatchIsSweep(t, b.On(side), order.quantity, MAX_MATCH_SLOTS, BatchOf(b, order, now));
  }

  // ---------------------------------------------------------------- cancellation

  /** The secret opens the digest of the order resting at this place under the target. */
  ghost predicate Opens(env: Env, b: Book, cancellation: SecretCancellation, side: Side, i: nat) {
    && i < |b.On(side)| && b.On(side)[i].Commitment() == cancellation.target
    && b.On(side)[i].secret.cancellationSecretDigest == env.cancellationDigest(cancellation.secret)
  }

  ghost predicate SomeOpens(env: Env, b: Book, cancellation: SecretCancellation) {
    exists side: Side, i: nat :: Opens(env, b, cancellation, side, i)
  }

  /** A commitment rests at one place of one side only. */
  lemma OnePlace(b: Book, c: Digest32, side: Side, i: nat, other: Side, j: nat)
    requires BookInv(b) && i < |b.On(side)| && j < |b.On(other)|
    requires b.On(side)[i].Commitment() == c == b.On(other)[j].Commitment()
    ensures side == other && i == j
  {
    hide Good;
    RestsAt(b.On(side), i);
    RestsAt(b.On(other), j);
    OpenSide(b, side);
    if side == other && i != j {
      OneIndex(b.On(side), if i < j then i else j, if i < j then j else i);
      assert false;
    }
  }

  lemma {:induction false} FirstPlace(s: seq<Resting>, c: Digest32) returns (i: nat)
    requires Rests(s, c)
    ensures i < |s| && s[i].Commitment() == c && forall k :: 0 <= k < i ==> s[k].Commitment() != c
  {
    if s[0].Commitment() == c {
      i := 0;
    } else {
      i := FirstPlace(s[1..], c);
      i := i + 1;
    }
  }

  /** Where the order is found, what is found, and what dropping it leaves. */
  lemma PlaceOf(b: Book, c: Digest32) returns (side: Side, i: nat)
    requires BookInv(b) && Find(b, c).Some?
    ensures i < |b.On(side)| && b.On(side)[i].Commitment() == c && Find(b, c) == Some(b.On(side)[i])
    ensures Drop(b, c) == b.With(side, b.On(side)[..i] + b.On(side)[i + 1..])
  {
    hide BookInv, SetRemaining, FindOn;
    FindRests(b.bids, c);
    FindRests(b.asks, c);
    side := if Rests(b.bids, c) then Buy else Sell;
    i := FirstPlace(b.On(side), c);
    RestsAt(b.On(side), i);
    SetRemainingAt(b.On(side), c, i, 0);
    FindOnAt(b.On(side), c, i);
    Elsewhere(b, c, side);
    SetRemainingAbsent(b.On(side.Opposite()), c, 0);
    FindOnAbsent(b.On(side.Opposite()), c);
  }

  lemma Elsewhere(b: Book, c: Digest32, side: Side)
    requires BookInv(b) && Rests(b.On(side), c)
    ensures !Rests(b.On(side.Opposite()), c)
  {
  }

  lemma FoundIfResting(b: Book, c: Digest32, side: Side, i: nat)
    requires i < |b.On(side)| && b.On(side)[i].Commitment() == c
    ensures Find(b, c).Some?
  {
    RestsAt(b.On(side), i);
    FindRests(b.On(side), c);
  }

  /**
   A cancellation succeeds exactly when it is the next command, new, and its secret opens the order
   resting under its target. Then exactly that order is gone, and its remainder is what is released.
   */
  lemma CancelExactly(env: Env, b: Book, cancellation: SecretCancellation, cert: nat)
    requires BookInv(b)
    ensures var s := Cancel(env, b, cancellation, cert);
            var command := env.cancellationCommitment(cancellation);
            && (s.result.Success? <==>
                  cert == b.sequence + 1 && command !in b.admitted && SomeOpens(env, b, cancellation))
            && (cert != b.sequence + 1 ==> s.result == Failure(Invalid(SequenceNotNext)))
            && (cert == b.sequence + 1 && command in b.admitted ==> s.result == Failure(Replay))
            && (cert == b.sequence + 1 && command !in b.admitted && !SomeOpens(env, b, cancellation) ==>
                  s.result == Failure(if Rests(b.bids, cancellation.target) || Rests(b.asks, cancellation.target)
                                      then InvalidCancellation else UnknownOrder))
            && (s.result.Success? ==>
                  && Recorded(b, s.book, command, cert)
                  && forall side: Side, i: nat | Opens(env, b, cancellation, side, i) ::
                       && s.result.value == Cancelled(cert, command, cancellation.target, b.On(side)[i].remaining)
                       && s.book.On(side) == b.On(side)[..i] + b.On(side)[i + 1..]
                       && s.book.On(side.Opposite()) == b.On(side.Opposite()))
  {
    hide BookInv, Find, Drop, Rests;
    var c := cancellation.target;
    if Find(b, c).Some? {
      var place, at := PlaceOf(b, c);
      forall side: Side, i: nat | Opens(env, b, cancellation, side, i) ensures side == place && i == at {
        OnePlace(b, c, side, i, place, at);
      }
      RestsAt(b.On(place), at);
      assert SomeOpens(env, b, cancellation) <==> Opens(env, b, cancellation, place, at);
    } else {
      forall side: Side, i: nat | Opens(env, b, cancellation, side, i) ensures false {
        FoundIfResting(b, c, side, i);
      }
      NotFoundNotResting(b, c);
    }
  }

  lemma NotFoundNotResting(b: Book, c: Digest32)
    requires Find(b, c).None?
    ensures !Rests(b.bids, c) && !Rests(b.asks, c)
  {
    FindRests(b.bids, c);
    FindRests(b.asks, c);
  }

  // ---------------------------------------------------------------- expiry

  /** An expiry succeeds exactly when it is next, new, names what expires and its total fits 64 bits. */
  lemma ExpireExactly(env: Env, b: Book, cutoff: U64, command: Digest32, cert: nat)
    requires BookInv(b)
    ensures var s := Expire(env, b, cutoff, command, cert);
            var orders := ExpiredCommitments(b, cutoff);
            var canonical := orders != [] && command == env.expiryCommitment(b.market, cutoff, orders);
            && (s.result.Success? <==>
                  && cert == b.sequence + 1 && command !in b.admitted && canonical
                  && ReleasedAt(b, cutoff) <= 18446744073709551615)
            && (cert != b.sequence + 1 ==> s.result == Failure(Invalid(SequenceNotNext)))
            && (cert == b.sequence + 1 && command in b.admitted ==> s.result == Failure(Replay))
            && (cert == b.sequence + 1 && command !in b.admitted && !canonical
                ==> s.result == Failure(Invalid(ExpiryNotCanonical)))
            && (cert == b.sequence + 1 && command !in b.admitted && canonical
                && ReleasedAt(b, cutoff) > 18446744073709551615
                ==> s.result == Failure(Invalid(ExpiredQuantityOverflowed)))
            && (s.result.Success? ==>
                  && s.result.value == ExpiryDone(cert, cutoff, orders, ReleasedAt(b, cutoff))
                  && Recorded(b, s.book, command, cert)
                  && s.book.bids == Live(b.bids, cutoff) && s.book.asks == Live(b.asks, cutoff))
  {
    hide BookInv, ExpireAll, ReleasedAt, ExpiredCommitments, Names;
    ExpiryAtomicExactly(env, b, cutoff, command, cert);
    ExpiredCommitmentsExact(b, cutoff);
    ExpireAllExact(b, cutoff, ExpiredCommitments(b, cutoff), 0);
  }
}
