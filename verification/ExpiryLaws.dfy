/**
 Expiry: what the removal loop takes away, when it can fail part-way, and that matching
 never notices it.
 */
module ExpiryLaws {
  import opened Orders
  import opened Matching
  import opened Batch
  import opened BookModel

  ghost predicate NoRepeats(s: seq<Digest32>) {
    s != [] ==> s[0] !in s[1..] && NoRepeats(s[1..])
  }

  ghost predicate Ascending(s: seq<Digest32>) {
    forall i, j :: 0 <= i < j < |s| ==> s[i] <= s[j]
  }

  /** An order of `s` with commitment `c` expires before the cutoff. */
  ghost predicate Expires(s: seq<Resting>, cutoff: nat, c: Digest32) {
    s != [] && ((s[0].Commitment() == c && Expired(s[0], cutoff)) || Expires(s[1..], cutoff, c))
  }

  function ExpiredQuantity(s: seq<Resting>, cutoff: nat): nat {
    if s == [] then 0
    else (if Expired(s[0], cutoff) then s[0].remaining else 0) + ExpiredQuantity(s[1..], cutoff)
  }

  /** Everything an expiry at `cutoff` would release. A caller can compute it beforehand. */
  function ReleasedAt(b: Book, cutoff: nat): nat {
    ExpiredQuantity(b.bids, cutoff) + ExpiredQuantity(b.asks, cutoff)
  }

  // ---------------------------------------------------------------- the list of expired orders

  lemma {:induction false} InsertDigestFacts(s: seq<Digest32>, d: Digest32)
    ensures forall c :: c in InsertDigest(s, d) <==> c in s || c == d
    ensures NoRepeats(s) && d !in s ==> NoRepeats(InsertDigest(s, d))
  {
    var r := InsertDigest(s, d);
    if s == [] || d <= s[0] {
      assert r[1..] == s;
    } else {
      InsertDigestFacts(s[1..], d);
      assert r[1..] == InsertDigest(s[1..], d);
      assert s == [s[0]] + s[1..];
    }
  }

  lemma {:induction false} InsertDigestAscends(s: seq<Digest32>, d: Digest32)
    requires Ascending(s)
    ensures Ascending(InsertDigest(s, d))
  {
    if s != [] && s[0] < d {
      var tail := InsertDigest(s[1..], d);
      InsertDigestAscends(s[1..], d);
      InsertDigestFacts(s[1..], d);
      forall j | 0 <= j < |tail| ensures s[0] <= tail[j] {
        assert tail[j] in tail;
      }
    }
  }

  lemma {:induction false} SortFacts(s: seq<Digest32>)
    ensures forall c :: c in SortDigests(s) <==> c in s
    ensures NoRepeats(s) ==> NoRepeats(SortDigests(s))
    ensures Ascending(SortDigests(s))
  {
    if s != [] {
      SortFacts(s[1..]);
      InsertDigestFacts(SortDigests(s[1..]), s[0]);
      InsertDigestAscends(SortDigests(s[1..]), s[0]);
      assert s == [s[0]] + s[1..];
    }
  }

  lemma {:induction false} ExpiredOnFacts(s: seq<Resting>, cutoff: nat)
    requires Distinct(s)
    ensures forall c :: c in ExpiredOn(s, cutoff) <==> Expires(s, cutoff, c)
    ensures NoRepeats(ExpiredOn(s, cutoff))
  {
    if s != [] {
      ExpiredOnFacts(s[1..], cutoff);
      if Expires(s[1..], cutoff, s[0].Commitment()) {
        ExpiringRests(s[1..], cutoff, s[0].Commitment());
      }
      assert ExpiredOn(s, cutoff)[if Expired(s[0], cutoff) then 1 else 0..] == ExpiredOn(s[1..], cutoff);
    }
  }

  lemma {:induction false} ExpiringRests(s: seq<Resting>, cutoff: nat, c: Digest32)
    requires Expires(s, cutoff, c)
    ensures Rests(s, c)
  {
    if !(s[0].Commitment() == c && Expired(s[0], cutoff)) {
      ExpiringRests(s[1..], cutoff, c);
    }
  }

  lemma {:induction false} NoRepeatsConcat(a: seq<Digest32>, b: seq<Digest32>)
    requires NoRepeats(a) && NoRepeats(b) && forall c :: c in a ==> c !in b
    ensures NoRepeats(a + b)
  {
    if a == [] {
      assert a + b == b;
    } else {
      assert a == [a[0]] + a[1..];
      assert (a + b)[1..] == a[1..] + b;
      NoRepeatsConcat(a[1..], b);
    }
  }

  ghost predicate ExpiresIn(b: Book, cutoff: nat, c: Digest32) {
    Expires(b.bids, cutoff, c) || Expires(b.asks, cutoff, c)
  }

  /** `orders` names each order expiring before the cutoff exactly once, and nothing else. */
  ghost predicate Names(b: Book, cutoff: nat, orders: seq<Digest32>) {
    NoRepeats(orders) && forall c :: c in orders <==> ExpiresIn(b, cutoff, c)
  }

  /** The command's order list: exactly the expired commitments, ascending, without repetition. */
  lemma ExpiredCommitmentsExact(b: Book, cutoff: nat)
    requires BookInv(b)
    ensures Names(b, cutoff, ExpiredCommitments(b, cutoff))
    ensures Ascending(ExpiredCommitments(b, cutoff))
  {
    OpenSide(b, Buy);
    OpenSide(b, Sell);
    var bids, asks := ExpiredOn(b.bids, cutoff), ExpiredOn(b.asks, cutoff);
    ExpiredOnFacts(b.bids, cutoff);
    ExpiredOnFacts(b.asks, cutoff);
    forall c | c in bids ensures c !in asks {
      ExpiringRests(b.bids, cutoff, c);
      if Expires(b.asks, cutoff, c) {
        ExpiringRests(b.asks, cutoff, c);
      }
    }
    NoRepeatsConcat(bids, asks);
    SortFacts(bids + asks);
  }

  // ---------------------------------------------------------------- dropping one expired order

  lemma {:induction false} FindRests(s: seq<Resting>, c: Digest32)
    ensures FindOn(s, c).Some? <==> Rests(s, c)
    ensures FindOn(s, c).Some? ==> FindOn(s, c).value.Commitment() == c && FindOn(s, c).value in s
  {
    if s != [] {
      FindRests(s[1..], c);
    }
  }

  /** Dropping an expired order: the live ones stay in place, its quantity alone is released. */
  lemma {:induction false} DropExpired(s: seq<Resting>, cutoff: nat, c: Digest32)
    requires Distinct(s) && Expires(s, cutoff, c)
    ensures FindOn(s, c).Some?
    ensures Live(SetRemaining(s, c, 0), cutoff) == Live(s, cutoff)
    ensures ExpiredQuantity(SetRemaining(s, c, 0), cutoff) + FindOn(s, c).value.remaining == ExpiredQuantity(s, cutoff)
    ensures forall d :: Expires(SetRemaining(s, c, 0), cutoff, d) <==> Expires(s, cutoff, d) && d != c
  {
    var s' := SetRemaining(s, c, 0);
    if s[0].Commitment() == c {
      assert s' == s[1..];
      if Expires(s[1..], cutoff, c) {
        ExpiringRests(s[1..], cutoff, c);
      }
    } else {
      DropExpired(s[1..], cutoff, c);
      assert s'[1..] == SetRemaining(s[1..], c, 0);
    }
  }

  lemma {:induction false} NothingExpires(s: seq<Resting>, cutoff: nat)
    requires forall c :: !Expires(s, cutoff, c)
    ensures Live(s, cutoff) == s && ExpiredQuantity(s, cutoff) == 0
  {
    if s != [] {
      assert !Expires(s, cutoff, s[0].Commitment());
      forall c ensures !Expires(s[1..], cutoff, c) {
        assert !Expires(s, cutoff, c);
      }
      NothingExpires(s[1..], cutoff);
    }
  }

  lemma DropExpiring(b: Book, cutoff: nat, c: Digest32)
    requires BookInv(b) && ExpiresIn(b, cutoff, c)
    ensures Find(b, c).Some?
    ensures forall d :: ExpiresIn(Drop(b, c), cutoff, d) <==> ExpiresIn(b, cutoff, d) && d != c
    ensures ReleasedAt(Drop(b, c), cutoff) + Find(b, c).value.remaining == ReleasedAt(b, cutoff)
    ensures Survivors(Drop(b, c), cutoff) == Survivors(b, cutoff)
  {
    OpenSide(b, Buy);
    OpenSide(b, Sell);
    if Expires(b.bids, cutoff, c) {
      ExpiringRests(b.bids, cutoff, c);
      DropExpired(b.bids, cutoff, c);
      SetRemainingAbsent(b.asks, c, 0);
      if Expires(b.asks, cutoff, c) {
        ExpiringRests(b.asks, cutoff, c);
      }
    } else {
      ExpiringRests(b.asks, cutoff, c);
      DropExpired(b.asks, cutoff, c);
      SetRemainingAbsent(b.bids, c, 0);
      FindRests(b.bids, c);
    }
  }

  /** One turn of the loop: the named order is found, and dropping it leaves the others to do. */
  lemma DropNamed(b: Book, cutoff: nat, orders: seq<Digest32>)
    requires BookInv(b) && Names(b, cutoff, orders) && orders != []
    ensures Find(b, orders[0]).Some?
    ensures BookInv(Drop(b, orders[0])) && Names(Drop(b, orders[0]), cutoff, orders[1..])
    ensures ReleasedAt(Drop(b, orders[0]), cutoff) + Find(b, orders[0]).value.remaining == ReleasedAt(b, cutoff)
    ensures Survivors(Drop(b, orders[0]), cutoff) == Survivors(b, cutoff)
  {
    var c := orders[0];
    assert c in orders;
    DropKeeps(b, c);
    DropExpiring(b, cutoff, c);
    forall d ensures d in orders[1..] <==> ExpiresIn(Drop(b, c), cutoff, d) {
      assert orders == [c] + orders[1..];
      assert d in orders <==> ExpiresIn(b, cutoff, d);
    }
  }

  /** The book without the orders that expire before the cutoff. */
  function Survivors(b: Book, cutoff: nat): Book {
    b.(bids := Live(b.bids, cutoff), asks := Live(b.asks, cutoff))
  }

  /**
   The loop removes exactly the expired orders, keeps the order of the rest and releases
   their exact total, or it overflows; it overflows exactly when that total leaves 64 bits.
   No lookup in it ever fails.
   */
  lemma {:induction false} ExpireAllExact(b: Book, cutoff: nat, orders: seq<Digest32>, released: nat)
    requires BookInv(b) && Names(b, cutoff, orders) && released <= U64_MAX
    ensures var s := ExpireAll(b, orders, released);
            if released + ReleasedAt(b, cutoff) <= U64_MAX
            then s == Step(Success(released + ReleasedAt(b, cutoff)), Survivors(b, cutoff))
            else s.result == Failure(Invalid(ExpiredQuantityOverflowed))
    decreases |orders|
  {
    if orders == [] {
      forall c ensures !Expires(b.bids, cutoff, c) && !Expires(b.asks, cutoff, c) {
        assert !ExpiresIn(b, cutoff, c);
      }
      NothingExpires(b.bids, cutoff);
      NothingExpires(b.asks, cutoff);
    } else {
      DropNamed(b, cutoff, orders);
      var q := Find(b, orders[0]).value.remaining;
      if released + q <= U64_MAX {
        ExpireAllExact(Drop(b, orders[0]), cutoff, orders[1..], released + q);
      }
    }
  }

  // ---------------------------------------------------------------- atomicity, exactly

  ghost predicate Accepted(env: Env, b: Book, cutoff: U64, command: Digest32, cert: nat) {
    && cert == b.sequence + 1 && command !in b.admitted
    && ExpiredCommitments(b, cutoff) != []
    && command == env.expiryCommitment(b.market, cutoff, ExpiredCommitments(b, cutoff))
  }

  lemma {:induction false} DroppedStaysGone(b: Book, orders: seq<Digest32>, released: nat, c: Digest32)
    requires BookInv(b) && !Rests(b.bids, c) && !Rests(b.asks, c)
    ensures var b' := ExpireAll(b, orders, released).book; !Rests(b'.bids, c) && !Rests(b'.asks, c)
    decreases |orders|
  {
    hide BookInv, SetRemaining, Thinned, Distinct, AllOpen;
    if orders != [] && Find(b, orders[0]).Some? {
      var d, q := orders[0], Find(b, orders[0]).value.remaining;
      OpenSide(b, Buy);
      OpenSide(b, Sell);
      SetZeroThins(b.bids, d);
      SetZeroThins(b.asks, d);
      if Rests(SetRemaining(b.bids, d, 0), c) {
        ThinnedRests(SetRemaining(b.bids, d, 0), b.bids, c);
      }
      if Rests(SetRemaining(b.asks, d, 0), c) {
        ThinnedRests(SetRemaining(b.asks, d, 0), b.asks, c);
      }
      DropKeeps(b, d);
      if released + q <= U64_MAX {
        DroppedStaysGone(Drop(b, d), orders[1..], released + q, c);
      }
    }
  }

  lemma {:induction false} SetZeroGone(s: seq<Resting>, c: Digest32)
    requires Distinct(s)
    ensures !Rests(SetRemaining(s, c, 0), c)
  {
    if s != [] {
      if s[0].Commitment() == c {
        assert SetRemaining(s, c, 0) == s[1..];
      } else {
        SetZeroGone(s[1..], c);
        assert SetRemaining(s, c, 0)[1..] == SetRemaining(s[1..], c, 0);
      }
    }
  }

  /**
   Expiry is atomic except in one family of cases, named exactly: the command passes every
   check and the quantity it would release does not fit in 64 bits. Then it fails and some
   orders are gone all the same.
   */
  lemma ExpiryAtomicExactly(env: Env, b: Book, cutoff: U64, command: Digest32, cert: nat)
    requires BookInv(b)
    ensures var s := Expire(env, b, cutoff, command, cert);
            && (s.result.Success? <==> Accepted(env, b, cutoff, command, cert) && ReleasedAt(b, cutoff) <= U64_MAX)
            && (s.result.Failure? ==>
                  (s.book == b <==> !(Accepted(env, b, cutoff, command, cert) && ReleasedAt(b, cutoff) > U64_MAX)))
            && (s.result.Success? ==> s.result.value.releasedQuantity == ReleasedAt(b, cutoff)
                                      && s.book == Commit(Survivors(b, cutoff), command))
  {
    var orders := ExpiredCommitments(b, cutoff);
    ExpiredCommitmentsExact(b, cutoff);
    ExpireAllExact(b, cutoff, orders, 0);
    if Accepted(env, b, cutoff, command, cert) && ReleasedAt(b, cutoff) > U64_MAX {
      FirstIsGone(b, cutoff, orders);
    }
  }

  /** The first expired order fits on its own, so an overflowing loop has always removed it. */
  lemma FirstIsGone(b: Book, cutoff: nat, orders: seq<Digest32>)
    requires BookInv(b) && Names(b, cutoff, orders) && orders != []
    ensures ExpireAll(b, orders, 0).book != b
  {
    var c := orders[0];
    DropNamed(b, cutoff, orders);
    var r := Find(b, c).value;
    OpenSide(b, Buy);
    OpenSide(b, Sell);
    FindRests(b.bids, c);
    FindRests(b.asks, c);
    assert r.remaining <= U64_MAX by {
      if r in b.bids {
        var i :| 0 <= i < |b.bids| && b.bids[i] == r;
        assert Good(b, Buy, b.bids[i]);
      } else {
        var i :| 0 <= i < |b.asks| && b.asks[i] == r;
        assert Good(b, Sell, b.asks[i]);
      }
    }
    SetZeroGone(b.bids, c);
    SetZeroGone(b.asks, c);
    DroppedStaysGone(Drop(b, c), orders[1..], r.remaining, c);
  }

  // ---------------------------------------------------------------- invisible to matching

  lemma {:induction false} InputsUnseen(s: seq<Resting>, cutoff: nat, now: nat, k: nat)
    requires cutoff <= now
    ensures Inputs(Live(s, cutoff), now, k) == Inputs(s, now, k)
  {
    if s == [] {
    } else if Expired(s[0], cutoff) {
      InputsUnseen(s[1..], cutoff, now, k);
    } else {
      assert Live(s, cutoff)[1..] == Live(s[1..], cutoff);
      InputsUnseen(s[1..], cutoff, now, k);
      if k > 0 {
        InputsUnseen(s[1..], cutoff, now, k - 1);
      }
    }
  }

  lemma {:induction false} GreedyUnseen(t: Taker, s: seq<Resting>, cutoff: nat, left: nat)
    requires cutoff <= t.now
    ensures Greedy(t, Live(s, cutoff), left).fills == Greedy(t, s, left).fills
  {
    if s == [] {
    } else if Expired(s[0], cutoff) {
      GreedyUnseen(t, s[1..], cutoff, left);
    } else {
      assert Live(s, cutoff)[1..] == Live(s[1..], cutoff);
      var trades := !Expired(s[0], t.now) && Crosses(t.side, t.price, s[0].Price()) && left > 0;
      GreedyUnseen(t, s[1..], cutoff, if trades then left - Min(left, s[0].remaining) else left);
    }
  }

  lemma {:induction false} SlottedUnseen(t: Taker, s: seq<Resting>, cutoff: nat, left: nat, k: nat)
    requires cutoff <= t.now
    ensures Slotted(t, Live(s, cutoff), left, k).fills == Slotted(t, s, left, k).fills
    ensures Slotted(t, Live(s, cutoff), left, k).left == Slotted(t, s, left, k).left
  {
    if s == [] {
    } else if Expired(s[0], cutoff) {
      SlottedUnseen(t, s[1..], cutoff, left, k);
    } else {
      assert Live(s, cutoff)[1..] == Live(s[1..], cutoff);
      var trades := !Expired(s[0], t.now) && Crosses(t.side, t.price, s[0].Price()) && left > 0;
      var q := if trades then Min(left, s[0].remaining) else 0;
      if k > 0 {
        SlottedUnseen(t, s[1..], cutoff, left - q, if Expired(s[0], t.now) then k else k - 1);
      }
    }
  }

  /**
   An expiry with a cutoff not later than `now` changes neither the batch an arrival at
   `now` is matched in, nor its fills, nor the capacity verdict.
   */
  lemma ExpiryInvisible(env: Env, b: Book, cutoff: U64, command: Digest32, cert: nat,
                        order: SecretOrder, authority: OrderAuthority, now: nat)
    requires BookInv(b) && cutoff <= now
    requires Expire(env, b, cutoff, command, cert).result.Success?
    ensures var b' := Expire(env, b, cutoff, command, cert).book;
            && BatchOf(b', order, now) == BatchOf(b, order, now)
            && ExceedsCapacity(b', order, now) == ExceedsCapacity(b, order, now)
            && SweepOf(b', order, authority, now).fills == SweepOf(b, order, authority, now).fills
            && SweepOf(b', order, authority, now).left == SweepOf(b, order, authority, now).left
  {
    ExpiryAtomicExactly(env, b, cutoff, command, cert);
    var s := b.On(order.side.Opposite());
    InputsUnseen(s, cutoff, now, MAX_MATCH_SLOTS);
    SlottedUnseen(TakerOf(order, authority, now), s, cutoff, order.quantity, MAX_MATCH_SLOTS);
    GreedyUnseen(Taker(order.side, order.limitPrice, now, 0), s, cutoff, order.quantity);
    var b' := Expire(env, b, cutoff, command, cert).book;
    assert b'.On(order.side.Opposite()) == Live(s, cutoff);
  }
}
