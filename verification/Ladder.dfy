/**
 One side of the book as the program stores it, a map from price to a first-in first-out
 queue, and the ranked list that map stands for.
 */
module Ladder {
  import opened Orders
  import opened Matching
  import opened Depth
  import opened Batch
  import opened BookModel
  import opened Publication

  type Levels = map<nat, seq<Resting>>

  /** Queues are never empty and hold orders of their own price only. */
  ghost predicate Keyed(m: Levels) {
    forall p :: p in m ==> m[p] != [] && forall i :: 0 <= i < |m[p]| ==> m[p][i].Price() == p
  }

  lemma {:induction false} BestExists(side: Side, keys: set<nat>) returns (k: nat)
    requires keys != {}
    ensures k in keys && forall j :: j in keys ==> j == k || Better(side, k, j)
    decreases |keys|
  {
    k :| k in keys;
    if keys != {k} {
      var others := keys - {k};
      assert keys == others + {k};
      var best := BestExists(side, others);
      if Better(side, best, k) {
        k := best;
      }
    }
  }

  /** The best price of a side: the last key of the bids, the first key of the asks. */
  function Best(side: Side, keys: set<nat>): (k: nat)
    requires keys != {}
    ensures k in keys && forall j :: j in keys ==> j == k || Better(side, k, j)
  {
    assert exists b :: b in keys && forall j :: j in keys ==> j == b || Better(side, b, j) by {
      var b := BestExists(side, keys);
    }
    var b :| b in keys && forall j :: j in keys ==> j == b || Better(side, b, j);
    b
  }

  /** The orders of a side in matching priority: level by level, each queue from its front. */
  function Flat(side: Side, m: Levels): seq<Resting>
    decreases m.Keys
  {
    if m == map[] then []
    else
      var k := Best(side, m.Keys);
      m[k] + Flat(side, m - {k})
  }

  // ---------------------------------------------------------------- splitting at a price

  ghost function Ahead(side: Side, m: Levels, k: nat): Levels {
    map p | p in m && Better(side, p, k) :: m[p]
  }

  ghost function Behind(side: Side, m: Levels, k: nat): Levels {
    map p | p in m && Better(side, k, p) :: m[p]
  }

  function QueueAt(m: Levels, k: nat): seq<Resting> {
    if k in m then m[k] else []
  }

  lemma FlatUnfold(side: Side, m: Levels, k: nat)
    requires k in m && forall j :: j in m ==> j == k || Better(side, k, j)
    ensures Flat(side, m) == m[k] + Flat(side, m - {k})
  {
    assert Best(side, m.Keys) == k;
  }

  lemma {:induction false} FlatAround(side: Side, m: Levels, k: nat)
    ensures Flat(side, m) == Flat(side, Ahead(side, m, k)) + QueueAt(m, k) + Flat(side, Behind(side, m, k))
    decreases m.Keys
  {
    if m == map[] {
      assert Ahead(side, m, k) == map[] && Behind(side, m, k) == map[];
    } else {
      var b := Best(side, m.Keys);
      if Better(side, b, k) {
        FlatAround(side, m - {b}, k);
        FlatAroundBest(side, m, k, b);
      } else if b == k {
        FlatUnfold(side, m, k);
        assert Ahead(side, m, k) == map[];
        assert Behind(side, m, k) == m - {k};
      } else {
        assert Ahead(side, m, k) == map[];
        assert Behind(side, m, k) == m;
      }
    }
  }

  /** The best level leads the whole and leads the part ahead of `k`. */
  lemma FlatAroundBest(side: Side, m: Levels, k: nat, b: nat)
    requires b in m && (forall j :: j in m ==> j == b || Better(side, b, j)) && Better(side, b, k)
    requires Flat(side, m - {b})
          == Flat(side, Ahead(side, m - {b}, k)) + QueueAt(m - {b}, k) + Flat(side, Behind(side, m - {b}, k))
    ensures Flat(side, m) == Flat(side, Ahead(side, m, k)) + QueueAt(m, k) + Flat(side, Behind(side, m, k))
  {
    hide Flat, Ahead, Behind, QueueAt;
    FlatUnfold(side, m, b);
    AroundWithout(side, m, k, b);
    FlatUnfold(side, Ahead(side, m, k), b);
  }

  /** Taking away the best level shortens the part ahead of `k` and nothing else. */
  lemma AroundWithout(side: Side, m: Levels, k: nat, b: nat)
    requires b in m && (forall j :: j in m ==> j == b || Better(side, b, j)) && Better(side, b, k)
    ensures var ahead := Ahead(side, m, k);
            && b in ahead && ahead[b] == m[b] && (forall j :: j in ahead ==> j == b || Better(side, b, j))
            && ahead - {b} == Ahead(side, m - {b}, k)
    ensures Behind(side, m - {b}, k) == Behind(side, m, k) && QueueAt(m - {b}, k) == QueueAt(m, k)
  {
  }

  /** The map with another queue at `k`; an empty queue takes its price away. */
  function Replace(m: Levels, k: nat, queue: seq<Resting>): Levels {
    if queue == [] then m - {k} else m[k := queue]
  }

  lemma FlatReplace(side: Side, m: Levels, k: nat, queue: seq<Resting>)
    ensures Flat(side, Replace(m, k, queue)) == Flat(side, Ahead(side, m, k)) + queue + Flat(side, Behind(side, m, k))
  {
    hide Flat;
    var m' := Replace(m, k, queue);
    FlatAround(side, m', k);
    assert Ahead(side, m', k) == Ahead(side, m, k);
    assert Behind(side, m', k) == Behind(side, m, k);
    assert QueueAt(m', k) == queue;
  }

  lemma ReplaceKeyed(m: Levels, k: nat, queue: seq<Resting>)
    requires Keyed(m) && forall i :: 0 <= i < |queue| ==> queue[i].Price() == k
    ensures Keyed(Replace(m, k, queue))
  {
  }

  lemma {:induction false} FlatPrices(side: Side, m: Levels, i: nat)
    requires Keyed(m) && i < |Flat(side, m)|
    ensures Flat(side, m)[i].Price() in m
    decreases m.Keys
  {
    var k := Best(side, m.Keys);
    if i >= |m[k]| {
      FlatPrices(side, m - {k}, i - |m[k]|);
    }
  }

  // ---------------------------------------------------------------- insertion

  lemma {:induction false} InsertBetween(side: Side, a: seq<Resting>, b: seq<Resting>, r: Resting)
    requires forall i :: 0 <= i < |a| ==> !Better(side, r.Price(), a[i].Price())
    requires b != [] ==> Better(side, r.Price(), b[0].Price())
    ensures InsertRanked(side, a + b, r) == a + [r] + b
  {
    if a == [] {
      assert a + b == b;
    } else {
      assert (a + b)[1..] == a[1..] + b;
      InsertBetween(side, a[1..], b, r);
    }
  }

  /** Pushing an order to the back of its price's queue inserts it by rank. */
  lemma FlatInsert(side: Side, m: Levels, r: Resting)
    requires Keyed(m)
    ensures Flat(side, m[r.Price() := QueueAt(m, r.Price()) + [r]]) == InsertRanked(side, Flat(side, m), r)
    ensures Keyed(m[r.Price() := QueueAt(m, r.Price()) + [r]])
  {
    hide Flat, InsertRanked;
    var p := r.Price();
    var queue := QueueAt(m, p);
    var ahead, behind := Ahead(side, m, p), Behind(side, m, p);
    FlatAround(side, m, p);
    FlatReplace(side, m, p, queue + [r]);
    var a, b := Flat(side, ahead) + queue, Flat(side, behind);
    forall i | 0 <= i < |a| ensures !Better(side, p, a[i].Price()) {
      if i < |Flat(side, ahead)| {
        FlatPrices(side, ahead, i);
      }
    }
    if b != [] {
      FlatPrices(side, behind, 0);
    }
    InsertBetween(side, a, b, r);
    assert a + [r] + b == Flat(side, ahead) + (queue + [r]) + b;
  }

  // ---------------------------------------------------------------- lookup and update by commitment

  lemma {:induction false} FindOnConcat(a: seq<Resting>, b: seq<Resting>, c: Digest32)
    ensures FindOn(a + b, c) == if FindOn(a, c).Some? then FindOn(a, c) else FindOn(b, c)
  {
    if a == [] {
      assert a + b == b;
    } else {
      assert (a + b)[1..] == a[1..] + b;
      FindOnConcat(a[1..], b, c);
    }
  }

  lemma {:induction false} FindOnAbsent(s: seq<Resting>, c: Digest32)
    requires !Rests(s, c)
    ensures FindOn(s, c).None?
  {
    if s != [] {
      FindOnAbsent(s[1..], c);
    }
  }

  lemma {:induction false} DistinctSplit(a: seq<Resting>, b: seq<Resting>, c: Digest32)
    requires Distinct(a + b)
    ensures Distinct(a) && Distinct(b)
    ensures Rests(b, c) ==> !Rests(a, c)
  {
    if a == [] {
      assert a + b == b;
    } else {
      assert (a + b)[1..] == a[1..] + b;
      DistinctSplit(a[1..], b, c);
      RestsConcat(a[1..], b, a[0].Commitment());
    }
  }

  lemma {:induction false} RestsInQueue(side: Side, m: Levels, c: Digest32)
    ensures Rests(Flat(side, m), c) <==> exists p :: p in m && Rests(m[p], c)
    decreases m.Keys
  {
    if m != map[] {
      var k := Best(side, m.Keys);
      var fewer := m - {k};
      RestsInQueue(side, fewer, c);
      RestsConcat(m[k], Flat(side, fewer), c);
      if p :| p in m && Rests(m[p], c) {
        assert p == k || (p in fewer && Rests(fewer[p], c));
      }
      if p :| p in fewer && Rests(fewer[p], c) {
        assert p in m && Rests(m[p], c);
      }
    }
  }

  /** The queue and position of a commitment, as the program finds them. */
  datatype Place = Place(price: nat, index: nat)

  ghost predicate At(m: Levels, place: Place, c: Digest32) {
    && place.price in m && place.index < |m[place.price]|
    && m[place.price][place.index].Commitment() == c
    && forall i :: 0 <= i < place.index ==> m[place.price][i].Commitment() != c
  }

  lemma {:induction false} SetRemainingAt(queue: seq<Resting>, c: Digest32, index: nat, remaining: nat)
    requires index < |queue| && queue[index].Commitment() == c
    requires forall i :: 0 <= i < index ==> queue[i].Commitment() != c
    ensures SetRemaining(queue, c, remaining)
         == if remaining == 0 then queue[..index] + queue[index + 1..]
            else queue[index := queue[index].(remaining := remaining)]
  {
    if index == 0 {
      assert queue[..0] == [];
    } else {
      var tail := queue[1..];
      SetRemainingAt(tail, c, index - 1, remaining);
      if remaining == 0 {
        assert queue[..index] == [queue[0]] + tail[..index - 1];
        assert queue[index + 1..] == tail[index..];
      } else {
        assert queue[index := queue[index].(remaining := remaining)]
            == [queue[0]] + tail[index - 1 := tail[index - 1].(remaining := remaining)];
      }
    }
  }

  lemma {:induction false} FindOnAt(queue: seq<Resting>, c: Digest32, index: nat)
    requires index < |queue| && queue[index].Commitment() == c
    requires forall i :: 0 <= i < index ==> queue[i].Commitment() != c
    ensures FindOn(queue, c) == Some(queue[index])
  {
    if index > 0 {
      FindOnAt(queue[1..], c, index - 1);
    }
  }

  /** What is found in a queue is what the ranked list has, and setting it there sets it in the list. */
  lemma FlatSetRemaining(side: Side, m: Levels, c: Digest32, place: Place, remaining: nat)
    requires Keyed(m) && Distinct(Flat(side, m)) && At(m, place, c)
    ensures FindOn(Flat(side, m), c) == Some(m[place.price][place.index])
    ensures Rests(Flat(side, m), c)
    ensures var queue := SetRemaining(m[place.price], c, remaining);
            && Flat(side, Replace(m, place.price, queue)) == SetRemaining(Flat(side, m), c, remaining)
            && Keyed(Replace(m, place.price, queue))
  {
    hide Flat;
    var queue := m[place.price];
    var a, b := Flat(side, Ahead(side, m, place.price)), Flat(side, Behind(side, m, place.price));
    FlatAround(side, m, place.price);
    RestsAt(queue, place.index);
    RestsConcat(a + queue, b, c);
    RestsConcat(a, queue, c);
    DistinctSplit(a + queue, b, c);
    DistinctSplit(a, queue, c);
    SetRemainingAt(queue, c, place.index, remaining);
    FindOnAt(queue, c, place.index);
    FindOnConcat(a + queue, b, c);
    FindOnConcat(a, queue, c);
    FindOnAbsent(a, c);
    SetRemainingConcat(a + queue, b, c, remaining);
    SetRemainingConcat(a, queue, c, remaining);
    FlatReplace(side, m, place.price, SetRemaining(queue, c, remaining));
    ReplaceKeyed(m, place.price, SetRemaining(queue, c, remaining));
  }

  /** Searches the queues in ascending price, each from its front. */
  method Locate(m: Levels, c: Digest32) returns (place: Option<Place>)
    ensures place.Some? ==> At(m, place.value, c)
    ensures place.None? ==> forall p :: p in m ==> !Rests(m[p], c)
  {
    var rest := m;
    while rest != map[]
      invariant rest.Keys <= m.Keys
      invariant forall p :: p in m && p !in rest ==> !Rests(m[p], c)
      decreases rest.Keys
    {
      var price := Best(Sell, rest.Keys);
      var queue := m[price];
      var index := 0;
      while index < |queue| && queue[index].Commitment() != c
        invariant 0 <= index <= |queue|
        invariant forall i :: 0 <= i < index ==> queue[i].Commitment() != c
      {
        index := index + 1;
      }
      if index < |queue| {
        return Some(Place(price, index));
      }
      if Rests(queue, c) {
        ghost var i := RestingIndex(queue, c);
      }
      rest := rest - {price};
    }
    return None;
  }

  // ---------------------------------------------------------------- public levels of a side

  ghost function QueueTotal(queue: seq<Resting>): nat {
    if queue == [] then 0 else queue[0].remaining + QueueTotal(queue[1..])
  }

  /** The queue's quantity as the program sums it, in 64 bits. */
  function Quantity(queue: seq<Resting>): (r: nat)
    ensures r == Wrap(QueueTotal(queue))
  {
    if queue == [] then 0
    else
      WrapAdds(QueueTotal(queue[1..]), queue[0].remaining);
      Wrap(Quantity(queue[1..]) + queue[0].remaining)
  }

  ghost function SideLevels(side: Side, m: Levels): seq<PriceLevel>
    decreases m.Keys
  {
    if m == map[] then []
    else
      var k := Best(side, m.Keys);
      [PriceLevel(side, k, QueueTotal(m[k]))] + SideLevels(side, m - {k})
  }

  method ListLevels(side: Side, m: Levels) returns (levels: seq<PriceLevel>)
    ensures levels == Wrapped(SideLevels(side, m))
  {
    hide SideLevels, Wrapped, Quantity;
    levels := [];
    var rest := m;
    while rest != map[]
      invariant levels + Wrapped(SideLevels(side, rest)) == Wrapped(SideLevels(side, m))
      decreases rest.Keys
    {
      var price := Best(side, rest.Keys);
      BestLevelFirst(side, rest);
      levels := levels + [PriceLevel(side, price, Quantity(rest[price]))];
      rest := rest - {price};
    }
    NoLevels(side);
  }

  lemma BestLevelFirst(side: Side, m: Levels)
    requires m != map[]
    ensures var k := Best(side, m.Keys);
            Wrapped(SideLevels(side, m)) == [PriceLevel(side, k, Quantity(m[k]))] + Wrapped(SideLevels(side, m - {k}))
  {
    var k := Best(side, m.Keys);
    WrappedConcat([PriceLevel(side, k, QueueTotal(m[k]))], SideLevels(side, m - {k}));
  }

  lemma NoLevels(side: Side)
    ensures Wrapped(SideLevels(side, map[])) == []
  {
  }

  ghost predicate OnSide(m: Levels, side: Side) {
    forall p :: p in m ==> AllOpen(m[p]) && forall i :: 0 <= i < |m[p]| ==> m[p][i].secret.side == side
  }

  lemma {:induction false} QueueDepth(side: Side, price: nat, queue: seq<Resting>, at: Side, level: nat)
    requires forall i :: 0 <= i < |queue| ==> queue[i].secret.side == side && queue[i].Price() == price
    ensures DepthAt(Entries(queue), at, level) == if at == side && level == price then QueueTotal(queue) else 0
  {
    if queue != [] {
      QueueDepth(side, price, queue[1..], at, level);
      assert Entries(queue)[1..] == Entries(queue[1..]);
    }
  }

  lemma {:induction false} SideLevelsDepth(side: Side, m: Levels, at: Side, level: nat)
    requires Keyed(m) && OnSide(m, side)
    ensures DepthAt(SideLevels(side, m), at, level) == DepthAt(Entries(Flat(side, m)), at, level)
    decreases m.Keys
  {
    if m != map[] {
      var k := Best(side, m.Keys);
      var fewer := m - {k};
      SideLevelsDepth(side, fewer, at, level);
      QueueDepth(side, k, m[k], at, level);
      EntriesConcat(m[k], Flat(side, fewer));
      DepthAtConcat(Entries(m[k]), Entries(Flat(side, fewer)), at, level);
      assert SideLevels(side, m)[1..] == SideLevels(side, fewer);
    }
  }

  lemma {:induction false} SideLevelsCanonical(side: Side, m: Levels)
    requires Keyed(m) && OnSide(m, side)
    ensures Canonical(SideLevels(side, m))
    ensures forall i :: 0 <= i < |SideLevels(side, m)| ==>
              SideLevels(side, m)[i].side == side && SideLevels(side, m)[i].price in m
    decreases m.Keys
  {
    if m != map[] {
      var k := Best(side, m.Keys);
      SideLevelsCanonical(side, m - {k});
      assert m[k][0].remaining > 0;
    }
  }

  lemma BothSidesCanonical(bids: seq<PriceLevel>, asks: seq<PriceLevel>)
    requires Canonical(bids) && Canonical(asks)
    requires forall i :: 0 <= i < |bids| ==> bids[i].side == Buy
    requires forall i :: 0 <= i < |asks| ==> asks[i].side == Sell
    ensures Canonical(bids + asks)
  {
  }
}
