/**
 The browser's reader of the published book: strict decimal integers, level checks, the
 seven attestations, and the two sorted ladders the page shows.
 */
module PublicReader {
  import opened Orders
  import opened Matching
  import opened Depth
  import opened Decimal

  datatype ReaderError =
    | InvalidBook | InvalidInteger | InvalidDigest | InvalidParty | InvalidList | InvalidSide
    | InvalidFinalityFlag | Regression | DuplicateLevel | MissingAttestations | ExpiredOrInconsistent
    | MissingFinality | InconsistentFinality

  datatype Parsed<+T> = Accepted(value: T) | Rejected(reason: ReaderError)

  /** A parsed JSON value. A property a record does not have reads as null, which every check refuses alike. */
  datatype Json =
    | Null
    | Boolean(flag: bool)
    | Real(number: real)
    | Text(text: string)
    | List(items: seq<Json>)
    | Record(fields: map<string, Json>)

  function Field(v: Json, name: string): Json {
    if v.Record? && name in v.fields then v.fields[name] else Null
  }

  /** Reads every item, or gives the first refusal. */
  function ParseAll<T>(items: seq<Json>, parse: Json -> Parsed<T>): Parsed<seq<T>> {
    if items == [] then Accepted([])
    else
      var first := parse(items[0]);
      if first.Rejected? then Rejected(first.reason)
      else
        var rest := ParseAll(items[1..], parse);
        if rest.Rejected? then rest else Accepted([first.value] + rest.value)
  }

  lemma {:induction false} ParseAllExactly<T>(items: seq<Json>, parse: Json -> Parsed<T>, values: seq<T>)
    ensures ParseAll(items, parse) == Accepted(values) <==>
            |items| == |values| && forall i :: 0 <= i < |values| ==> parse(items[i]) == Accepted(values[i])
  {
    if items == [] || values == [] {
    } else {
      ParseAllExactly(items[1..], parse, values[1..]);
      assert values == [values[0]] + values[1..];
      assert forall i :: 0 < i < |values| && i < |items| ==>
          items[i] == items[1..][i - 1] && values[i] == values[1..][i - 1];
      assert ParseAll(items, parse) == Accepted(values) <==>
          parse(items[0]) == Accepted(values[0]) && ParseAll(items[1..], parse) == Accepted(values[1..]) by {
        HeadAndTail(items, parse, values);
      }
    }
  }

  lemma HeadAndTail<T>(items: seq<Json>, parse: Json -> Parsed<T>, values: seq<T>)
    requires items != [] && values != []
    ensures ParseAll(items, parse) == Accepted(values) <==>
            parse(items[0]) == Accepted(values[0]) && ParseAll(items[1..], parse) == Accepted(values[1..])
  {
    assert values == [values[0]] + values[1..];
    if ParseAll(items, parse) == Accepted(values) {
      var rest := ParseAll(items[1..], parse);
      assert values[1..] == rest.value;
    }
  }

  datatype Level = Level(side: Side, price: string, quantity: string)

  datatype Node = Node(party: int, signer: string, issuedAt: string, validUntil: string, settlementRequired: bool)

  datatype Finality = Finality(party: int, height: string, receipt: string)

  datatype PublicBook = PublicBook(market: string, sequence: string, round: string,
                                   levels: seq<Level>, nodes: seq<Node>, finality: seq<Finality>)

  // ---------------------------------------------------------------- integers

  /** The pattern (a lone zero, or up to twenty digits not starting with zero), the bound and the flag. */
  predicate IsInteger(value: string, nonzero: bool) {
    && value != [] && AllDigits(value) && (value == "0" || (value[0] != '0' && |value| <= 20))
    && DecimalValue(value) <= U64_MAX
    && !(nonzero && value == "0")
  }

  predicate HoldsInteger(value: Json, nonzero: bool) {
    value.Text? && IsInteger(value.text, nonzero)
  }

  lemma TwentyDigits()
    ensures U64_MAX < Pow10(20)
  {
    assert Pow10(5) == 100000;
    assert Pow10(10) == 100000 * Pow10(5);
    assert Pow10(15) == 100000 * Pow10(10);
    assert Pow10(20) == 100000 * Pow10(15);
  }

  /** The accepted strings are the canonical decimals of 0 to 2^64-1 and nothing else. */
  lemma IntegerExactly(value: string, nonzero: bool)
    ensures IsInteger(value, nonzero) <==>
            exists n: nat :: n <= 18446744073709551615 && (nonzero ==> n > 0) && value == ToDecimal(n)
  {
    if IsInteger(value, nonzero) {
      IntegerText(value, nonzero);
    }
    forall n: nat | n <= U64_MAX && (nonzero ==> n > 0) && value == ToDecimal(n) ensures IsInteger(value, nonzero) {
      TextIsInteger(n, nonzero);
    }
  }

  lemma IntegerText(value: string, nonzero: bool)
    requires IsInteger(value, nonzero)
    ensures value == ToDecimal(DecimalValue(value)) && (nonzero ==> DecimalValue(value) > 0)
  {
    hide ToDecimal;
    DecimalUnique(value);
    if value[0] != '0' {
      DecimalPositive(value);
    }
  }

  lemma TextIsInteger(n: nat, nonzero: bool)
    requires n <= U64_MAX && (nonzero ==> n > 0)
    ensures IsInteger(ToDecimal(n), nonzero) && DecimalValue(ToDecimal(n)) == n
  {
    hide ToDecimal, Pow10;
    ToDecimalFacts(n);
    TwentyDigits();
    DecimalLength(n, 20);
    var s := ToDecimal(n);
    if s[0] == '0' {
      assert s == "0";
    }
  }

  // ---------------------------------------------------------------- sets and lengths

  function ToSet<T(==)>(s: seq<T>): set<T> {
    set x | x in s
  }

  ghost predicate AllDistinct<T>(s: seq<T>) {
    forall i, j :: 0 <= i < j < |s| ==> s[i] != s[j]
  }

  lemma {:induction false} SetFits<T>(s: seq<T>)
    ensures |ToSet(s)| <= |s|
    ensures |ToSet(s)| == |s| <==> AllDistinct(s)
  {
    if s != [] {
      var rest := s[1..];
      SetFits(rest);
      assert s == [s[0]] + rest;
      if s[0] in rest {
        assert ToSet(s) == ToSet(rest);
        var k :| 0 <= k < |rest| && rest[k] == s[0];
        assert s[k + 1] == s[0];
      } else {
        assert ToSet(s) == {s[0]} + ToSet(rest);
        assert AllDistinct(s) <==> AllDistinct(rest) by {
          assert AllDistinct(s) ==> AllDistinct(rest);
          forall j | 0 < j < |s| ensures s[j] != s[0] {
            assert s[j] in rest;
          }
          assert forall i, j :: 0 < i < j < |s| ==> s[i] == rest[i - 1] && s[j] == rest[j - 1];
        }
      }
    }
  }

  // ---------------------------------------------------------------- the seven parties

  predicate IsParty(p: int) {
    0 <= p <= 6
  }

  predicate AllParties(parties: seq<int>) {
    |parties| == 7 && |ToSet(parties)| == 7
  }

  /** Among valid party numbers, counting seven entries and seven values means each party exactly once. */
  lemma AllPartiesExactly(parties: seq<int>)
    requires forall p :: p in parties ==> IsParty(p)
    ensures AllParties(parties) <==> AllDistinct(parties) && forall p :: IsParty(p) ==> p in parties
  {
    hide AllDistinct, Below;
    var every, shown := Below(7), ToSet(parties);
    SetFits(parties);
    assert shown <= every;
    if |shown| == 7 {
      SubsetOfSameSize(shown, every);
      forall p | IsParty(p) ensures p in parties {
        assert p in shown;
      }
    }
    if forall p :: IsParty(p) ==> p in parties {
      assert every <= shown;
      assert shown == every;
    }
  }

  function Below(n: nat): (r: set<int>)
    ensures |r| == n && forall p :: p in r <==> 0 <= p < n
  {
    if n == 0 then {} else Below(n - 1) + {n - 1}
  }

  lemma SubsetOfSameSize(a: set<int>, b: set<int>)
    requires a <= b && |a| == |b|
    ensures a == b
  {
    assert |b - a| == |b| - |a|;
  }

  // ---------------------------------------------------------------- levels

  function SideOf(name: string): Option<Side> {
    if name == "buy" then Some(Buy) else if name == "sell" then Some(Sell) else None
  }

  function SideName(side: Side): string {
    if side.Buy? then "buy" else "sell"
  }

  function ParseLevel(item: Json): Parsed<Level> {
    if !item.Record? then Rejected(InvalidBook)
    else
      var side, price, quantity := Field(item, "side"), Field(item, "price"), Field(item, "quantity");
      if !side.Text? || SideOf(side.text).None? then Rejected(InvalidSide)
      else if !HoldsInteger(price, true) || !HoldsInteger(quantity, true) then Rejected(InvalidInteger)
      else Accepted(Level(SideOf(side.text).value, price.text, quantity.text))
  }

  /** What the reader compares for duplicates: the side, a colon, the price as written. */
  function Key(l: Level): string {
    SideName(l.side) + ":" + l.price
  }

  function Keys(levels: seq<Level>): (r: seq<string>)
    ensures |r| == |levels| && forall i :: 0 <= i < |levels| ==> r[i] == Key(levels[i])
  {
    seq(|levels|, i requires 0 <= i < |levels| => Key(levels[i]))
  }

  function ParseLevels(value: Json): Parsed<seq<Level>> {
    if !value.List? || |value.items| > 9 then Rejected(InvalidList)
    else
      var parsed := ParseAll(value.items, ParseLevel);
      if parsed.Rejected? then parsed
      else if |ToSet(Keys(parsed.value))| != |parsed.value| then Rejected(DuplicateLevel)
      else parsed
  }

  predicate Readable(l: Level) {
    IsInteger(l.price, true) && IsInteger(l.quantity, true)
  }

  /** The record shows the level; it may hold more. */
  ghost predicate ShowsLevel(item: Json, l: Level) {
    && item.Record? && Field(item, "side") == Text(SideName(l.side))
    && Field(item, "price") == Text(l.price) && Field(item, "quantity") == Text(l.quantity)
  }

  /** A level as the publisher writes it. */
  function RowOf(l: Level): (item: Json)
    ensures ShowsLevel(item, l)
  {
    var side, price, quantity := "side", "price", "quantity";
    assert side[0] == 's' && price[0] == 'p' && quantity[0] == 'q';
    Record(map[side := Text(SideName(l.side)), price := Text(l.price), quantity := Text(l.quantity)])
  }

  /** The number a string stands for; only strings that passed the integer check get here. */
  function Number(value: string): nat {
    if AllDigits(value) then DecimalValue(value) else 0
  }

  /** A level as numbers. */
  function Numeric(l: Level): PriceLevel {
    PriceLevel(l.side, Number(l.price), Number(l.quantity))
  }

  lemma KeyExactly(a: Level, b: Level)
    requires Readable(a) && Readable(b)
    ensures Key(a) == Key(b) <==> SameKey(Numeric(a), Numeric(b))
  {
    hide ToDecimal, DecimalValue;
    IntegerText(a.price, true);
    IntegerText(b.price, true);
    var x, y := Key(a), Key(b);
    if x == y {
      assert x[0] == SideName(a.side)[0] && y[0] == SideName(b.side)[0];
      assert x[|SideName(a.side)| + 1..] == a.price && y[|SideName(b.side)| + 1..] == b.price;
    }
  }

  lemma LevelExactly(item: Json, l: Level)
    ensures ParseLevel(item) == Accepted(l) <==> ShowsLevel(item, l) && Readable(l)
  {
    hide IsInteger, Field;
    assert "buy"[0] != "sell"[0];
  }

  ghost predicate DistinctPrices(levels: seq<Level>) {
    forall i, j :: 0 <= i < j < |levels| ==> !SameKey(Numeric(levels[i]), Numeric(levels[j]))
  }

  lemma KeysRepeat(levels: seq<Level>)
    requires forall i :: 0 <= i < |levels| ==> Readable(levels[i])
    ensures AllDistinct(Keys(levels)) <==> DistinctPrices(levels)
  {
    hide Key, Readable, Numeric, SameKey;
    var keys := Keys(levels);
    forall i, j | 0 <= i < j < |levels|
      ensures keys[i] == keys[j] <==> SameKey(Numeric(levels[i]), Numeric(levels[j]))
    {
      KeyExactly(levels[i], levels[j]);
    }
  }

  /**
   The level checks accept exactly lists of at most nine records, each a known side with a
   canonical non-zero price and quantity, no side showing the same numeric price twice.
   */
  lemma LevelsExactly(value: Json, levels: seq<Level>)
    ensures ParseLevels(value) == Accepted(levels) <==>
            && value.List? && |value.items| == |levels| <= 9
            && (forall i :: 0 <= i < |levels| ==> ShowsLevel(value.items[i], levels[i]) && Readable(levels[i]))
            && DistinctPrices(levels)
  {
    hide Readable, ShowsLevel, ParseLevel, Keys, ParseAll, DistinctPrices, AllDistinct;
    if value.List? {
      ParseAllExactly(value.items, ParseLevel, levels);
      if |value.items| == |levels| {
        forall i | 0 <= i < |levels|
          ensures ParseLevel(value.items[i]) == Accepted(levels[i])
             <==> ShowsLevel(value.items[i], levels[i]) && Readable(levels[i])
        {
          LevelExactly(value.items[i], levels[i]);
        }
      }
      if ParseAll(value.items, ParseLevel) == Accepted(levels) {
        SetFits(Keys(levels));
        KeysRepeat(levels);
      }
    }
  }

  // ---------------------------------------------------------------- the two ladders

  function LevelsOn(levels: seq<Level>, side: Side): (r: seq<Level>)
    ensures forall i :: 0 <= i < |r| ==> r[i].side == side
  {
    if levels == [] then []
    else (if levels[0].side == side then [levels[0]] else []) + LevelsOn(levels[1..], side)
  }

  function InsertLevel(l: Level, s: seq<Level>): (r: seq<Level>)
    ensures r != [] && (r[0] == l || (s != [] && r[0] == s[0]))
    ensures multiset(r) == multiset(s) + multiset{l}
  {
    if s == [] || !Better(l.side, Number(s[0].price), Number(l.price)) then [l] + s
    else
      assert s == [s[0]] + s[1..];
      [s[0]] + InsertLevel(l, s[1..])
  }

  /** The stable sort by price, best first. */
  function SortByPrice(s: seq<Level>): (r: seq<Level>)
    ensures multiset(r) == multiset(s)
  {
    if s == [] then []
    else
      assert s == [s[0]] + s[1..];
      InsertLevel(s[0], SortByPrice(s[1..]))
  }

  function SortedLevels(levels: seq<Level>, side: Side): seq<Level> {
    SortByPrice(LevelsOn(levels, side))
  }

  function Ladders(levels: seq<Level>): seq<Level> {
    SortedLevels(levels, Buy) + SortedLevels(levels, Sell)
  }

  /** One side only, each price strictly behind the one before it. */
  ghost predicate IsLadder(side: Side, s: seq<Level>) {
    && (s != [] ==> s[0].side == side)
    && (|s| >= 2 ==> Better(side, Number(s[0].price), Number(s[1].price)))
    && (s != [] ==> IsLadder(side, s[1..]))
  }

  lemma {:induction false} LadderPairwise(side: Side, s: seq<Level>, i: nat, j: nat)
    requires IsLadder(side, s) && i < j < |s|
    ensures s[i].side == s[j].side == side && Better(side, Number(s[i].price), Number(s[j].price))
  {
    if i > 0 {
      LadderPairwise(side, s[1..], i - 1, j - 1);
    } else if j > 1 {
      LadderPairwise(side, s[1..], 0, j - 1);
    } else {
      assert s[1] == s[1..][0];
    }
  }

  lemma {:induction false} InsertKeepsLadder(side: Side, l: Level, s: seq<Level>)
    requires IsLadder(side, s) && l.side == side
    requires forall x :: x in s ==> Number(x.price) != Number(l.price)
    ensures IsLadder(side, InsertLevel(l, s))
  {
    var r := InsertLevel(l, s);
    if s == [] || !Better(side, Number(s[0].price), Number(l.price)) {
      assert r[1..] == s;
    } else {
      InsertKeepsLadder(side, l, s[1..]);
      assert r[1..] == InsertLevel(l, s[1..]);
    }
  }

  lemma {:induction false} SortedIsLadder(side: Side, s: seq<Level>)
    requires forall i :: 0 <= i < |s| ==> s[i].side == side
    requires forall i, j :: 0 <= i < j < |s| ==> Number(s[i].price) != Number(s[j].price)
    ensures IsLadder(side, SortByPrice(s))
  {
    if s != [] {
      var rest := SortByPrice(s[1..]);
      SortedIsLadder(side, s[1..]);
      forall x | x in rest ensures Number(x.price) != Number(s[0].price) {
        assert x in multiset(s[1..]);
      }
      InsertKeepsLadder(side, s[0], rest);
    }
  }

  lemma {:induction false} SideFacts(levels: seq<Level>, side: Side)
    requires DistinctPrices(levels)
    ensures forall i, j :: 0 <= i < j < |LevelsOn(levels, side)| ==>
              Number(LevelsOn(levels, side)[i].price) != Number(LevelsOn(levels, side)[j].price)
    ensures forall x :: x in LevelsOn(levels, side) ==> x in levels
  {
    if levels != [] {
      var rest := LevelsOn(levels[1..], side);
      SideFacts(levels[1..], side);
      forall x | x in rest && levels[0].side == side ensures Number(x.price) != Number(levels[0].price) {
        var k :| 0 <= k < |levels[1..]| && levels[1..][k] == x;
        assert !SameKey(Numeric(levels[0]), Numeric(levels[k + 1]));
      }
    }
  }

  lemma {:induction false} SidesPartition(levels: seq<Level>)
    ensures multiset(LevelsOn(levels, Buy)) + multiset(LevelsOn(levels, Sell)) == multiset(levels)
  {
    hide LevelsOn;
    if levels == [] {
      AsksOnly(levels);
    } else {
      var l, rest := levels[0], levels[1..];
      SidesPartition(rest);
      FirstOnItsSide(levels);
      AddOne(l, LevelsOn(rest, Buy));
      AddOne(l, LevelsOn(rest, Sell));
      AddOne(l, rest);
      assert levels == [l] + rest;
    }
  }

  lemma AddOne(l: Level, s: seq<Level>)
    ensures multiset([l] + s) == multiset{l} + multiset(s)
  {
  }

  lemma FirstOnItsSide(levels: seq<Level>)
    requires levels != []
    ensures LevelsOn(levels, levels[0].side) == [levels[0]] + LevelsOn(levels[1..], levels[0].side)
    ensures LevelsOn(levels, levels[0].side.Opposite()) == LevelsOn(levels[1..], levels[0].side.Opposite())
  {
  }

  ghost predicate InOrder(texts: seq<Level>) {
    forall i, j :: 0 <= i < j < |texts| ==> Precedes(Numeric(texts[i]), Numeric(texts[j]))
  }

  lemma LaddersInOrder(bids: seq<Level>, asks: seq<Level>)
    requires IsLadder(Buy, bids) && IsLadder(Sell, asks)
    ensures InOrder(bids + asks)
  {
    hide IsLadder, Number;
    var all := bids + asks;
    LadderSide(Buy, bids);
    LadderSide(Sell, asks);
    forall i, j | 0 <= i < j < |all| ensures Precedes(Numeric(all[i]), Numeric(all[j])) {
      if j < |bids| {
        LadderPairwise(Buy, bids, i, j);
      } else if i >= |bids| {
        LadderPairwise(Sell, asks, i - |bids|, j - |bids|);
      }
    }
  }

  /** Every listed level is shown once, bids first, each side strictly from its best price down. */
  lemma LaddersExactly(levels: seq<Level>)
    requires DistinctPrices(levels)
    ensures multiset(Ladders(levels)) == multiset(levels) && InOrder(Ladders(levels))
    ensures IsLadder(Buy, SortedLevels(levels, Buy)) && IsLadder(Sell, SortedLevels(levels, Sell))
  {
    hide DistinctPrices, SortByPrice, LevelsOn, Number, IsLadder, InOrder;
    SidesPartition(levels);
    SideFacts(levels, Buy);
    SideFacts(levels, Sell);
    SortedIsLadder(Buy, LevelsOn(levels, Buy));
    SortedIsLadder(Sell, LevelsOn(levels, Sell));
    LaddersInOrder(SortedLevels(levels, Buy), SortedLevels(levels, Sell));
  }

  lemma {:induction false} LadderSide(side: Side, s: seq<Level>)
    requires IsLadder(side, s)
    ensures forall i :: 0 <= i < |s| ==> s[i].side == side
  {
    if s != [] {
      LadderSide(side, s[1..]);
    }
  }

  // ---------------------------------------------------------------- agreement with the publisher

  function Printed(levels: seq<PriceLevel>): (r: seq<Level>)
    ensures |r| == |levels|
    ensures forall i :: 0 <= i < |levels| ==>
              r[i] == Level(levels[i].side, ToDecimal(levels[i].price), ToDecimal(levels[i].quantity))
  {
    seq(|levels|, i requires 0 <= i < |levels| =>
      Level(levels[i].side, ToDecimal(levels[i].price), ToDecimal(levels[i].quantity)))
  }

  function RowsOf(levels: seq<Level>): (value: Json)
    ensures value.List? && |value.items| == |levels|
    ensures forall i :: 0 <= i < |levels| ==> ShowsLevel(value.items[i], levels[i])
  {
    List(seq(|levels|, i requires 0 <= i < |levels| => RowOf(levels[i])))
  }

  lemma PrintedReads(l: PriceLevel)
    requires WithinCircuit(l)
    ensures var text := Level(l.side, ToDecimal(l.price), ToDecimal(l.quantity));
            Readable(text) && Numeric(text) == l
  {
    hide ToDecimal;
    TextIsInteger(l.price, true);
    TextIsInteger(l.quantity, true);
  }

  lemma {:induction false} SortOfLadder(side: Side, s: seq<Level>)
    requires IsLadder(side, s)
    ensures SortByPrice(s) == s
  {
    if s != [] {
      SortOfLadder(side, s[1..]);
      assert s == [s[0]] + s[1..];
    }
  }

  lemma {:induction false} OrderedIsLadder(side: Side, s: seq<Level>)
    requires InOrder(s) && forall i :: 0 <= i < |s| ==> s[i].side == side
    ensures IsLadder(side, s)
  {
    hide Number;
    if s != [] {
      OrderedIsLadder(side, s[1..]);
      assert |s| >= 2 ==> Precedes(Numeric(s[0]), Numeric(s[1]));
    }
  }

  lemma {:induction false} AsksOnly(texts: seq<Level>)
    requires forall i :: 0 <= i < |texts| ==> texts[i].side == Sell
    ensures LevelsOn(texts, Buy) == [] && LevelsOn(texts, Sell) == texts
  {
    if texts != [] {
      AsksOnly(texts[1..]);
    }
  }

  lemma {:induction false} SidesOfOrdered(texts: seq<Level>)
    requires InOrder(texts)
    ensures LevelsOn(texts, Buy) + LevelsOn(texts, Sell) == texts
  {
    hide Number, InOrder, LevelsOn;
    if texts == [] {
      AsksOnly(texts);
    } else {
      OrderFromHead(texts);
      if texts[0].side.Sell? {
        AsksOnly(texts);
      } else {
        SidesOfOrdered(texts[1..]);
        FirstOnItsSide(texts);
        assert texts == [texts[0]] + texts[1..];
      }
    }
  }

  lemma OrderFromHead(texts: seq<Level>)
    requires InOrder(texts) && texts != []
    ensures InOrder(texts[1..])
    ensures texts[0].side.Sell? ==> forall i :: 0 <= i < |texts| ==> texts[i].side == Sell
  {
    hide Number;
    forall i | 0 < i < |texts| ensures Precedes(Numeric(texts[0]), Numeric(texts[i])) {
    }
  }

  lemma InOrderParts(a: seq<Level>, b: seq<Level>)
    requires InOrder(a + b)
    ensures InOrder(a) && InOrder(b)
  {
    hide Numeric, Precedes;
    var all := a + b;
    assert forall i :: 0 <= i < |a| ==> all[i] == a[i];
    assert forall i :: 0 <= i < |b| ==> all[|a| + i] == b[i];
    forall i, j | 0 <= i < j < |b| ensures Precedes(Numeric(b[i]), Numeric(b[j])) {
      assert Precedes(Numeric(all[|a| + i]), Numeric(all[|a| + j]));
    }
  }

  /**
   Any level list the publisher validates, printed in decimal, passes the reader's checks
   unchanged, and the two ladders put end to end are that very list.
   */
  lemma PublishedBookReadsBack(levels: seq<PriceLevel>)
    requires ValidLevels(levels)
    ensures ParseLevels(RowsOf(Printed(levels))) == Accepted(Printed(levels))
    ensures Ladders(Printed(levels)) == Printed(levels)
    ensures forall i :: 0 <= i < |levels| ==> Numeric(Printed(levels)[i]) == levels[i]
  {
    hide ToDecimal, Readable, Numeric, ShowsLevel, ParseLevels, SortByPrice, LevelsOn, WithinCircuit;
    var texts := Printed(levels);
    forall i | 0 <= i < |levels| ensures Readable(texts[i]) && Numeric(texts[i]) == levels[i] {
      PrintedReads(levels[i]);
    }
    forall i, j | 0 <= i < j < |texts| ensures Precedes(Numeric(texts[i]), Numeric(texts[j])) {
      assert Precedes(levels[i], levels[j]);
    }
    LevelsExactly(RowsOf(texts), texts);
    SidesOfOrdered(texts);
    InOrderParts(LevelsOn(texts, Buy), LevelsOn(texts, Sell));
    OrderedIsLadder(Buy, LevelsOn(texts, Buy));
    OrderedIsLadder(Sell, LevelsOn(texts, Sell));
    SortOfLadder(Buy, LevelsOn(texts, Buy));
    SortOfLadder(Sell, LevelsOn(texts, Sell));
  }
}
