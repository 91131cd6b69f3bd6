/**
 Reading a whole published book: which books the reader accepts, and for how long an
 accepted one counts as fresh.
 */
module PublicBooks {
  import opened Orders
  import opened Decimal
  import opened PublicReader

  const MAX_WINDOW_SECONDS: nat := 300

  /** Sixty-four lower-case hexadecimal digits. */
  predicate IsDigest(value: string) {
    |value| == 64 && forall i :: 0 <= i < |value| ==> '0' <= value[i] <= '9' || 'a' <= value[i] <= 'f'
  }

  /** A text's length as the browser counts it, in UTF-16 code units. */
  function Utf16Length(s: string): nat {
    if s == [] then 0 else (if s[0] as int > 0xFFFF then 2 else 1) + Utf16Length(s[1..])
  }

  function NodeParties(nodes: seq<Node>): (r: seq<int>)
    ensures |r| == |nodes| && forall i :: 0 <= i < |nodes| ==> r[i] == nodes[i].party
  {
    seq(|nodes|, i requires 0 <= i < |nodes| => nodes[i].party)
  }

  function FinalityParties(finality: seq<Finality>): (r: seq<int>)
    ensures |r| == |finality| && forall i :: 0 <= i < |finality| ==> r[i] == finality[i].party
  {
    seq(|finality|, i requires 0 <= i < |finality| => finality[i].party)
  }

  predicate HoldsDigest(value: Json) {
    value.Text? && IsDigest(value.text)
  }

  /** A whole number from 0 to 6. */
  predicate HoldsParty(value: Json) {
    value.Real? && value.number.Floor as real == value.number && IsParty(value.number.Floor)
  }

  function ParseNode(item: Json): Parsed<Node> {
    if !item.Record? then Rejected(InvalidBook)
    else
      var required := Field(item, "settlement_required");
      var party, signer := Field(item, "party"), Field(item, "signer");
      var issued, until := Field(item, "issued_at"), Field(item, "valid_until");
      if !required.Boolean? then Rejected(InvalidFinalityFlag)
      else if !HoldsParty(party) then Rejected(InvalidParty)
      else if !HoldsDigest(signer) then Rejected(InvalidDigest)
      else if !HoldsInteger(issued, false) || !HoldsInteger(until, false) then Rejected(InvalidInteger)
      else Accepted(Node(party.number.Floor, signer.text, issued.text, until.text, required.flag))
  }

  function ParseFinality(item: Json): Parsed<Finality> {
    if !item.Record? then Rejected(InvalidBook)
    else
      var party, height, receipt := Field(item, "party"), Field(item, "height"), Field(item, "receipt");
      if !HoldsParty(party) then Rejected(InvalidParty)
      else if !HoldsInteger(height, true) then Rejected(InvalidInteger)
      else if !HoldsDigest(receipt) then Rejected(InvalidDigest)
      else Accepted(Finality(party.number.Floor, height.text, receipt.text))
  }

  predicate Disagrees(n: Node, first: Node, time: nat) {
    || n.issuedAt != first.issuedAt || n.validUntil != first.validUntil
    || n.settlementRequired != first.settlementRequired
    || Number(n.issuedAt) > time || Number(n.validUntil) <= time
    || Number(n.validUntil) as int - Number(n.issuedAt) as int > MAX_WINDOW_SECONDS
  }

  function ParseNodes(value: Json, time: nat): Parsed<seq<Node>> {
    if !value.List? || |value.items| > 7 then Rejected(InvalidList)
    else
      var nodes := ParseAll(value.items, ParseNode);
      if nodes.Rejected? then nodes
      else if !AllParties(NodeParties(nodes.value)) then Rejected(MissingAttestations)
      else if exists i :: 0 <= i < |nodes.value| && Disagrees(nodes.value[i], nodes.value[0], time)
      then Rejected(ExpiredOrInconsistent)
      else nodes
  }

  function ParseFinalities(value: Json, required: bool): Parsed<seq<Finality>> {
    if !value.List? || |value.items| > 7 then Rejected(InvalidList)
    else
      var parsed := ParseAll(value.items, ParseFinality);
      if parsed.Rejected? then parsed
      else
        var finality := parsed.value;
        if (if required then !AllParties(FinalityParties(finality)) else finality != []) then Rejected(MissingFinality)
        else if exists i :: 0 <= i < |finality|
                  && (finality[i].height != finality[0].height || finality[i].receipt != finality[0].receipt)
        then Rejected(InconsistentFinality)
        else parsed
  }

  function ParsePublicBook(v: Json, minimum: string, now: nat): Parsed<PublicBook> {
    if !v.Record? then Rejected(InvalidBook)
    else
      var market, sequence, round := Field(v, "market"), Field(v, "sequence"), Field(v, "round");
      if Field(v, "version") != Real(1.0) || !market.Text? || |market.text| == 0 || Utf16Length(market.text) > 64
      then Rejected(InvalidBook)
      else if !HoldsInteger(sequence, true) || !IsInteger(minimum, false) then Rejected(InvalidInteger)
      else if Number(sequence.text) < Number(minimum) then Rejected(Regression)
      else
        var levels := ParseLevels(Field(v, "levels"));
        if levels.Rejected? then Rejected(levels.reason)
        else
          var nodes := ParseNodes(Field(v, "nodes"), now / 1000);
          if nodes.Rejected? then Rejected(nodes.reason)
          else
            var required := nodes.value != [] && nodes.value[0].settlementRequired;
            var finality := ParseFinalities(Field(v, "finality"), required);
            if finality.Rejected? then Rejected(finality.reason)
            else if !HoldsDigest(round) then Rejected(InvalidDigest)
            else Accepted(PublicBook(market.text, sequence.text, round.text, levels.value, nodes.value, finality.value))
  }

  predicate IsFresh(book: PublicBook, now: nat) {
    forall i :: 0 <= i < |book.nodes| ==>
      Number(book.nodes[i].issuedAt) <= now / 1000 < Number(book.nodes[i].validUntil)
  }

  // ---------------------------------------------------------------- what acceptance means

  ghost predicate EachPartyOnce(parties: seq<int>) {
    && AllDistinct(parties)
    && (forall i :: 0 <= i < |parties| ==> IsParty(parties[i]))
    && (forall p :: IsParty(p) ==> p in parties)
  }

  /** All seven parties sign one and the same window, at most 300 seconds long, and `time` is in it. */
  ghost predicate Attested(nodes: seq<Node>, issued: nat, until: nat, required: bool, time: nat) {
    && issued <= time < until <= 18446744073709551615 && until <= issued + 300
    && EachPartyOnce(NodeParties(nodes))
    && forall i :: 0 <= i < |nodes| ==>
         && IsDigest(nodes[i].signer) && nodes[i].settlementRequired == required
         && nodes[i].issuedAt == ToDecimal(issued) && nodes[i].validUntil == ToDecimal(until)
  }

  /** All seven parties report the same positive height and the same receipt. */
  ghost predicate Finalized(finality: seq<Finality>, height: nat, receipt: string) {
    && 0 < height <= U64_MAX && IsDigest(receipt)
    && EachPartyOnce(FinalityParties(finality))
    && forall i :: 0 <= i < |finality| ==> finality[i].height == ToDecimal(height) && finality[i].receipt == receipt
  }

  lemma PartiesExactly(parties: seq<int>)
    ensures EachPartyOnce(parties) <==>
            AllParties(parties) && forall i :: 0 <= i < |parties| ==> IsParty(parties[i])
  {
    if forall i :: 0 <= i < |parties| ==> IsParty(parties[i]) {
      AllPartiesExactly(parties);
    }
  }

  /** The window the first node states. */
  function Issued(nodes: seq<Node>): nat
    requires nodes != []
  {
    Number(nodes[0].issuedAt)
  }

  function Until(nodes: seq<Node>): nat
    requires nodes != []
  {
    Number(nodes[0].validUntil)
  }

  ghost predicate ReadableNode(n: Node) {
    IsParty(n.party) && IsDigest(n.signer) && IsInteger(n.issuedAt, false) && IsInteger(n.validUntil, false)
  }

  ghost predicate ReadableFinality(f: Finality) {
    IsParty(f.party) && IsInteger(f.height, true) && IsDigest(f.receipt)
  }

  /** The record shows the node's statement; it may hold more. */
  ghost predicate ShowsNode(item: Json, n: Node) {
    && item.Record? && Field(item, "party") == Real(n.party as real) && Field(item, "signer") == Text(n.signer)
    && Field(item, "issued_at") == Text(n.issuedAt) && Field(item, "valid_until") == Text(n.validUntil)
    && Field(item, "settlement_required") == Boolean(n.settlementRequired)
  }

  ghost predicate ShowsFinality(item: Json, f: Finality) {
    && item.Record? && Field(item, "party") == Real(f.party as real)
    && Field(item, "height") == Text(f.height) && Field(item, "receipt") == Text(f.receipt)
  }

  lemma NodeExactly(item: Json, n: Node)
    ensures ParseNode(item) == Accepted(n) <==> ShowsNode(item, n) && ReadableNode(n)
  {
    hide Field, IsInteger, IsDigest;
  }

  lemma FinalityExactly(item: Json, f: Finality)
    ensures ParseFinality(item) == Accepted(f) <==> ShowsFinality(item, f) && ReadableFinality(f)
  {
    hide Field, IsInteger, IsDigest;
  }

  lemma NodeItemsExactly(items: seq<Json>, nodes: seq<Node>)
    ensures ParseAll(items, ParseNode) == Accepted(nodes) <==>
            && |items| == |nodes|
            && forall i :: 0 <= i < |nodes| ==> ShowsNode(items[i], nodes[i]) && ReadableNode(nodes[i])
  {
    hide ParseAll, ParseNode, ShowsNode, ReadableNode;
    ParseAllExactly(items, ParseNode, nodes);
    if |items| == |nodes| {
      forall i | 0 <= i < |nodes|
        ensures ParseNode(items[i]) == Accepted(nodes[i]) <==> ShowsNode(items[i], nodes[i]) && ReadableNode(nodes[i])
      {
        NodeExactly(items[i], nodes[i]);
      }
    }
  }

  lemma FinalityItemsExactly(items: seq<Json>, finality: seq<Finality>)
    ensures ParseAll(items, ParseFinality) == Accepted(finality) <==>
            && |items| == |finality|
            && forall i :: 0 <= i < |finality| ==>
                 ShowsFinality(items[i], finality[i]) && ReadableFinality(finality[i])
  {
    hide ParseAll, ParseFinality, ShowsFinality, ReadableFinality;
    ParseAllExactly(items, ParseFinality, finality);
    if |items| == |finality| {
      forall i | 0 <= i < |finality|
        ensures ParseFinality(items[i]) == Accepted(finality[i])
           <==> ShowsFinality(items[i], finality[i]) && ReadableFinality(finality[i])
      {
        FinalityExactly(items[i], finality[i]);
      }
    }
  }

  ghost predicate Agreeing(nodes: seq<Node>, time: nat) {
    && (forall i :: 0 <= i < |nodes| ==> ReadableNode(nodes[i]))
    && AllParties(NodeParties(nodes))
    && forall i :: 0 <= i < |nodes| ==> !Disagrees(nodes[i], nodes[0], time)
  }

  lemma AgreeingNodesAttest(nodes: seq<Node>, time: nat)
    requires Agreeing(nodes, time)
    ensures nodes != [] && Attested(nodes, Issued(nodes), Until(nodes), nodes[0].settlementRequired, time)
  {
    hide ToDecimal, DecimalValue, IsDigest, EachPartyOnce, AllParties, IsInteger;
    SevenParties(NodeParties(nodes));
    var first := nodes[0];
    forall i | 0 <= i < |nodes|
      ensures IsParty(nodes[i].party) && IsDigest(nodes[i].signer)
      ensures nodes[i].settlementRequired == first.settlementRequired
      ensures nodes[i].issuedAt == first.issuedAt && nodes[i].validUntil == first.validUntil
    {
      assert ReadableNode(nodes[i]) && !Disagrees(nodes[i], first, time);
    }
    assert ReadableNode(first) && !Disagrees(first, first, time);
    NumberText(first.issuedAt);
    NumberText(first.validUntil);
    PartiesExactly(NodeParties(nodes));
  }

  lemma NumberText(value: string)
    requires IsInteger(value, false)
    ensures value == ToDecimal(Number(value)) && Number(value) <= U64_MAX
  {
    IntegerText(value, false);
  }

  lemma AttestedNodesAgree(nodes: seq<Node>, issued: nat, until: nat, required: bool, time: nat)
    requires Attested(nodes, issued, until, required, time)
    ensures Agreeing(nodes, time) && |nodes| == 7 && nodes[0].settlementRequired == required
  {
    hide ToDecimal, IsDigest, EachPartyOnce, IsInteger, AllParties;
    PartiesExactly(NodeParties(nodes));
    SevenParties(NodeParties(nodes));
    TextIsInteger(issued, false);
    TextIsInteger(until, false);
    IntegerDigits(ToDecimal(issued));
    IntegerDigits(ToDecimal(until));
    forall i | 0 <= i < |nodes| ensures ReadableNode(nodes[i]) && !Disagrees(nodes[i], nodes[0], time) {
      assert NodeParties(nodes)[i] == nodes[i].party;
    }
  }

  lemma IntegerDigits(value: string)
    requires IsInteger(value, false)
    ensures AllDigits(value)
  {
  }

  lemma SevenParties(parties: seq<int>)
    requires AllParties(parties)
    ensures |parties| == 7
  {
  }

  ghost predicate Unanimous(finality: seq<Finality>) {
    && (forall i :: 0 <= i < |finality| ==> ReadableFinality(finality[i]))
    && AllParties(FinalityParties(finality))
    && forall i :: 0 <= i < |finality| ==>
         finality[i].height == finality[0].height && finality[i].receipt == finality[0].receipt
  }

  lemma UnanimousIsFinal(finality: seq<Finality>)
    requires Unanimous(finality)
    ensures |finality| == 7 && Finalized(finality, Number(finality[0].height), finality[0].receipt)
  {
    hide ToDecimal, DecimalValue, IsDigest, EachPartyOnce, IsInteger, AllParties;
    PartiesExactly(FinalityParties(finality));
    SevenParties(FinalityParties(finality));
    var first := finality[0];
    forall i | 0 <= i < |finality|
      ensures IsParty(finality[i].party) && finality[i].height == first.height && finality[i].receipt == first.receipt
    {
      assert ReadableFinality(finality[i]);
    }
    assert ReadableFinality(first);
    HeightText(first.height);
  }

  lemma HeightText(value: string)
    requires IsInteger(value, true)
    ensures value == ToDecimal(Number(value)) && 0 < Number(value) <= U64_MAX
  {
    IntegerText(value, true);
  }

  lemma FinalIsUnanimous(finality: seq<Finality>, height: nat, receipt: string)
    requires Finalized(finality, height, receipt)
    ensures Unanimous(finality)
  {
    hide ToDecimal, IsDigest, EachPartyOnce, IsInteger, AllParties;
    PartiesExactly(FinalityParties(finality));
    SevenParties(FinalityParties(finality));
    TextIsInteger(height, true);
    forall i | 0 <= i < |finality| ensures ReadableFinality(finality[i]) {
      assert FinalityParties(finality)[i] == finality[i].party;
    }
  }

  // ---------------------------------------------------------------- the whole book

  /** Field by field, the record shows the book. */
  ghost predicate ShowsBook(v: Json, book: PublicBook) {
    && v.Record? && Field(v, "version") == Real(1.0) && Field(v, "market") == Text(book.market)
    && Field(v, "sequence") == Text(book.sequence) && Field(v, "round") == Text(book.round)
    && ShowsLevels(Field(v, "levels"), book.levels) && ShowsNodes(Field(v, "nodes"), book.nodes)
    && ShowsFinalities(Field(v, "finality"), book.finality)
  }

  ghost predicate ShowsLevels(value: Json, levels: seq<Level>) {
    && value.List? && |value.items| == |levels|
    && forall i :: 0 <= i < |levels| ==> ShowsLevel(value.items[i], levels[i])
  }

  ghost predicate ShowsNodes(value: Json, nodes: seq<Node>) {
    && value.List? && |value.items| == |nodes|
    && forall i :: 0 <= i < |nodes| ==> ShowsNode(value.items[i], nodes[i])
  }

  ghost predicate ShowsFinalities(value: Json, finality: seq<Finality>) {
    && value.List? && |value.items| == |finality|
    && forall i :: 0 <= i < |finality| ==> ShowsFinality(value.items[i], finality[i])
  }

  ghost predicate HeaderOk(book: PublicBook, minimum: string) {
    && |book.market| > 0 && Utf16Length(book.market) <= 64 && IsDigest(book.round)
    && exists s: nat, m: nat ::
         m <= s <= U64_MAX && 0 < s && book.sequence == ToDecimal(s) && minimum == ToDecimal(m)
  }

  ghost predicate LevelsOk(levels: seq<Level>) {
    |levels| <= 9 && (forall i :: 0 <= i < |levels| ==> Readable(levels[i])) && DistinctPrices(levels)
  }

  ghost predicate NodesOk(book: PublicBook, time: nat) {
    exists issued: nat, until: nat, required: bool :: Attested(book.nodes, issued, until, required, time)
      && if required then exists height: nat, receipt: string :: Finalized(book.finality, height, receipt)
         else book.finality == []
  }

  lemma HeaderExactly(book: PublicBook, minimum: string)
    ensures HeaderOk(book, minimum) <==>
            && |book.market| > 0 && Utf16Length(book.market) <= 64 && IsDigest(book.round)
            && IsInteger(book.sequence, true) && IsInteger(minimum, false) && Number(minimum) <= Number(book.sequence)
  {
    hide ToDecimal, IsDigest, IsInteger, Number;
    if HeaderOk(book, minimum) {
      var s: nat, m: nat :| m <= s <= U64_MAX && 0 < s && book.sequence == ToDecimal(s) && minimum == ToDecimal(m);
      NumberOf(s, true);
      NumberOf(m, false);
    }
    if IsInteger(book.sequence, true) && IsInteger(minimum, false) && Number(minimum) <= Number(book.sequence) {
      HeightText(book.sequence);
      NumberText(minimum);
    }
  }

  lemma NumberOf(n: nat, nonzero: bool)
    requires n <= U64_MAX && (nonzero ==> n > 0)
    ensures IsInteger(ToDecimal(n), nonzero) && Number(ToDecimal(n)) == n
  {
    TextIsInteger(n, nonzero);
  }

  lemma ParsedNodesExactly(value: Json, time: nat, nodes: seq<Node>)
    ensures ParseNodes(value, time) == Accepted(nodes) <==> ShowsNodes(value, nodes) && Agreeing(nodes, time)
  {
    hide ParseAll, ShowsNode, ReadableNode, Disagrees;
    if value.List? {
      NodeItemsExactly(value.items, nodes);
    }
  }

  lemma ParsedFinalityExactly(value: Json, required: bool, finality: seq<Finality>)
    ensures ParseFinalities(value, required) == Accepted(finality) <==>
            ShowsFinalities(value, finality) && if required then Unanimous(finality) else finality == []
  {
    hide ParseAll, ShowsFinality, ReadableFinality;
    if value.List? {
      FinalityItemsExactly(value.items, finality);
    }
  }

  lemma ParsedLevelsExactly(value: Json, levels: seq<Level>)
    ensures ParseLevels(value) == Accepted(levels) <==> ShowsLevels(value, levels) && LevelsOk(levels)
  {
    hide ParseLevels, ShowsLevel, Readable, DistinctPrices;
    LevelsExactly(value, levels);
  }

  lemma NodesExactly(book: PublicBook, time: nat)
    ensures NodesOk(book, time) <==>
            && Agreeing(book.nodes, time) && book.nodes != []
            && if book.nodes[0].settlementRequired then Unanimous(book.finality) else book.finality == []
  {
    hide Attested, Finalized, Agreeing, Unanimous;
    if NodesOk(book, time) {
      var issued: nat, until: nat, required: bool :| Attested(book.nodes, issued, until, required, time)
        && if required then exists height: nat, receipt: string :: Finalized(book.finality, height, receipt)
           else book.finality == [];
      AttestedNodesAgree(book.nodes, issued, until, required, time);
      if required {
        var height: nat, receipt: string :| Finalized(book.finality, height, receipt);
        FinalIsUnanimous(book.finality, height, receipt);
      }
    }
    if Agreeing(book.nodes, time) {
      AgreeingNodesAttest(book.nodes, time);
      if book.nodes[0].settlementRequired && Unanimous(book.finality) {
        UnanimousIsFinal(book.finality);
      }
    }
  }

  /**
   A JSON value is accepted as a book exactly when it is a record showing that book, the book's
   numbers are canonical, its sequence has not gone back, its levels read, all seven parties
   attest one current window of at most 300 seconds, and, when settlement is required, all
   seven agree on one finalised height.
   */
  lemma AcceptedExactly(v: Json, minimum: string, now: nat, book: PublicBook)
    ensures ParsePublicBook(v, minimum, now) == Accepted(book) <==>
            && ShowsBook(v, book) && HeaderOk(book, minimum) && LevelsOk(book.levels) && NodesOk(book, now / 1000)
  {
    hide HeaderOk, NodesOk, LevelsOk, ParseLevels, ParseNodes, ParseFinalities, IsDigest, IsInteger, Utf16Length;
    hide Number, Field, ShowsLevels, ShowsNodes, ShowsFinalities, Agreeing, Unanimous;
    HeaderExactly(book, minimum);
    ParsedLevelsExactly(Field(v, "levels"), book.levels);
    ParsedNodesExactly(Field(v, "nodes"), now / 1000, book.nodes);
    NodesExactly(book, now / 1000);
    ParsedFinalityExactly(Field(v, "finality"), book.nodes != [] && book.nodes[0].settlementRequired, book.finality);
    if Agreeing(book.nodes, now / 1000) {
      AgreeingNodesAttest(book.nodes, now / 1000);
    }
  }

  /**
   An accepted book is fresh when accepted, stays fresh exactly while the clock is inside
   the one window its nodes state, and is stale 300 seconds later at the latest.
   */
  lemma FreshExactly(v: Json, minimum: string, now: nat, later: nat)
    requires ParsePublicBook(v, minimum, now).Accepted?
    ensures var book := ParsePublicBook(v, minimum, now).value;
            && book.nodes != [] && IsFresh(book, now)
            && (IsFresh(book, later) <==> Issued(book.nodes) <= later / 1000 < Until(book.nodes))
            && (IsFresh(book, later) ==> later / 1000 < now / 1000 + 300)
  {
    hide ParsePublicBook, IsDigest, IsInteger, Number, EachPartyOnce, ToDecimal, Agreeing, Unanimous;
    hide ShowsBook, HeaderOk, LevelsOk, NodesOk;
    var book := ParsePublicBook(v, minimum, now).value;
    AcceptedExactly(v, minimum, now, book);
    NodesExactly(book, now / 1000);
    AgreeingNodesAttest(book.nodes, now / 1000);
    assert forall i :: 0 <= i < |book.nodes| ==> book.nodes[i].issuedAt == book.nodes[0].issuedAt;
    assert forall i :: 0 <= i < |book.nodes| ==> book.nodes[i].validUntil == book.nodes[0].validUntil;
  }
}
