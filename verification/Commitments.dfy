/**
 The byte strings the program hashes. Each commitment covers everything it names: equal
 preimages come from equal contents, and preimages of different kinds never meet.
 */
module Commitments {
  import opened Orders
  import opened Depth
  import opened BookModel
  import opened ExpiryLaws
  import opened Wire

  const ORDER_COMMITMENT_DOMAIN := "OCLOB:ORDER-COMMITMENT:v2"
  const CANCELLATION_COMMITMENT_DOMAIN := "OCLOB:CANCELLATION-COMMITMENT:v2"
  const EXPIRY_COMMITMENT_DOMAIN := "OCLOB:EXPIRY-COMMITMENT:v2"
  const PUBLIC_BOOK_DOMAIN := "OCLOB:PUBLIC-BOOK:v2"

  // ---------------------------------------------------------------- sorting digests

  lemma {:induction false} InsertKeeps(s: seq<Digest32>, d: Digest32)
    ensures multiset(InsertDigest(s, d)) == multiset(s) + multiset{d}
  {
    if s != [] && d > s[0] {
      InsertKeeps(s[1..], d);
      assert s == [s[0]] + s[1..];
    }
  }

  lemma {:induction false} SortKeeps(s: seq<Digest32>)
    ensures multiset(SortDigests(s)) == multiset(s)
  {
    if s != [] {
      SortKeeps(s[1..]);
      InsertKeeps(SortDigests(s[1..]), s[0]);
      assert s == [s[0]] + s[1..];
    }
  }

  lemma HeadIsLeast(s: seq<Digest32>, d: Digest32)
    requires Ascending(s) && d in s
    ensures s[0] <= d
  {
    var k :| 0 <= k < |s| && s[k] == d;
    assert k > 0 ==> s[0] <= s[k];
  }

  lemma TailAscends(s: seq<Digest32>)
    requires Ascending(s) && s != []
    ensures Ascending(s[1..])
  {
  }

  lemma SameHeadDigest(a: seq<Digest32>, b: seq<Digest32>)
    requires Ascending(a) && Ascending(b) && multiset(a) == multiset(b) && a != []
    ensures b != [] && a[0] == b[0] && multiset(a[1..]) == multiset(b[1..])
  {
    hide Ascending;
    assert a[0] in multiset(a);
    assert a[0] in b && b[0] in multiset(b);
    HeadIsLeast(b, a[0]);
    HeadIsLeast(a, b[0]);
    TailMultiset(a);
    TailMultiset(b);
  }

  lemma TailMultiset(s: seq<Digest32>)
    requires s != []
    ensures multiset(s[1..]) == multiset(s) - multiset{s[0]}
  {
    assert s == [s[0]] + s[1..];
  }

  lemma {:induction false} AscendingUnique(a: seq<Digest32>, b: seq<Digest32>)
    requires Ascending(a) && Ascending(b) && multiset(a) == multiset(b)
    ensures a == b
  {
    hide Ascending;
    if a == [] {
      assert |multiset(b)| == |b|;
    } else {
      SameHeadDigest(a, b);
      TailAscends(a);
      TailAscends(b);
      AscendingUnique(a[1..], b[1..]);
      assert a == [a[0]] + a[1..] && b == [b[0]] + b[1..];
    }
  }

  // ---------------------------------------------------------------- preimages

  function LevelBytes(l: PriceLevel): (r: seq<Byte>)
    requires l.price <= U64_MAX && l.quantity <= U64_MAX
    ensures |r| == 17
  {
    [SideByte(l.side)] + (BigEndian(l.price, 8) + BigEndian(l.quantity, 8))
  }

  ghost predicate FitLevels(levels: seq<PriceLevel>) {
    forall i :: 0 <= i < |levels| ==> levels[i].price <= U64_MAX && levels[i].quantity <= U64_MAX
  }

  ghost function LevelsBytes(levels: seq<PriceLevel>): (r: seq<Byte>)
    requires FitLevels(levels)
    ensures |r| == 17 * |levels|
  {
    if levels == [] then [] else LevelBytes(levels[0]) + LevelsBytes(levels[1..])
  }

  function OrderPreimage(o: SecretOrder): seq<Byte> {
    Ascii(ORDER_COMMITMENT_DOMAIN) + (BigEndian(o.salt, 32) + Payload(o))
  }

  function CancellationPreimage(c: SecretCancellation): seq<Byte> {
    Ascii(CANCELLATION_COMMITMENT_DOMAIN) + Digests([c.salt, c.target, c.secret, c.nonce])
  }

  function ExpiryPreimage(marketId: seq<Byte>, cutoff: U64, orders: seq<Digest32>): seq<Byte> {
    Ascii(EXPIRY_COMMITMENT_DOMAIN)
    + (PutBytes(marketId) + (BigEndian(cutoff, 8) + (BigEndian(|orders|, 8) + Digests(SortDigests(orders)))))
  }

  ghost function PublicPreimage(marketId: seq<Byte>, sequence: U64, levels: seq<PriceLevel>): seq<Byte>
    requires FitLevels(levels)
  {
    Ascii(PUBLIC_BOOK_DOMAIN) + (PutBytes(marketId) + (BigEndian(sequence, 8) + LevelsBytes(levels)))
  }

  // ---------------------------------------------------------------- they bind

  lemma LevelBytesInjective(a: PriceLevel, b: PriceLevel)
    requires a.price <= U64_MAX && a.quantity <= U64_MAX && b.price <= U64_MAX && b.quantity <= U64_MAX
    requires LevelBytes(a) == LevelBytes(b)
    ensures a == b
  {
    hide BigEndian;
    SplitEqual([SideByte(a.side)], BigEndian(a.price, 8) + BigEndian(a.quantity, 8),
               [SideByte(b.side)], BigEndian(b.price, 8) + BigEndian(b.quantity, 8));
    SplitEqual(BigEndian(a.price, 8), BigEndian(a.quantity, 8), BigEndian(b.price, 8), BigEndian(b.quantity, 8));
    assert [SideByte(a.side)][0] == [SideByte(b.side)][0];
    U64BytesInjective(a.price, b.price);
    U64BytesInjective(a.quantity, b.quantity);
  }

  lemma {:induction false} LevelsInjective(a: seq<PriceLevel>, b: seq<PriceLevel>)
    requires FitLevels(a) && FitLevels(b) && LevelsBytes(a) == LevelsBytes(b)
    ensures a == b
  {
    hide LevelBytes;
    assert |a| == |b|;
    if a != [] {
      SplitEqual(LevelBytes(a[0]), LevelsBytes(a[1..]), LevelBytes(b[0]), LevelsBytes(b[1..]));
      LevelBytesInjective(a[0], b[0]);
      LevelsInjective(a[1..], b[1..]);
      assert a == [a[0]] + a[1..] && b == [b[0]] + b[1..];
    }
  }

  lemma PutBytesSplit(a: seq<Byte>, x: seq<Byte>, b: seq<Byte>, y: seq<Byte>)
    requires |a| <= U64_MAX && |b| <= U64_MAX && PutBytes(a) + x == PutBytes(b) + y
    ensures a == b && x == y
  {
    hide BigEndian;
    assert PutBytes(a) + x == BigEndian(|a|, 8) + (a + x);
    assert PutBytes(b) + y == BigEndian(|b|, 8) + (b + y);
    SplitEqual(BigEndian(|a|, 8), a + x, BigEndian(|b|, 8), b + y);
    U64BytesInjective(|a|, |b|);
    SplitEqual(a, x, b, y);
  }

  /** An order's commitment covers every one of its fields, salt included. */
  lemma OrderPreimageBinds(a: SecretOrder, b: SecretOrder)
    requires ValidOrder(a) && ValidOrder(b)
    ensures OrderPreimage(a) == OrderPreimage(b) <==> a == b
  {
    hide BigEndian, EncodeBody, Ascii, ValidUtf8, RequiredReserve;
    if OrderPreimage(a) == OrderPreimage(b) {
      var d := Ascii(ORDER_COMMITMENT_DOMAIN);
      SplitEqual(d, BigEndian(a.salt, 32) + Payload(a), d, BigEndian(b.salt, 32) + Payload(b));
      SplitEqual(BigEndian(a.salt, 32), Payload(a), BigEndian(b.salt, 32), Payload(b));
      DigestBytesInjective(a.salt, b.salt);
      BodyInjective(BodyOf(a), BodyOf(b));
      assert a == Restore(BodyOf(a), a.salt) && b == Restore(BodyOf(b), b.salt);
    }
  }

  /** A cancellation's commitment covers its target, secret, nonce and salt. */
  lemma CancellationPreimageBinds(a: SecretCancellation, b: SecretCancellation)
    ensures CancellationPreimage(a) == CancellationPreimage(b) <==> a == b
  {
    hide BigEndian, Ascii, Digests;
    if CancellationPreimage(a) == CancellationPreimage(b) {
      var d := Ascii(CANCELLATION_COMMITMENT_DOMAIN);
      var s, t := [a.salt, a.target, a.secret, a.nonce], [b.salt, b.target, b.secret, b.nonce];
      SplitEqual(d, Digests(s), d, Digests(t));
      DigestsInjective(s, t);
      assert s[0] == t[0] && s[1] == t[1] && s[2] == t[2] && s[3] == t[3];
    }
  }

  /** An expiry command covers the market, the cutoff and exactly which orders expire, in any order. */
  lemma ExpiryPreimageBinds(m: seq<Byte>, cutoff: U64, orders: seq<Digest32>,
                            m': seq<Byte>, cutoff': U64, orders': seq<Digest32>)
    requires |m| <= U64_MAX && |m'| <= U64_MAX && |orders| <= U64_MAX && |orders'| <= U64_MAX
    ensures ExpiryPreimage(m, cutoff, orders) == ExpiryPreimage(m', cutoff', orders')
       <==> m == m' && cutoff == cutoff' && multiset(orders) == multiset(orders')
  {
    hide BigEndian, Ascii, Digests, SortDigests, PutBytes, Ascending, NoRepeats;
    var s, t := SortDigests(orders), SortDigests(orders');
    SortFacts(orders);
    SortFacts(orders');
    SortKeeps(orders);
    SortKeeps(orders');
    if multiset(orders) == multiset(orders') {
      AscendingUnique(s, t);
      assert |multiset(orders)| == |orders| && |multiset(orders')| == |orders'|;
    }
    if ExpiryPreimage(m, cutoff, orders) == ExpiryPreimage(m', cutoff', orders') {
      var d := Ascii(EXPIRY_COMMITMENT_DOMAIN);
      var x := BigEndian(cutoff, 8) + (BigEndian(|orders|, 8) + Digests(s));
      var y := BigEndian(cutoff', 8) + (BigEndian(|orders'|, 8) + Digests(t));
      SplitEqual(d, PutBytes(m) + x, d, PutBytes(m') + y);
      PutBytesSplit(m, x, m', y);
      SplitEqual(BigEndian(cutoff, 8), BigEndian(|orders|, 8) + Digests(s),
                 BigEndian(cutoff', 8), BigEndian(|orders'|, 8) + Digests(t));
      U64BytesInjective(cutoff, cutoff');
      SplitEqual(BigEndian(|orders|, 8), Digests(s), BigEndian(|orders'|, 8), Digests(t));
      DigestsInjective(s, t);
    }
  }

  /** The public root covers the market, the sequence number and every level in order. */
  lemma PublicPreimageBinds(m: seq<Byte>, n: U64, levels: seq<PriceLevel>,
                            m': seq<Byte>, n': U64, levels': seq<PriceLevel>)
    requires |m| <= U64_MAX && |m'| <= U64_MAX && FitLevels(levels) && FitLevels(levels')
    ensures PublicPreimage(m, n, levels) == PublicPreimage(m', n', levels') <==> m == m' && n == n' && levels == levels'
  {
    hide BigEndian, Ascii, LevelsBytes, PutBytes;
    if PublicPreimage(m, n, levels) == PublicPreimage(m', n', levels') {
      var d := Ascii(PUBLIC_BOOK_DOMAIN);
      var x, y := BigEndian(n, 8) + LevelsBytes(levels), BigEndian(n', 8) + LevelsBytes(levels');
      SplitEqual(d, PutBytes(m) + x, d, PutBytes(m') + y);
      PutBytesSplit(m, x, m', y);
      SplitEqual(BigEndian(n, 8), LevelsBytes(levels), BigEndian(n', 8), LevelsBytes(levels'));
      U64BytesInjective(n, n');
      LevelsInjective(levels, levels');
    }
  }

  /** A hashed order, cancellation, expiry command and public book never share a preimage. */
  lemma DomainsSeparate(o: SecretOrder, c: SecretCancellation, m: seq<Byte>, cutoff: U64, orders: seq<Digest32>,
                        p: seq<Byte>, n: U64, levels: seq<PriceLevel>)
    requires FitLevels(levels)
    ensures OrderPreimage(o) != CancellationPreimage(c) && OrderPreimage(o) != ExpiryPreimage(m, cutoff, orders)
    ensures CancellationPreimage(c) != ExpiryPreimage(m, cutoff, orders)
    ensures PublicPreimage(p, n, levels)
            !in {OrderPreimage(o), CancellationPreimage(c), ExpiryPreimage(m, cutoff, orders)}
  {
    hide BigEndian, EncodeBody, Digests, LevelsBytes, PutBytes, SortDigests;
    assert OrderPreimage(o)[6] == 'O' as int;
    assert CancellationPreimage(c)[6] == 'C' as int;
    assert ExpiryPreimage(m, cutoff, orders)[6] == 'E' as int;
    assert PublicPreimage(p, n, levels)[6] == 'P' as int;
  }
}
