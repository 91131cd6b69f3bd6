/**
 The private wire format of an order: the encoder, the strict cursor-driven decoder, and
 the proof that they are exact inverses.
 */
module Wire {
  import opened Orders
  import opened Formats

  const MAX_SECRET_ORDER_WIRE_BYTES: nat := 512

  // The eight bytes of "OCLOBOR2".
  const MAGIC: seq<Byte> := [0x4F, 0x43, 0x4C, 0x4F, 0x42, 0x4F, 0x52, 0x32]

  // ---------------------------------------------------------------- fixed-width integers

  function Pow256(k: nat): (r: nat)
    ensures r > 0
  {
    if k == 0 then 1 else 256 * Pow256(k - 1)
  }

  /** The last `width` big-endian bytes of `n`. */
  function BigEndian(n: nat, width: nat): (s: seq<Byte>)
    ensures |s| == width
  {
    if width == 0 then [] else BigEndian(n / 256, width - 1) + [n % 256]
  }

  function FromBigEndian(s: seq<Byte>): nat {
    if s == [] then 0 else 256 * FromBigEndian(s[..|s| - 1]) + s[|s| - 1]
  }

  lemma {:induction false} IntegerRoundTrip(n: nat, width: nat)
    requires n < Pow256(width)
    ensures FromBigEndian(BigEndian(n, width)) == n
  {
    if width > 0 {
      IntegerRoundTrip(n / 256, width - 1);
      var s := BigEndian(n, width);
      assert s[..|s| - 1] == BigEndian(n / 256, width - 1);
    }
  }

  lemma {:induction false} BytesRoundTrip(s: seq<Byte>)
    ensures FromBigEndian(s) < Pow256(|s|) && BigEndian(FromBigEndian(s), |s|) == s
  {
    if s != [] {
      var head, n := s[..|s| - 1], FromBigEndian(s);
      BytesRoundTrip(head);
      assert n / 256 == FromBigEndian(head) && n % 256 == s[|s| - 1];
      assert s == head + [s[|s| - 1]];
    }
  }

  lemma {:induction false} Pow256Adds(a: nat, b: nat)
    ensures Pow256(a + b) == Pow256(a) * Pow256(b)
  {
    if a > 0 {
      Pow256Adds(a - 1, b);
      TimesBase(Pow256(a - 1), Pow256(b));
    }
  }

  lemma TimesBase(x: nat, y: nat)
    ensures 256 * (x * y) == (256 * x) * y
  {
  }

  lemma Widths()
    ensures Pow256(1) == 0x100 && Pow256(2) == 0x1_0000
    ensures Pow256(8) == 0x1_0000_0000_0000_0000
    ensures Pow256(32) == 0x1_0000_0000_0000_0000_0000_0000_0000_0000_0000_0000_0000_0000_0000_0000_0000_0000
  {
    assert Pow256(1) == 256 * Pow256(0);
    Pow256Adds(1, 1);
    Pow256Adds(2, 2);
    Pow256Adds(4, 4);
    Pow256Adds(8, 8);
    Pow256Adds(16, 16);
  }

  lemma {:induction false} FromBigEndianConcat(a: seq<Byte>, b: seq<Byte>)
    ensures FromBigEndian(a + b) == FromBigEndian(a) * Pow256(|b|) + FromBigEndian(b)
    decreases |b|
  {
    if b == [] {
      assert a + b == a;
    } else {
      var c, n := b[..|b| - 1], FromBigEndian(a);
      FromBigEndianConcat(a, c);
      assert (a + b)[..|a + b| - 1] == a + c;
      ShiftByte(n, Pow256(|c|), FromBigEndian(c), b[|b| - 1]);
    }
  }

  lemma ShiftByte(n: nat, p: nat, m: nat, b: nat)
    ensures 256 * (n * p + m) + b == n * (256 * p) + (256 * m + b)
  {
  }

  lemma {:induction false} PrefixStep(s: seq<Byte>, k: nat)
    requires k < |s|
    ensures FromBigEndian(s[..k + 1]) == 256 * FromBigEndian(s[..k]) + s[k]
  {
    assert s[..k + 1][..k] == s[..k];
  }

  lemma WordSpells(s: seq<Byte>, at: nat)
    requires at + 8 <= |s|
    ensures FromBigEndian(s[at..at + 8]) == WordAt(s, at)
  {
    hide FromBigEndian;
    var w := s[at..at + 8];
    assert FromBigEndian(w[..0]) == 0 by {
      NothingSpellsZero();
    }
    PrefixStep(w, 0);
    PrefixStep(w, 1);
    PrefixStep(w, 2);
    PrefixStep(w, 3);
    PrefixStep(w, 4);
    PrefixStep(w, 5);
    PrefixStep(w, 6);
    PrefixStep(w, 7);
    assert w[..8] == w;
  }

  lemma NothingSpellsZero()
    ensures FromBigEndian([]) == 0
  {
  }

  lemma DigestSpells(s: seq<Byte>, at: nat)
    requires at + 32 <= |s|
    ensures FromBigEndian(s[at..at + 32]) == DigestAt(s, at)
  {
    hide FromBigEndian, Pow256, WordAt;
    var a, b, c, d := s[at..at + 8], s[at + 8..at + 16], s[at + 16..at + 24], s[at + 24..at + 32];
    WordSpells(s, at);
    WordSpells(s, at + 8);
    WordSpells(s, at + 16);
    WordSpells(s, at + 24);
    assert s[at..at + 32] == a + (b + (c + d));
    FromBigEndianConcat(a, b + (c + d));
    FromBigEndianConcat(b, c + d);
    FromBigEndianConcat(c, d);
    Widths();
    Pow256Adds(8, 8);
    Pow256Adds(8, 16);
  }

  function Ascii(s: string): (r: seq<Byte>)
    ensures |r| == |s|
  {
    seq(|s|, i requires 0 <= i < |s| => (s[i] as int) % 256)
  }

  function Digests(s: seq<Digest32>): (r: seq<Byte>)
    ensures |r| == 32 * |s|
  {
    if s == [] then [] else BigEndian(s[0], 32) + Digests(s[1..])
  }

  // ---------------------------------------------------------------- the encoder

  /** A length in eight bytes, then the bytes. */
  function PutBytes(s: seq<Byte>): seq<Byte> {
    BigEndian(|s|, 8) + s
  }

  function SideByte(side: Side): Byte {
    if side.Buy? then 0 else 1
  }

  function TimeByte(t: TimeInForce): Byte {
    if t.GoodTilCancelled? then 1 else 2
  }

  datatype Head = Head(orderId: Digest32, ephemeralPublicKey: Digest32, marketId: seq<Byte>)

  datatype Terms = Terms(side: Side, limitPrice: U64, quantity: U64, timeInForce: TimeInForce, expiresAt: U64)

  datatype Owner = Owner(participantHandle: Digest32, dekyxNullifier: Digest32, reservationId: Digest32)

  datatype Limits = Limits(reservationLimit: U64, minimumLot: U64, maxFee: U64,
                           cancellationSecretDigest: Digest32, clientNonce: Digest32)

  function EncodeHead(h: Head): seq<Byte> {
    BigEndian(2, 2) + (BigEndian(h.orderId, 32) + (BigEndian(h.ephemeralPublicKey, 32) + PutBytes(h.marketId)))
  }

  function EncodeTerms(t: Terms): seq<Byte> {
    [SideByte(t.side)] + (BigEndian(t.limitPrice, 8) + (BigEndian(t.quantity, 8)
                                                         + ([TimeByte(t.timeInForce)] + BigEndian(t.expiresAt, 8))))
  }

  function EncodeOwner(w: Owner): seq<Byte> {
    BigEndian(w.participantHandle, 32) + (BigEndian(w.dekyxNullifier, 32) + BigEndian(w.reservationId, 32))
  }

  function EncodeLimits(l: Limits): seq<Byte> {
    BigEndian(l.reservationLimit, 8) + (BigEndian(l.minimumLot, 8) + (BigEndian(l.maxFee, 8)
      + (BigEndian(l.cancellationSecretDigest, 32) + BigEndian(l.clientNonce, 32))))
  }

  function HeadOf(o: SecretOrder): Head {
    Head(o.orderId, o.ephemeralPublicKey, o.marketId)
  }

  function TermsOf(o: SecretOrder): Terms {
    Terms(o.side, o.limitPrice, o.quantity, o.timeInForce, o.expiresAt)
  }

  function OwnerOf(o: SecretOrder): Owner {
    Owner(o.participantHandle, o.dekyxNullifier, o.reservationId)
  }

  function LimitsOf(o: SecretOrder): Limits {
    Limits(o.reservationLimit, o.minimumLot, o.maxFee, o.cancellationSecretDigest, o.clientNonce)
  }

  datatype Body = Body(head: Head, terms: Terms, owner: Owner, limits: Limits)

  function EncodeBody(b: Body): seq<Byte> {
    EncodeHead(b.head) + (EncodeTerms(b.terms) + (EncodeOwner(b.owner) + EncodeLimits(b.limits)))
  }

  function BodyOf(o: SecretOrder): Body {
    Body(HeadOf(o), TermsOf(o), OwnerOf(o), LimitsOf(o))
  }

  function Payload(o: SecretOrder): seq<Byte> {
    EncodeBody(BodyOf(o))
  }

  function FrameOf(payload: seq<Byte>, salt: Digest32): seq<Byte> {
    PutBytes(payload) + BigEndian(salt, 32)
  }

  function WireOf(o: SecretOrder): seq<Byte> {
    MAGIC + FrameOf(Payload(o), o.salt)
  }

  lemma WireLength(o: SecretOrder)
    ensures |Payload(o)| == 284 + |o.marketId| && |WireOf(o)| == 332 + |o.marketId|
  {
  }

  /** The encoder as the program runs it, one field appended after the other. */
  method ToSecretWire(o: SecretOrder) returns (bytes: seq<Byte>)
    requires ValidOrder(o)
    ensures bytes == WireOf(o) && OrderFormat(bytes, o) && |bytes| <= 512
  {
    hide BigEndian, ValidUtf8, RequiredReserve, OrderFormat, EncodeBody;
    var payload := CanonicalPayload(o);
    WireLength(o);
    bytes := MAGIC;
    bytes := bytes + BigEndian(|payload|, 8);
    bytes := bytes + payload;
    bytes := bytes + BigEndian(o.salt, 32);
    WireIsFormat(bytes, o);
  }

  method CanonicalPayload(o: SecretOrder) returns (bytes: seq<Byte>)
    requires o.version == 2
    ensures bytes == Payload(o)
  {
    hide BigEndian;
    bytes := BigEndian(o.version, 2);
    bytes := bytes + BigEndian(o.orderId, 32);
    bytes := bytes + BigEndian(o.ephemeralPublicKey, 32);
    bytes := bytes + BigEndian(|o.marketId|, 8);
    bytes := bytes + o.marketId;
    assert bytes == EncodeHead(HeadOf(o));
    ghost var head := bytes;
    var terms: seq<Byte> := [SideByte(o.side)];
    terms := terms + BigEndian(o.limitPrice, 8);
    terms := terms + BigEndian(o.quantity, 8);
    terms := terms + [TimeByte(o.timeInForce)];
    terms := terms + BigEndian(o.expiresAt, 8);
    assert terms == EncodeTerms(TermsOf(o));
    var owner := BigEndian(o.participantHandle, 32);
    owner := owner + BigEndian(o.dekyxNullifier, 32);
    owner := owner + BigEndian(o.reservationId, 32);
    assert owner == EncodeOwner(OwnerOf(o));
    var limits := BigEndian(o.reservationLimit, 8);
    limits := limits + BigEndian(o.minimumLot, 8);
    limits := limits + BigEndian(o.maxFee, 8);
    limits := limits + BigEndian(o.cancellationSecretDigest, 32);
    limits := limits + BigEndian(o.clientNonce, 32);
    assert limits == EncodeLimits(LimitsOf(o));
    bytes := bytes + terms;
    bytes := bytes + owner;
    bytes := bytes + limits;
    assert bytes == head + (terms + (owner + limits));
  }

  // ---------------------------------------------------------------- reading at an offset

  ghost predicate StartsWith(bytes: seq<Byte>, offset: nat, e: seq<Byte>) {
    offset + |e| <= |bytes| && bytes[offset..offset + |e|] == e
  }

  lemma StartsWithConcat(bytes: seq<Byte>, offset: nat, a: seq<Byte>, b: seq<Byte>)
    ensures StartsWith(bytes, offset, a + b) <==> StartsWith(bytes, offset, a) && StartsWith(bytes, offset + |a|, b)
  {
    if offset + |a| + |b| <= |bytes| {
      var s := bytes[offset..offset + |a| + |b|];
      assert s[..|a|] == bytes[offset..offset + |a|];
      assert s[|a|..] == bytes[offset + |a|..offset + |a| + |b|];
      assert s == s[..|a|] + s[|a|..];
      assert (a + b)[..|a|] == a && (a + b)[|a|..] == b;
    }
  }

  /** A fixed-width read at an offset finds `n` exactly when the encoding of `n` is there. */
  lemma ReadInteger(bytes: seq<Byte>, offset: nat, width: nat, n: nat)
    requires offset + width <= |bytes| && n < Pow256(width)
    ensures StartsWith(bytes, offset, BigEndian(n, width))
       <==> FromBigEndian(bytes[offset..offset + width]) == n
  {
    BytesRoundTrip(bytes[offset..offset + width]);
    IntegerRoundTrip(n, width);
  }

  lemma WordStarts(s: seq<Byte>, at: nat, n: U64)
    ensures StartsWith(s, at, BigEndian(n, 8)) <==> at + 8 <= |s| && WordAt(s, at) == n
  {
    hide BigEndian, Pow256, FromBigEndian, WordAt;
    Widths();
    if at + 8 <= |s| {
      ReadInteger(s, at, 8, n);
      WordSpells(s, at);
    }
  }

  lemma DigestStarts(s: seq<Byte>, at: nat, n: Digest32)
    ensures StartsWith(s, at, BigEndian(n, 32)) <==> at + 32 <= |s| && DigestAt(s, at) == n
  {
    hide BigEndian, Pow256, FromBigEndian, DigestAt;
    Widths();
    if at + 32 <= |s| {
      ReadInteger(s, at, 32, n);
      DigestSpells(s, at);
    }
  }

  lemma ByteStarts(s: seq<Byte>, at: nat, b: Byte)
    ensures StartsWith(s, at, [b]) <==> at + 1 <= |s| && s[at] == b
  {
    if at + 1 <= |s| {
      assert s[at..at + 1] == [s[at]];
    }
  }

  /** The program's cursor: reads in order, never past the end, and stays put when refused. */
  class SecretWireCursor {
    const bytes: seq<Byte>
    var offset: nat

    constructor (bytes: seq<Byte>)
      ensures this.bytes == bytes && offset == 0
    {
      this.bytes, offset := bytes, 0;
    }

    method Bytes(length: nat) returns (r: Result<seq<Byte>>)
      modifies this
      ensures r.Success? ==> |r.value| == length && StartsWith(bytes, old(offset), r.value)
                             && offset == old(offset) + length
      ensures r.Failure? ==> r.error == Invalid(WireMalformed) && offset == old(offset)
      ensures r.Failure? <==> old(offset) + length > |bytes|
      ensures forall s: seq<Byte> :: |s| == length && StartsWith(bytes, old(offset), s) ==> r == Success(s)
    {
      var end := offset + length;
      if end > |bytes| {
        return Failure(Invalid(WireMalformed));
      }
      r := Success(bytes[offset..end]);
      offset := end;
    }

    method Integer(width: nat) returns (r: Result<nat>)
      modifies this
      ensures r.Success? ==> r.value < Pow256(width) && StartsWith(bytes, old(offset), BigEndian(r.value, width))
                             && offset == old(offset) + width
      ensures r.Failure? ==> r.error == Invalid(WireMalformed)
      ensures r.Failure? <==> old(offset) + width > |bytes|
      ensures forall n: nat ::
                n < Pow256(width) && StartsWith(bytes, old(offset), BigEndian(n, width)) ==> r == Success(n)
    {
      ghost var start := offset;
      var s := Bytes(width);
      if s.Failure? {
        return Failure(s.error);
      }
      BytesRoundTrip(s.value);
      forall n: nat | n < Pow256(width) && StartsWith(bytes, start, BigEndian(n, width))
        ensures n == FromBigEndian(s.value)
      {
        ReadInteger(bytes, start, width, n);
      }
      return Success(FromBigEndian(s.value));
    }

    method U8() returns (r: Result<Byte>)
      modifies this
      ensures r.Success? ==> StartsWith(bytes, old(offset), [r.value]) && offset == old(offset) + 1
      ensures r == if old(offset) + 1 <= |bytes| then Success(bytes[old(offset)]) else Failure(Invalid(WireMalformed))
      ensures forall b: Byte :: StartsWith(bytes, old(offset), [b]) ==> r == Success(b)
    {
      var s := Bytes(1);
      if s.Failure? {
        return Failure(s.error);
      }
      assert s.value == [s.value[0]];
      return Success(s.value[0]);
    }

    method U64() returns (r: Result<U64>)
      modifies this
      ensures r.Success? ==> StartsWith(bytes, old(offset), BigEndian(r.value, 8)) && offset == old(offset) + 8
      ensures forall n: U64 :: StartsWith(bytes, old(offset), BigEndian(n, 8)) ==> r == Success(n)
      ensures r == if old(offset) + 8 <= |bytes| then Success(WordAt(bytes, old(offset)))
                   else Failure(Invalid(WireMalformed))
    {
      hide Pow256, BigEndian, WordAt, StartsWith;
      Widths();
      ghost var start := offset;
      var s := Integer(8);
      if s.Success? {
        WordStarts(bytes, start, s.value);
      }
      return if s.Failure? then Failure(s.error) else Success(s.value);
    }

    method Digest() returns (r: Result<Digest32>)
      modifies this
      ensures r.Success? ==> StartsWith(bytes, old(offset), BigEndian(r.value, 32)) && offset == old(offset) + 32
      ensures forall n: Digest32 :: StartsWith(bytes, old(offset), BigEndian(n, 32)) ==> r == Success(n)
      ensures r == if old(offset) + 32 <= |bytes| then Success(DigestAt(bytes, old(offset)))
                   else Failure(Invalid(WireMalformed))
    {
      hide Pow256, BigEndian, DigestAt, StartsWith;
      Widths();
      ghost var start := offset;
      var s := Integer(32);
      if s.Success? {
        DigestStarts(bytes, start, s.value);
      }
      return if s.Failure? then Failure(s.error) else Success(s.value);
    }

    // -------------------------------------------------------------- groups of fields

    method ReadHead() returns (r: Result<Head>)
      modifies this
      ensures r.Success? ==> ValidUtf8(r.value.marketId)
                             && StartsWith(bytes, old(offset), EncodeHead(r.value))
                             && offset == old(offset) + |EncodeHead(r.value)|
      ensures forall h: Head ::
                ValidUtf8(h.marketId) && |h.marketId| <= U64_MAX && StartsWith(bytes, old(offset), EncodeHead(h))
                ==> r == Success(h)
      ensures old(offset) + 2 <= |bytes| && bytes[old(offset)..old(offset) + 2] != [0, 2]
              ==> r == Failure(Invalid(WireVersion))
      ensures r.Failure? ==> r.error in {Invalid(WireMalformed), Invalid(WireVersion), Invalid(WireMarketNotUtf8)}
    {
      hide Pow256, BigEndian, ValidUtf8, StartsWith, DigestAt, WordAt;
      ghost var start := offset;
      forall h: Head ensures StartsWith(bytes, start, EncodeHead(h)) <==> HeadAt(bytes, start, h) {
        HeadLayout(bytes, start, h);
      }
      Widths();
      var version := Integer(2);
      if version.Failure? { return Failure(version.error); }
      if version.value != 2 {
        return Failure(Invalid(WireVersion));
      }
      VersionStarts(bytes, start);
      var orderId := Digest();
      if orderId.Failure? { return Failure(orderId.error); }
      var ephemeral := Digest();
      if ephemeral.Failure? { return Failure(ephemeral.error); }
      var length := U64();
      if length.Failure? { return Failure(length.error); }
      var market := Bytes(length.value);
      if market.Failure? { return Failure(market.error); }
      if !ValidUtf8(market.value) {
        return Failure(Invalid(WireMarketNotUtf8));
      }
      return Success(Head(orderId.value, ephemeral.value, market.value));
    }

    method ReadTerms() returns (r: Result<Terms>)
      modifies this
      ensures r.Success? ==> StartsWith(bytes, old(offset), EncodeTerms(r.value))
                             && offset == old(offset) + |EncodeTerms(r.value)|
      ensures forall t: Terms :: StartsWith(bytes, old(offset), EncodeTerms(t)) ==> r == Success(t)
      ensures r.Success? ==> TermsFormat(bytes, old(offset), r.value.side, r.value.limitPrice, r.value.quantity,
                                         r.value.timeInForce, r.value.expiresAt)
      ensures r.Success? <==> old(offset) + 26 <= |bytes| && bytes[old(offset)] in {0, 1}
                              && bytes[old(offset) + 17] in {1, 2}
      ensures old(offset) < |bytes| && bytes[old(offset)] !in {0, 1} ==> r == Failure(Invalid(WireSide))
      ensures old(offset) + 18 <= |bytes| && bytes[old(offset)] in {0, 1} && bytes[old(offset) + 17] !in {1, 2}
              ==> r == Failure(Invalid(WireTimeInForce))
      ensures r.Failure? && r.error != Invalid(WireSide) && r.error != Invalid(WireTimeInForce)
              ==> r.error == Invalid(WireMalformed) && old(offset) + 26 > |bytes|
    {
      hide BigEndian, StartsWith, WordAt;
      ghost var start := offset;
      forall t: Terms ensures StartsWith(bytes, start, EncodeTerms(t)) <==> TermsAt(bytes, start, t) {
        TermsLayout(bytes, start, t);
      }
      var sideByte := U8();
      if sideByte.Failure? { return Failure(sideByte.error); }
      if sideByte.value != 0 && sideByte.value != 1 {
        return Failure(Invalid(WireSide));
      }
      var side := if sideByte.value == 0 then Buy else Sell;
      var limitPrice := U64();
      if limitPrice.Failure? { return Failure(limitPrice.error); }
      var quantity := U64();
      if quantity.Failure? { return Failure(quantity.error); }
      var timeByte := U8();
      if timeByte.Failure? { return Failure(timeByte.error); }
      if timeByte.value != 1 && timeByte.value != 2 {
        return Failure(Invalid(WireTimeInForce));
      }
      var timeInForce := if timeByte.value == 1 then GoodTilCancelled else ImmediateOrCancel;
      var expiresAt := U64();
      if expiresAt.Failure? { return Failure(expiresAt.error); }
      return Success(Terms(side, limitPrice.value, quantity.value, timeInForce, expiresAt.value));
    }

    method ReadOwner() returns (r: Result<Owner>)
      modifies this
      ensures r.Success? ==> StartsWith(bytes, old(offset), EncodeOwner(r.value))
                             && offset == old(offset) + |EncodeOwner(r.value)|
      ensures forall w: Owner :: StartsWith(bytes, old(offset), EncodeOwner(w)) ==> r == Success(w)
    {
      hide BigEndian, StartsWith;
      ghost var start := offset;
      forall w: Owner ensures StartsWith(bytes, start, EncodeOwner(w)) <==> OwnerAt(bytes, start, w) {
        OwnerLayout(bytes, start, w);
      }
      var participant := Digest();
      if participant.Failure? { return Failure(participant.error); }
      var nullifier := Digest();
      if nullifier.Failure? { return Failure(nullifier.error); }
      var reservation := Digest();
      if reservation.Failure? { return Failure(reservation.error); }
      return Success(Owner(participant.value, nullifier.value, reservation.value));
    }

    method ReadLimits() returns (r: Result<Limits>)
      modifies this
      ensures r.Success? ==> StartsWith(bytes, old(offset), EncodeLimits(r.value))
                             && offset == old(offset) + |EncodeLimits(r.value)|
      ensures forall l: Limits :: StartsWith(bytes, old(offset), EncodeLimits(l)) ==> r == Success(l)
    {
      hide BigEndian, StartsWith;
      ghost var start := offset;
      forall l: Limits ensures StartsWith(bytes, start, EncodeLimits(l)) <==> LimitsAt(bytes, start, l) {
        LimitsLayout(bytes, start, l);
      }
      var reservationLimit := U64();
      if reservationLimit.Failure? { return Failure(reservationLimit.error); }
      var minimumLot := U64();
      if minimumLot.Failure? { return Failure(minimumLot.error); }
      var maxFee := U64();
      if maxFee.Failure? { return Failure(maxFee.error); }
      var cancellation := Digest();
      if cancellation.Failure? { return Failure(cancellation.error); }
      var nonce := Digest();
      if nonce.Failure? { return Failure(nonce.error); }
      return Success(Limits(reservationLimit.value, minimumLot.value, maxFee.value, cancellation.value, nonce.value));
    }
  }

  // ---------------------------------------------------------------- layouts

  ghost predicate HeadAt(bytes: seq<Byte>, at: nat, h: Head) {
    && StartsWith(bytes, at, BigEndian(2, 2)) && StartsWith(bytes, at + 2, BigEndian(h.orderId, 32))
    && StartsWith(bytes, at + 34, BigEndian(h.ephemeralPublicKey, 32))
    && StartsWith(bytes, at + 66, BigEndian(|h.marketId|, 8)) && StartsWith(bytes, at + 74, h.marketId)
  }

  lemma HeadLayout(bytes: seq<Byte>, at: nat, h: Head)
    ensures StartsWith(bytes, at, EncodeHead(h)) <==> HeadAt(bytes, at, h)
    ensures |EncodeHead(h)| == 74 + |h.marketId|
  {
    hide BigEndian, StartsWith;
    var market := PutBytes(h.marketId);
    StartsWithConcat(bytes, at + 66, BigEndian(|h.marketId|, 8), h.marketId);
    StartsWithConcat(bytes, at + 34, BigEndian(h.ephemeralPublicKey, 32), market);
    StartsWithConcat(bytes, at + 2, BigEndian(h.orderId, 32), BigEndian(h.ephemeralPublicKey, 32) + market);
    StartsWithConcat(bytes, at, BigEndian(2, 2),
                     BigEndian(h.orderId, 32) + (BigEndian(h.ephemeralPublicKey, 32) + market));
  }

  ghost predicate TermsAt(bytes: seq<Byte>, at: nat, t: Terms) {
    && StartsWith(bytes, at, [SideByte(t.side)]) && StartsWith(bytes, at + 1, BigEndian(t.limitPrice, 8))
    && StartsWith(bytes, at + 9, BigEndian(t.quantity, 8))
    && StartsWith(bytes, at + 17, [TimeByte(t.timeInForce)]) && StartsWith(bytes, at + 18, BigEndian(t.expiresAt, 8))
  }

  lemma TermsLayout(bytes: seq<Byte>, at: nat, t: Terms)
    ensures StartsWith(bytes, at, EncodeTerms(t)) <==> TermsAt(bytes, at, t)
    ensures |EncodeTerms(t)| == 26
  {
    hide BigEndian, StartsWith;
    var e := BigEndian(t.expiresAt, 8);
    var d := [TimeByte(t.timeInForce)] + e;
    var c := BigEndian(t.quantity, 8) + d;
    var b := BigEndian(t.limitPrice, 8) + c;
    StartsWithConcat(bytes, at + 17, [TimeByte(t.timeInForce)], e);
    StartsWithConcat(bytes, at + 9, BigEndian(t.quantity, 8), d);
    StartsWithConcat(bytes, at + 1, BigEndian(t.limitPrice, 8), c);
    StartsWithConcat(bytes, at, [SideByte(t.side)], b);
  }

  ghost predicate OwnerAt(bytes: seq<Byte>, at: nat, w: Owner) {
    && StartsWith(bytes, at, BigEndian(w.participantHandle, 32))
    && StartsWith(bytes, at + 32, BigEndian(w.dekyxNullifier, 32))
    && StartsWith(bytes, at + 64, BigEndian(w.reservationId, 32))
  }

  lemma OwnerLayout(bytes: seq<Byte>, at: nat, w: Owner)
    ensures StartsWith(bytes, at, EncodeOwner(w)) <==> OwnerAt(bytes, at, w)
    ensures |EncodeOwner(w)| == 96
  {
    hide BigEndian, StartsWith;
    StartsWithConcat(bytes, at + 32, BigEndian(w.dekyxNullifier, 32), BigEndian(w.reservationId, 32));
    StartsWithConcat(bytes, at, BigEndian(w.participantHandle, 32),
                     BigEndian(w.dekyxNullifier, 32) + BigEndian(w.reservationId, 32));
  }

  ghost predicate LimitsAt(bytes: seq<Byte>, at: nat, l: Limits) {
    && StartsWith(bytes, at, BigEndian(l.reservationLimit, 8)) && StartsWith(bytes, at + 8, BigEndian(l.minimumLot, 8))
    && StartsWith(bytes, at + 16, BigEndian(l.maxFee, 8))
    && StartsWith(bytes, at + 24, BigEndian(l.cancellationSecretDigest, 32))
    && StartsWith(bytes, at + 56, BigEndian(l.clientNonce, 32))
  }

  lemma LimitsLayout(bytes: seq<Byte>, at: nat, l: Limits)
    ensures StartsWith(bytes, at, EncodeLimits(l)) <==> LimitsAt(bytes, at, l)
    ensures |EncodeLimits(l)| == 88
  {
    hide BigEndian, StartsWith;
    var e := BigEndian(l.clientNonce, 32);
    var d := BigEndian(l.cancellationSecretDigest, 32) + e;
    var c := BigEndian(l.maxFee, 8) + d;
    var b := BigEndian(l.minimumLot, 8) + c;
    StartsWithConcat(bytes, at + 24, BigEndian(l.cancellationSecretDigest, 32), e);
    StartsWithConcat(bytes, at + 16, BigEndian(l.maxFee, 8), d);
    StartsWithConcat(bytes, at + 8, BigEndian(l.minimumLot, 8), c);
    StartsWithConcat(bytes, at, BigEndian(l.reservationLimit, 8), b);
  }

  ghost predicate BodyAt(bytes: seq<Byte>, b: Body) {
    var n := 74 + |b.head.marketId|;
    && StartsWith(bytes, 0, EncodeHead(b.head)) && StartsWith(bytes, n, EncodeTerms(b.terms))
    && StartsWith(bytes, n + 26, EncodeOwner(b.owner)) && StartsWith(bytes, n + 122, EncodeLimits(b.limits))
    && |bytes| == n + 210
  }

  lemma BodyLayout(bytes: seq<Byte>, b: Body)
    ensures bytes == EncodeBody(b) <==> BodyAt(bytes, b)
  {
    hide BigEndian, StartsWith, EncodeHead, EncodeTerms, EncodeOwner, EncodeLimits;
    var n := 74 + |b.head.marketId|;
    HeadLayout(bytes, 0, b.head);
    TermsLayout(bytes, n, b.terms);
    OwnerLayout(bytes, n + 26, b.owner);
    LimitsLayout(bytes, n + 122, b.limits);
    var d := EncodeLimits(b.limits);
    var c := EncodeOwner(b.owner) + d;
    var rest := EncodeTerms(b.terms) + c;
    StartsWithConcat(bytes, n + 26, EncodeOwner(b.owner), d);
    StartsWithConcat(bytes, n, EncodeTerms(b.terms), c);
    StartsWithConcat(bytes, 0, EncodeHead(b.head), rest);
    WholeInput(bytes, EncodeBody(b));
  }

  lemma WholeInput(bytes: seq<Byte>, e: seq<Byte>)
    ensures bytes == e <==> StartsWith(bytes, 0, e) && |bytes| == |e|
  {
    assert bytes[0..|bytes|] == bytes;
  }

  // ---------------------------------------------------------------- the format

  lemma HeadIsFormat(s: seq<Byte>, at: nat, o: SecretOrder)
    requires |o.marketId| <= U64_MAX
    ensures StartsWith(s, at, EncodeHead(HeadOf(o))) <==> HeadFormat(s, at, o)
  {
    hide EncodeHead, BigEndian, WordAt, DigestAt;
    HeadLayout(s, at, HeadOf(o));
    assert BigEndian(2, 2) == [0, 2] by {
      VersionBytes();
    }
    DigestStarts(s, at + 2, o.orderId);
    DigestStarts(s, at + 34, o.ephemeralPublicKey);
    WordStarts(s, at + 66, |o.marketId|);
    if at + 2 <= |s| {
      assert s[at..at + 2] == [s[at], s[at + 1]];
    }
  }

  lemma VersionStarts(s: seq<Byte>, at: nat)
    ensures StartsWith(s, at, BigEndian(2, 2)) <==> at + 2 <= |s| && s[at..at + 2] == [0, 2]
  {
    VersionBytes();
  }

  lemma VersionBytes()
    ensures BigEndian(2, 2) == [0, 2]
  {
    assert BigEndian(0, 1) == [0];
  }

  lemma TermsIsFormat(s: seq<Byte>, at: nat, t: Terms)
    ensures StartsWith(s, at, EncodeTerms(t))
       <==> TermsFormat(s, at, t.side, t.limitPrice, t.quantity, t.timeInForce, t.expiresAt)
  {
    hide EncodeTerms, StartsWith, BigEndian, WordAt;
    TermsLayout(s, at, t);
    ByteStarts(s, at, SideByte(t.side));
    WordStarts(s, at + 1, t.limitPrice);
    WordStarts(s, at + 9, t.quantity);
    ByteStarts(s, at + 17, TimeByte(t.timeInForce));
    WordStarts(s, at + 18, t.expiresAt);
  }

  lemma OwnerIsFormat(s: seq<Byte>, at: nat, o: SecretOrder)
    ensures StartsWith(s, at, EncodeOwner(OwnerOf(o))) <==> OwnerFormat(s, at, o)
  {
    hide EncodeOwner, StartsWith, BigEndian, DigestAt;
    OwnerLayout(s, at, OwnerOf(o));
    DigestStarts(s, at, o.participantHandle);
    DigestStarts(s, at + 32, o.dekyxNullifier);
    DigestStarts(s, at + 64, o.reservationId);
  }

  lemma LimitsIsFormat(s: seq<Byte>, at: nat, o: SecretOrder)
    ensures StartsWith(s, at, EncodeLimits(LimitsOf(o))) <==> LimitsFormat(s, at, o)
  {
    hide EncodeLimits, StartsWith, BigEndian, DigestAt, WordAt;
    LimitsLayout(s, at, LimitsOf(o));
    WordStarts(s, at, o.reservationLimit);
    WordStarts(s, at + 8, o.minimumLot);
    WordStarts(s, at + 16, o.maxFee);
    DigestStarts(s, at + 24, o.cancellationSecretDigest);
    DigestStarts(s, at + 56, o.clientNonce);
  }

  lemma GroupLengths(o: SecretOrder)
    ensures |EncodeHead(HeadOf(o))| == 74 + |o.marketId| && |EncodeTerms(TermsOf(o))| == 26
    ensures |EncodeOwner(OwnerOf(o))| == 96 && |EncodeLimits(LimitsOf(o))| == 88
  {
    hide BigEndian;
  }

  lemma PayloadIsFormat(s: seq<Byte>, at: nat, o: SecretOrder)
    requires |o.marketId| <= U64_MAX
    ensures StartsWith(s, at, Payload(o)) <==> PayloadFormat(s, at, o)
  {
    hide EncodeHead, EncodeTerms, EncodeOwner, EncodeLimits, StartsWith;
    hide HeadFormat, TermsFormat, OwnerFormat, LimitsFormat;
    var n := at + 74 + |o.marketId|;
    var d := EncodeLimits(LimitsOf(o));
    var c := EncodeOwner(OwnerOf(o)) + d;
    var b := EncodeTerms(TermsOf(o)) + c;
    GroupLengths(o);
    StartsWithConcat(s, n + 26, EncodeOwner(OwnerOf(o)), d);
    StartsWithConcat(s, n, EncodeTerms(TermsOf(o)), c);
    StartsWithConcat(s, at, EncodeHead(HeadOf(o)), b);
    HeadIsFormat(s, at, o);
    TermsIsFormat(s, n, TermsOf(o));
    OwnerIsFormat(s, n + 26, o);
    LimitsIsFormat(s, n + 122, o);
  }

  /**
   The encoding of an order is the one byte string that meets the published format: the magic, each
   number most significant byte first and each code byte at its offset, and nothing more.
   */
  lemma WireIsFormat(s: seq<Byte>, o: SecretOrder)
    requires |o.marketId| <= 64
    ensures s == WireOf(o) <==> OrderFormat(s, o)
  {
    hide EncodeBody, StartsWith, BigEndian, PayloadFormat, DigestAt, WordAt;
    WireLength(o);
    var p, m := Payload(o), |o.marketId|;
    var c := p + BigEndian(o.salt, 32);
    assert WireOf(o) == MAGIC + (BigEndian(|p|, 8) + c);
    WholeInput(s, WireOf(o));
    StartsWithConcat(s, 0, MAGIC, BigEndian(|p|, 8) + c);
    StartsWithConcat(s, 8, BigEndian(|p|, 8), c);
    StartsWithConcat(s, 16, p, BigEndian(o.salt, 32));
    MagicStarts(s);
    WordStarts(s, 8, |p|);
    PayloadIsFormat(s, 16, o);
    DigestStarts(s, 300 + m, o.salt);
  }

  lemma MagicStarts(s: seq<Byte>)
    ensures StartsWith(s, 0, MAGIC) <==> |s| >= 8 && s[..8] == [79, 67, 76, 79, 66, 79, 82, 50]
  {
  }

  // ---------------------------------------------------------------- the decoder

  method ReadPayload(bytes: seq<Byte>) returns (r: Result<Body>)
    ensures r.Success? ==> ValidUtf8(r.value.head.marketId) && bytes == EncodeBody(r.value)
    ensures forall b: Body ::
              ValidUtf8(b.head.marketId) && |b.head.marketId| <= U64_MAX && bytes == EncodeBody(b) ==> r == Success(b)
  {
    hide BigEndian, StartsWith, ValidUtf8, EncodeHead, EncodeTerms, EncodeOwner, EncodeLimits, EncodeBody;
    forall b: Body ensures bytes == EncodeBody(b) <==> BodyAt(bytes, b) {
      BodyLayout(bytes, b);
    }
    var cursor := new SecretWireCursor(bytes);
    var head := cursor.ReadHead();
    if head.Failure? { return Failure(head.error); }
    HeadLayout(bytes, 0, head.value);
    var terms := cursor.ReadTerms();
    if terms.Failure? { return Failure(terms.error); }
    TermsLayout(bytes, 0, terms.value);
    var owner := cursor.ReadOwner();
    if owner.Failure? { return Failure(owner.error); }
    OwnerLayout(bytes, 0, owner.value);
    var limits := cursor.ReadLimits();
    if limits.Failure? { return Failure(limits.error); }
    LimitsLayout(bytes, 0, limits.value);
    if cursor.offset != |cursor.bytes| {
      return Failure(Invalid(WireTrailing));
    }
    return Success(Body(head.value, terms.value, owner.value, limits.value));
  }

  ghost predicate FrameAt(bytes: seq<Byte>, payload: seq<Byte>, salt: Digest32) {
    && StartsWith(bytes, 0, BigEndian(|payload|, 8)) && StartsWith(bytes, 8, payload)
    && StartsWith(bytes, 8 + |payload|, BigEndian(salt, 32)) && |bytes| == 40 + |payload|
  }

  lemma FrameLayout(bytes: seq<Byte>, payload: seq<Byte>, salt: Digest32)
    ensures bytes == FrameOf(payload, salt) <==> FrameAt(bytes, payload, salt)
  {
    hide BigEndian, StartsWith;
    var tail := BigEndian(salt, 32);
    StartsWithConcat(bytes, 0, BigEndian(|payload|, 8), payload);
    StartsWithConcat(bytes, 0, PutBytes(payload), tail);
    WholeInput(bytes, PutBytes(payload) + tail);
  }

  /** The outer frame: a length-prefixed payload and the salt, and nothing after them. */
  method ReadFrame(bytes: seq<Byte>) returns (r: Result<(seq<Byte>, Digest32)>)
    ensures r.Success? ==> bytes == FrameOf(r.value.0, r.value.1)
    ensures forall payload: seq<Byte>, salt: Digest32 ::
              |payload| <= U64_MAX && bytes == FrameOf(payload, salt) ==> r == Success((payload, salt))
  {
    hide BigEndian, StartsWith, FrameOf;
    forall payload: seq<Byte>, salt: Digest32
      ensures bytes == FrameOf(payload, salt) <==> FrameAt(bytes, payload, salt)
    {
      FrameLayout(bytes, payload, salt);
    }
    var cursor := new SecretWireCursor(bytes);
    var length := cursor.U64();
    if length.Failure? { return Failure(length.error); }
    var payload := cursor.Bytes(length.value);
    if payload.Failure? { return Failure(payload.error); }
    var salt := cursor.Digest();
    if salt.Failure? { return Failure(salt.error); }
    if cursor.offset != |cursor.bytes| {
      return Failure(Invalid(WireTrailing));
    }
    return Success((payload.value, salt.value));
  }

  function Restore(b: Body, salt: Digest32): SecretOrder {
    SecretOrder(2, b.head.orderId, b.head.ephemeralPublicKey, b.head.marketId, b.terms.side, b.terms.limitPrice,
                b.terms.quantity, b.terms.timeInForce, b.terms.expiresAt, b.owner.participantHandle,
                b.owner.dekyxNullifier, b.owner.reservationId, b.limits.reservationLimit, b.limits.minimumLot,
                b.limits.maxFee, b.limits.cancellationSecretDigest, b.limits.clientNonce, salt)
  }

  /**
   The decoder is the exact inverse of the encoder: it accepts a byte string just when that
   string is the encoding of some valid order, and then it returns that order.
   */
  method FromSecretWire(bytes: seq<Byte>) returns (r: Result<SecretOrder>)
    ensures r.Success? ==> ValidOrder(r.value) && bytes == WireOf(r.value)
    ensures forall o: SecretOrder :: ValidOrder(o) && bytes == WireOf(o) ==> r == Success(o)
    ensures r.Success? ==> OrderFormat(bytes, r.value)
    ensures |bytes| < 48 || |bytes| > 512 || bytes[..8] != [79, 67, 76, 79, 66, 79, 82, 50]
            ==> r == Failure(Invalid(WireMalformed))
  {
    hide BigEndian, ValidUtf8, EncodeBody, FrameOf, RequiredReserve, OrderFormat;
    forall o: SecretOrder | ValidOrder(o) && bytes == WireOf(o)
      ensures 48 <= |bytes| <= MAX_SECRET_ORDER_WIRE_BYTES && bytes[..8] == MAGIC && |Payload(o)| <= U64_MAX
      ensures bytes[8..] == FrameOf(Payload(o), o.salt)
    {
      WireLength(o);
    }
    if |bytes| > MAX_SECRET_ORDER_WIRE_BYTES || |bytes| < 48 || bytes[..8] != MAGIC {
      return Failure(Invalid(WireMalformed));
    }
    var frame := ReadFrame(bytes[8..]);
    if frame.Failure? { return Failure(frame.error); }
    var body := ReadPayload(frame.value.0);
    if body.Failure? { return Failure(body.error); }
    var b := body.value;
    assert bytes == MAGIC + bytes[8..];
    r := NewWithControls(
      b.head.marketId, b.terms.side, b.terms.limitPrice, b.terms.quantity, b.terms.timeInForce, b.terms.expiresAt,
      b.owner.participantHandle, b.limits.clientNonce, frame.value.1,
      OrderControls(b.head.orderId, b.head.ephemeralPublicKey, b.owner.dekyxNullifier, b.owner.reservationId,
                    b.limits.reservationLimit, b.limits.minimumLot, b.limits.maxFee,
                    b.limits.cancellationSecretDigest));
    assert BodyOf(Restore(b, frame.value.1)) == b;
    if r.Success? {
      WireIsFormat(bytes, r.value);
    }
  }

  // ---------------------------------------------------------------- injectivity

  lemma SameInteger(bytes: seq<Byte>, offset: nat, width: nat, x: nat, y: nat)
    requires x < Pow256(width) && y < Pow256(width)
    requires StartsWith(bytes, offset, BigEndian(x, width)) && StartsWith(bytes, offset, BigEndian(y, width))
    ensures x == y
  {
    IntegerRoundTrip(x, width);
    IntegerRoundTrip(y, width);
  }

  lemma SameU64(bytes: seq<Byte>, offset: nat, x: U64, y: U64)
    requires StartsWith(bytes, offset, BigEndian(x, 8)) && StartsWith(bytes, offset, BigEndian(y, 8))
    ensures x == y
  {
    hide BigEndian, Pow256, StartsWith;
    Widths();
    SameInteger(bytes, offset, 8, x, y);
  }

  lemma SameDigest(bytes: seq<Byte>, offset: nat, x: Digest32, y: Digest32)
    requires StartsWith(bytes, offset, BigEndian(x, 32)) && StartsWith(bytes, offset, BigEndian(y, 32))
    ensures x == y
  {
    hide BigEndian, Pow256, StartsWith;
    Widths();
    SameInteger(bytes, offset, 32, x, y);
  }

  lemma SameHead(bytes: seq<Byte>, a: Head, b: Head)
    requires |a.marketId| <= U64_MAX && |b.marketId| <= U64_MAX && HeadAt(bytes, 0, a) && HeadAt(bytes, 0, b)
    ensures a == b
  {
    hide BigEndian;
    SameDigest(bytes, 2, a.orderId, b.orderId);
    SameDigest(bytes, 34, a.ephemeralPublicKey, b.ephemeralPublicKey);
    SameU64(bytes, 66, |a.marketId|, |b.marketId|);
  }

  lemma SameTerms(bytes: seq<Byte>, at: nat, a: Terms, b: Terms)
    requires TermsAt(bytes, at, a) && TermsAt(bytes, at, b)
    ensures a == b
  {
    hide BigEndian;
    assert [SideByte(a.side)] == [SideByte(b.side)] && [TimeByte(a.timeInForce)] == [TimeByte(b.timeInForce)];
    assert [SideByte(a.side)][0] == [SideByte(b.side)][0];
    assert [TimeByte(a.timeInForce)][0] == [TimeByte(b.timeInForce)][0];
    SameU64(bytes, at + 1, a.limitPrice, b.limitPrice);
    SameU64(bytes, at + 9, a.quantity, b.quantity);
    SameU64(bytes, at + 18, a.expiresAt, b.expiresAt);
  }

  lemma SameOwner(bytes: seq<Byte>, at: nat, a: Owner, b: Owner)
    requires OwnerAt(bytes, at, a) && OwnerAt(bytes, at, b)
    ensures a == b
  {
    hide BigEndian, StartsWith;
    SameDigest(bytes, at, a.participantHandle, b.participantHandle);
    SameDigest(bytes, at + 32, a.dekyxNullifier, b.dekyxNullifier);
    SameDigest(bytes, at + 64, a.reservationId, b.reservationId);
  }

  lemma SameLimits(bytes: seq<Byte>, at: nat, a: Limits, b: Limits)
    requires LimitsAt(bytes, at, a) && LimitsAt(bytes, at, b)
    ensures a == b
  {
    hide BigEndian, StartsWith;
    SameU64(bytes, at, a.reservationLimit, b.reservationLimit);
    SameU64(bytes, at + 8, a.minimumLot, b.minimumLot);
    SameU64(bytes, at + 16, a.maxFee, b.maxFee);
    SameDigest(bytes, at + 24, a.cancellationSecretDigest, b.cancellationSecretDigest);
    SameDigest(bytes, at + 56, a.clientNonce, b.clientNonce);
  }

  lemma BodyInjective(a: Body, b: Body)
    requires |a.head.marketId| <= U64_MAX && |b.head.marketId| <= U64_MAX && EncodeBody(a) == EncodeBody(b)
    ensures a == b
  {
    hide BigEndian, StartsWith, EncodeBody, HeadAt, TermsAt, OwnerAt, LimitsAt;
    hide EncodeHead, EncodeTerms, EncodeOwner, EncodeLimits;
    var bytes := EncodeBody(a);
    BodyLayout(bytes, a);
    BodyLayout(bytes, b);
    HeadLayout(bytes, 0, a.head);
    HeadLayout(bytes, 0, b.head);
    SameHead(bytes, a.head, b.head);
    var n := 74 + |a.head.marketId|;
    TermsLayout(bytes, n, a.terms);
    TermsLayout(bytes, n, b.terms);
    SameTerms(bytes, n, a.terms, b.terms);
    OwnerLayout(bytes, n + 26, a.owner);
    OwnerLayout(bytes, n + 26, b.owner);
    SameOwner(bytes, n + 26, a.owner, b.owner);
    LimitsLayout(bytes, n + 122, a.limits);
    LimitsLayout(bytes, n + 122, b.limits);
    SameLimits(bytes, n + 122, a.limits, b.limits);
  }

  /** Two orders share a payload exactly when they differ in nothing but the salt. */
  lemma PayloadExactly(a: SecretOrder, b: SecretOrder)
    requires ValidOrder(a) && ValidOrder(b)
    ensures Payload(a) == Payload(b) <==> a == b.(salt := a.salt)
  {
    hide EncodeBody, ValidUtf8, RequiredReserve;
    if Payload(a) == Payload(b) {
      BodyInjective(BodyOf(a), BodyOf(b));
    }
  }

  // ---------------------------------------------------------------- splitting equal byte strings

  lemma SplitEqual(a: seq<Byte>, b: seq<Byte>, c: seq<Byte>, d: seq<Byte>)
    requires |a| == |c| && a + b == c + d
    ensures a == c && b == d
  {
    assert (a + b)[..|a|] == a && (c + d)[..|a|] == c;
    assert (a + b)[|a|..] == b && (c + d)[|a|..] == d;
  }

  lemma DigestBytesInjective(x: Digest32, y: Digest32)
    requires BigEndian(x, 32) == BigEndian(y, 32)
    ensures x == y
  {
    hide Pow256;
    Widths();
    IntegerRoundTrip(x, 32);
    IntegerRoundTrip(y, 32);
  }

  lemma U64BytesInjective(x: U64, y: U64)
    requires BigEndian(x, 8) == BigEndian(y, 8)
    ensures x == y
  {
    hide Pow256;
    Widths();
    IntegerRoundTrip(x, 8);
    IntegerRoundTrip(y, 8);
  }

  lemma {:induction false} DigestsInjective(a: seq<Digest32>, b: seq<Digest32>)
    requires Digests(a) == Digests(b)
    ensures a == b
  {
    hide BigEndian;
    assert |a| == |b|;
    if a != [] {
      SplitEqual(BigEndian(a[0], 32), Digests(a[1..]), BigEndian(b[0], 32), Digests(b[1..]));
      DigestBytesInjective(a[0], b[0]);
      DigestsInjective(a[1..], b[1..]);
      assert a == [a[0]] + a[1..] && b == [b[0]] + b[1..];
    }
  }
}
