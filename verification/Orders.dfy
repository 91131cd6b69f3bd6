/**
 Orders, their authorities and the errors of the private book.

 A 32-byte digest is modelled by its big-endian value, so the byte order that the
 program sorts commitments by is the order of the numbers and the all-zero digest is 0.
 */
module Orders {

  const U32_MAX: nat := 0xFFFF_FFFF
  const U64_MAX: nat := 0xFFFF_FFFF_FFFF_FFFF

  type Byte = x: int | 0 <= x < 256
  type U64 = x: int | 0 <= x <= 0xFFFF_FFFF_FFFF_FFFF
  type Digest32 = x: int |
      0 <= x < 0x1_0000_0000_0000_0000_0000_0000_0000_0000_0000_0000_0000_0000_0000_0000_0000_0000

  datatype Option<+T> = None | Some(value: T)

  /** One constructor per message that the program's `Invalid` error carries. */
  datatype Reason =
    | MarketLength
    | NotPositive
    | ControlsRequired
    | ReserveOverflows
    | ReserveTooSmall
    | WireMalformed
    | WireVersion
    | WireMarketNotUtf8
    | WireSide
    | WireTimeInForce
    | WireTrailing
    | SequenceNotNext
    | OnlyGtcRests
    | ExpiryNotCanonical
    | ExpiredQuantityOverflowed

  datatype OrderError =
    | Invalid(reason: Reason)
    | Authority
    | Replay
    | InvalidMpcResult
    | WrongMarket
    | UnknownOrder
    | InvalidCancellation

  datatype Result<+T> = Success(value: T) | Failure(error: OrderError)

  datatype Side = Buy | Sell {
    function Opposite(): Side {
      if Buy? then Sell else Buy
    }
  }

  datatype TimeInForce = GoodTilCancelled | ImmediateOrCancel

  datatype SecretOrder = SecretOrder(
    version: nat,
    orderId: Digest32,
    ephemeralPublicKey: Digest32,
    marketId: seq<Byte>,
    side: Side,
    limitPrice: U64,
    quantity: U64,
    timeInForce: TimeInForce,
    expiresAt: U64,
    participantHandle: Digest32,
    dekyxNullifier: Digest32,
    reservationId: Digest32,
    reservationLimit: U64,
    minimumLot: U64,
    maxFee: U64,
    cancellationSecretDigest: Digest32,
    clientNonce: Digest32,
    salt: Digest32)

  datatype OrderControls = OrderControls(
    orderId: Digest32,
    ephemeralPublicKey: Digest32,
    dekyxNullifier: Digest32,
    reservationId: Digest32,
    reservationLimit: U64,
    minimumLot: U64,
    maxFee: U64,
    cancellationSecretDigest: Digest32)

  /** Well-formed UTF-8: no overlong form, no surrogate, nothing above U+10FFFF. */
  predicate ValidUtf8(s: seq<Byte>) {
    if s == [] then true
    else if s[0] < 0x80 then ValidUtf8(s[1..])
    else if 0xC2 <= s[0] <= 0xDF then
      |s| >= 2 && Continuation(s[1]) && ValidUtf8(s[2..])
    else if 0xE0 <= s[0] <= 0xEF then
      && |s| >= 3 && Continuation(s[1]) && Continuation(s[2])
      && (s[0] == 0xE0 ==> s[1] >= 0xA0) && (s[0] == 0xED ==> s[1] < 0xA0)
      && ValidUtf8(s[3..])
    else
      && 0xF0 <= s[0] <= 0xF4
      && |s| >= 4 && Continuation(s[1]) && Continuation(s[2]) && Continuation(s[3])
      && (s[0] == 0xF0 ==> s[1] >= 0x90) && (s[0] == 0xF4 ==> s[1] < 0x90)
      && ValidUtf8(s[4..])
  }

  predicate Continuation(b: Byte) {
    0x80 <= b < 0xC0
  }

  /** What a buyer pays, or a seller delivers, in the worst permitted fill. */
  function RequiredReserve(side: Side, limitPrice: nat, quantity: nat, maxFee: nat): nat {
    if side.Buy? then limitPrice * quantity + maxFee else quantity
  }

  /** What holds of every value of the order type, whose fields are private to its constructor. */
  predicate ValidOrder(o: SecretOrder) {
    && o.version == 2
    && 1 <= |o.marketId| <= 64 && ValidUtf8(o.marketId)
    && o.limitPrice > 0 && o.quantity > 0 && o.expiresAt > 0
    && o.participantHandle != 0 && o.clientNonce != 0 && o.salt != 0
    && o.orderId != 0 && o.ephemeralPublicKey != 0 && o.dekyxNullifier != 0
    && o.reservationId != 0 && o.cancellationSecretDigest != 0
    && o.minimumLot > 0 && o.quantity % o.minimumLot == 0
    && RequiredReserve(o.side, o.limitPrice, o.quantity, o.maxFee) <= o.reservationLimit
  }

  /**
   The validating constructor. The market is a string type in the program, so its bytes
   are UTF-8 before the call; everything else is checked here.
   */
  function NewWithControls(
    marketId: seq<Byte>, side: Side, limitPrice: U64, quantity: U64, timeInForce: TimeInForce,
    expiresAt: U64, participantHandle: Digest32, clientNonce: Digest32, salt: Digest32,
    controls: OrderControls): (r: Result<SecretOrder>)
    requires ValidUtf8(marketId)
    ensures r.Success? ==> ValidOrder(r.value)
    ensures var o := Assemble(marketId, side, limitPrice, quantity, timeInForce, expiresAt,
                              participantHandle, clientNonce, salt, controls);
            ValidOrder(o) <==> r == Success(o)
  {
    if |marketId| == 0 || |marketId| > 64 then
      Failure(Invalid(MarketLength))
    else if limitPrice == 0 || quantity == 0 || expiresAt == 0 then
      Failure(Invalid(NotPositive))
    else if
      || participantHandle == 0 || clientNonce == 0 || salt == 0
      || controls.orderId == 0 || controls.ephemeralPublicKey == 0
      || controls.dekyxNullifier == 0 || controls.reservationId == 0
      || controls.cancellationSecretDigest == 0
      || controls.minimumLot == 0 || quantity % controls.minimumLot != 0
    then
      Failure(Invalid(ControlsRequired))
    else
      // checked arithmetic: a buyer's reserve that does not fit in 64 bits is refused first
      var reserve := RequiredReserve(side, limitPrice, quantity, controls.maxFee);
      if reserve > U64_MAX then Failure(Invalid(ReserveOverflows))
      else if controls.reservationLimit < reserve then
        Failure(Invalid(ReserveTooSmall))
      else
        Success(Assemble(marketId, side, limitPrice, quantity, timeInForce, expiresAt,
                         participantHandle, clientNonce, salt, controls))
  }

  function Assemble(
    marketId: seq<Byte>, side: Side, limitPrice: U64, quantity: U64, timeInForce: TimeInForce,
    expiresAt: U64, participantHandle: Digest32, clientNonce: Digest32, salt: Digest32,
    controls: OrderControls): SecretOrder
  {
    SecretOrder(2, controls.orderId, controls.ephemeralPublicKey, marketId, side, limitPrice,
                quantity, timeInForce, expiresAt, participantHandle, controls.dekyxNullifier,
                controls.reservationId, controls.reservationLimit, controls.minimumLot,
                controls.maxFee, controls.cancellationSecretDigest, clientNonce, salt)
  }

  /**
   An order is made exactly when its market has 1 to 64 bytes, every number and digest that must be there
   is, the quantity is whole lots, and the reserve covers price times quantity and the fee for a buyer, or
   the quantity for a seller.
   */
  lemma NewOrderExactly(
    marketId: seq<Byte>, side: Side, limitPrice: U64, quantity: U64, timeInForce: TimeInForce,
    expiresAt: U64, participantHandle: Digest32, clientNonce: Digest32, salt: Digest32,
    controls: OrderControls)
    requires ValidUtf8(marketId)
    ensures var r := NewWithControls(marketId, side, limitPrice, quantity, timeInForce, expiresAt, participantHandle,
                                     clientNonce, salt, controls);
            var owed := limitPrice * quantity + controls.maxFee;
            && (r.Success? <==>
                  && 1 <= |marketId| <= 64 && limitPrice != 0 && quantity != 0 && expiresAt != 0
                  && 0 !in {participantHandle, clientNonce, salt, controls.orderId, controls.ephemeralPublicKey}
                  && 0 !in {controls.dekyxNullifier, controls.reservationId, controls.cancellationSecretDigest}
                  && controls.minimumLot != 0 && quantity / controls.minimumLot * controls.minimumLot == quantity
                  && (if side == Buy then owed else quantity) <= controls.reservationLimit)
            && (r == Failure(Invalid(MarketLength)) <==> |marketId| == 0 || |marketId| > 64)
            && (r == Failure(Invalid(ReserveOverflows)) ==> side == Buy && owed > 18446744073709551615)
            && (r == Failure(Invalid(ReserveTooSmall)) ==>
                  controls.reservationLimit < (if side == Buy then owed else quantity) <= 18446744073709551615)
  {
    if controls.minimumLot != 0 {
      WholeLots(quantity, controls.minimumLot);
    }
  }

  lemma WholeLots(quantity: nat, lot: nat)
    requires lot != 0
    ensures quantity % lot == 0 <==> quantity / lot * lot == quantity
  {
  }

  datatype OrderAuthority = OrderAuthority(
    commitment: Digest32,
    authorizationDeadline: U64,
    verifyingKey: Digest32,
    signature: seq<Byte>)

  datatype SecretCancellation = SecretCancellation(
    target: Digest32,
    secret: Digest32,
    nonce: Digest32,
    salt: Digest32)

  /**
   The hash commitments and the signature check the book relies on, as functions of
   what they are computed from. Nothing is assumed about them: every statement about
   the book holds for any hash, collisions included.
   */
  datatype Env = Env(
    orderCommitment: SecretOrder -> Digest32,
    cancellationCommitment: SecretCancellation -> Digest32,
    cancellationDigest: Digest32 -> Digest32,
    expiryCommitment: (seq<Byte>, U64, seq<Digest32>) -> Digest32,
    signatureValid: OrderAuthority -> bool)

  predicate AuthorityVerifies(env: Env, authority: OrderAuthority, order: SecretOrder, now: U64) {
    && now <= authority.authorizationDeadline
    && now <= order.expiresAt
    && authority.commitment == env.orderCommitment(order)
    && env.signatureValid(authority)
  }
}
