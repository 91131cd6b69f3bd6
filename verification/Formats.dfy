/**
 The private wire format as a table of offsets: where each field of an order sits, and which
 byte, number or digest must be there. Nothing here says how the bytes are produced or read.
 */
module Formats {
  import opened Orders

  /** The number that eight bytes spell, most significant byte first. */
  function WordAt(s: seq<Byte>, at: nat): nat
    requires at + 8 <= |s|
  {
    (s[at] as int) * 72057594037927936 + (s[at + 1] as int) * 281474976710656
    + (s[at + 2] as int) * 1099511627776 + (s[at + 3] as int) * 4294967296
    + (s[at + 4] as int) * 16777216 + (s[at + 5] as int) * 65536 + (s[at + 6] as int) * 256 + s[at + 7] as int
  }

  /** The number that thirty-two bytes spell, most significant byte first. */
  function DigestAt(s: seq<Byte>, at: nat): nat
    requires at + 32 <= |s|
  {
    WordAt(s, at) * 0x1_0000_0000_0000_0000_0000_0000_0000_0000_0000_0000_0000_0000
    + WordAt(s, at + 8) * 0x1_0000_0000_0000_0000_0000_0000_0000_0000
    + WordAt(s, at + 16) * 0x1_0000_0000_0000_0000 + WordAt(s, at + 24)
  }

  /** Version 2, the two identifiers, and the market after its length. */
  ghost predicate HeadFormat(s: seq<Byte>, at: nat, o: SecretOrder) {
    && at + 74 + |o.marketId| <= |s|
    && s[at] == 0 && s[at + 1] == 2
    && DigestAt(s, at + 2) == o.orderId && DigestAt(s, at + 34) == o.ephemeralPublicKey
    && WordAt(s, at + 66) == |o.marketId| && s[at + 74..at + 74 + |o.marketId|] == o.marketId
  }

  /** The side is 0 to buy and 1 to sell; the lifetime is 1 good-til-cancelled and 2 immediate-or-cancel. */
  ghost predicate TermsFormat(s: seq<Byte>, at: nat, side: Side, limitPrice: nat, quantity: nat, time: TimeInForce,
                              expiresAt: nat)
  {
    && at + 26 <= |s|
    && s[at] == (if side == Buy then 0 else 1)
    && WordAt(s, at + 1) == limitPrice && WordAt(s, at + 9) == quantity
    && s[at + 17] == (if time == GoodTilCancelled then 1 else 2)
    && WordAt(s, at + 18) == expiresAt
  }

  ghost predicate OwnerFormat(s: seq<Byte>, at: nat, o: SecretOrder) {
    && at + 96 <= |s|
    && DigestAt(s, at) == o.participantHandle && DigestAt(s, at + 32) == o.dekyxNullifier
    && DigestAt(s, at + 64) == o.reservationId
  }

  ghost predicate LimitsFormat(s: seq<Byte>, at: nat, o: SecretOrder) {
    && at + 88 <= |s|
    && WordAt(s, at) == o.reservationLimit && WordAt(s, at + 8) == o.minimumLot && WordAt(s, at + 16) == o.maxFee
    && DigestAt(s, at + 24) == o.cancellationSecretDigest && DigestAt(s, at + 56) == o.clientNonce
  }

  /** The payload of an order from `at` on, `284 + |market|` bytes long. */
  ghost predicate PayloadFormat(s: seq<Byte>, at: nat, o: SecretOrder) {
    var n := at + 74 + |o.marketId|;
    && HeadFormat(s, at, o) && TermsFormat(s, n, o.side, o.limitPrice, o.quantity, o.timeInForce, o.expiresAt)
    && OwnerFormat(s, n + 26, o) && LimitsFormat(s, n + 122, o)
  }

  /** The whole frame: "OCLOBOR2", the payload's length, the payload and the salt, and nothing else. */
  ghost predicate OrderFormat(s: seq<Byte>, o: SecretOrder) {
    && |s| == 332 + |o.marketId|
    && s[..8] == [79, 67, 76, 79, 66, 79, 82, 50]
    && WordAt(s, 8) == 284 + |o.marketId|
    && PayloadFormat(s, 16, o)
    && DigestAt(s, 300 + |o.marketId|) == o.salt
  }
}
