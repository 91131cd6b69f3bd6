/**
 The hashed byte strings as tables of offsets: what stands where in the preimage of an order's, a
 cancellation's and an expiry command's commitment, of a public root, and in a manifest's body.
 */
module Layouts {
  import opened Orders
  import opened Formats
  import opened Wire
  import opened Depth
  import opened BookModel
  import opened ExpiryLaws
  import opened Commitments
  import opened Sharing

  // ---------------------------------------------------------------- the domains

  lemma OrderDomain()
    ensures Ascii(ORDER_COMMITMENT_DOMAIN)
         == [79, 67, 76, 79, 66, 58, 79, 82, 68, 69, 82, 45, 67, 79, 77, 77, 73, 84, 77, 69, 78, 84, 58, 118, 50]
  {
  }

  lemma CancellationDomain()
    ensures Ascii(CANCELLATION_COMMITMENT_DOMAIN)
         == [79, 67, 76, 79, 66, 58, 67, 65, 78, 67, 69, 76, 76, 65, 84, 73, 79, 78, 45, 67, 79, 77, 77, 73, 84, 77,
             69, 78, 84, 58, 118, 50]
  {
  }

  lemma ExpiryDomain()
    ensures Ascii(EXPIRY_COMMITMENT_DOMAIN)
         == [79, 67, 76, 79, 66, 58, 69, 88, 80, 73, 82, 89, 45, 67, 79, 77, 77, 73, 84, 77, 69, 78, 84, 58, 118, 50]
  {
  }

  lemma PublicDomain()
    ensures Ascii(PUBLIC_BOOK_DOMAIN)
         == [79, 67, 76, 79, 66, 58, 80, 85, 66, 76, 73, 67, 45, 66, 79, 79, 75, 58, 118, 50]
  {
  }

  lemma ManifestDomain()
    ensures Ascii(MANIFEST_DOMAIN)
         == [79, 67, 76, 79, 66, 58, 69, 68, 71, 69, 45, 77, 65, 78, 73, 70, 69, 83, 84, 58, 118, 50]
  {
  }

  // ---------------------------------------------------------------- reading lists

  ghost predicate DigestRow(s: seq<Byte>, at: nat, ds: seq<Digest32>) {
    at + 32 * |ds| <= |s| && forall k :: 0 <= k < |ds| ==> DigestAt(s, at + 32 * k) == ds[k]
  }

  lemma {:induction false} DigestsStart(s: seq<Byte>, at: nat, ds: seq<Digest32>)
    requires StartsWith(s, at, Digests(ds))
    ensures DigestRow(s, at, ds)
    decreases |ds|
  {
    hide BigEndian, DigestAt;
    if ds != [] {
      StartsWithConcat(s, at, BigEndian(ds[0], 32), Digests(ds[1..]));
      DigestStarts(s, at, ds[0]);
      DigestsStart(s, at + 32, ds[1..]);
      forall k | 0 <= k < |ds| ensures DigestAt(s, at + 32 * k) == ds[k] {
        if k > 0 {
          assert DigestAt(s, at + 32 + 32 * (k - 1)) == ds[1..][k - 1];
          assert at + 32 + 32 * (k - 1) == at + 32 * k;
        }
      }
    }
  }

  /** Three encodings to a row, 96 bytes a row. */
  ghost predicate PointRows(env: EdgeEnv, s: seq<Byte>, at: nat, rows: seq<seq<Encoding>>) {
    && at + 96 * |rows| <= |s|
    && (forall f :: 0 <= f < |rows| ==> |rows[f]| == 3)
    && forall f, k :: 0 <= f < |rows| && 0 <= k < 3 ==> DigestAt(s, at + 96 * f + 32 * k) == env.bytesOf(rows[f][k])
  }

  lemma EncodedRow(env: EdgeEnv, s: seq<Byte>, at: nat, row: seq<Encoding>)
    requires |row| == 3 && StartsWith(s, at, Digests(Encoded(env, row)))
    ensures at + 96 <= |s|
    ensures forall k :: 0 <= k < 3 ==> DigestAt(s, at + 32 * k) == env.bytesOf(row[k])
  {
    hide DigestAt, StartsWith, Digests;
    DigestsStart(s, at, Encoded(env, row));
    forall k | 0 <= k < 3 ensures DigestAt(s, at + 32 * k) == env.bytesOf(row[k]) {
      assert DigestAt(s, at + 32 * k) == Encoded(env, row)[k];
    }
  }

  lemma {:induction false} RowsStart(env: EdgeEnv, s: seq<Byte>, at: nat, rows: seq<seq<Encoding>>)
    requires StartsWith(s, at, RowsBytes(env, rows)) && forall f :: 0 <= f < |rows| ==> |rows[f]| == 3
    ensures PointRows(env, s, at, rows)
    decreases |rows|
  {
    hide Digests, DigestAt;
    if rows != [] {
      StartsWithConcat(s, at, Digests(Encoded(env, rows[0])), RowsBytes(env, rows[1..]));
      EncodedRow(env, s, at, rows[0]);
      RowsStart(env, s, at + 96, rows[1..]);
      forall f, k | 0 <= f < |rows| && 0 <= k < 3
        ensures DigestAt(s, at + 96 * f + 32 * k) == env.bytesOf(rows[f][k])
      {
        if f > 0 {
          assert DigestAt(s, at + 96 + 96 * (f - 1) + 32 * k) == env.bytesOf(rows[1..][f - 1][k]);
          assert at + 96 + 96 * (f - 1) + 32 * k == at + 96 * f + 32 * k;
        }
      }
    }
  }

  lemma {:induction false} RowsLength(env: EdgeEnv, rows: seq<seq<Encoding>>)
    requires forall f :: 0 <= f < |rows| ==> |rows[f]| == 3
    ensures |RowsBytes(env, rows)| == 96 * |rows|
  {
    hide Digests;
    if rows != [] {
      RowsLength(env, rows[1..]);
    }
  }

  /** Seventeen bytes a level: its side, 0 to buy and 1 to sell, its price and its quantity. */
  ghost predicate LevelRows(s: seq<Byte>, at: nat, levels: seq<PriceLevel>) {
    && at + 17 * |levels| <= |s|
    && forall i :: 0 <= i < |levels| ==> LevelAt(s, at + 17 * i, levels[i])
  }

  ghost predicate LevelAt(s: seq<Byte>, at: nat, l: PriceLevel) {
    && at + 17 <= |s| && s[at] == (if l.side == Buy then 0 else 1)
    && WordAt(s, at + 1) == l.price && WordAt(s, at + 9) == l.quantity
  }

  lemma LevelStarts(s: seq<Byte>, at: nat, l: PriceLevel)
    requires l.price <= U64_MAX && l.quantity <= U64_MAX && StartsWith(s, at, LevelBytes(l))
    ensures LevelAt(s, at, l)
  {
    hide BigEndian, StartsWith, WordAt;
    StartsWithConcat(s, at, [SideByte(l.side)], BigEndian(l.price, 8) + BigEndian(l.quantity, 8));
    StartsWithConcat(s, at + 1, BigEndian(l.price, 8), BigEndian(l.quantity, 8));
    ByteStarts(s, at, SideByte(l.side));
    WordStarts(s, at + 1, l.price);
    WordStarts(s, at + 9, l.quantity);
  }

  lemma {:induction false} LevelsStart(s: seq<Byte>, at: nat, levels: seq<PriceLevel>)
    requires FitLevels(levels) && StartsWith(s, at, LevelsBytes(levels))
    ensures LevelRows(s, at, levels)
    decreases |levels|
  {
    hide LevelBytes, LevelAt;
    if levels != [] {
      StartsWithConcat(s, at, LevelBytes(levels[0]), LevelsBytes(levels[1..]));
      LevelStarts(s, at, levels[0]);
      LevelsStart(s, at + 17, levels[1..]);
      forall i | 0 <= i < |levels| ensures LevelAt(s, at + 17 * i, levels[i]) {
        if i > 0 {
          assert LevelAt(s, at + 17 + 17 * (i - 1), levels[1..][i - 1]);
          assert at + 17 + 17 * (i - 1) == at + 17 * i;
        }
      }
    }
  }

  // ---------------------------------------------------------------- the book's commitments

  lemma Whole(s: seq<Byte>)
    ensures StartsWith(s, 0, s)
  {
    assert s[0..|s|] == s;
  }

  lemma Prefix(s: seq<Byte>, d: seq<Byte>)
    requires StartsWith(s, 0, d)
    ensures |d| <= |s| && s[..|d|] == d
  {
  }

  /** "OCLOB:ORDER-COMMITMENT:v2", the salt, and then the payload. */
  lemma OrderPreimageLayout(o: SecretOrder)
    requires |o.marketId| <= 64
    ensures var s := OrderPreimage(o);
            && |s| == 341 + |o.marketId|
            && s[..25] == [79, 67, 76, 79, 66, 58, 79, 82, 68, 69, 82, 45, 67, 79, 77, 77, 73, 84, 77, 69, 78, 84, 58,
                           118, 50]
            && DigestAt(s, 25) == o.salt && PayloadFormat(s, 57, o)
  {
    hide BigEndian, EncodeBody, DigestAt, PayloadFormat, StartsWith;
    var s, d := OrderPreimage(o), Ascii(ORDER_COMMITMENT_DOMAIN);
    Whole(s);
    WireLength(o);
    StartsWithConcat(s, 0, d, BigEndian(o.salt, 32) + Payload(o));
    StartsWithConcat(s, 25, BigEndian(o.salt, 32), Payload(o));
    OrderDomain();
    Prefix(s, d);
    DigestStarts(s, 25, o.salt);
    PayloadIsFormat(s, 57, o);
  }

  /** "OCLOB:CANCELLATION-COMMITMENT:v2", then the salt, the target, the secret and the nonce. */
  lemma CancellationPreimageLayout(c: SecretCancellation)
    ensures var s := CancellationPreimage(c);
            && |s| == 160
            && s[..32] == [79, 67, 76, 79, 66, 58, 67, 65, 78, 67, 69, 76, 76, 65, 84, 73, 79, 78, 45, 67, 79, 77, 77,
                           73, 84, 77, 69, 78, 84, 58, 118, 50]
            && DigestAt(s, 32) == c.salt && DigestAt(s, 64) == c.target
            && DigestAt(s, 96) == c.secret && DigestAt(s, 128) == c.nonce
  {
    hide Digests, DigestAt, StartsWith;
    var s, d := CancellationPreimage(c), Ascii(CANCELLATION_COMMITMENT_DOMAIN);
    var ds := [c.salt, c.target, c.secret, c.nonce];
    Whole(s);
    StartsWithConcat(s, 0, d, Digests(ds));
    CancellationDomain();
    Prefix(s, d);
    DigestsStart(s, 32, ds);
    assert ds[0] == DigestAt(s, 32 + 32 * 0) && ds[1] == DigestAt(s, 32 + 32 * 1);
    assert ds[2] == DigestAt(s, 32 + 32 * 2) && ds[3] == DigestAt(s, 32 + 32 * 3);
  }

  /** "OCLOB:EXPIRY-COMMITMENT:v2", the market after its length, the cutoff, the count and the sorted orders. */
  lemma ExpiryPreimageLayout(m: seq<Byte>, cutoff: U64, orders: seq<Digest32>) returns (ds: seq<Digest32>)
    requires |m| <= U64_MAX && |orders| <= U64_MAX
    ensures var s, n := ExpiryPreimage(m, cutoff, orders), 34 + |m|;
            && |s| == n + 16 + 32 * |orders|
            && s[..26] == [79, 67, 76, 79, 66, 58, 69, 88, 80, 73, 82, 89, 45, 67, 79, 77, 77, 73, 84, 77, 69, 78, 84,
                           58, 118, 50]
            && WordAt(s, 26) == |m| && s[34..n] == m && WordAt(s, n) == cutoff && WordAt(s, n + 8) == |orders|
            && multiset(ds) == multiset(orders) && Ascending(ds) && DigestRow(s, n + 16, ds)
  {
    hide BigEndian, Digests, DigestRow, SortDigests, WordAt, Ascending, NoRepeats;
    var s, d, n := ExpiryPreimage(m, cutoff, orders), Ascii(EXPIRY_COMMITMENT_DOMAIN), 34 + |m|;
    ds := SortDigests(orders);
    SortFacts(orders);
    SortKeeps(orders);
    assert |multiset(ds)| == |ds| && |multiset(orders)| == |orders|;
    var c := BigEndian(|orders|, 8) + Digests(ds);
    var b := BigEndian(cutoff, 8) + c;
    assert s == d + (BigEndian(|m|, 8) + (m + b));
    Whole(s);
    StartsWithConcat(s, 0, d, BigEndian(|m|, 8) + (m + b));
    StartsWithConcat(s, 26, BigEndian(|m|, 8), m + b);
    StartsWithConcat(s, 34, m, b);
    StartsWithConcat(s, n, BigEndian(cutoff, 8), c);
    StartsWithConcat(s, n + 8, BigEndian(|orders|, 8), Digests(ds));
    ExpiryDomain();
    Prefix(s, d);
    WordStarts(s, 26, |m|);
    WordStarts(s, n, cutoff);
    WordStarts(s, n + 8, |orders|);
    DigestsStart(s, n + 16, ds);
  }

  /** "OCLOB:PUBLIC-BOOK:v2", the market after its length, the sequence number and the levels in order. */
  lemma PublicPreimageLayout(m: seq<Byte>, sequence: U64, levels: seq<PriceLevel>)
    requires |m| <= U64_MAX && FitLevels(levels)
    ensures var s, n := PublicPreimage(m, sequence, levels), 28 + |m|;
            && |s| == n + 8 + 17 * |levels|
            && s[..20] == [79, 67, 76, 79, 66, 58, 80, 85, 66, 76, 73, 67, 45, 66, 79, 79, 75, 58, 118, 50]
            && WordAt(s, 20) == |m| && s[28..n] == m && WordAt(s, n) == sequence && LevelRows(s, n + 8, levels)
  {
    hide BigEndian, LevelsBytes, LevelRows, WordAt;
    var s, d, n := PublicPreimage(m, sequence, levels), Ascii(PUBLIC_BOOK_DOMAIN), 28 + |m|;
    var b := BigEndian(sequence, 8) + LevelsBytes(levels);
    assert s == d + (BigEndian(|m|, 8) + (m + b));
    Whole(s);
    StartsWithConcat(s, 0, d, BigEndian(|m|, 8) + (m + b));
    StartsWithConcat(s, 20, BigEndian(|m|, 8), m + b);
    StartsWithConcat(s, 28, m, b);
    StartsWithConcat(s, n, BigEndian(sequence, 8), LevelsBytes(levels));
    PublicDomain();
    Prefix(s, d);
    WordStarts(s, 20, |m|);
    WordStarts(s, n, sequence);
    LevelsStart(s, n + 8, levels);
  }

  // ---------------------------------------------------------------- the manifest

  lemma ShortStarts(s: seq<Byte>, at: nat, n: nat)
    requires n < 0x1_0000 && StartsWith(s, at, BigEndian(n, 2))
    ensures (s[at] as int) * 256 + s[at + 1] as int == n
  {
    assert BigEndian(n / 256, 1) == [(n / 256) % 256];
    assert BigEndian(n, 2) == [(n / 256) % 256, n % 256];
    assert s[at..at + 2][0] == s[at] && s[at..at + 2][1] == s[at + 1];
  }

  lemma FourStart(s: seq<Byte>, at: nat, m: Manifest)
    requires StartsWith(s, at, Digests(FourDigests(m)))
    ensures at + 128 <= |s|
    ensures DigestAt(s, at) == m.eligibilityCommitment && DigestAt(s, at + 32) == m.sourceOrderCommitment
    ensures DigestAt(s, at + 64) == m.reservationAdmissionDigest
    ensures DigestAt(s, at + 96) == m.settlementCapabilityCommitment
  {
    hide Digests, DigestAt, StartsWith;
    var ds := FourDigests(m);
    DigestsStart(s, at, ds);
    assert ds[0] == DigestAt(s, at + 32 * 0) && ds[1] == DigestAt(s, at + 32 * 1);
    assert ds[2] == DigestAt(s, at + 32 * 2) && ds[3] == DigestAt(s, at + 32 * 3);
  }

  /** "OCLOB:EDGE-MANIFEST:v2", the version, the market after its two-byte length, and the deadline. */
  ghost predicate ManifestHead(s: seq<Byte>, m: Manifest) {
    && |s| >= 34 + |m.marketId|
    && s[..22] == [79, 67, 76, 79, 66, 58, 69, 68, 71, 69, 45, 77, 65, 78, 73, 70, 69, 83, 84, 58, 118, 50]
    && (s[22] as int) * 256 + s[23] as int == m.version
    && (s[24] as int) * 256 + s[25] as int == |m.marketId|
    && s[26..26 + |m.marketId|] == m.marketId
    && WordAt(s, 26 + |m.marketId|) == m.retentionDeadline
  }

  lemma HeaderStarts(s: seq<Byte>, m: Manifest)
    requires m.version < 0x1_0000 && |m.marketId| < 0x1_0000 && StartsWith(s, 0, HeaderBytes(m))
    ensures ManifestHead(s, m)
  {
    hide BigEndian, WordAt, Ascii;
    var d, q := Ascii(MANIFEST_DOMAIN), 26 + |m.marketId|;
    var c := m.marketId + BigEndian(m.retentionDeadline, 8);
    var b := BigEndian(|m.marketId|, 2) + c;
    StartsWithConcat(s, 0, d, BigEndian(m.version, 2) + b);
    StartsWithConcat(s, 22, BigEndian(m.version, 2), b);
    StartsWithConcat(s, 24, BigEndian(|m.marketId|, 2), c);
    StartsWithConcat(s, 26, m.marketId, BigEndian(m.retentionDeadline, 8));
    ManifestDomain();
    Prefix(s, d);
    ShortStarts(s, 22, m.version);
    ShortStarts(s, 24, |m.marketId|);
    WordStarts(s, q, m.retentionDeadline);
  }

  /** Six rows of field commitments, the settlement flag, two rows of settlement commitments, the signer. */
  ghost predicate ManifestTail(env: EdgeEnv, s: seq<Byte>, at: nat, m: Manifest) {
    && |s| == at + 801
    && PointRows(env, s, at, m.fieldCommitments)
    && s[at + 576] == (if m.settlementProofEnabled then 1 else 0)
    && PointRows(env, s, at + 577, m.settlementFieldCommitments)
    && DigestAt(s, at + 769) == m.signer
  }

  lemma TrailerStarts(env: EdgeEnv, s: seq<Byte>, at: nat, m: Manifest)
    requires Shaped(m) && StartsWith(s, at, TrailerBytes(env, m)) && |s| == at + |TrailerBytes(env, m)|
    ensures ManifestTail(env, s, at, m)
  {
    hide BigEndian, RowsBytes, DigestAt, StartsWith, PointRows;
    var r := RowsBytes(env, m.settlementFieldCommitments);
    var b := r + BigEndian(m.signer, 32);
    RowsLength(env, m.fieldCommitments);
    RowsLength(env, m.settlementFieldCommitments);
    StartsWithConcat(s, at, RowsBytes(env, m.fieldCommitments), FlagByte(m) + b);
    StartsWithConcat(s, at + 576, FlagByte(m), b);
    StartsWithConcat(s, at + 577, r, BigEndian(m.signer, 32));
    RowsStart(env, s, at, m.fieldCommitments);
    RowsStart(env, s, at + 577, m.settlementFieldCommitments);
    ByteStarts(s, at + 576, if m.settlementProofEnabled then 1 else 0);
    DigestStarts(s, at + 769, m.signer);
  }

  /** Where each field of a manifest stands in the body whose digest is the order commitment. */
  lemma ManifestBodyLayout(env: EdgeEnv, m: Manifest)
    requires Shaped(m) && |m.marketId| < 0x1_0000
    ensures var s, q := BodyBytes(env, m), 34 + |m.marketId|;
            && |s| == q + 1025 && ManifestHead(s, m)
            && DigestAt(s, q) == m.eligibilityCommitment && DigestAt(s, q + 32) == m.sourceOrderCommitment
            && DigestAt(s, q + 64) == m.reservationAdmissionDigest
            && DigestAt(s, q + 96) == m.settlementCapabilityCommitment
            && (forall k :: 0 <= k < 3 ==> DigestAt(s, q + 128 + 32 * k) == env.bytesOf(m.settlementKeyCommitments[k]))
            && ManifestTail(env, s, q + 224, m)
  {
    hide DigestAt, StartsWith, Digests, HeaderBytes, TrailerBytes, ManifestHead, ManifestTail, Encoded;
    var s, q := BodyBytes(env, m), 34 + |m.marketId|;
    var keys, tail := Digests(Encoded(env, m.settlementKeyCommitments)), TrailerBytes(env, m);
    HeaderLength(m);
    Whole(s);
    StartsWithConcat(s, 0, HeaderBytes(m), Digests(FourDigests(m)) + (keys + tail));
    StartsWithConcat(s, q, Digests(FourDigests(m)), keys + tail);
    StartsWithConcat(s, q + 128, keys, tail);
    HeaderStarts(s, m);
    FourStart(s, q, m);
    EncodedRow(env, s, q + 128, m.settlementKeyCommitments);
    TrailerStarts(env, s, q + 224, m);
    TailLength(env, s, q + 224, m);
  }

  lemma HeaderLength(m: Manifest)
    ensures |HeaderBytes(m)| == 34 + |m.marketId|
  {
    hide BigEndian;
  }

  lemma TailLength(env: EdgeEnv, s: seq<Byte>, at: nat, m: Manifest)
    requires ManifestTail(env, s, at, m)
    ensures |s| == at + 801
  {
  }
}
