/**
 Decimal text of numbers: the hand-written conversion of a 32-byte little-endian scalar
 through limbs of nine decimal digits, and what canonical decimal text is.
 */
module Decimal {
  import opened Orders
  import opened Formats

  const BASE: nat := 1_000_000_000

  /** The integer that little-endian bytes spell. */
  function LittleEndian(bytes: seq<Byte>): nat {
    if bytes == [] then 0 else bytes[0] + 256 * LittleEndian(bytes[1..])
  }

  /** The integer that limbs spell, the least significant first. */
  function LimbValue(limbs: seq<nat>): nat {
    if limbs == [] then 0 else limbs[0] + BASE * LimbValue(limbs[1..])
  }

  function Backwards(bytes: seq<Byte>): (r: seq<Byte>)
    ensures |r| == |bytes| && forall i :: 0 <= i < |r| ==> r[i] == bytes[|bytes| - 1 - i]
  {
    seq(|bytes|, i requires 0 <= i < |bytes| => bytes[|bytes| - 1 - i])
  }

  /** Eight bytes at a time, and each time the lowest first. */
  lemma LowWord(bytes: seq<Byte>)
    requires |bytes| >= 8
    ensures LittleEndian(bytes) == WordAt(Backwards(bytes[..8]), 0) + 0x1_0000_0000_0000_0000 * LittleEndian(bytes[8..])
  {
    assert bytes[1..][1..] == bytes[2..] && bytes[2..][1..] == bytes[3..] && bytes[3..][1..] == bytes[4..];
    assert bytes[4..][1..] == bytes[5..] && bytes[5..][1..] == bytes[6..] && bytes[6..][1..] == bytes[7..];
    assert bytes[7..][1..] == bytes[8..];
    assert LittleEndian(bytes[6..]) == bytes[6] + 256 * (bytes[7] + 256 * LittleEndian(bytes[8..]));
    assert LittleEndian(bytes[4..]) == bytes[4] + 256 * (bytes[5] + 256 * LittleEndian(bytes[6..]));
    assert LittleEndian(bytes[2..]) == bytes[2] + 256 * (bytes[3] + 256 * LittleEndian(bytes[4..]));
  }

  /** The number of a scalar's 32 bytes is the one they spell read backwards, most significant first. */
  lemma LittleEndianSpells(bytes: seq<Byte>)
    requires |bytes| == 32
    ensures LittleEndian(bytes) == DigestAt(Backwards(bytes), 0)
  {
    hide LittleEndian, WordAt;
    var b, c, d := bytes[8..], bytes[16..], bytes[24..];
    assert b[8..] == c && c[8..] == d && d[8..] == [];
    LowWord(bytes);
    LowWord(b);
    LowWord(c);
    LowWord(d);
    BackwardsWord(bytes, 0);
    BackwardsWord(bytes, 8);
    BackwardsWord(bytes, 16);
    BackwardsWord(bytes, 24);
    assert b[..8] == bytes[8..16] && c[..8] == bytes[16..24] && d[..8] == bytes[24..32] && bytes[..8] == bytes[0..8];
    NoBytes();
  }

  lemma NoBytes()
    ensures LittleEndian([]) == 0
  {
  }

  lemma BackwardsWord(bytes: seq<Byte>, at: nat)
    requires |bytes| == 32 && at + 8 <= 32
    ensures WordAt(Backwards(bytes[at..at + 8]), 0) == WordAt(Backwards(bytes), 24 - at)
  {
  }

  // ---------------------------------------------------------------- canonical decimal text

  predicate IsDigit(c: char) {
    '0' <= c <= '9'
  }

  function DigitValue(c: char): (d: nat)
    requires IsDigit(c)
    ensures d < 10
  {
    c as int - '0' as int
  }

  function DigitChar(d: nat): (c: char)
    requires d < 10
    ensures IsDigit(c) && DigitValue(c) == d
  {
    ('0' as int + d) as char
  }

  predicate AllDigits(s: string) {
    forall i :: 0 <= i < |s| ==> IsDigit(s[i])
  }

  function DecimalValue(s: string): nat
    requires AllDigits(s)
  {
    if s == [] then 0 else 10 * DecimalValue(s[..|s| - 1]) + DigitValue(s[|s| - 1])
  }

  /** No sign, no leading zero, at least one digit. */
  ghost predicate IsDecimal(s: string) {
    s != [] && AllDigits(s) && (s[0] == '0' ==> |s| == 1)
  }

  function ToDecimal(n: nat): (s: string)
    ensures s != []
  {
    if n < 10 then [DigitChar(n)] else ToDecimal(n / 10) + [DigitChar(n % 10)]
  }

  lemma {:induction false} ToDecimalFacts(n: nat)
    ensures IsDecimal(ToDecimal(n)) && DecimalValue(ToDecimal(n)) == n
    ensures n > 0 ==> ToDecimal(n)[0] != '0'
  {
    var s := ToDecimal(n);
    if n < 10 {
      assert s[..0] == [];
    } else {
      ToDecimalFacts(n / 10);
      assert s[..|s| - 1] == ToDecimal(n / 10);
    }
  }

  lemma {:induction false} DecimalPositive(s: string)
    requires AllDigits(s) && s != [] && s[0] != '0'
    ensures DecimalValue(s) > 0
  {
    if |s| > 1 {
      DecimalPositive(s[..|s| - 1]);
    }
  }

  /** Canonical text is the text of its value and of no other number. */
  lemma {:induction false} DecimalUnique(s: string)
    requires IsDecimal(s)
    ensures s == ToDecimal(DecimalValue(s))
  {
    var n := DecimalValue(s);
    var head, last := s[..|s| - 1], DigitValue(s[|s| - 1]);
    assert s == head + [s[|s| - 1]];
    assert DigitChar(last) == s[|s| - 1];
    if |s| == 1 {
      assert head == [];
    } else {
      DecimalPositive(head);
      DecimalUnique(head);
      var h := DecimalValue(head);
      assert n == 10 * h + last && n / 10 == h && n % 10 == last;
    }
  }

  // ---------------------------------------------------------------- joining digits

  function Pow10(k: nat): (r: nat)
    ensures r > 0
  {
    if k == 0 then 1 else 10 * Pow10(k - 1)
  }

  lemma {:induction false} JoinDigits(a: string, b: string)
    requires AllDigits(a) && AllDigits(b)
    ensures AllDigits(a + b) && DecimalValue(a + b) == DecimalValue(a) * Pow10(|b|) + DecimalValue(b)
  {
    if b == [] {
      assert a + b == a;
    } else {
      var n := |b| - 1;
      assert (a + b)[..|a + b| - 1] == a + b[..n];
      JoinDigits(a, b[..n]);
      TimesTen(DecimalValue(a), Pow10(n), DecimalValue(b[..n]));
    }
  }

  lemma TimesTen(v: nat, q: nat, d: nat)
    ensures 10 * (v * q + d) == v * (10 * q) + 10 * d
  {
  }

  lemma {:induction false} DecimalLength(n: nat, k: nat)
    requires k > 0 && n < Pow10(k)
    ensures |ToDecimal(n)| <= k
  {
    assert Pow10(1) == 10 * Pow10(0);
    if n >= 10 {
      DecimalLength(n / 10, k - 1);
    }
  }

  lemma BaseIsPow10()
    ensures Pow10(9) == BASE
  {
    assert Pow10(3) == 1000 by {
      assert Pow10(1) == 10 * Pow10(0);
      assert Pow10(2) == 10 * Pow10(1);
    }
    assert Pow10(6) == 1_000_000 by {
      assert Pow10(4) == 10 * Pow10(3);
      assert Pow10(5) == 10 * Pow10(4);
    }
    assert Pow10(7) == 10 * Pow10(6);
    assert Pow10(8) == 10 * Pow10(7);
  }

  /** Left-padding with zeros to nine places. */
  function PadLeft(s: string): (r: string)
    ensures |s| <= 9 ==> |r| == 9
    decreases 9 - |s|
  {
    if |s| >= 9 then s else PadLeft("0" + s)
  }

  lemma {:induction false} PadKeepsValue(s: string)
    requires AllDigits(s)
    ensures AllDigits(PadLeft(s)) && DecimalValue(PadLeft(s)) == DecimalValue(s)
    decreases 9 - |s|
  {
    if |s| < 9 {
      JoinDigits("0", s);
      assert "0"[..0] == [];
      assert DecimalValue("0") == 0;
      PadKeepsValue("0" + s);
    }
  }

  /** Appending a limb in nine places multiplies by the base and adds the limb. */
  lemma AppendLimb(output: string, limb: nat)
    requires AllDigits(output) && limb < BASE
    ensures AllDigits(output + PadLeft(ToDecimal(limb)))
    ensures DecimalValue(output + PadLeft(ToDecimal(limb))) == BASE * DecimalValue(output) + limb
  {
    BaseIsPow10();
    ToDecimalFacts(limb);
    DecimalLength(limb, 9);
    PadKeepsValue(ToDecimal(limb));
    JoinDigits(output, PadLeft(ToDecimal(limb)));
  }

  // ---------------------------------------------------------------- limbs

  ghost predicate Limbs(limbs: seq<nat>) {
    forall i :: 0 <= i < |limbs| ==> limbs[i] < BASE
  }

  function CarryLimbs(carry: nat): seq<nat> {
    if carry == 0 then [] else [carry % BASE] + CarryLimbs(carry / BASE)
  }

  /** Multiplying limbs by 256 and adding a carry. */
  ghost function Shift(limbs: seq<nat>, carry: nat): seq<nat> {
    if limbs == [] then CarryLimbs(carry)
    else
      var next := limbs[0] * 256 + carry;
      [next % BASE] + Shift(limbs[1..], next / BASE)
  }

  lemma {:induction false} CarryLimbsFacts(carry: nat)
    ensures LimbValue(CarryLimbs(carry)) == carry && Limbs(CarryLimbs(carry))
  {
    if carry > 0 {
      CarryLimbsFacts(carry / BASE);
      assert CarryLimbs(carry)[1..] == CarryLimbs(carry / BASE);
    }
  }

  lemma {:induction false} ShiftFacts(limbs: seq<nat>, carry: nat)
    requires Limbs(limbs)
    ensures LimbValue(Shift(limbs, carry)) == 256 * LimbValue(limbs) + carry && Limbs(Shift(limbs, carry))
  {
    if limbs == [] {
      CarryLimbsFacts(carry);
    } else {
      var next := limbs[0] * 256 + carry;
      ShiftFacts(limbs[1..], next / BASE);
      assert Shift(limbs, carry)[1..] == Shift(limbs[1..], next / BASE);
    }
  }

  lemma ShiftStep(limbs: seq<nat>, i: nat, carry: nat)
    requires i < |limbs|
    ensures var next := limbs[i] * 256 + carry;
            Shift(limbs[i..], carry) == [next % BASE] + Shift(limbs[i + 1..], next / BASE)
  {
    assert limbs[i..][1..] == limbs[i + 1..];
  }

  /**
   One byte: every limb is multiplied by 256 in place with the carry of the one before. The
   carry stays below 256, every intermediate value fits in 64 bits and every limb in 32.
   */
  method MultiplyAdd(limbs: seq<nat>, byte: Byte) returns (r: seq<nat>)
    requires Limbs(limbs)
    ensures r == Shift(limbs, byte)
    ensures Limbs(r) && LimbValue(r) == 256 * LimbValue(limbs) + byte
  {
    hide Shift, CarryLimbs, LimbValue;
    ShiftFacts(limbs, byte);
    r := limbs;
    var carry: nat := byte;
    assert limbs[0..] == limbs;
    for i := 0 to |limbs|
      invariant |r| == |limbs| && carry < 256
      invariant r[i..] == limbs[i..]
      invariant r[..i] + Shift(limbs[i..], carry) == Shift(limbs, byte)
    {
      assert r[i] == r[i..][0] == limbs[i];
      var next := r[i] * 256 + carry;
      assert next <= U64_MAX && next % BASE <= U32_MAX;
      ShiftStep(limbs, i, carry);
      ghost var done := r[..i];
      r := r[i := next % BASE];
      carry := next / BASE;
      assert r[..i + 1] == done + [next % BASE];
    }
    ShiftEnd(limbs, carry);
    ghost var low, total := r, carry;
    assert r[..|limbs|] == r;
    while carry != 0
      invariant r + CarryLimbs(carry) == low + CarryLimbs(total)
    {
      CarryStep(carry);
      r := r + [carry % BASE];
      carry := carry / BASE;
    }
    CarryEnd();
  }

  lemma ShiftEnd(limbs: seq<nat>, carry: nat)
    ensures Shift(limbs[|limbs|..], carry) == CarryLimbs(carry)
  {
    assert limbs[|limbs|..] == [];
  }

  lemma CarryStep(carry: nat)
    requires carry > 0
    ensures CarryLimbs(carry) == [carry % BASE] + CarryLimbs(carry / BASE)
  {
  }

  lemma CarryEnd()
    ensures CarryLimbs(0) == []
  {
  }

  lemma {:induction false} LimbsWithTop(limbs: seq<nat>)
    ensures LimbValue(limbs + [0]) == LimbValue(limbs)
  {
    if limbs == [] {
      SingleLimb(0);
      assert limbs + [0] == [0];
      assert LimbValue([]) == 0;
    } else {
      assert (limbs + [0])[1..] == limbs[1..] + [0];
      LimbsWithTop(limbs[1..]);
    }
  }

  method ToLimbs(bytes: seq<Byte>) returns (limbs: seq<nat>)
    ensures limbs != [] && Limbs(limbs) && LimbValue(limbs) == LittleEndian(bytes)
    ensures |limbs| > 1 ==> limbs[|limbs| - 1] != 0
  {
    hide Shift, LimbValue;
    limbs := [0];
    SingleLimb(0);
    for n := |bytes| downto 0
      invariant limbs != [] && Limbs(limbs) && LimbValue(limbs) == LittleEndian(bytes[n..])
    {
      assert bytes[n..][1..] == bytes[n + 1..];
      ShiftFacts(limbs, bytes[n]);
      ShiftNonempty(limbs, bytes[n]);
      limbs := MultiplyAdd(limbs, bytes[n]);
    }
    assert bytes[0..] == bytes;
    while |limbs| > 1 && limbs[|limbs| - 1] == 0
      invariant limbs != [] && Limbs(limbs) && LimbValue(limbs) == LittleEndian(bytes)
    {
      var fewer := limbs[..|limbs| - 1];
      assert limbs == fewer + [0];
      LimbsWithTop(fewer);
      limbs := fewer;
    }
  }

  lemma SingleLimb(n: nat)
    ensures LimbValue([n]) == n
  {
    var one: seq<nat> := [n];
    assert one[1..] == [];
    assert LimbValue([]) == 0;
  }

  lemma ShiftNonempty(limbs: seq<nat>, carry: nat)
    requires limbs != []
    ensures Shift(limbs, carry) != []
  {
  }

  lemma LimbStep(limbs: seq<nat>, i: nat)
    requires i < |limbs|
    ensures LimbValue(limbs[i..]) == limbs[i] + BASE * LimbValue(limbs[i + 1..])
  {
    assert limbs[i..][1..] == limbs[i + 1..];
  }

  /**
   The decimal text of a little-endian integer: canonical, and of exactly that value. By
   `DecimalUnique` there is only one such text.
   */
  method ScalarLeBytesToDecimal(bytes: seq<Byte>) returns (output: string)
    ensures IsDecimal(output) && DecimalValue(output) == LittleEndian(bytes)
  {
    hide LimbValue;
    var limbs := ToLimbs(bytes);
    var top := |limbs| - 1;
    output := ToDecimal(limbs[top]);
    ToDecimalFacts(limbs[top]);
    LimbStep(limbs, top);
    NoLimbs(limbs);
    for i := top downto 0
      invariant IsDecimal(output) && (i < top ==> output[0] != '0')
      invariant limbs[top] > 0 ==> output[0] != '0'
      invariant DecimalValue(output) == LimbValue(limbs[i..])
    {
      LimbStep(limbs, i);
      AppendLimb(output, limbs[i]);
      output := output + PadLeft(ToDecimal(limbs[i]));
    }
    assert limbs[0..] == limbs;
  }

  lemma NoLimbs(limbs: seq<nat>)
    ensures LimbValue(limbs[|limbs|..]) == 0
  {
    assert limbs[|limbs|..] == [];
  }
}
