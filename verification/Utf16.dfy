/** decodeUTF16LE: surrogate arithmetic and the round trip with the encoding of
    sections 2.1 and 2.2 of RFC 2781. */
module Utf16 {

  newtype Byte = b: int | 0 <= b < 256

  // ----- machine words -----

  /** Bitwise or. */
  function BitOr(a: nat, b: nat): nat
    decreases a + b
  {
    if a == 0 && b == 0 then 0
    else (if a % 2 == 1 || b % 2 == 1 then 1 else 0) + 2 * BitOr(a / 2, b / 2)
  }

  function Power(k: nat): (r: nat)
    ensures r > 0
  {
    if k == 0 then 1 else 2 * Power(k - 1)
  }

  /** Left shift in a word of the given number of bits. */
  function Shift(a: nat, k: nat, bits: nat): nat { (a * Power(k)) % Power(bits) }

  lemma {:induction false} OrZero(a: nat)
    ensures BitOr(a, 0) == a && BitOr(0, a) == a
  {
    if a > 0 { OrZero(a / 2); }
  }

  lemma EvenPart(a: nat, p: nat)
    ensures (a * (2 * p)) % 2 == 0 && (a * (2 * p)) / 2 == a * p
  {
    assert a * (2 * p) == 2 * (a * p);
  }

  /** Or of words without a common bit is their sum. */
  lemma {:induction false} OrDisjoint(a: nat, b: nat, k: nat)
    requires b < Power(k)
    ensures BitOr(a * Power(k), b) == a * Power(k) + b
    ensures BitOr(b, a * Power(k)) == a * Power(k) + b
    decreases k
  {
    if k == 0 {
      OrZero(a);
    } else {
      EvenPart(a, Power(k - 1));
      OrDisjoint(a, b / 2, k - 1);
    }
  }

  lemma Powers()
    ensures Power(8) == 0x100 && Power(10) == 0x400 && Power(16) == 0x1_0000 && Power(32) == 0x1_0000_0000
  {
    assert Power(4) == 16;
    assert Power(8) == 0x100;
    assert Power(10) == 0x400;
    assert Power(12) == 0x1000;
    assert Power(16) == 0x1_0000;
    assert Power(20) == 0x10_0000;
    assert Power(24) == 0x100_0000;
    assert Power(28) == 0x1000_0000;
  }

  /** uint16(lo) | uint16(hi)<<8 */
  function Unit(lo: Byte, hi: Byte): nat { BitOr(lo as nat, Shift(hi as nat, 8, 16)) }

  /** rune((uint32(unit)-0xD800)<<10 | (uint32(low)-0xDC00) + 0x10000), where the or
      and the sum associate to the left. */
  function Pair(unit: nat, low: nat): nat
    requires 0xD800 <= unit <= 0xDBFF && 0xDC00 <= low <= 0xDFFF
  {
    (BitOr(Shift(unit - 0xD800, 10, 32), low - 0xDC00) + 0x1_0000) % Power(32)
  }

  lemma SmallModulus(a: nat, m: nat)
    requires a < m
    ensures a % m == a
  {
  }

  lemma UnitIs(lo: Byte, hi: Byte)
    ensures Unit(lo, hi) == lo as int + 256 * hi as int
  {
    hide Power, BitOr;
    Powers();
    SmallModulus(hi as int * Power(8), Power(16));
    OrDisjoint(hi as nat, lo as nat, 8);
  }

  /** The expression is the arithmetic definition of a surrogate pair. */
  lemma PairIs(unit: nat, low: nat)
    requires 0xD800 <= unit <= 0xDBFF && 0xDC00 <= low <= 0xDFFF
    ensures Pair(unit, low) == 0x1_0000 + (unit - 0xD800) * 0x400 + (low - 0xDC00)
  {
    hide Power, BitOr;
    Powers();
    var a: nat, b: nat := unit - 0xD800, low - 0xDC00;
    SmallModulus(a * Power(10), Power(32));
    OrDisjoint(a, b, 10);
    SmallModulus(a * 0x400 + b + 0x1_0000, Power(32));
  }

  lemma UnitBound(lo: Byte, hi: Byte)
    ensures Unit(lo, hi) < 0x1_0000
  {
    hide Unit;
    UnitIs(lo, hi);
  }

  lemma PairBound(unit: nat, low: nat)
    requires IsHigh(unit) && IsLow(low)
    ensures Pair(unit, low) < 0x11_0000
  {
    hide Pair;
    PairIs(unit, low);
  }

  // ----- decoding -----

  /** The conversion of a rune to text: surrogates become U+FFFD. */
  function Rune(n: nat): char
    requires n < 0x11_0000
  {
    if 0xD800 <= n <= 0xDFFF then '\U{FFFD}' else n as char
  }

  datatype Decoded = Raw(data: seq<Byte>) | Decoded(text: string)

  predicate IsHigh(u: nat) { 0xD800 <= u <= 0xDBFF }

  predicate IsLow(u: nat) { 0xDC00 <= u <= 0xDFFF }

  /** Code unit i of the data. */
  function UnitAt(data: seq<Byte>, i: nat): (u: nat)
    requires 2 * i + 1 < |data|
    ensures u < 0x1_0000
  {
    UnitBound(data[2 * i], data[2 * i + 1]);
    Unit(data[2 * i], data[2 * i + 1])
  }

  /** The text of the code units from i on. */
  function TextFrom(data: seq<Byte>, i: nat): string
    requires 2 * i <= |data|
    decreases |data| - 2 * i
  {
    hide UnitAt, Pair, Rune, BitOr, Shift, Power;
    if 2 * i + 1 >= |data| then ""
    else
      var unit := UnitAt(data, i);
      if IsHigh(unit) && 2 * i + 3 < |data| && IsLow(UnitAt(data, i + 1)) then
        PairBound(unit, UnitAt(data, i + 1));
        [Rune(Pair(unit, UnitAt(data, i + 1)))] + TextFrom(data, i + 2)
      else [Rune(unit)] + TextFrom(data, i + 1)
  }

  function Decode(data: seq<Byte>): Decoded {
    if |data| % 2 != 0 || |data| == 0 then Raw(data) else Decoded(TextFrom(data, 0))
  }

  /** One step of the decoding. */
  lemma TextStep(data: seq<Byte>, i: nat)
    requires 2 * i + 1 < |data|
    ensures
      var unit := UnitAt(data, i);
      if IsHigh(unit) && 2 * i + 3 < |data| && IsLow(UnitAt(data, i + 1)) then
        Pair(unit, UnitAt(data, i + 1)) < 0x11_0000 && TextFrom(data, i) == [Rune(Pair(unit, UnitAt(data, i + 1)))] + TextFrom(data, i + 2)
      else TextFrom(data, i) == [Rune(unit)] + TextFrom(data, i + 1)
  {
    hide UnitAt, Pair, Rune, BitOr, Shift, Power;
    if IsHigh(UnitAt(data, i)) && 2 * i + 3 < |data| && IsLow(UnitAt(data, i + 1)) { PairBound(UnitAt(data, i), UnitAt(data, i + 1)); }
  }

  lemma TextEnd(data: seq<Byte>, i: nat)
    requires |data| <= 2 * i + 1 && 2 * i <= |data|
    ensures TextFrom(data, i) == ""
  {
  }

  /** decodeUTF16LE */
  method DecodeUtf16le(data: seq<Byte>) returns (r: Decoded)
    ensures r == Decode(data)
  {
    hide UnitAt, Pair, Rune, BitOr, Shift, Power, TextFrom, Unit;
    if |data| % 2 != 0 || |data| == 0 { return Raw(data); }
    var runes := "";
    var index := 0;
    ghost var i := 0;
    assert "" + TextFrom(data, 0) == TextFrom(data, 0);
    while index + 1 < |data|
      invariant index == 2 * i <= |data|
      invariant TextFrom(data, 0) == runes + TextFrom(data, i)
      decreases |data| - index
    {
      var unit := Unit(data[index], data[index + 1]);
      UnitHere(data, i);
      TextStep(data, i);
      if IsHigh(unit) && index + 3 < |data| {
        var low := Unit(data[index + 2], data[index + 3]);
        UnitHere(data, i + 1);
        if IsLow(low) {
          PairBound(unit, low);
          Longer(runes, Rune(Pair(unit, low)), TextFrom(data, i + 2));
          runes := runes + [Rune(Pair(unit, low))];
          index := index + 4;
          i := i + 2;
          continue;
        }
      }
      Longer(runes, Rune(unit), TextFrom(data, i + 1));
      runes := runes + [Rune(unit)];
      index := index + 2;
      i := i + 1;
    }
    TextEnd(data, i);
    assert runes + "" == runes;
    return Decoded(runes);
  }

  lemma UnitHere(data: seq<Byte>, i: nat)
    requires 2 * i + 1 < |data|
    ensures UnitAt(data, i) == Unit(data[2 * i], data[2 * i + 1]) < 0x1_0000
  {
  }

  lemma Longer(a: string, c: char, b: string)
    ensures a + ([c] + b) == a + [c] + b
  {
  }

  // ----- encoding -----

  function Little(u: nat): (r: seq<Byte>)
    requires u < 0x1_0000
    ensures |r| == 2
  {
    [(u % 256) as Byte, (u / 256) as Byte]
  }

  /** The code units of a scalar value, least significant byte first. */
  function EncodeChar(c: char): (r: seq<Byte>)
    ensures |r| == 2 || |r| == 4
  {
    var n := c as int;
    if n < 0x1_0000 then Little(n)
    else
      var m := n - 0x1_0000;
      Little(0xD800 + m / 0x400) + Little(0xDC00 + m % 0x400)
  }

  function Encode(s: string): (r: seq<Byte>)
    ensures |r| % 2 == 0
  {
    if s == "" then [] else EncodeChar(s[0]) + Encode(s[1..])
  }

  lemma LittleUnit(u: nat)
    requires u < 0x1_0000
    ensures Unit(Little(u)[0], Little(u)[1]) == u
  {
    hide Unit;
    UnitIs(Little(u)[0], Little(u)[1]);
  }

  lemma UnitOf(data: seq<Byte>, i: nat, u: nat)
    requires u < 0x1_0000 && 2 * i + 1 < |data| && data[2 * i] == Little(u)[0] && data[2 * i + 1] == Little(u)[1]
    ensures UnitAt(data, i) == u
  {
    hide Unit, Little, UnitAt;
    UnitHere(data, i);
    LittleUnit(u);
  }

  /** The character at code unit i is read back, and what follows it. */
  lemma CharAt(data: seq<Byte>, i: nat, c: char)
    requires 2 * i + |EncodeChar(c)| <= |data| && data[2 * i..2 * i + |EncodeChar(c)|] == EncodeChar(c)
    ensures TextFrom(data, i) == [c] + TextFrom(data, i + |EncodeChar(c)| / 2)
  {
    hide UnitAt, Pair, BitOr, Shift, Power, Little;
    var n, e := c as int, EncodeChar(c);
    assert forall k :: 0 <= k < |e| ==> data[2 * i + k] == e[k];
    if n < 0x1_0000 {
      UnitOf(data, i, n);
    } else {
      var m := n - 0x1_0000;
      var unit, low := 0xD800 + m / 0x400, 0xDC00 + m % 0x400;
      assert e[2] == Little(low)[0] && e[3] == Little(low)[1];
      assert data[2 * (i + 1)] == e[2] && data[2 * (i + 1) + 1] == e[3];
      UnitOf(data, i, unit);
      UnitOf(data, i + 1, low);
      PairIs(unit, low);
    }
  }

  lemma {:induction false} TextEncode(s: string, tail: seq<Byte>, data: seq<Byte>, i: nat)
    requires 2 * i <= |data| && data[2 * i..] == Encode(s) + tail
    ensures TextFrom(data, i) == s + TextFrom(data, i + |Encode(s)| / 2)
    decreases |s|
  {
    hide EncodeChar, TextFrom;
    if s == "" {
      assert "" + TextFrom(data, i) == TextFrom(data, i);
    } else {
      var e := EncodeChar(s[0]);
      var d := data[2 * i..];
      assert d == e + (Encode(s[1..]) + tail);
      assert d[..|e|] == e && d[|e|..] == Encode(s[1..]) + tail;
      assert data[2 * i..2 * i + |e|] == d[..|e|];
      assert data[2 * (i + |e| / 2)..] == d[|e|..];
      CharAt(data, i, s[0]);
      TextEncode(s[1..], tail, data, i + |e| / 2);
      TextJoin(s, TextFrom(data, i + |Encode(s)| / 2));
    }
  }

  lemma TextJoin(s: string, rest: string)
    requires s != ""
    ensures [s[0]] + (s[1..] + rest) == s + rest
  {
  }

  lemma NoText(data: seq<Byte>, i: nat)
    requires 2 * i == |data|
    ensures TextFrom(data, i) == ""
  {
  }

  /** Decoding inverts the encoding of every nonempty text. */
  lemma DecodeEncode(s: string)
    requires s != ""
    ensures Decode(Encode(s)) == Decoded(s)
  {
    hide EncodeChar, TextFrom;
    assert Encode(s)[2 * 0..] == Encode(s) + [];
    TextEncode(s, [], Encode(s), 0);
    NoText(Encode(s), |Encode(s)| / 2);
    assert s + "" == s;
  }

  /** What is not UTF-16 is passed through. */
  lemma DecodeOdd(data: seq<Byte>)
    ensures Decode(data) == Raw(data) <==> |data| % 2 == 1 || data == []
  {
  }

  lemma EncodeStart(s: string, data: seq<Byte>, i: nat)
    requires s != "" && 2 * i <= |data| && data[2 * i..] == Encode(s)
    ensures 2 * i + 1 < |data| && !IsLow(UnitAt(data, i))
  {
    hide UnitAt, Little;
    var n := s[0] as int;
    var u := if n < 0x1_0000 then n else 0xD800 + (n - 0x1_0000) / 0x400;
    assert EncodeChar(s[0])[0] == Little(u)[0] && EncodeChar(s[0])[1] == Little(u)[1];
    assert data[2 * i] == data[2 * i..][0] && data[2 * i + 1] == data[2 * i..][1];
    UnitOf(data, i, u);
  }

  /** A surrogate that is not half of a pair becomes U+FFFD, and nothing else changes. */
  lemma DecodeLone(before: string, u: nat, after: string)
    requires 0xD800 <= u <= 0xDFFF
    ensures Decode(Encode(before) + Little(u) + Encode(after)) == Decoded(before + ['\U{FFFD}'] + after)
  {
    hide EncodeChar, TextFrom, Encode, Little, UnitAt;
    var data := Encode(before) + Little(u) + Encode(after);
    var i, end := |Encode(before)| / 2, |data| / 2;
    assert data[2 * 0..] == Encode(before) + (Little(u) + Encode(after));
    TextEncode(before, Little(u) + Encode(after), data, 0);
    assert data[2 * i] == Little(u)[0] && data[2 * i + 1] == Little(u)[1];
    UnitOf(data, i, u);
    assert data[2 * (i + 1)..] == Encode(after) + [];
    if after != "" { EncodeStart(after, data, i + 1); } else { EncodeNone(); }
    TextStep(data, i);
    TextEncode(after, [], data, i + 1);
    NoText(data, end);
    assert before + (['\U{FFFD}'] + (after + "")) == before + ['\U{FFFD}'] + after;
  }

  lemma EncodeNone()
    ensures Encode("") == []
  {
  }
}
