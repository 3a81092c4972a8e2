/** The byte encoders of crates/unpin-core/src/lib.rs, and decimal numbers. */
module Encoders {
  import opened Bytes

  datatype Decoded = Decoded(bytes: seq<byte>) | Undecodable

  // --- Lower-case hexadecimal ---------------------------------------------

  function LowerHex(bytes: seq<byte>): (t: Text)
    ensures |t| == 2 * |bytes|
  {
    if bytes == [] then [] else [LowerHexDigit(bytes[0] / 16), LowerHexDigit(bytes[0] % 16)] + LowerHex(bytes[1..])
  }

  function UnHex(t: Text): Decoded
    decreases |t|
  {
    if t == [] then Decoded([])
    else if |t| < 2 || !IsHexDigit(t[0]) || !IsHexDigit(t[1]) then Undecodable
    else
      match UnHex(t[2..])
      case Undecodable => Undecodable
      case Decoded(rest) => Decoded([HexValue(t[0]) * 16 + HexValue(t[1])] + rest)
  }

  predicate AllLowerHex(t: Text) {
    forall i | 0 <= i < |t| :: IsLowerHexDigit(t[i])
  }

  predicate IsLowerHexDigest(t: Text) {
    |t| == 64 && AllLowerHex(t)
  }

  lemma UnHexUnfold(t: Text)
    requires |t| >= 2 && IsHexDigit(t[0]) && IsHexDigit(t[1]) && UnHex(t[2..]).Decoded?
    ensures UnHex(t) == Decoded([HexValue(t[0]) * 16 + HexValue(t[1])] + UnHex(t[2..]).bytes)
  {
    hide HexValue, IsHexDigit;
  }

  lemma UnHexPair(x: byte, y: byte, rest: Text)
    requires IsHexDigit(x) && IsHexDigit(y) && UnHex(rest).Decoded?
    ensures UnHex([x, y] + rest) == Decoded([HexValue(x) * 16 + HexValue(y)] + UnHex(rest).bytes)
  {
    hide HexValue, IsHexDigit, UnHex;
    var t := [x, y] + rest;
    assert t[0] == x && t[1] == y && t[2..] == rest;
    UnHexUnfold(t);
  }

  /** The two digits of a byte are read back as that byte. */
  lemma UnHexByte(b: byte, rest: Text)
    requires UnHex(rest).Decoded?
    ensures UnHex([LowerHexDigit(b / 16), LowerHexDigit(b % 16)] + rest) == Decoded([b] + UnHex(rest).bytes)
  {
    hide LowerHexDigit, HexValue, UnHex;
    assert b == b / 16 * 16 + b % 16;
    UnHexPair(LowerHexDigit(b / 16), LowerHexDigit(b % 16), rest);
  }

  lemma DigitOfValue(x: byte)
    requires IsLowerHexDigit(x)
    ensures LowerHexDigit(HexValue(x)) == x
  {}

  /** The byte of two digits is written as those digits. */
  lemma ByteOfDigits(t: Text)
    requires |t| >= 2 && IsLowerHexDigit(t[0]) && IsLowerHexDigit(t[1]) && UnHex(t[2..]).Decoded?
    ensures var b := HexValue(t[0]) * 16 + HexValue(t[1]);
            && UnHex(t) == Decoded([b] + UnHex(t[2..]).bytes)
            && LowerHexDigit(b / 16) == t[0] && LowerHexDigit(b % 16) == t[1]
  {
    hide LowerHexDigit, HexValue, UnHex;
    DigitOfValue(t[0]);
    DigitOfValue(t[1]);
    var b := HexValue(t[0]) * 16 + HexValue(t[1]);
    assert b / 16 == HexValue(t[0]) && b % 16 == HexValue(t[1]);
    UnHexUnfold(t);
  }

  lemma {:induction false} LowerHexRoundTrip(bytes: seq<byte>)
    ensures UnHex(LowerHex(bytes)) == Decoded(bytes)
    ensures AllLowerHex(LowerHex(bytes))
  {
    hide UnHex, LowerHexDigit, HexValue, IsLowerHexDigit;
    if bytes == [] {
      UnHexNothing();
    } else {
      LowerHexRoundTrip(bytes[1..]);
      UnHexByte(bytes[0], LowerHex(bytes[1..]));
      assert bytes == [bytes[0]] + bytes[1..];
    }
  }

  lemma UnHexNothing()
    ensures UnHex([]) == Decoded([])
  {}

  lemma {:induction false} LowerHexOnto(t: Text)
    requires AllLowerHex(t) && |t| % 2 == 0
    ensures UnHex(t).Decoded? && LowerHex(UnHex(t).bytes) == t
    decreases |t|
  {
    hide UnHex, LowerHexDigit, HexValue;
    if t == [] {
      UnHexNothing();
    } else {
      LowerHexOnto(t[2..]);
      ByteOfDigits(t);
      var rest := UnHex(t[2..]).bytes;
      assert ([HexValue(t[0]) * 16 + HexValue(t[1])] + rest)[1..] == rest;
      assert t == [t[0], t[1]] + t[2..];
    }
  }

  lemma LowerHexIsUtf8(bytes: seq<byte>)
    ensures IsUtf8(LowerHex(bytes))
  {
    LowerHexRoundTrip(bytes);
    AsciiIsUtf8(LowerHex(bytes));
  }

  /** The digest check accepts exactly the encodings of 32 bytes. */
  lemma {:induction false} DigestsAreEncodings(t: Text)
    ensures IsLowerHexDigest(t) <==> exists bytes: seq<byte> :: |bytes| == 32 && LowerHex(bytes) == t
  {
    if IsLowerHexDigest(t) {
      LowerHexOnto(t);
      assert |LowerHex(UnHex(t).bytes)| == 64;
    } else if exists bytes: seq<byte> :: |bytes| == 32 && LowerHex(bytes) == t {
      var bytes: seq<byte> :| |bytes| == 32 && LowerHex(bytes) == t;
      LowerHexRoundTrip(bytes);
    }
  }

  lemma LowerHexAppend(bytes: seq<byte>, b: byte)
    ensures LowerHex(bytes + [b]) == LowerHex(bytes) + [LowerHexDigit(b / 16), LowerHexDigit(b % 16)]
  {
    if bytes == [] {
      assert [] + [b] == [b];
    } else {
      assert (bytes + [b])[1..] == bytes[1..] + [b];
      LowerHexAppend(bytes[1..], b);
    }
  }

  method EncodeLowerHex(bytes: seq<byte>) returns (encoded: Text)
    ensures encoded == LowerHex(bytes)
    ensures UnHex(encoded) == Decoded(bytes)
    ensures |bytes| == 32 ==> IsLowerHexDigest(encoded)
  {
    encoded := [];
    for i := 0 to |bytes|
      invariant encoded == LowerHex(bytes[..i])
    {
      encoded := encoded + [LowerHexDigit(bytes[i] / 16)];
      encoded := encoded + [LowerHexDigit(bytes[i] % 16)];
      LowerHexAppend(bytes[..i], bytes[i]);
      assert bytes[..i] + [bytes[i]] == bytes[..i + 1];
    }
    assert bytes[..|bytes|] == bytes;
    LowerHexRoundTrip(bytes);
  }

  // --- Path segments ------------------------------------------------------

  const PERCENT: byte := 37
  const DOT: byte := 46

  predicate IsAlphanumeric(b: byte) {
    65 <= b <= 90 || 97 <= b <= 122 || 48 <= b <= 57
  }

  /** Bytes kept as they are; the percent sign is not one of them. */
  predicate IsPlain(b: byte) {
    IsAlphanumeric(b) || b == 45 || b == 95 || b == DOT
  }

  function EncodedByte(b: byte, first: bool): (t: Text)
    ensures |t| == if IsPlain(b) && !(first && b == DOT) then 1 else 3
  {
    if IsPlain(b) && !(first && b == DOT) then [b]
    else [PERCENT, UpperHexDigit(b / 16), UpperHexDigit(b % 16)]
  }

  function Segment(value: Text): Text {
    if value == [] then []
    else Segment(value[..|value| - 1]) + EncodedByte(value[|value| - 1], |value| == 1)
  }

  /** Percent-decoding, section 2.1 of RFC 3986. */
  function PercentDecode(t: Text): Decoded
    decreases |t|
  {
    if t == [] then Decoded([])
    else if t[0] != PERCENT then Prepend(t[0], PercentDecode(t[1..]))
    else if |t| < 3 || !IsHexDigit(t[1]) || !IsHexDigit(t[2]) then Undecodable
    else Prepend(HexValue(t[1]) * 16 + HexValue(t[2]), PercentDecode(t[3..]))
  }

  function Prepend(b: byte, d: Decoded): Decoded {
    match d
    case Undecodable => Undecodable
    case Decoded(bytes) => Decoded([b] + bytes)
  }

  function Joined(d: Decoded, e: Decoded): Decoded {
    if d.Decoded? && e.Decoded? then Decoded(d.bytes + e.bytes) else Undecodable
  }

  lemma PrependJoined(b: byte, d: Decoded, e: Decoded)
    ensures Joined(Prepend(b, d), e) == Prepend(b, Joined(d, e))
  {
    if d.Decoded? && e.Decoded? {
      assert ([b] + d.bytes) + e.bytes == [b] + (d.bytes + e.bytes);
    }
  }

  lemma {:induction false} DecodeAppend(s: Text, t: Text)
    requires PercentDecode(s).Decoded?
    ensures PercentDecode(s + t) == Joined(PercentDecode(s), PercentDecode(t))
    decreases |s|
  {
    if s == [] {
      assert s + t == t;
      assert Joined(Decoded([]), PercentDecode(t)) == PercentDecode(t);
    } else {
      var n := if s[0] == PERCENT then 3 else 1;
      assert (s + t)[n..] == s[n..] + t;
      DecodeAppend(s[n..], t);
      var b := if s[0] == PERCENT then HexValue(s[1]) * 16 + HexValue(s[2]) else s[0];
      PrependJoined(b, PercentDecode(s[n..]), PercentDecode(t));
    }
  }

  lemma EncodedByteDecodes(b: byte, first: bool)
    ensures PercentDecode(EncodedByte(b, first)) == Decoded([b])
  {
    var t := EncodedByte(b, first);
    if |t| == 1 {
      assert t[1..] == [];
    } else {
      assert t[3..] == [];
      assert HexValue(t[1]) == b / 16 && HexValue(t[2]) == b % 16;
    }
  }

  lemma {:induction false} SegmentRoundTrip(value: Text)
    ensures PercentDecode(Segment(value)) == Decoded(value)
    decreases |value|
  {
    if value != [] {
      var k := |value| - 1;
      SegmentRoundTrip(value[..k]);
      EncodedByteDecodes(value[k], k == 0);
      DecodeAppend(Segment(value[..k]), EncodedByte(value[k], k == 0));
      assert value[..k] + [value[k]] == value;
    }
  }

  lemma SegmentInjective(a: Text, b: Text)
    requires Segment(a) == Segment(b)
    ensures a == b
  {
    SegmentRoundTrip(a);
    SegmentRoundTrip(b);
  }

  /** A segment holds only plain bytes and percent signs, and is never hidden
      or relative: it does not start with a dot. */
  lemma {:induction false} SegmentAlphabet(value: Text)
    ensures forall i | 0 <= i < |Segment(value)| :: IsPlain(Segment(value)[i]) || Segment(value)[i] == PERCENT
    ensures value != [] ==> Segment(value) != [] && Segment(value)[0] != DOT
    decreases |value|
  {
    if value != [] {
      SegmentAlphabet(value[..|value| - 1]);
      if |value| == 1 {
        assert Segment(value[..0]) == [];
        assert Segment(value) == EncodedByte(value[0], true);
      }
    }
  }

  /** A value that is plain and does not start with a dot is its own segment. */
  lemma {:induction false} SegmentKeepsPlain(value: Text)
    requires forall i | 0 <= i < |value| :: IsPlain(value[i])
    requires value != [] ==> value[0] != DOT
    ensures Segment(value) == value
    decreases |value|
  {
    if value != [] {
      var k := |value| - 1;
      SegmentKeepsPlain(value[..k]);
      assert value[..k] + [value[k]] == value;
    }
  }

  method EncodePathSegment(value: Text) returns (encoded: Text)
    ensures encoded == Segment(value)
    ensures PercentDecode(encoded) == Decoded(value)
  {
    encoded := [];
    for index := 0 to |value|
      invariant encoded == Segment(value[..index])
    {
      var b := value[index];
      if (IsAlphanumeric(b) || b == 45 || b == 95 || b == 46) && (b != 46 || index != 0) {
        encoded := encoded + [b];
      } else {
        encoded := encoded + [PERCENT, UpperHexDigit(b / 16), UpperHexDigit(b % 16)];
      }
      assert value[..index + 1][..index] == value[..index];
    }
    assert value[..|value|] == value;
    SegmentRoundTrip(value);
  }

  // --- Decimal numbers ----------------------------------------------------

  function Decimal(n: nat): (t: Text)
    ensures t != [] && forall i | 0 <= i < |t| :: 48 <= t[i] <= 57
  {
    if n < 10 then [48 + n] else Decimal(n / 10) + [48 + n % 10]
  }

  function DecimalValue(t: Text): nat
    requires forall i | 0 <= i < |t| :: 48 <= t[i] <= 57
  {
    if t == [] then 0 else DecimalValue(t[..|t| - 1]) * 10 + (t[|t| - 1] - 48)
  }

  lemma {:induction false} DecimalRoundTrip(n: nat)
    ensures DecimalValue(Decimal(n)) == n
  {
    if n < 10 {
      assert Decimal(n)[..0] == [];
    } else {
      DecimalRoundTrip(n / 10);
      assert Decimal(n)[..|Decimal(n)| - 1] == Decimal(n / 10);
    }
  }

  /** An unsigned 64-bit number as it is written: no sign, no leading zero. */
  predicate IsDecimalU64(t: Text) {
    && (forall i | 0 <= i < |t| :: 48 <= t[i] <= 57)
    && DecimalValue(t) < 0x1_0000_0000_0000_0000
    && Decimal(DecimalValue(t)) == t
  }

  // --- Digit by digit -------------------------------------------------------

  function HexDigits(): (t: Text)
    ensures |t| == 16
  {
    Ascii("0123456789abcdef")
  }

  lemma LowerDigitIs(n: nat)
    requires n < 16
    ensures LowerHexDigit(n) == HexDigits()[n]
  {
    hide IsUtf8;
  }

  lemma UpperDigitIs(n: nat)
    requires n < 16
    ensures UpperHexDigit(n) == Ascii("0123456789ABCDEF")[n]
  {
    hide IsUtf8;
  }

  /** Each byte is two digits, the high one first. */
  lemma {:induction false} LowerHexAt(bytes: seq<byte>, i: nat)
    requires i < |bytes|
    ensures LowerHex(bytes)[2 * i] == HexDigits()[bytes[i] / 16]
    ensures LowerHex(bytes)[2 * i + 1] == HexDigits()[bytes[i] % 16]
    decreases i
  {
    hide IsUtf8, HexDigits, LowerHexDigit;
    if i == 0 {
      LowerDigitIs(bytes[0] / 16);
      LowerDigitIs(bytes[0] % 16);
    } else {
      LowerHexAt(bytes[1..], i - 1);
    }
  }

  /** A byte of a segment is kept when it is a letter, a digit, a hyphen, an underscore, or
      a dot that is not the first; any other is a percent sign and two digits. */
  lemma EncodedByteIs(b: byte, first: bool)
    ensures EncodedByte(b, first) ==
            if 48 <= b <= 57 || 65 <= b <= 90 || 97 <= b <= 122 || b == 45 || b == 95 || (b == 46 && !first) then [b]
            else Ascii("%") + [Ascii("0123456789ABCDEF")[b / 16], Ascii("0123456789ABCDEF")[b % 16]]
  {
    assert Ascii("%") == [37];
    hide IsUtf8, UpperHexDigit, Ascii;
    UpperDigitIs(b / 16);
    UpperDigitIs(b % 16);
  }

  /** A number without its last `k` decimal digits. */
  function Without(n: nat, k: nat): nat
    decreases k
  {
    if k == 0 then n else Without(n / 10, k - 1)
  }

  /** A decimal number has its digits in their places, and no leading zero. */
  lemma {:induction false} DecimalDigits(n: nat, k: nat)
    requires k < |Decimal(n)|
    ensures Decimal(n)[|Decimal(n)| - 1 - k] == 48 + Without(n, k) % 10
    ensures |Decimal(n)| > 1 ==> Decimal(n)[0] != 48
  {
    if n >= 10 {
      DecimalDigits(n / 10, if k > 0 then k - 1 else 0);
      assert |Decimal(n / 10)| == 1 ==> Decimal(n / 10) == [48 + n / 10];
    }
  }
}
