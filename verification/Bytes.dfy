/** Bytes, UTF-8 text and the small byte-level functions several components share. */
module Bytes {

  type byte = b: int | 0 <= b < 256

  /** Text is its bytes, the form whose length and order the program uses. */
  type Text = seq<byte>

  /** What a string of the program holds: well-formed UTF-8. */
  type Utf8 = t: Text | IsUtf8(t)

  type u64 = n: int | 0 <= n < 0x1_0000_0000_0000_0000

  const NUL: byte := 0
  const LF: byte := 10
  const CR: byte := 13

  predicate IsTail(b: byte) {
    0x80 <= b <= 0xBF
  }

  /** The length of the character that starts at `i`, zero when none does
      (section 4 of RFC 3629). */
  function CharLength(t: Text, i: nat): (n: nat)
    requires i < |t|
    ensures i + n <= |t|
  {
    if t[i] < 0x80 then 1
    else if i + 1 >= |t| || !IsTail(t[i + 1]) then 0
    else if 0xC2 <= t[i] <= 0xDF then 2
    else if i + 2 >= |t| || !IsTail(t[i + 2]) then 0
    else if t[i] == 0xE0 then if t[i + 1] >= 0xA0 then 3 else 0
    else if t[i] == 0xED then if t[i + 1] <= 0x9F then 3 else 0
    else if 0xE1 <= t[i] <= 0xEF then 3
    else if i + 3 >= |t| || !IsTail(t[i + 3]) then 0
    else if t[i] == 0xF0 then if t[i + 1] >= 0x90 then 4 else 0
    else if t[i] == 0xF4 then if t[i + 1] <= 0x8F then 4 else 0
    else if 0xF1 <= t[i] <= 0xF3 then 4
    else 0
  }

  /** Every byte lies in a character. No byte can both start a character and follow
      in one, so the characters do not overlap. */
  predicate IsUtf8(t: Text) {
    forall i: nat | i < |t| :: InCharacter(t, i)
  }

  predicate InCharacter(t: Text, i: nat)
    requires i < |t|
  {
    exists k: nat | k <= i :: k + CharLength(t, k) > i
  }

  lemma AsciiIsUtf8(t: Text)
    requires forall i | 0 <= i < |t| :: t[i] < 128
    ensures IsUtf8(t)
  {
    forall i: nat | i < |t| ensures InCharacter(t, i) {
      assert i + CharLength(t, i) > i;
    }
  }

  lemma CharLengthShift(t: Text, n: nat, k: nat)
    requires n + k < |t|
    ensures CharLength(t[n..], k) == CharLength(t, n + k)
  {}

  /** So UTF-8 is read off character by character. */
  lemma Utf8Unfold(t: Text)
    requires t != []
    ensures IsUtf8(t) <==> CharLength(t, 0) > 0 && IsUtf8(t[CharLength(t, 0)..])
  {
    var n := CharLength(t, 0);
    var rest := t[n..];
    if IsUtf8(t) {
      assert InCharacter(t, 0);
      assert forall j | 0 < j < n :: IsTail(t[j]);
      assert forall j | 0 < j < n :: CharLength(t, j) == 0;
      forall i: nat | i < |rest| ensures InCharacter(rest, i) {
        assert InCharacter(t, n + i);
        var k: nat :| k <= n + i && k + CharLength(t, k) > n + i;
        CharLengthShift(t, n, k - n);
        assert k - n + CharLength(rest, k - n) > i;
      }
    }
    if n > 0 && IsUtf8(rest) {
      forall i: nat | i < |t| ensures InCharacter(t, i) {
        if i >= n {
          assert InCharacter(rest, i - n);
          var k: nat :| k <= i - n && k + CharLength(rest, k) > i - n;
          CharLengthShift(t, n, k);
          assert (n + k) + CharLength(t, n + k) > i;
        } else {
          assert 0 + CharLength(t, 0) > i;
        }
      }
    }
  }

  /** A literal in bytes; literals here are ASCII. */
  function Ascii(s: string): (t: Utf8)
    ensures |t| == |s|
  {
    var t := seq(|s|, i requires 0 <= i < |s| => if s[i] as int < 128 then s[i] as int else 63);
    AsciiIsUtf8(t);
    t
  }

  predicate IsHexDigit(b: byte) {
    48 <= b <= 57 || 65 <= b <= 70 || 97 <= b <= 102
  }

  predicate IsLowerHexDigit(b: byte) {
    48 <= b <= 57 || 97 <= b <= 102
  }

  /** The value of a hexadecimal digit of either case. */
  function HexValue(b: byte): (n: nat)
    requires IsHexDigit(b)
    ensures n < 16
  {
    if b <= 57 then b - 48 else if b <= 70 then b - 55 else b - 87
  }

  function LowerHexDigit(n: nat): (b: byte)
    requires n < 16
    ensures IsLowerHexDigit(b) && HexValue(b) == n
  {
    if n < 10 then 48 + n else 87 + n
  }

  function UpperHexDigit(n: nat): (b: byte)
    requires n < 16
    ensures IsHexDigit(b) && !(97 <= b) && HexValue(b) == n
  {
    if n < 10 then 48 + n else 55 + n
  }

  /** Bitwise exclusive or, bit by bit from the low end. */
  function Xor(a: nat, b: nat): (x: nat)
    ensures x == 0 <==> a == b
    decreases a + b
  {
    if a == 0 && b == 0 then 0
    else 2 * Xor(a / 2, b / 2) + (if a % 2 == b % 2 then 0 else 1)
  }

  /** Bitwise or. */
  function Or(a: nat, b: nat): (x: nat)
    ensures x == 0 <==> a == 0 && b == 0
    decreases a + b
  {
    if a == 0 && b == 0 then 0
    else 2 * Or(a / 2, b / 2) + (if a % 2 == 0 && b % 2 == 0 then 0 else 1)
  }

  /** The accumulated difference of two equally long byte strings. */
  function Difference(left: seq<byte>, right: seq<byte>): (d: nat)
    requires |left| == |right|
    ensures d == 0 <==> left == right
  {
    if left == [] then 0
    else
      var k := |left| - 1;
      assert left == left[..k] + [left[k]] && right == right[..k] + [right[k]];
      Or(Difference(left[..k], right[..k]), Xor(left[k], right[k]))
  }

  function Flatten(parts: seq<seq<byte>>): seq<byte> {
    if parts == [] then [] else parts[0] + Flatten(parts[1..])
  }

  lemma {:induction false} FlattenAppend(a: seq<seq<byte>>, b: seq<seq<byte>>)
    ensures Flatten(a + b) == Flatten(a) + Flatten(b)
  {
    if a == [] {
      assert a + b == b;
    } else {
      assert (a + b)[1..] == a[1..] + b;
      FlattenAppend(a[1..], b);
    }
  }
}
