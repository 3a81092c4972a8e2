/** The numbers of JSON as its grammar puts them (section 6 of RFC 8259). */
module JsonNumbers {
  import opened Bytes
  import opened JsonText

  predicate AllDigits(t: Text) {
    forall i | 0 <= i < |t| :: 48 <= t[i] <= 57
  }

  /** Digits without a leading zero. */
  predicate IsWhole(t: Text) {
    t != [] && AllDigits(t) && (t[0] == 48 ==> |t| == 1)
  }

  /** Nothing, or a dot and digits. */
  predicate IsFraction(t: Text) {
    t == [] || (|t| > 1 && t[0] == 46 && AllDigits(t[1..]))
  }

  /** Nothing, or an E of either case, perhaps a sign, and digits. */
  predicate IsExponent(t: Text) {
    t == [] || (|t| > 1 && (t[0] == 69 || t[0] == 101) &&
      (AllDigits(t[1..]) || (|t| > 2 && (t[1] == 43 || t[1] == 45) && AllDigits(t[2..]))))
  }

  datatype Parts = Parts(minus: Text, whole: Text, fraction: Text, exponent: Text)

  ghost predicate IsNumber(p: Parts) {
    && (p.minus == [] || p.minus == [45]) && IsWhole(p.whole) && IsFraction(p.fraction) && IsExponent(p.exponent)
  }

  function Glued(p: Parts): Text {
    p.minus + (p.whole + (p.fraction + p.exponent))
  }

  lemma TailDigits(t: Text, i: nat)
    requires i < |t|
    ensures AllDigits(t[i..]) <==> i < DigitsEnd(t, i) == |t|
  {
    if AllDigits(t[i..]) {
      assert forall k | i <= k < |t| :: t[k] == t[i..][k - i];
      DigitsEndAt(t, i, |t|);
    } else {
      assert forall k | 0 <= k < |t[i..]| :: t[i..][k] == t[i + k];
    }
  }

  lemma ExponentAt(t: Text, i: nat)
    requires i <= |t|
    ensures IsExponentOrEnd(t, i) <==> IsExponent(t[i..])
  {
    hide AllDigits, DigitsEnd;
    var e := t[i..];
    if e == [] {
      assert i == |t|;
    } else if i + 1 < |t| {
      TailDigits(t, i + 1);
      assert e[1..] == t[i + 1..] && e[1] == t[i + 1];
      if i + 2 < |t| {
        TailDigits(t, i + 2);
        assert e[2..] == t[i + 2..];
      }
      SignIsNoDigit(t, i + 1);
    }
  }

  lemma SignIsNoDigit(t: Text, i: nat)
    requires i < |t|
    ensures t[i] == 43 || t[i] == 45 ==> !AllDigits(t[i..])
  {
    assert t[i..][0] == t[i];
  }

  lemma WholeAt(t: Text, i: nat)
    requires i <= |t|
    ensures var e := DigitsEnd(t, i); IsWhole(t[i..e]) <==> i < e && (t[i] == 48 ==> e == i + 1)
  {
    var e := DigitsEnd(t, i);
    if i < e { assert t[i..e][0] == t[i]; }
  }

  lemma FractionAt(t: Text, i: nat)
    requires i < |t| && t[i] == 46
    ensures var e := DigitsEnd(t, i + 1); IsFraction(t[i..e]) <==> i + 1 < e
  {
    var e := DigitsEnd(t, i + 1);
    assert t[i..e][0] == 46 && t[i..e][1..] == t[i + 1..e];
  }

  /** Where the parts of a number end, read from the left. */
  function SignEnd(t: Text): (e: nat)
    ensures e <= |t|
  {
    if t != [] && t[0] == 45 then 1 else 0
  }

  function FractionEnd(t: Text, whole: nat): (e: nat)
    requires whole <= |t|
    ensures whole <= e <= |t|
  {
    if whole < |t| && t[whole] == 46 then DigitsEnd(t, whole + 1) else whole
  }

  function Split(t: Text): Parts {
    var start := SignEnd(t);
    var whole := DigitsEnd(t, start);
    var end := FractionEnd(t, whole);
    Parts(t[..start], t[start..whole], t[whole..end], t[end..])
  }

  lemma SplitGlues(t: Text)
    ensures Glued(Split(t)) == t
  {
    hide DigitsEnd, SignEnd, FractionEnd;
    var start := SignEnd(t);
    var whole := DigitsEnd(t, start);
    var end := FractionEnd(t, whole);
    Rejoined(t, whole, end);
    Rejoined(t, start, whole);
    Rejoined(t, 0, start);
    assert t[0..start] == t[..start] && t[0..] == t;
  }

  lemma Rejoined(t: Text, i: nat, j: nat)
    requires i <= j <= |t|
    ensures t[i..j] + t[j..] == t[i..]
  {}

  lemma SplitNumber(t: Text)
    ensures IsLexeme(t) <==> IsNumber(Split(t))
  {
    hide DigitsEnd, IsExponent, IsExponentOrEnd, IsWhole, IsFraction;
    var start := SignEnd(t);
    var whole := DigitsEnd(t, start);
    WholeAt(t, start);
    ExponentAt(t, FractionEnd(t, whole));
    if whole < |t| && t[whole] == 46 { FractionAt(t, whole); } else { NoFraction(t[whole..whole]); }
  }

  lemma NoFraction(t: Text)
    requires t == []
    ensures IsFraction(t)
  {}

  /** A lexeme is an optional minus sign, a whole part, a fraction and an exponent. */
  lemma LexemesAre(t: Text)
    ensures IsLexeme(t) <==> exists p: Parts :: IsNumber(p) && Glued(p) == t
  {
    hide IsLexeme, IsNumber, Glued, Split;
    SplitNumber(t);
    SplitGlues(t);
    if p: Parts :| IsNumber(p) && Glued(p) == t {
      PartsAreSplit(p);
    }
  }

  lemma DigitsThen(a: Text, b: Text)
    requires AllDigits(a) && (b != [] ==> !(48 <= b[0] <= 57))
    ensures DigitsEnd(a + b, 0) == |a|
  {
    DigitsEndAt(a + b, 0, |a|);
  }

  lemma {:induction false} DigitsEndShift(t: Text, n: nat, i: nat)
    requires n <= i <= |t|
    ensures DigitsEnd(t, i) == n + DigitsEnd(t[n..], i - n)
    decreases |t| - i
  {
    if i < |t| {
      assert t[n..][i - n] == t[i];
      DigitsEndShift(t, n, i + 1);
    }
  }

  lemma ExponentStart(e: Text)
    requires IsExponent(e) && e != []
    ensures e[0] == 69 || e[0] == 101
  {}

  lemma Slices(a: Text, b: Text, c: Text)
    ensures var t, n, m := a + (b + c), |a|, |a| + |b|;
            t[..n] == a && t[n..] == b + c && t[n..m] == b && t[m..] == c
  {}

  lemma FourSlices(a: Text, b: Text, c: Text, d: Text)
    ensures var t, n, m, k := a + (b + (c + d)), |a|, |a| + |b|, |a| + |b| + |c|;
            && |t| == k + |d| && t[..n] == a && t[n..m] == b && t[m..k] == c && t[k..] == d && t[m..] == c + d
  {
    Slices(a, b, c + d);
    Slices(a + b, c, d);
    Regroup(a, b, c + d);
  }

  lemma SignIs(p: Parts)
    requires IsNumber(p)
    ensures SignEnd(Glued(p)) == |p.minus|
  {
    hide IsExponent, IsFraction;
    var t := Glued(p);
    assert p.minus == [] ==> t[0] == p.whole[0];
    assert p.minus != [] ==> t[0] == 45;
  }

  lemma WholeEnds(p: Parts)
    requires IsNumber(p)
    ensures DigitsEnd(Glued(p), |p.minus|) == |p.minus| + |p.whole|
  {
    hide DigitsEnd, IsExponent;
    var tail := p.fraction + p.exponent;
    if p.exponent != [] { ExponentStart(p.exponent); }
    assert tail != [] ==> tail[0] == if p.fraction != [] then p.fraction[0] else p.exponent[0];
    Slices(p.minus, p.whole, tail);
    DigitsThen(p.whole, tail);
    DigitsEndShift(Glued(p), |p.minus|, |p.minus|);
  }

  lemma FractionEnds(p: Parts)
    requires IsNumber(p)
    ensures |p.minus| + |p.whole| <= |Glued(p)|
    ensures FractionEnd(Glued(p), |p.minus| + |p.whole|) == |p.minus| + |p.whole| + |p.fraction|
  {
    hide DigitsEnd, IsWhole, IsExponent, IsFraction, FractionEnd;
    if p.exponent != [] { ExponentStart(p.exponent); }
    FourSlices(p.minus, p.whole, p.fraction, p.exponent);
    FractionEndIs(Glued(p), |p.minus| + |p.whole|, p.fraction, p.exponent);
  }

  lemma PartsAreSplit(p: Parts)
    requires IsNumber(p)
    ensures Split(Glued(p)) == p
  {
    hide DigitsEnd, SignEnd, FractionEnd, IsNumber;
    SignIs(p);
    WholeEnds(p);
    FractionEnds(p);
    FourSlices(p.minus, p.whole, p.fraction, p.exponent);
  }

  lemma FractionEndIs(t: Text, whole: nat, fraction: Text, exponent: Text)
    requires whole <= |t| && t[whole..] == fraction + exponent && IsFraction(fraction)
    requires exponent != [] ==> exponent[0] == 69 || exponent[0] == 101
    ensures FractionEnd(t, whole) == whole + |fraction|
  {
    hide DigitsEnd;
    var tail := fraction + exponent;
    if fraction != [] {
      assert t[whole] == tail[0] == 46;
      assert t[whole + 1..] == fraction[1..] + exponent;
      DigitsThen(fraction[1..], exponent);
      DigitsEndShift(t, whole + 1, whole + 1);
    } else if exponent != [] {
      assert t[whole] == tail[0] == exponent[0];
    }
  }
}
