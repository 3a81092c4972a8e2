/** The compact JSON text both ends write: serde_json::to_vec in
    desktop_bridge.rs and `canonical_json` of
    scripts/run_authenticated_desktop_bridge_smoke.py.  Both write a value alike
    when they hold its numbers in one spelling; `JsonReader` says how a reader
    may change a spelling.

    The text is uniquely decodable, so a digest of it binds the value. */
module JsonText {
  import opened Bytes
  import opened CanonicalJson

  const QUOTE: byte := 34
  const COMMA: byte := 44
  const COLON: byte := 58
  const OPEN_ARRAY: byte := 91
  const BACKSLASH: byte := 92
  const CLOSE_ARRAY: byte := 93
  const OPEN_OBJECT: byte := 123
  const CLOSE_OBJECT: byte := 125

  predicate IsNumberByte(b: byte) {
    48 <= b <= 57 || b == 43 || b == 45 || b == 46 || b == 69 || b == 101
  }

  predicate IsDigit(b: byte) {
    48 <= b <= 57
  }

  /** Where the digits from `i` on end. */
  function DigitsEnd(t: Text, i: nat): (e: nat)
    requires i <= |t|
    ensures i <= e <= |t| && (e < |t| ==> !IsDigit(t[e]))
    ensures forall k | i <= k < e :: IsDigit(t[k])
    decreases |t| - i
  {
    if i == |t| || !IsDigit(t[i]) then i else DigitsEnd(t, i + 1)
  }

  lemma {:induction false} DigitsEndAt(t: Text, i: nat, e: nat)
    requires i <= e <= |t| && (e < |t| ==> !IsDigit(t[e])) && forall k | i <= k < e :: IsDigit(t[k])
    ensures DigitsEnd(t, i) == e
    decreases e - i
  {
    if i < e { DigitsEndAt(t, i + 1, e); }
  }

  /** Nothing, or an exponent with at least one digit, from `i` to the end. */
  predicate IsExponentOrEnd(t: Text, i: nat)
    requires i <= |t|
  {
    || i == |t|
    || (&& (t[i] == 69 || t[i] == 101)
        && var start := if i + 1 < |t| && (t[i + 1] == 43 || t[i + 1] == 45) then i + 2 else i + 1;
           start < DigitsEnd(t, start) == |t|)
  }

  /** A number as JSON writes it (section 6 of RFC 8259): perhaps a minus sign, a
      whole part without a leading zero, perhaps a fraction and an exponent. */
  predicate IsLexeme(t: Text)
    ensures IsLexeme(t) ==> t != [] && (IsDigit(t[0]) || t[0] == 45) && forall i | 0 <= i < |t| :: IsNumberByte(t[i])
  {
    var start := if t != [] && t[0] == 45 then 1 else 0;
    var whole := DigitsEnd(t, start);
    && start < whole && (t[start] == 48 ==> whole == start + 1)
    && if whole < |t| && t[whole] == 46
       then whole + 1 < DigitsEnd(t, whole + 1) && IsExponentOrEnd(t, DigitsEnd(t, whole + 1))
       else IsExponentOrEnd(t, whole)
  }

  /** Every number is written as JSON writes numbers; strings and keys are UTF-8 by type. */
  predicate Encodable(v: Json) {
    match v
    case Number(lexeme) => IsLexeme(lexeme)
    case Array(items) => forall i | 0 <= i < |items| :: Encodable(items[i])
    case Object(entries) => forall i | 0 <= i < |entries| :: Encodable(entries[i].value)
    case _ => true
  }

  function EscapedByte(b: byte): (e: Text)
    ensures e != [] && e[0] != QUOTE && |e| <= 6
    ensures forall i | 0 <= i < |e| :: e[i] >= 32
  {
    if b == QUOTE || b == BACKSLASH then [BACKSLASH, b]
    else if b == 8 then [BACKSLASH, 98]
    else if b == 9 then [BACKSLASH, 116]
    else if b == 10 then [BACKSLASH, 110]
    else if b == 12 then [BACKSLASH, 102]
    else if b == 13 then [BACKSLASH, 114]
    else if b < 32 then [BACKSLASH, 117, 48, 48, LowerHexDigit(b / 16), LowerHexDigit(b % 16)]
    else [b]
  }

  function Escaped(t: Text): Text {
    if t == [] then [] else EscapedByte(t[0]) + Escaped(t[1..])
  }

  function Quoted(t: Text): Text {
    [QUOTE] + Escaped(t) + [QUOTE]
  }

  function Encode(v: Json): (e: Text)
    decreases v, 1
  {
    match v
    case Null => [110, 117, 108, 108]
    case Bool(value) => if value then [116, 114, 117, 101] else [102, 97, 108, 115, 101]
    case Number(lexeme) => lexeme
    case String(text) => Quoted(text)
    case Array(items) =>
      [OPEN_ARRAY] + (if items == [] then [CLOSE_ARRAY] else Encode(items[0]) + MoreItems(items[1..]))
    case Object(entries) =>
      [OPEN_OBJECT] + (if entries == [] then [CLOSE_OBJECT] else Member(entries[0]) + MoreMembers(entries[1..]))
  }

  function MoreItems(items: seq<Json>): Text
    decreases items, 0
  {
    if items == [] then [CLOSE_ARRAY] else [COMMA] + Encode(items[0]) + MoreItems(items[1..])
  }

  function Member(e: Entry): Text
    decreases e, 0
  {
    Quoted(e.key) + [COLON] + Encode(e.value)
  }

  function MoreMembers(entries: seq<Entry>): Text
    decreases entries, 0
  {
    if entries == [] then [CLOSE_OBJECT] else [COMMA] + Member(entries[0]) + MoreMembers(entries[1..])
  }

  // --- Unique decodability ------------------------------------------------

  /** What may follow a value: not another number character. */
  ghost predicate Delimited(r: Text) {
    r == [] || !IsNumberByte(r[0])
  }

  lemma Regroup(a: Text, b: Text, c: Text)
    ensures (a + b) + c == a + (b + c)
  {}

  lemma SplitEqual(a: Text, x: Text, b: Text, y: Text)
    requires |a| == |b| && a + x == b + y
    ensures a == b && x == y
  {
    assert a == (a + x)[..|a|] && b == (b + y)[..|b|];
    assert x == (a + x)[|a|..] && y == (b + y)[|b|..];
  }

  lemma EscapedByteUnique(a: byte, b: byte, r: Text, q: Text)
    requires EscapedByte(a) + r == EscapedByte(b) + q
    ensures a == b && r == q
  {
    var s := EscapedByte(a) + r;
    assert s[0] == EscapedByte(a)[0] == EscapedByte(b)[0];
    if s[0] == BACKSLASH {
      assert s[1] == EscapedByte(a)[1] == EscapedByte(b)[1];
      if s[1] == 117 {
        assert s[4] == EscapedByte(a)[4] == EscapedByte(b)[4];
        assert s[5] == EscapedByte(a)[5] == EscapedByte(b)[5];
      }
    }
    assert a == b;
    SplitEqual(EscapedByte(a), r, EscapedByte(b), q);
  }

  lemma EscapedText(s: Text, r: Text)
    requires s != []
    ensures (Escaped(s) + [QUOTE]) + r == EscapedByte(s[0]) + ((Escaped(s[1..]) + [QUOTE]) + r)
    ensures ((Escaped(s) + [QUOTE]) + r)[0] != QUOTE
  {
    Regroup(EscapedByte(s[0]), Escaped(s[1..]), [QUOTE]);
    Regroup(EscapedByte(s[0]), Escaped(s[1..]) + [QUOTE], r);
  }

  lemma {:induction false} EscapedUnique(s: Text, t: Text, r: Text, q: Text)
    requires (Escaped(s) + [QUOTE]) + r == (Escaped(t) + [QUOTE]) + q
    ensures s == t && r == q
    decreases |s|
  {
    if s != [] { EscapedText(s, r); } else { assert Escaped(s) + [QUOTE] == [QUOTE]; }
    if t != [] { EscapedText(t, q); } else { assert Escaped(t) + [QUOTE] == [QUOTE]; }
    if s == [] || t == [] {
      assert ((Escaped(s) + [QUOTE]) + r)[0] == ((Escaped(t) + [QUOTE]) + q)[0];
      SplitEqual([QUOTE], r, [QUOTE], q);
    } else {
      EscapedByteUnique(s[0], t[0], (Escaped(s[1..]) + [QUOTE]) + r, (Escaped(t[1..]) + [QUOTE]) + q);
      EscapedUnique(s[1..], t[1..], r, q);
      assert s == [s[0]] + s[1..] && t == [t[0]] + t[1..];
    }
  }

  lemma QuotedUnique(s: Text, t: Text, r: Text, q: Text)
    requires Quoted(s) + r == Quoted(t) + q
    ensures s == t && r == q
  {
    QuotedText(s, r);
    QuotedText(t, q);
    SplitEqual([QUOTE], (Escaped(s) + [QUOTE]) + r, [QUOTE], (Escaped(t) + [QUOTE]) + q);
    EscapedUnique(s, t, r, q);
  }

  lemma QuotedText(s: Text, r: Text)
    ensures Quoted(s) + r == [QUOTE] + ((Escaped(s) + [QUOTE]) + r)
  {
    Regroup([QUOTE], Escaped(s), [QUOTE]);
    Regroup([QUOTE], Escaped(s) + [QUOTE], r);
  }

  lemma LexemeNotShorter(s: Text, t: Text, r: Text, q: Text)
    requires IsLexeme(t) && Delimited(r) && s + r == t + q
    ensures |t| <= |s|
  {
    if r == [] {
      assert |s + r| == |s|;
    } else {
      assert (s + r)[|s|] == r[0];
      assert forall i | 0 <= i < |t| :: (t + q)[i] == t[i];
    }
  }

  lemma LexemeUnique(s: Text, t: Text, r: Text, q: Text)
    requires IsLexeme(s) && IsLexeme(t) && Delimited(r) && Delimited(q)
    requires s + r == t + q
    ensures s == t && r == q
  {
    LexemeNotShorter(s, t, r, q);
    LexemeNotShorter(t, s, q, r);
    SplitEqual(s, r, t, q);
  }

  /** The first byte of a value tells its kind. */
  function Kind(v: Json): nat {
    match v
    case Null => 0
    case Bool(value) => if value then 1 else 2
    case Number(_) => 3
    case String(_) => 4
    case Array(_) => 5
    case Object(_) => 6
  }

  function KindOf(b: byte): nat {
    if b == 110 then 0 else if b == 116 then 1 else if b == 102 then 2
    else if b == 45 || 48 <= b <= 57 then 3
    else if b == QUOTE then 4 else if b == OPEN_ARRAY then 5 else if b == OPEN_OBJECT then 6 else 7
  }

  lemma FirstByte(v: Json, r: Text)
    requires Encodable(v)
    ensures Encode(v) != [] && KindOf((Encode(v) + r)[0]) == Kind(v)
  {}

  // The texts with what follows them, grouped from the left.

  lemma ArrayText(s: seq<Json>, r: Text)
    ensures Encode(Array(s)) + r ==
            if s == [] then [OPEN_ARRAY] + ([CLOSE_ARRAY] + r)
            else [OPEN_ARRAY] + (Encode(s[0]) + (MoreItems(s[1..]) + r))
  {
    if s == [] {
      Regroup([OPEN_ARRAY], [CLOSE_ARRAY], r);
    } else {
      Regroup([OPEN_ARRAY], Encode(s[0]) + MoreItems(s[1..]), r);
      Regroup(Encode(s[0]), MoreItems(s[1..]), r);
    }
  }

  lemma MoreItemsText(s: seq<Json>, r: Text)
    ensures MoreItems(s) + r ==
            if s == [] then [CLOSE_ARRAY] + r
            else [COMMA] + (Encode(s[0]) + (MoreItems(s[1..]) + r))
    ensures Delimited(MoreItems(s) + r)
  {
    if s != [] {
      Regroup([COMMA] + Encode(s[0]), MoreItems(s[1..]), r);
      Regroup([COMMA], Encode(s[0]), MoreItems(s[1..]) + r);
    }
  }

  lemma MemberText(e: Entry, r: Text)
    ensures Member(e) + r == Quoted(e.key) + ([COLON] + (Encode(e.value) + r))
    ensures (Member(e) + r)[0] == QUOTE
  {
    Regroup(Quoted(e.key) + [COLON], Encode(e.value), r);
    Regroup(Quoted(e.key), [COLON], Encode(e.value) + r);
  }

  lemma ObjectText(s: seq<Entry>, r: Text)
    ensures Encode(Object(s)) + r ==
            if s == [] then [OPEN_OBJECT] + ([CLOSE_OBJECT] + r)
            else [OPEN_OBJECT] + (Member(s[0]) + (MoreMembers(s[1..]) + r))
  {
    if s == [] {
      Regroup([OPEN_OBJECT], [CLOSE_OBJECT], r);
    } else {
      Regroup([OPEN_OBJECT], Member(s[0]) + MoreMembers(s[1..]), r);
      Regroup(Member(s[0]), MoreMembers(s[1..]), r);
    }
  }

  lemma MoreMembersText(s: seq<Entry>, r: Text)
    ensures MoreMembers(s) + r ==
            if s == [] then [CLOSE_OBJECT] + r
            else [COMMA] + (Member(s[0]) + (MoreMembers(s[1..]) + r))
    ensures Delimited(MoreMembers(s) + r)
  {
    if s != [] {
      Regroup([COMMA] + Member(s[0]), MoreMembers(s[1..]), r);
      Regroup([COMMA], Member(s[0]), MoreMembers(s[1..]) + r);
    }
  }

  /** No value's text is a proper beginning of another's: a text followed by
      anything that cannot extend a number is read back in one way only. */
  lemma {:induction false} EncodeUnique(v: Json, w: Json, r: Text, q: Text)
    requires Encodable(v) && Encodable(w) && Delimited(r) && Delimited(q)
    requires Encode(v) + r == Encode(w) + q
    ensures v == w && r == q
    decreases v, 2
  {
    FirstByte(v, r);
    FirstByte(w, q);
    match v
    case Null => SplitEqual(Encode(v), r, Encode(w), q);
    case Bool(_) => SplitEqual(Encode(v), r, Encode(w), q);
    case Number(lexeme) => LexemeUnique(lexeme, w.lexeme, r, q);
    case String(text) => QuotedUnique(text, w.text, r, q);
    case Array(_) => ArrayUnique(v, w, r, q);
    case Object(_) => ObjectUnique(v, w, r, q);
  }

  lemma {:induction false} ArrayUnique(v: Json, w: Json, r: Text, q: Text)
    requires v.Array? && w.Array? && Encodable(v) && Encodable(w)
    requires Encode(v) + r == Encode(w) + q
    ensures v == w && r == q
    decreases v, 1
  {
    var s, t := v.items, w.items;
    ArrayText(s, r);
    ArrayText(t, q);
    var x := if s == [] then [CLOSE_ARRAY] + r else Encode(s[0]) + (MoreItems(s[1..]) + r);
    var y := if t == [] then [CLOSE_ARRAY] + q else Encode(t[0]) + (MoreItems(t[1..]) + q);
    SplitEqual([OPEN_ARRAY], x, [OPEN_ARRAY], y);
    if s != [] { FirstByte(s[0], MoreItems(s[1..]) + r); }
    if t != [] { FirstByte(t[0], MoreItems(t[1..]) + q); }
    if s == [] || t == [] {
      SplitEqual([CLOSE_ARRAY], r, [CLOSE_ARRAY], q);
    } else {
      ItemsUnique(s, t, r, q);
    }
  }

  lemma {:induction false} ItemsUnique(s: seq<Json>, t: seq<Json>, r: Text, q: Text)
    requires forall i | 0 <= i < |s| :: Encodable(s[i])
    requires forall i | 0 <= i < |t| :: Encodable(t[i])
    requires s != [] && t != []
    requires Encode(s[0]) + (MoreItems(s[1..]) + r) == Encode(t[0]) + (MoreItems(t[1..]) + q)
    ensures s == t && r == q
    decreases s, 0
  {
    MoreItemsText(s[1..], r);
    MoreItemsText(t[1..], q);
    EncodeUnique(s[0], t[0], MoreItems(s[1..]) + r, MoreItems(t[1..]) + q);
    MoreItemsUnique(s[1..], t[1..], r, q);
    assert s == [s[0]] + s[1..] && t == [t[0]] + t[1..];
  }

  lemma {:induction false} MoreItemsUnique(s: seq<Json>, t: seq<Json>, r: Text, q: Text)
    requires forall i | 0 <= i < |s| :: Encodable(s[i])
    requires forall i | 0 <= i < |t| :: Encodable(t[i])
    requires MoreItems(s) + r == MoreItems(t) + q
    ensures s == t && r == q
    decreases s, 1
  {
    MoreItemsText(s, r);
    MoreItemsText(t, q);
    if s == [] || t == [] {
      assert (MoreItems(s) + r)[0] == (MoreItems(t) + q)[0];
      SplitEqual([CLOSE_ARRAY], r, [CLOSE_ARRAY], q);
    } else {
      SplitEqual([COMMA], Encode(s[0]) + (MoreItems(s[1..]) + r), [COMMA], Encode(t[0]) + (MoreItems(t[1..]) + q));
      ItemsUnique(s, t, r, q);
    }
  }

  lemma {:induction false} MemberUnique(e: Entry, f: Entry, r: Text, q: Text)
    requires Encodable(e.value) && Encodable(f.value) && Delimited(r) && Delimited(q)
    requires Member(e) + r == Member(f) + q
    ensures e == f && r == q
    decreases e, 1
  {
    MemberText(e, r);
    MemberText(f, q);
    QuotedUnique(e.key, f.key, [COLON] + (Encode(e.value) + r), [COLON] + (Encode(f.value) + q));
    SplitEqual([COLON], Encode(e.value) + r, [COLON], Encode(f.value) + q);
    EncodeUnique(e.value, f.value, r, q);
  }

  lemma {:induction false} ObjectUnique(v: Json, w: Json, r: Text, q: Text)
    requires v.Object? && w.Object? && Encodable(v) && Encodable(w)
    requires Encode(v) + r == Encode(w) + q
    ensures v == w && r == q
    decreases v, 1
  {
    var s, t := v.entries, w.entries;
    ObjectText(s, r);
    ObjectText(t, q);
    var x := if s == [] then [CLOSE_OBJECT] + r else Member(s[0]) + (MoreMembers(s[1..]) + r);
    var y := if t == [] then [CLOSE_OBJECT] + q else Member(t[0]) + (MoreMembers(t[1..]) + q);
    SplitEqual([OPEN_OBJECT], x, [OPEN_OBJECT], y);
    if s != [] { MemberText(s[0], MoreMembers(s[1..]) + r); }
    if t != [] { MemberText(t[0], MoreMembers(t[1..]) + q); }
    if s == [] || t == [] {
      SplitEqual([CLOSE_OBJECT], r, [CLOSE_OBJECT], q);
    } else {
      MembersUnique(s, t, r, q);
    }
  }

  lemma {:induction false} MembersUnique(s: seq<Entry>, t: seq<Entry>, r: Text, q: Text)
    requires forall i | 0 <= i < |s| :: Encodable(s[i].value)
    requires forall i | 0 <= i < |t| :: Encodable(t[i].value)
    requires s != [] && t != []
    requires Member(s[0]) + (MoreMembers(s[1..]) + r) == Member(t[0]) + (MoreMembers(t[1..]) + q)
    ensures s == t && r == q
    decreases s, 0
  {
    MoreMembersText(s[1..], r);
    MoreMembersText(t[1..], q);
    MemberUnique(s[0], t[0], MoreMembers(s[1..]) + r, MoreMembers(t[1..]) + q);
    MoreMembersUnique(s[1..], t[1..], r, q);
    assert s == [s[0]] + s[1..] && t == [t[0]] + t[1..];
  }

  lemma {:induction false} MoreMembersUnique(s: seq<Entry>, t: seq<Entry>, r: Text, q: Text)
    requires forall i | 0 <= i < |s| :: Encodable(s[i].value)
    requires forall i | 0 <= i < |t| :: Encodable(t[i].value)
    requires MoreMembers(s) + r == MoreMembers(t) + q
    ensures s == t && r == q
    decreases s, 1
  {
    MoreMembersText(s, r);
    MoreMembersText(t, q);
    if s == [] || t == [] {
      assert (MoreMembers(s) + r)[0] == (MoreMembers(t) + q)[0];
      SplitEqual([CLOSE_OBJECT], r, [CLOSE_OBJECT], q);
    } else {
      SplitEqual([COMMA], Member(s[0]) + (MoreMembers(s[1..]) + r), [COMMA], Member(t[0]) + (MoreMembers(t[1..]) + q));
      MembersUnique(s, t, r, q);
    }
  }

  /** Different values never share a text. */
  lemma EncodeInjective(v: Json, w: Json)
    requires Encodable(v) && Encodable(w) && Encode(v) == Encode(w)
    ensures v == w
  {
    assert Encode(v) + [] == Encode(w) + [];
    EncodeUnique(v, w, [], []);
  }

  // --- The canonical text -------------------------------------------------

  function CanonicalText(v: Json): Text {
    Encode(Canonicalize(v))
  }

  lemma {:induction false} CanonicalEncodable(v: Json)
    requires Encodable(v)
    ensures Encodable(Canonicalize(v))
  {
    match v
    case Array(items) =>
      forall i | 0 <= i < |items| ensures Encodable(Canonicalize(items[i])) {
        CanonicalEncodable(items[i]);
      }
    case Object(entries) =>
      var sorted := SortByKey(entries);
      forall i | 0 <= i < |sorted| ensures Encodable(Canonicalize(sorted[i].value)) {
        assert sorted[i] in entries;
        CanonicalEncodable(sorted[i].value);
      }
    case _ =>
  }

  /** The bytes that are digested agree exactly for values that differ only in
      the order of object keys. */
  lemma CanonicalTextsAgree(a: Json, b: Json)
    requires DistinctKeys(a) && DistinctKeys(b) && Encodable(a) && Encodable(b)
    ensures CanonicalText(a) == CanonicalText(b) <==> SameUpToKeyOrder(a, b)
  {
    CanonicalEncodable(a);
    CanonicalEncodable(b);
    CanonicalFormsAgree(a, b);
    if CanonicalText(a) == CanonicalText(b) {
      EncodeInjective(Canonicalize(a), Canonicalize(b));
    }
  }

  // --- No text breaks a frame ---------------------------------------------

  predicate Printable(t: Text) {
    forall i | 0 <= i < |t| :: t[i] >= 32
  }

  lemma {:induction false} EscapedPrintable(t: Text)
    ensures Printable(Escaped(t)) && |Escaped(t)| <= 6 * |t|
    decreases |t|
  {
    if t != [] { EscapedPrintable(t[1..]); }
  }

  lemma PrintableAppend(a: Text, b: Text)
    requires Printable(a) && Printable(b)
    ensures Printable(a + b)
  {}

  lemma {:induction false} EncodePrintable(v: Json)
    requires Encodable(v)
    ensures Printable(Encode(v))
    decreases v, 1
  {
    match v
    case String(text) => EscapedPrintable(text);
    case Array(items) =>
      if items != [] {
        EncodePrintable(items[0]);
        MoreItemsPrintable(items[1..]);
        PrintableAppend(Encode(items[0]), MoreItems(items[1..]));
      }
    case Object(entries) =>
      if entries != [] {
        MemberPrintable(entries[0]);
        MoreMembersPrintable(entries[1..]);
        PrintableAppend(Member(entries[0]), MoreMembers(entries[1..]));
      }
    case _ =>
  }

  lemma {:induction false} MoreItemsPrintable(items: seq<Json>)
    requires forall i | 0 <= i < |items| :: Encodable(items[i])
    ensures Printable(MoreItems(items))
    decreases items, 0
  {
    if items != [] {
      EncodePrintable(items[0]);
      MoreItemsPrintable(items[1..]);
    }
  }

  lemma {:induction false} MemberPrintable(e: Entry)
    requires Encodable(e.value)
    ensures Printable(Member(e))
    decreases e, 0
  {
    EscapedPrintable(e.key);
    EncodePrintable(e.value);
  }

  lemma {:induction false} MoreMembersPrintable(entries: seq<Entry>)
    requires forall i | 0 <= i < |entries| :: Encodable(entries[i].value)
    ensures Printable(MoreMembers(entries))
    decreases entries, 0
  {
    if entries != [] {
      MemberPrintable(entries[0]);
      MoreMembersPrintable(entries[1..]);
    }
  }
}
