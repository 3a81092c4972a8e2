/** Readers of JSON text, as far as the compact text of `JsonText` goes.

    A reader stops at a nesting depth and keeps numbers in its own form: serde_json
    without arbitrary precision holds a number as 64 bits, Python as an integer or
    a float, and each writes it again in its own spelling, or refuses it. A string
    it gives is UTF-8 by type: text that is not is malformed.
    `CompactReader` is such a reader, so the hypotheses about readers can be met. */
module JsonReader {
  import opened Bytes
  import opened Encoders
  import opened CanonicalJson
  import opened JsonText

  datatype Parsed = Value(json: Json) | Malformed

  datatype Spelling = Spelled(lexeme: Text) | OutOfRange

  /** How a reader would write a number it has read. */
  type Respell = Text -> Spelling

  datatype Reader = Reader(parse: Text -> Parsed, respell: Respell, depthLimit: nat)

  // --- What a reader makes of a value ---------------------------------------

  /** Arrays and objects nested at most `depth` deep. */
  predicate Within(v: Json, depth: nat) {
    match v
    case Array(items) => depth > 0 && forall i | 0 <= i < |items| :: Within(items[i], depth - 1)
    case Object(entries) => depth > 0 && forall i | 0 <= i < |entries| :: Within(entries[i].value, depth - 1)
    case _ => true
  }

  /** Every number, at any depth, has the property. */
  predicate EveryNumber(p: Text -> bool, v: Json) {
    match v
    case Number(lexeme) => p(lexeme)
    case Array(items) => forall i | 0 <= i < |items| :: EveryNumber(p, items[i])
    case Object(entries) => forall i | 0 <= i < |entries| :: EveryNumber(p, entries[i].value)
    case _ => true
  }

  function InRange(respell: Respell): Text -> bool {
    l => respell(l).Spelled?
  }

  function OwnSpelling(respell: Respell): Text -> bool {
    l => respell(l) == Spelled(l)
  }

  /** The value with every number as the reader would write it. */
  function Respelled(respell: Respell, v: Json): Json {
    match v
    case Number(lexeme) => if respell(lexeme).Spelled? then Number(respell(lexeme).lexeme) else v
    case Array(items) => Array(seq(|items|, i requires 0 <= i < |items| => Respelled(respell, items[i])))
    case Object(entries) =>
      Object(seq(|entries|, i requires 0 <= i < |entries| => RespelledEntry(respell, entries[i])))
    case _ => v
  }

  function RespelledEntry(respell: Respell, e: Entry): Entry {
    Entry(e.key, Respelled(respell, e.value))
  }

  /** What can be read: not nested too deep, and no number out of range. */
  predicate Reads(respell: Respell, depth: nat, v: Json) {
    Within(v, depth) && EveryNumber(InRange(respell), v)
  }

  predicate Readable(r: Reader, v: Json) {
    Reads(r.respell, r.depthLimit, v)
  }

  function Understood(r: Reader, v: Json): Parsed {
    if Readable(r, v) then Value(Respelled(r.respell, v)) else Malformed
  }

  /** Whole 64-bit numbers stay as they are. */
  ghost predicate KeepsWholeNumbers(r: Reader) {
    forall n: u64 :: r.respell(Decimal(n)) == Spelled(Decimal(n))
  }

  /** And numbers stay numbers: no number is held as an infinity. */
  ghost predicate SpellsNumbers(r: Reader) {
    KeepsWholeNumbers(r) && forall l | IsLexeme(l) && r.respell(l).Spelled? :: IsLexeme(r.respell(l).lexeme)
  }

  /** A reader that keeps the order of keys, on every compact text; it may hold a
      number that is too big as an infinity. */
  ghost predicate ReadsCompactText(r: Reader) {
    KeepsWholeNumbers(r) && forall v | Encodable(v) && DistinctKeys(v) :: r.parse(Encode(v)) == Understood(r, v)
  }

  /** A reader that may keep keys sorted, on texts whose keys are. */
  ghost predicate ReadsCanonicalText(r: Reader) {
    && SpellsNumbers(r)
    && forall v | Encodable(v) && DistinctKeys(v) && Canonicalize(v) == v :: r.parse(Encode(v)) == Understood(r, v)
  }

  lemma {:induction false} DecimalStart(n: nat)
    ensures Decimal(n)[0] == 48 ==> n == 0
  {
    if n >= 10 {
      DecimalStart(n / 10);
      assert Decimal(n)[0] == Decimal(n / 10)[0];
    }
  }

  lemma DecimalIsLexeme(n: nat)
    ensures IsLexeme(Decimal(n))
  {
    DecimalStart(n);
    var t := Decimal(n);
    assert DigitsEnd(t, 0) == |t|;
  }

  /** A reader of 64-bit whole numbers that spells all others its own way. */
  function SixtyFourBit(other: Respell): Respell {
    l => if IsDecimalU64(l) then Spelled(l) else other(l)
  }

  lemma SixtyFourBitSpells(parse: Text -> Parsed, other: Respell, depth: nat)
    ensures KeepsWholeNumbers(Reader(parse, SixtyFourBit(other), depth))
    ensures (forall l | IsLexeme(l) && other(l).Spelled? :: IsLexeme(other(l).lexeme)) ==>
              SpellsNumbers(Reader(parse, SixtyFourBit(other), depth))
  {
    hide IsLexeme;
    forall n: u64 ensures IsDecimalU64(Decimal(n)) {
      DecimalRoundTrip(n);
    }
  }

  // --- Facts about re-spelling ------------------------------------------------

  /** A value is read as it is exactly when every number is its own spelling. */
  lemma {:induction false} RespelledFixed(respell: Respell, v: Json)
    requires EveryNumber(InRange(respell), v)
    ensures Respelled(respell, v) == v <==> EveryNumber(OwnSpelling(respell), v)
  {
    match v
    case Array(items) =>
      var w := Respelled(respell, v).items;
      forall i | 0 <= i < |items| ensures w[i] == items[i] <==> EveryNumber(OwnSpelling(respell), items[i]) {
        RespelledFixed(respell, items[i]);
      }
      assert Respelled(respell, v) == v ==> forall i | 0 <= i < |items| :: w[i] == items[i];
    case Object(entries) =>
      var w := Respelled(respell, v).entries;
      forall i | 0 <= i < |entries|
        ensures w[i] == entries[i] <==> EveryNumber(OwnSpelling(respell), entries[i].value)
      {
        RespelledFixed(respell, entries[i].value);
        assert w[i] == RespelledEntry(respell, entries[i]);
        assert w[i].key == entries[i].key && w[i].value == Respelled(respell, entries[i].value);
        assert entries[i] == Entry(entries[i].key, entries[i].value);
      }
      assert Respelled(respell, v) == v ==> forall i | 0 <= i < |entries| :: w[i] == entries[i];
    case _ =>
  }

  lemma {:induction false} OwnSpellingInRange(respell: Respell, v: Json)
    requires EveryNumber(OwnSpelling(respell), v)
    ensures EveryNumber(InRange(respell), v)
  {
    match v
    case Array(items) =>
      forall i | 0 <= i < |items| ensures EveryNumber(InRange(respell), items[i]) {
        OwnSpellingInRange(respell, items[i]);
      }
    case Object(entries) =>
      forall i | 0 <= i < |entries| ensures EveryNumber(InRange(respell), entries[i].value) {
        OwnSpellingInRange(respell, entries[i].value);
      }
    case _ =>
  }

  lemma {:induction false} RespelledEncodable(r: Reader, v: Json)
    requires SpellsNumbers(r) && Encodable(v)
    ensures Encodable(Respelled(r.respell, v))
  {
    hide IsLexeme;
    match v
    case Array(items) =>
      forall i | 0 <= i < |items| ensures Encodable(Respelled(r.respell, items[i])) {
        RespelledEncodable(r, items[i]);
      }
    case Object(entries) =>
      forall i | 0 <= i < |entries| ensures Encodable(Respelled(r.respell, entries[i].value)) {
        RespelledEncodable(r, entries[i].value);
      }
    case _ =>
  }

  lemma {:induction false} RespelledDistinct(respell: Respell, v: Json)
    requires DistinctKeys(v)
    ensures DistinctKeys(Respelled(respell, v))
  {
    match v
    case Array(items) =>
      forall i | 0 <= i < |items| ensures DistinctKeys(Respelled(respell, items[i])) {
        RespelledDistinct(respell, items[i]);
      }
    case Object(entries) =>
      forall i | 0 <= i < |entries| ensures DistinctKeys(Respelled(respell, entries[i].value)) {
        RespelledDistinct(respell, entries[i].value);
      }
    case _ =>
  }

  // --- Re-spelling and key order ------------------------------------------------

  function RespelledEntries(respell: Respell, s: seq<Entry>): (t: seq<Entry>)
    ensures |t| == |s|
  {
    seq(|s|, i requires 0 <= i < |s| => RespelledEntry(respell, s[i]))
  }

  lemma {:induction false} InsertRespelled(respell: Respell, e: Entry, s: seq<Entry>)
    ensures Insert(RespelledEntry(respell, e), RespelledEntries(respell, s)) == RespelledEntries(respell, Insert(e, s))
    decreases |s|
  {
    hide Respelled;
    if s != [] && Before(s[0].key, e.key) {
      InsertRespelled(respell, e, s[1..]);
      assert RespelledEntries(respell, s)[1..] == RespelledEntries(respell, s[1..]);
    }
  }

  lemma {:induction false} SortRespelled(respell: Respell, s: seq<Entry>)
    ensures SortByKey(RespelledEntries(respell, s)) == RespelledEntries(respell, SortByKey(s))
    decreases |s|
  {
    hide Respelled;
    if s != [] {
      SortRespelled(respell, s[1..]);
      assert RespelledEntries(respell, s)[1..] == RespelledEntries(respell, s[1..]);
      InsertRespelled(respell, s[0], SortByKey(s[1..]));
    }
  }

  /** Sorting keys and re-spelling numbers do not see each other. */
  lemma {:induction false} RespelledCanonical(respell: Respell, v: Json)
    ensures Canonicalize(Respelled(respell, v)) == Respelled(respell, Canonicalize(v))
  {
    match v
    case Array(items) =>
      forall i | 0 <= i < |items|
        ensures Canonicalize(Respelled(respell, items[i])) == Respelled(respell, Canonicalize(items[i]))
      {
        RespelledCanonical(respell, items[i]);
      }
    case Object(entries) =>
      var sorted := SortByKey(entries);
      SortRespelled(respell, entries);
      forall i | 0 <= i < |sorted|
        ensures Canonicalize(Respelled(respell, sorted[i].value)) == Respelled(respell, Canonicalize(sorted[i].value))
      {
        assert sorted[i] in entries;
        RespelledCanonical(respell, sorted[i].value);
      }
    case _ =>
  }

  lemma {:induction false} EveryNumberCanonical(p: Text -> bool, v: Json)
    ensures EveryNumber(p, Canonicalize(v)) <==> EveryNumber(p, v)
  {
    match v
    case Array(items) =>
      forall i | 0 <= i < |items| ensures EveryNumber(p, Canonicalize(items[i])) <==> EveryNumber(p, items[i]) {
        EveryNumberCanonical(p, items[i]);
      }
      var c := Canonicalize(v).items;
      assert |c| == |items| && forall i | 0 <= i < |items| :: c[i] == Canonicalize(items[i]);
    case Object(entries) =>
      var sorted := SortByKey(entries);
      forall e | e in entries ensures EveryNumber(p, Canonicalize(e.value)) <==> EveryNumber(p, e.value) {
        EveryNumberCanonical(p, e.value);
      }
      var c := Canonicalize(v).entries;
      assert |c| == |sorted| && forall i | 0 <= i < |c| :: c[i].value == Canonicalize(sorted[i].value);
      assert forall i | 0 <= i < |sorted| :: sorted[i] in entries;
      assert forall i | 0 <= i < |entries| :: entries[i] in sorted;
    case _ =>
  }

  lemma {:induction false} WithinCanonical(v: Json, depth: nat)
    ensures Within(Canonicalize(v), depth) <==> Within(v, depth)
    decreases v
  {
    match v
    case Array(items) =>
      if depth > 0 {
        forall i | 0 <= i < |items| ensures Within(Canonicalize(items[i]), depth - 1) <==> Within(items[i], depth - 1) {
          WithinCanonical(items[i], depth - 1);
        }
        var c := Canonicalize(v).items;
        assert |c| == |items| && forall i | 0 <= i < |items| :: c[i] == Canonicalize(items[i]);
      }
    case Object(entries) =>
      if depth > 0 {
        var sorted := SortByKey(entries);
        forall e | e in entries ensures Within(Canonicalize(e.value), depth - 1) <==> Within(e.value, depth - 1) {
          WithinCanonical(e.value, depth - 1);
        }
        var c := Canonicalize(v).entries;
        assert |c| == |sorted| && forall i | 0 <= i < |c| :: c[i].value == Canonicalize(sorted[i].value);
        assert forall i | 0 <= i < |sorted| :: sorted[i] in entries;
        assert forall i | 0 <= i < |entries| :: entries[i] in sorted;
      }
    case _ =>
  }

  lemma ReadableCanonical(r: Reader, v: Json)
    ensures Readable(r, Canonicalize(v)) <==> Readable(r, v)
  {
    WithinCanonical(v, r.depthLimit);
    EveryNumberCanonical(InRange(r.respell), v);
  }

  // --- A reader of compact text ---------------------------------------------------

  datatype Scan<T> = Got(value: T, rest: Text) | Bad

  /** The byte an escape stands for; escapes for characters past ASCII are not read. */
  function Escape(t: Text): (s: Scan<byte>)
    ensures s.Got? ==> |s.rest| < |t|
  {
    if t == [] then Bad
    else if t[0] == QUOTE || t[0] == BACKSLASH || t[0] == 47 then Got(t[0], t[1..])
    else if t[0] == 98 then Got(8, t[1..])
    else if t[0] == 116 then Got(9, t[1..])
    else if t[0] == 110 then Got(10, t[1..])
    else if t[0] == 102 then Got(12, t[1..])
    else if t[0] == 114 then Got(13, t[1..])
    else if t[0] == 117 && |t| >= 5 && t[1] == 48 && t[2] == 48 && 48 <= t[3] <= 55 && IsHexDigit(t[4]) then
      Got((t[3] - 48) * 16 + HexValue(t[4]), t[5..])
    else Bad
  }

  /** What stands before the closing quote. */
  function StringBody(t: Text): (s: Scan<Text>)
    ensures s.Got? ==> |s.rest| < |t|
    decreases |t|
  {
    if t == [] || t[0] < 32 then Bad
    else if t[0] == QUOTE then Got([], t[1..])
    else
      var first := if t[0] == BACKSLASH then Escape(t[1..]) else Got(t[0], t[1..]);
      match first
      case Bad => Bad
      case Got(b, rest) => Prefixed(b, StringBody(rest))
  }

  function Prefixed(b: byte, s: Scan<Text>): Scan<Text> {
    match s
    case Bad => Bad
    case Got(text, rest) => Got([b] + text, rest)
  }

  /** The run of number bytes at the front. */
  function NumberRun(t: Text): (n: nat)
    ensures n <= |t| && (n < |t| ==> !IsNumberByte(t[n])) && forall i | 0 <= i < n :: IsNumberByte(t[i])
  {
    if t == [] || !IsNumberByte(t[0]) then 0 else 1 + NumberRun(t[1..])
  }

  function ReadNumber(respell: Respell, t: Text): (s: Scan<Json>)
    ensures s.Got? ==> |s.rest| < |t|
  {
    var n := NumberRun(t);
    if !IsLexeme(t[..n]) || respell(t[..n]).OutOfRange? then Bad
    else Got(Number(respell(t[..n]).lexeme), t[n..])
  }

  function ReadString(t: Text): (s: Scan<Json>)
    ensures s.Got? ==> |s.rest| < |t|
  {
    match StringBody(t)
    case Bad => Bad
    case Got(text, rest) => if IsUtf8(text) then Got(String(text), rest) else Bad
  }

  function ReadWord(t: Text, word: Text, v: Json): (s: Scan<Json>)
    requires word != []
    ensures s.Got? ==> |s.rest| < |t|
  {
    if word <= t then Got(v, t[|word|..]) else Bad
  }

  /** A value, and what follows it. */
  function ReadValue(respell: Respell, depth: nat, t: Text): (s: Scan<Json>)
    ensures s.Got? ==> |s.rest| < |t|
    decreases |t|, 3
  {
    if t == [] then Bad
    else if t[0] == QUOTE then ReadString(t[1..])
    else if t[0] == OPEN_ARRAY then if depth == 0 then Bad else ReadArray(respell, depth - 1, t[1..])
    else if t[0] == OPEN_OBJECT then if depth == 0 then Bad else ReadObject(respell, depth - 1, t[1..])
    else if t[0] == 110 then ReadWord(t, Encode(Null), Null)
    else if t[0] == 116 then ReadWord(t, Encode(Bool(true)), Bool(true))
    else if t[0] == 102 then ReadWord(t, Encode(Bool(false)), Bool(false))
    else ReadNumber(respell, t)
  }

  function ReadArray(respell: Respell, depth: nat, t: Text): (s: Scan<Json>)
    ensures s.Got? ==> |s.rest| < |t|
    decreases |t|, 5
  {
    if t != [] && t[0] == CLOSE_ARRAY then Got(Array([]), t[1..])
    else
      match ReadItems(respell, depth, t)
      case Bad => Bad
      case Got(items, rest) => Got(Array(items), rest)
  }

  function ReadItems(respell: Respell, depth: nat, t: Text): (s: Scan<seq<Json>>)
    ensures s.Got? ==> |s.rest| < |t|
    decreases |t|, 4
  {
    match ReadValue(respell, depth, t)
    case Bad => Bad
    case Got(first, rest) =>
      if rest == [] then Bad
      else if rest[0] == CLOSE_ARRAY then Got([first], rest[1..])
      else if rest[0] != COMMA then Bad
      else
        match ReadItems(respell, depth, rest[1..])
        case Bad => Bad
        case Got(more, end) => Got([first] + more, end)
  }

  function ReadMember(respell: Respell, depth: nat, t: Text): (s: Scan<Entry>)
    ensures s.Got? ==> |s.rest| < |t|
    decreases |t|, 4
  {
    if t == [] || t[0] != QUOTE then Bad
    else
      match StringBody(t[1..])
      case Bad => Bad
      case Got(key, rest) =>
        if !IsUtf8(key) || rest == [] || rest[0] != COLON then Bad
        else
          match ReadValue(respell, depth, rest[1..])
          case Bad => Bad
          case Got(value, end) => Got(Entry(key, value), end)
  }

  function ReadObject(respell: Respell, depth: nat, t: Text): (s: Scan<Json>)
    ensures s.Got? ==> |s.rest| < |t|
    decreases |t|, 6
  {
    if t != [] && t[0] == CLOSE_OBJECT then Got(Object([]), t[1..])
    else
      match ReadMembers(respell, depth, t)
      case Bad => Bad
      case Got(entries, rest) => Got(Object(entries), rest)
  }

  function ReadMembers(respell: Respell, depth: nat, t: Text): (s: Scan<seq<Entry>>)
    ensures s.Got? ==> |s.rest| < |t|
    decreases |t|, 5
  {
    match ReadMember(respell, depth, t)
    case Bad => Bad
    case Got(first, rest) =>
      if rest == [] then Bad
      else if rest[0] == CLOSE_OBJECT then Got([first], rest[1..])
      else if rest[0] != COMMA then Bad
      else
        match ReadMembers(respell, depth, rest[1..])
        case Bad => Bad
        case Got(more, end) => Got([first] + more, end)
  }

  function ParseCompact(respell: Respell, depth: nat, t: Text): Parsed {
    match ReadValue(respell, depth, t)
    case Bad => Malformed
    case Got(v, rest) => if rest == [] then Value(v) else Malformed
  }

  function CompactReader(respell: Respell, depth: nat): Reader {
    Reader(t => ParseCompact(respell, depth, t), respell, depth)
  }

  // --- It reads what is written -----------------------------------------------------

  lemma EscapeRead(b: byte, r: Text)
    ensures var t := EscapedByte(b) + r;
            && t[0] != QUOTE && t[0] >= 32
            && (t[0] == BACKSLASH ==> Escape(t[1..]) == Got(b, r))
            && (t[0] != BACKSLASH ==> t[0] == b && t[1..] == r)
  {
    var e := EscapedByte(b);
    var t := e + r;
    assert t[1..] == e[1..] + r;
    if |e| == 2 {
      assert t[1..][1..] == r;
    } else if |e| == 6 {
      assert t[1..][5..] == r;
      assert t[1..][3] == LowerHexDigit(b / 16) && t[1..][4] == LowerHexDigit(b % 16);
    }
  }

  lemma {:induction false} StringRead(s: Text, r: Text)
    ensures StringBody((Escaped(s) + [QUOTE]) + r) == Got(s, r)
    decreases |s|
  {
    hide Escape, EscapedByte;
    if s == [] {
      assert (Escaped(s) + [QUOTE]) + r == [QUOTE] + r;
      assert ([QUOTE] + r)[1..] == r;
    } else {
      EscapedText(s, r);
      var more := (Escaped(s[1..]) + [QUOTE]) + r;
      EscapeRead(s[0], more);
      StringRead(s[1..], r);
      assert [s[0]] + s[1..] == s;
    }
  }

  lemma {:induction false} NumberRunIs(l: Text, r: Text)
    requires Delimited(r) && forall i | 0 <= i < |l| :: IsNumberByte(l[i])
    ensures NumberRun(l + r) == |l|
    decreases |l|
  {
    if l == [] {
      assert l + r == r;
    } else {
      assert (l + r)[1..] == l[1..] + r;
      NumberRunIs(l[1..], r);
    }
  }

  lemma NumberRead(respell: Respell, l: Text, r: Text)
    requires IsLexeme(l) && Delimited(r)
    ensures ReadNumber(respell, l + r) ==
            if respell(l).Spelled? then Got(Number(respell(l).lexeme), r) else Bad
  {
    hide IsLexeme;
    NumberRunIs(l, r);
    assert (l + r)[..|l|] == l && (l + r)[|l|..] == r;
  }

  /** What reading a value's text with something after it gives. */
  function AsRead(respell: Respell, depth: nat, v: Json, r: Text): Scan<Json> {
    if Reads(respell, depth, v) then Got(Respelled(respell, v), r) else Bad
  }

  function RespelledItems(respell: Respell, items: seq<Json>): (t: seq<Json>)
    ensures |t| == |items|
  {
    seq(|items|, i requires 0 <= i < |items| => Respelled(respell, items[i]))
  }

  function ItemsAsRead(respell: Respell, depth: nat, items: seq<Json>, r: Text): Scan<seq<Json>> {
    if forall i | 0 <= i < |items| :: Reads(respell, depth, items[i])
    then Got(RespelledItems(respell, items), r)
    else Bad
  }

  function EntriesAsRead(respell: Respell, depth: nat, entries: seq<Entry>, r: Text): Scan<seq<Entry>> {
    if forall i | 0 <= i < |entries| :: Reads(respell, depth, entries[i].value)
    then Got(RespelledEntries(respell, entries), r)
    else Bad
  }

  lemma ArrayAsRead(respell: Respell, depth: nat, v: Json, r: Text)
    requires v.Array? && depth > 0
    ensures AsRead(respell, depth, v, r) ==
            match ItemsAsRead(respell, depth - 1, v.items, r)
            case Bad => Bad
            case Got(items, rest) => Got(Array(items), rest)
  {
    assert Respelled(respell, v).items == RespelledItems(respell, v.items);
  }

  lemma ObjectAsRead(respell: Respell, depth: nat, v: Json, r: Text)
    requires v.Object? && depth > 0
    ensures AsRead(respell, depth, v, r) ==
            match EntriesAsRead(respell, depth - 1, v.entries, r)
            case Bad => Bad
            case Got(entries, rest) => Got(Object(entries), rest)
  {
    assert Respelled(respell, v).entries == RespelledEntries(respell, v.entries);
  }

  lemma ItemsUnfold(respell: Respell, depth: nat, items: seq<Json>, r: Text)
    ensures ItemsAsRead(respell, depth, [], r) == Got([], r)
    ensures items != [] ==>
              ItemsAsRead(respell, depth, items, r) ==
              if !Reads(respell, depth, items[0]) then Bad
              else
                match ItemsAsRead(respell, depth, items[1..], r)
                case Bad => Bad
                case Got(more, end) => Got([Respelled(respell, items[0])] + more, end)
  {
    hide Reads, Respelled;
    assert RespelledItems(respell, []) == [];
    assert items != [] ==>
             RespelledItems(respell, items) == [Respelled(respell, items[0])] + RespelledItems(respell, items[1..]);
    assert items != [] ==> ((forall i | 0 <= i < |items| :: Reads(respell, depth, items[i])) <==>
             Reads(respell, depth, items[0]) && forall i | 0 <= i < |items[1..]| :: Reads(respell, depth, items[1..][i]));
  }

  lemma EntriesUnfold(respell: Respell, depth: nat, entries: seq<Entry>, r: Text)
    ensures EntriesAsRead(respell, depth, [], r) == Got([], r)
    ensures entries != [] ==>
              EntriesAsRead(respell, depth, entries, r) ==
              if !Reads(respell, depth, entries[0].value) then Bad
              else
                match EntriesAsRead(respell, depth, entries[1..], r)
                case Bad => Bad
                case Got(more, end) => Got([RespelledEntry(respell, entries[0])] + more, end)
  {
    hide Reads, RespelledEntry;
    assert RespelledEntries(respell, []) == [];
    assert entries != [] ==>
             RespelledEntries(respell, entries) ==
             [RespelledEntry(respell, entries[0])] + RespelledEntries(respell, entries[1..]);
    assert entries != [] ==> ((forall i | 0 <= i < |entries| :: Reads(respell, depth, entries[i].value)) <==>
             Reads(respell, depth, entries[0].value)
             && forall i | 0 <= i < |entries[1..]| :: Reads(respell, depth, entries[1..][i].value));
  }

  /** Reading a text written by `Encode` gives the value as the reader holds it, or
      fails exactly when it nests too deep or has a number out of range. */
  lemma {:induction false} ValueRead(respell: Respell, depth: nat, v: Json, r: Text)
    requires Encodable(v) && Delimited(r)
    ensures ReadValue(respell, depth, Encode(v) + r) == AsRead(respell, depth, v, r)
    decreases v, 3
  {
    hide IsLexeme, StringBody, ReadItems, ReadMembers;
    FirstByte(v, r);
    match v
    case Null => assert (Encode(v) + r)[4..] == r;
    case Bool(value) => assert (Encode(v) + r)[|Encode(v)|..] == r;
    case Number(lexeme) => NumberRead(respell, lexeme, r);
    case String(text) =>
      QuotedText(text, r);
      assert ([QUOTE] + ((Escaped(text) + [QUOTE]) + r))[1..] == (Escaped(text) + [QUOTE]) + r;
      StringRead(text, r);
    case Array(items) => ArrayRead(respell, depth, v, r);
    case Object(entries) => ObjectRead(respell, depth, v, r);
  }

  lemma {:induction false} ArrayRead(respell: Respell, depth: nat, v: Json, r: Text)
    requires v.Array? && Encodable(v) && Delimited(r)
    ensures ReadValue(respell, depth, Encode(v) + r) == AsRead(respell, depth, v, r)
    decreases v, 2
  {
    hide ReadItems, Encodable, IsLexeme;
    var items := v.items;
    ArrayText(items, r);
    var t := Encode(v) + r;
    if depth > 0 {
      ArrayAsRead(respell, depth, v, r);
      ItemsUnfold(respell, depth - 1, items, r);
      if items == [] {
        assert t[1..] == [CLOSE_ARRAY] + r && ([CLOSE_ARRAY] + r)[1..] == r;
      } else {
        var inner := Encode(items[0]) + (MoreItems(items[1..]) + r);
        assert t[1..] == inner;
        ItemsEncodable(v);
        FirstByte(items[0], MoreItems(items[1..]) + r);
        ItemsRead(respell, depth - 1, items, r);
      }
    }
  }

  lemma ItemsEncodable(v: Json)
    requires v.Array? && Encodable(v)
    ensures forall i | 0 <= i < |v.items| :: Encodable(v.items[i])
  {}

  lemma {:induction false} ItemsRead(respell: Respell, depth: nat, items: seq<Json>, r: Text)
    requires items != [] && forall i | 0 <= i < |items| :: Encodable(items[i])
    ensures ReadItems(respell, depth, Encode(items[0]) + (MoreItems(items[1..]) + r)) ==
            ItemsAsRead(respell, depth, items, r)
    decreases items, 0
  {
    hide Encodable, ReadValue, Within, EveryNumber, ItemsAsRead, Respelled, Encode;
    var more := MoreItems(items[1..]) + r;
    MoreItemsText(items[1..], r);
    ValueRead(respell, depth, items[0], more);
    assert AsRead(respell, depth, items[0], more) ==
           if Reads(respell, depth, items[0]) then Got(Respelled(respell, items[0]), more) else Bad;
    ItemsUnfold(respell, depth, items, r);
    if |items| == 1 {
      assert more[1..] == r && items[1..] == [];
      assert [Respelled(respell, items[0])] + [] == [Respelled(respell, items[0])];
    } else {
      assert more[1..] == Encode(items[1]) + (MoreItems(items[1..][1..]) + r);
      ItemsRead(respell, depth, items[1..], r);
    }
  }

  lemma {:induction false} ObjectRead(respell: Respell, depth: nat, v: Json, r: Text)
    requires v.Object? && Encodable(v) && Delimited(r)
    ensures ReadValue(respell, depth, Encode(v) + r) == AsRead(respell, depth, v, r)
    decreases v, 2
  {
    hide ReadMembers, Encodable, IsLexeme;
    var entries := v.entries;
    ObjectText(entries, r);
    var t := Encode(v) + r;
    if depth > 0 {
      ObjectAsRead(respell, depth, v, r);
      EntriesUnfold(respell, depth - 1, entries, r);
      if entries == [] {
        assert t[1..] == [CLOSE_OBJECT] + r && ([CLOSE_OBJECT] + r)[1..] == r;
      } else {
        var inner := Member(entries[0]) + (MoreMembers(entries[1..]) + r);
        assert t[1..] == inner;
        EntriesEncodable(v);
        MemberText(entries[0], MoreMembers(entries[1..]) + r);
        MembersRead(respell, depth - 1, entries, r);
      }
    }
  }

  lemma EntriesEncodable(v: Json)
    requires v.Object? && Encodable(v)
    ensures forall i | 0 <= i < |v.entries| :: Encodable(v.entries[i].value)
  {}

  lemma {:induction false} MemberRead(respell: Respell, depth: nat, e: Entry, r: Text)
    requires Encodable(e.value) && Delimited(r)
    ensures ReadMember(respell, depth, Member(e) + r) ==
            if Reads(respell, depth, e.value) then Got(RespelledEntry(respell, e), r) else Bad
    decreases e, 1
  {
    hide Encodable, ReadValue, Within, EveryNumber, Respelled, Encode, StringBody;
    MemberText(e, r);
    var value := Encode(e.value) + r;
    var after := [COLON] + value;
    QuotedText(e.key, after);
    var t := Member(e) + r;
    assert t[1..] == (Escaped(e.key) + [QUOTE]) + after;
    StringRead(e.key, after);
    assert after[1..] == value;
    ValueRead(respell, depth, e.value, r);
  }

  lemma {:induction false} MembersRead(respell: Respell, depth: nat, entries: seq<Entry>, r: Text)
    requires entries != [] && forall i | 0 <= i < |entries| :: Encodable(entries[i].value)
    ensures ReadMembers(respell, depth, Member(entries[0]) + (MoreMembers(entries[1..]) + r)) ==
            EntriesAsRead(respell, depth, entries, r)
    decreases entries, 0
  {
    hide Encodable, ReadMember, Reads, EntriesAsRead, RespelledEntry, Member;
    var more := MoreMembers(entries[1..]) + r;
    MoreMembersText(entries[1..], r);
    MemberRead(respell, depth, entries[0], more);
    EntriesUnfold(respell, depth, entries, r);
    if |entries| == 1 {
      assert more[1..] == r && entries[1..] == [];
      assert [RespelledEntry(respell, entries[0])] + [] == [RespelledEntry(respell, entries[0])];
    } else {
      assert more[1..] == Member(entries[1]) + (MoreMembers(entries[1..][1..]) + r);
      MembersRead(respell, depth, entries[1..], r);
    }
  }

  /** The compact reader, with any depth limit and any spelling that keeps whole
      64-bit numbers, is a reader of compact text: exactly what it cannot hold is
      malformed. When it writes numbers as numbers it can be the server's. */
  lemma CompactReaderReads(respell: Respell, depth: nat)
    requires KeepsWholeNumbers(CompactReader(respell, depth))
    ensures ReadsCompactText(CompactReader(respell, depth))
    ensures SpellsNumbers(CompactReader(respell, depth)) ==> ReadsCanonicalText(CompactReader(respell, depth))
  {
    hide ReadValue, Encodable, Within, EveryNumber, SpellsNumbers, KeepsWholeNumbers;
    forall v | Encodable(v) ensures ParseCompact(respell, depth, Encode(v)) == Understood(CompactReader(respell, depth), v) {
      assert Encode(v) + [] == Encode(v);
      ValueRead(respell, depth, v, []);
    }
  }

  /** Quoted bytes are read as a string exactly when they are UTF-8. */
  lemma QuotedRead(respell: Respell, depth: nat, t: Text)
    ensures CompactReader(respell, depth).parse(Quoted(t)) == if IsUtf8(t) then Value(String(t)) else Malformed
  {
    hide IsUtf8, StringBody, Escaped;
    QuotedText(t, []);
    assert Quoted(t) + [] == Quoted(t);
    assert Quoted(t)[1..] == (Escaped(t) + [QUOTE]) + [];
    StringRead(t, []);
  }
}
