/** Reading the bridge's answers: `FrameReader` and `checked_result` of
    scripts/run_authenticated_desktop_bridge_smoke.py against `write_response`. */
module BridgeReplies {
  import opened Bytes
  import opened Encoders
  import opened CanonicalJson
  import opened JsonText
  import opened JsonReader
  import opened BridgeFrames
  import opened BridgeProtocol
  import opened BridgeSession
  import opened BridgeRun
  import opened BridgeClient
  import opened BridgeHandshake

  // --- The reader ---------------------------------------------------------

  datatype Reply = Frame(bytes: Text) | TooLong | Closed

  /** The first line of the stream, when it ends and fits. */
  function FirstReply(s: Text): Reply {
    var n := LineEnd(s);
    if n > MAX_FRAME_BYTES then TooLong else if n < |s| then Frame(s[..n]) else Closed
  }

  /** A line of at most a mebibyte is a reply without its newline, a longer one is too
      long, and a stream that ends in a line is closed. */
  lemma RepliesAre(line: Text, rest: Text)
    requires NoNewline(line)
    ensures FirstReply(line + [10] + rest) == if |line| > 1_048_576 then TooLong else Frame(line)
    ensures FirstReply(line) == if |line| > 1_048_576 then TooLong else Closed
  {
    assert line + [10] + rest == line + ([LF] + rest);
    LineEndPast(line, [LF] + rest);
    assert (line + ([LF] + rest))[..|line|] == line;
    LineEndPast(line, []);
    assert line + [] == line;
  }

  /** A stream read in arbitrary pieces; a deadline that passes is not modelled. */
  class FrameReader {
    var buffer: Text
    var deliveries: seq<Text>

    ghost predicate Valid()
      reads this
    {
      forall i | 0 <= i < |deliveries| :: deliveries[i] != []
    }

    ghost function Unread(): Text
      reads this
    {
      buffer + Flatten(deliveries)
    }

    constructor (deliveries: seq<Text>)
      requires forall i | 0 <= i < |deliveries| :: deliveries[i] != []
      ensures Valid() && Unread() == Flatten(deliveries)
    {
      this.buffer := [];
      this.deliveries := deliveries;
    }

    /** The next line, whatever the read sizes: what the stream alone determines. */
    method Read() returns (reply: Reply)
      requires Valid()
      modifies this
      ensures Valid() && reply == FirstReply(old(Unread()))
      ensures reply.Frame? ==> Unread() == AfterFrame(old(Unread()))
    {
      ghost var start := Unread();
      while true
        invariant Valid() && Unread() == start
        decreases |deliveries|
      {
        var newline := LineEnd(buffer);
        if newline < |buffer| {
          LineInPrefix(buffer, Flatten(deliveries));
          var frame := buffer[..newline];
          ghost var rest := Flatten(deliveries);
          assert start[newline + 1..] == buffer[newline + 1..] + rest;
          buffer := buffer[newline + 1..];
          return if |frame| > MAX_FRAME_BYTES then TooLong else Frame(frame);
        }
        LineInPrefix(buffer, Flatten(deliveries));
        if |buffer| > MAX_FRAME_BYTES {
          return TooLong;
        }
        if deliveries == [] {
          assert start == buffer;
          return Closed;
        }
        assert Flatten(deliveries) == deliveries[0] + Flatten(deliveries[1..]);
        assert buffer + Flatten(deliveries) == (buffer + deliveries[0]) + Flatten(deliveries[1..]);
        buffer, deliveries := buffer + deliveries[0], deliveries[1..];
      }
    }
  }

  /** What the bytes read so far say about the first line. */
  lemma LineInPrefix(a: Text, b: Text)
    ensures LineEnd(a) < |a| ==> LineEnd(a + b) == LineEnd(a) && (a + b)[..LineEnd(a)] == a[..LineEnd(a)]
    ensures LineEnd(a) == |a| ==> LineEnd(a + b) >= |a|
  {
    var n := LineEnd(a);
    if n < |a| {
      assert a + b == a[..n] + (a[n..] + b);
      LineEndPast(a[..n], a[n..] + b);
      assert (a[n..] + b)[0] == LF;
    } else {
      LineEndPast(a, b);
    }
  }

  // --- Every answer is one line -------------------------------------------

  /** The text of a response line, without its newline. */
  function ResponseText(response: Json): Text {
    var encoded := Encode(response);
    if |encoded| > MAX_FRAME_BYTES then
      Encode(ErrorResponse(AsString(Get(response, IdKey())), ResponseTooLargeCode()))
    else encoded
  }

  /** What the world's handlers return can be written, and ids are bounded. */
  ghost predicate Writable(world: World, e: Event) {
    && (e.Unreadable? ==> e.id.Some? ==> ValidRequestId(e.id.value))
    && (e.Replayed? ==> ValidRequestId(e.repeated))
    && (e.Served? ==> ValidRequestId(e.request.id))
    && (e.Served? && e.outcome.Dispatched? && e.outcome.result.Succeeded? ==>
          Encodable(e.outcome.result.result) && DistinctKeys(e.outcome.result.result))
  }

  lemma ErrorEncodable(id: Option<Utf8>, code: Utf8)
    ensures Encodable(ErrorResponse(id, code))
  {
    hide ErrorKey, IdKey, VersionKey, CodeKey, IsLexeme;
    DecimalEncodable();
    assert Encodable(Object([Entry(CodeKey(), String(code))]));
  }

  lemma ReplyEncodable(world: World, b: Binding)
    ensures Encodable(HandshakeReply(world, b))
  {
    hide IsUtf8, BinaryVersionKey, BindingKey, CapabilitiesKey, ProtocolVersionKey, BridgeCapabilities, BindingJson, Decimal;
    DecimalEncodable();
    BindingEncodable(b);
    assert Encodable(Capabilities());
  }

  lemma BindingEncodable(b: Binding)
    ensures Encodable(BindingJson(b))
  {
    hide AppStateRootKey, ChildPidKey, ChildStartMarkerKey, ParentPidKey, ParentStartMarkerKey,
         ProcessGenerationKey, ProjectRootKey, IsLexeme;
    DecimalIsLexeme(b.childPid);
    DecimalIsLexeme(b.parentPid);
    var e := BindingJson(b).entries;
    forall i | 0 <= i < |e| ensures Encodable(e[i].value) {
      assert e[i].value.String? || e[i].value in {Whole(b.childPid), Whole(b.parentPid)};
    }
  }

  lemma DecimalEncodable()
    ensures Encodable(Whole(PROTOCOL_VERSION))
  {
    DecimalIsLexeme(PROTOCOL_VERSION);
  }

  lemma ResultEncodable(id: Utf8, result: Json)
    requires Encodable(result)
    ensures Encodable(ResultResponse(id, result))
  {
    hide IdKey, ResultKey, VersionKey, Decimal;
    DecimalEncodable();
  }

  lemma {:induction false} OutcomeEncodable(world: World, id: Utf8, o: Outcome)
    requires o.Dispatched? && o.result.Succeeded? ==> Encodable(o.result.result)
    ensures Encodable(OutcomeResponse(world, id, o))
  {
    hide HandshakeReply, ErrorResponse, ResultResponse, RefusalCode, Encodable;
    match o
    case HandshakeDone(b) =>
      ReplyEncodable(world, b);
      ResultEncodable(id, HandshakeReply(world, b));
    case HandshakeRefused(r) => ErrorEncodable(Some(id), RefusalCode(r));
    case NotAuthenticated(r) => ErrorEncodable(Some(id), RefusalCode(r));
    case Dispatched(Succeeded(result)) => ResultEncodable(id, result);
    case Dispatched(Failed(code)) => ErrorEncodable(Some(id), code);
  }

  lemma {:induction false} ResponseEncodable(world: World, e: Event)
    requires Writable(world, e)
    ensures Encodable(Response(world, e))
  {
    hide ValidRequestId, ErrorResponse, OutcomeResponse, ParseFailureCode, FrameTooLargeCode, DuplicateRequestIdCode,
         Encodable;
    match e
    case TooLarge => ErrorEncodable(None, FrameTooLargeCode());
    case Unreadable(id, failure) => ErrorEncodable(id, ParseFailureCode(failure));
    case Replayed(id) => ErrorEncodable(Some(id), DuplicateRequestIdCode());
    case Served(request, outcome) => OutcomeEncodable(world, request.id, outcome);
  }

  /** The id a response carries. */
  function EventId(e: Event): Option<Utf8> {
    match e
    case TooLarge => None
    case Unreadable(id, _) => id
    case Replayed(id) => Some(id)
    case Served(request, _) => Some(request.id)
  }

  lemma KeysDiffer()
    ensures ErrorKey() != IdKey() && IdKey() != ResultKey() && IdKey() != VersionKey()
    ensures ErrorKey() != VersionKey() && ResultKey() != VersionKey() && ErrorKey() != ResultKey()
  {
    assert ErrorKey()[0] == 101 && IdKey()[0] == 105 && ResultKey()[0] == 114 && VersionKey()[0] == 118;
  }

  lemma ErrorFields(id: Option<Utf8>, code: Utf8)
    ensures var r := ErrorResponse(id, code);
            && Get(r, IdKey()) == Some(IdJson(id)) && Get(r, VersionKey()) == Some(Whole(PROTOCOL_VERSION))
            && Get(r, ErrorKey()).Some? && Get(r, ResultKey()).None?
  {
    KeysDiffer();
    hide ErrorKey, IdKey, ResultKey, VersionKey, CodeKey;
    var e := ErrorResponse(id, code).entries;
    assert e[1..][0] == e[1] && e[2..][0] == e[2] && e[1..][1..] == e[2..] && e[2..][1..] == e[3..];
    assert Lookup(e, IdKey()) == Lookup(e[1..], IdKey());
    assert Lookup(e, VersionKey()) == Lookup(e[1..], VersionKey()) == Lookup(e[2..], VersionKey());
    assert Lookup(e, ResultKey()) == Lookup(e[1..], ResultKey()) == Lookup(e[2..], ResultKey()) == None;
  }

  lemma ResultFields(id: Utf8, result: Json)
    ensures var r := ResultResponse(id, result);
            && Get(r, IdKey()) == Some(String(id)) && Get(r, VersionKey()) == Some(Whole(PROTOCOL_VERSION))
            && Get(r, ErrorKey()).None? && Get(r, ResultKey()) == Some(result)
  {
    KeysDiffer();
    hide ErrorKey, IdKey, ResultKey, VersionKey;
    var e := ResultResponse(id, result).entries;
    assert e[1..][0] == e[1] && e[2..][0] == e[2] && e[1..][1..] == e[2..] && e[2..][1..] == e[3..];
    assert Lookup(e, ResultKey()) == Lookup(e[1..], ResultKey());
    assert Lookup(e, VersionKey()) == Lookup(e[1..], VersionKey()) == Lookup(e[2..], VersionKey());
    assert Lookup(e, ErrorKey()) == Lookup(e[1..], ErrorKey()) == Lookup(e[2..], ErrorKey()) == None;
  }

  lemma ResponseId(world: World, e: Event)
    ensures AsString(Get(Response(world, e), IdKey())) == EventId(e)
  {
    hide IsUtf8, HandshakeReply, ErrorResponse, ResultResponse, IdKey, RefusalCode, ParseFailureCode, Get,
         FrameTooLargeCode, DuplicateRequestIdCode;
    match e
    case TooLarge => ErrorFields(None, FrameTooLargeCode());
    case Unreadable(id, failure) => ErrorFields(id, ParseFailureCode(failure));
    case Replayed(id) => ErrorFields(Some(id), DuplicateRequestIdCode());
    case Served(request, outcome) =>
      match outcome
      case HandshakeDone(b) => ResultFields(request.id, HandshakeReply(world, b));
      case HandshakeRefused(r) => ErrorFields(Some(request.id), RefusalCode(r));
      case NotAuthenticated(r) => ErrorFields(Some(request.id), RefusalCode(r));
      case Dispatched(Succeeded(result)) => ResultFields(request.id, result);
      case Dispatched(Failed(code)) => ErrorFields(Some(request.id), code);
  }

  lemma MemberLength(e: Entry)
    ensures |Member(e)| <= 6 * |e.key| + 3 + |Encode(e.value)|
  {
    EscapedPrintable(e.key);
  }

  lemma StringLength(t: Utf8)
    ensures |Encode(String(t))| <= 6 * |t| + 2
  {
    EscapedPrintable(t);
  }

  lemma ThreeMembers(a: Entry, b: Entry, c: Entry)
    ensures |Encode(Object([a, b, c]))| == |Member(a)| + |Member(b)| + |Member(c)| + 4
  {
    var e := [a, b, c];
    assert e[1..] == [b, c] && [b, c][1..] == [c] && [c][1..] == [];
    assert MoreMembers([c]) == [COMMA] + Member(c) + [CLOSE_OBJECT];
    assert MoreMembers([b, c]) == [COMMA] + Member(b) + MoreMembers([c]);
    assert Encode(Object(e)) == [OPEN_OBJECT] + (Member(a) + MoreMembers([b, c]));
  }

  lemma OneMember(a: Entry)
    ensures |Encode(Object([a]))| == |Member(a)| + 2
  {
    assert [a][1..] == [];
    assert Encode(Object([a])) == [OPEN_OBJECT] + (Member(a) + [CLOSE_OBJECT]);
  }

  /** An error response is about as long as its id and code. */
  lemma ErrorLength(id: Option<Utf8>, code: Utf8)
    ensures |Encode(ErrorResponse(id, code))| <= 200 + 6 * |code| + (if id.Some? then 6 * |id.value| else 0)
  {
    hide IsUtf8;
    var a := Entry(ErrorKey(), Object([Entry(CodeKey(), String(code))]));
    var b, c := Entry(IdKey(), IdJson(id)), Entry(VersionKey(), Whole(PROTOCOL_VERSION));
    assert |ErrorKey()| == 5 && |CodeKey()| == 4 && |IdKey()| == 2 && |VersionKey()| == 7;
    assert |Decimal(PROTOCOL_VERSION)| == 1;
    hide ErrorKey, CodeKey, IdKey, VersionKey;
    ThreeMembers(a, b, c);
    MemberLength(a); MemberLength(b); MemberLength(c);
    OneMember(Entry(CodeKey(), String(code)));
    MemberLength(Entry(CodeKey(), String(code)));
    StringLength(code);
    if id.Some? { StringLength(id.value); }
  }

  /** Every response line is printable and within the frame limit: when the
      response itself is too long, its stand-in is not. */
  lemma ResponseFits(world: World, e: Event)
    requires Writable(world, e)
    ensures var text := ResponseText(Response(world, e));
            && |text| <= MAX_FRAME_BYTES && Printable(text)
            && ResponseLine(Response(world, e)) == text + [LF]
  {
    hide Response, ErrorResponse, IdKey, HasControl;
    ResponseEncodable(world, e);
    ResponseId(world, e);
    EncodePrintable(Response(world, e));
    assert |ResponseTooLargeCode()| == 18;
    hide ResponseTooLargeCode;
    ErrorEncodable(EventId(e), ResponseTooLargeCode());
    EncodePrintable(ErrorResponse(EventId(e), ResponseTooLargeCode()));
    ErrorLength(EventId(e), ResponseTooLargeCode());
  }

  /** What the client reads back, line after line. */
  function Replies(count: nat, s: Text): (rs: seq<Reply>)
    ensures |rs| == count
  {
    if count == 0 then [] else [FirstReply(s)] + Replies(count - 1, AfterFrame(s))
  }

  /** What those lines leave on the stream. */
  function AfterReplies(count: nat, s: Text): Text {
    if count == 0 then s else AfterReplies(count - 1, AfterFrame(s))
  }

  lemma LineIsRead(text: Text, rest: Text)
    requires Printable(text) && |text| <= MAX_FRAME_BYTES
    ensures FirstReply((text + [LF]) + rest) == Frame(text) && AfterFrame((text + [LF]) + rest) == rest
  {
    assert (text + [LF]) + rest == text + ([LF] + rest);
    LineEndPast(text, [LF] + rest);
    assert (text + ([LF] + rest))[..|text|] == text;
  }

  /** Each answer of a run is read back whole, in order, and what follows them is
      what is left on the stream. */
  lemma {:induction false} RepliesAreRead(world: World, trace: seq<Step>, rest: Text)
    requires forall i | 0 <= i < |trace| :: Writable(world, trace[i].event)
    ensures Replies(|trace|, Written(world, trace) + rest) ==
            seq(|trace|, i requires 0 <= i < |trace| => Frame(ResponseText(Response(world, trace[i].event))))
    ensures AfterReplies(|trace|, Written(world, trace) + rest) == rest
    decreases |trace|
  {
    hide Writable, Response, ResponseText, ResponseLine, FirstReply, AfterFrame, Printable, Get, Encode;
    if trace == [] {
      assert Written(world, trace) + rest == rest;
    } else {
      var response := Response(world, trace[0].event);
      ResponseFits(world, trace[0].event);
      var more := Written(world, trace[1..]) + rest;
      Regroup(ResponseText(response) + [LF], Written(world, trace[1..]), rest);
      LineIsRead(ResponseText(response), more);
      RepliesAreRead(world, trace[1..], rest);
    }
  }

  lemma RepliesUnfold(count: nat, s: Text)
    requires count > 0
    ensures Replies(count, s) == [FirstReply(s)] + Replies(count - 1, AfterFrame(s))
    ensures AfterReplies(count, s) == AfterReplies(count - 1, AfterFrame(s))
  {}

  /** So many reads return those lines, when each of them fits, whatever the read
      sizes, and leave what follows them. */
  method ReadReplies(reader: FrameReader, count: nat) returns (replies: seq<Reply>)
    requires reader.Valid() && forall r <- Replies(count, reader.Unread()) :: r.Frame?
    modifies reader
    ensures reader.Valid() && reader.Unread() == AfterReplies(count, old(reader.Unread()))
    ensures replies == Replies(count, old(reader.Unread()))
  {
    hide FirstReply, AfterFrame, Replies, AfterReplies, Flatten;
    replies := [];
    ghost var all, end := Replies(count, reader.Unread()), AfterReplies(count, reader.Unread());
    for done := 0 to count
      invariant reader.Valid() && |replies| == done
      invariant all == replies + Replies(count - done, reader.Unread())
      invariant end == AfterReplies(count - done, reader.Unread())
    {
      RepliesUnfold(count - done, reader.Unread());
      ghost var more := Replies(count - done - 1, AfterFrame(reader.Unread()));
      assert all[done] == FirstReply(reader.Unread());
      assert all == (replies + [FirstReply(reader.Unread())]) + more;
      var reply := reader.Read();
      replies := replies + [reply];
    }
    ReadNothing(reader.Unread());
    assert all == replies;
  }

  /** A client that reads as many answers as a run gave gets exactly those, and
      leaves exactly what follows them. */
  method ReadAnswers(reader: FrameReader, ghost world: World, ghost trace: seq<Step>, count: nat, ghost rest: Text)
    returns (replies: seq<Reply>)
    requires reader.Valid() && count == |trace| && reader.Unread() == Written(world, trace) + rest
    requires forall i | 0 <= i < |trace| :: Writable(world, trace[i].event)
    modifies reader
    ensures reader.Valid() && reader.Unread() == rest
    ensures |replies| == count
    ensures forall i | 0 <= i < count :: replies[i] == Frame(ResponseText(Response(world, trace[i].event)))
  {
    hide FirstReply, AfterFrame, Writable, ResponseText, Response, Written, Replies, AfterReplies, Flatten;
    RepliesAreRead(world, trace, rest);
    replies := ReadReplies(reader, count);
  }

  lemma ReadNothing(s: Text)
    ensures Replies(0, s) == [] && AfterReplies(0, s) == s
  {}

  // --- Checking an answer -------------------------------------------------

  /** The number two, as Python writes it again when it was whole and when it was not. */
  predicate IsTwo(v: Option<Json>) {
    v.Some? && v.value.Number? && (v.value.lexeme == Ascii("2") || v.value.lexeme == Ascii("2.0"))
  }

  lemma VersionIsTwo()
    ensures IsTwo(Some(Whole(PROTOCOL_VERSION)))
  {
    hide IsUtf8;
    assert Decimal(2) == Ascii("2");
  }

  /** `checked_result`: the result of a response to `id`, if it is one. */
  function CheckedResult(response: Json, id: Utf8): Option<Json> {
    if !IsTwo(Get(response, VersionKey())) || Get(response, IdKey()) != Some(String(id)) then None
    else if Get(response, ErrorKey()).Some? then None
    else
      var result := Get(response, ResultKey());
      if result.Some? && result.value.Object? then result else None
  }

  /** The frame read, parsed as a JSON object and checked. */
  function CheckedReply(client: Reader, reply: Reply, id: Utf8): Option<Json> {
    if !reply.Frame? then None
    else
      match client.parse(reply.bytes)
      case Malformed => None
      case Value(v) => if v.Object? then CheckedResult(v, id) else None
  }

  lemma ErrorChecked(from: Option<Utf8>, code: Utf8, id: Utf8)
    ensures CheckedResult(ErrorResponse(from, code), id) == None
  {
    hide IdKey, ResultKey, VersionKey, ErrorKey, CodeKey;
    ErrorFields(from, code);
  }

  lemma ResultChecked(id: Utf8, result: Json)
    ensures CheckedResult(ResultResponse(id, result), id) == if result.Object? then Some(result) else None
  {
    hide IdKey, ResultKey, VersionKey, ErrorKey, IsTwo;
    VersionIsTwo();
    ResultFields(id, result);
  }

  ghost predicate Has(entries: seq<Entry>, key: Text) {
    exists i :: 0 <= i < |entries| && entries[i].key == key
  }

  ghost predicate Holds(entries: seq<Entry>, key: Text, value: Json) {
    exists i :: 0 <= i < |entries| && entries[i].key == key && entries[i].value == value
  }

  lemma LookupIs(entries: seq<Entry>, key: Text)
    requires DistinctEntries(entries)
    ensures Lookup(entries, key).Some? <==> Has(entries, key)
    ensures forall v :: Lookup(entries, key) == Some(v) <==> Holds(entries, key, v)
  {
    if Has(entries, key) {
      var i: nat :| i < |entries| && entries[i].key == key;
      LookupAt(entries, i);
      assert Holds(entries, key, entries[i].value);
    } else {
      LookupAbsent(entries, key);
    }
  }

  /** A result is taken exactly from an object of version 2 that answers under the id
      asked for, carries no error, and has an object for a result. */
  lemma CheckedResultIs(entries: seq<Entry>, id: Utf8, result: Json)
    requires DistinctEntries(entries)
    ensures CheckedResult(Object(entries), id) == Some(result) <==>
            && (Holds(entries, Ascii("version"), Number(Ascii("2")))
                || Holds(entries, Ascii("version"), Number(Ascii("2.0"))))
            && Holds(entries, Ascii("id"), String(id)) && !Has(entries, Ascii("error"))
            && Holds(entries, Ascii("result"), result) && result.Object?
  {
    ReplyKeyTexts();
    hide IsUtf8, Ascii, Lookup, Has, Holds, IdKey, ResultKey, VersionKey, ErrorKey;
    LookupIs(entries, VersionKey());
    LookupIs(entries, IdKey());
    LookupIs(entries, ErrorKey());
    LookupIs(entries, ResultKey());
    TwoIsHeld(entries);
  }

  lemma TwoIsHeld(entries: seq<Entry>)
    requires DistinctEntries(entries)
    ensures IsTwo(Lookup(entries, VersionKey())) <==>
            || Holds(entries, VersionKey(), Number(Ascii("2"))) || Holds(entries, VersionKey(), Number(Ascii("2.0")))
  {
    hide IsUtf8, Ascii, Lookup, Has, Holds, VersionKey;
    LookupIs(entries, VersionKey());
    var v := Lookup(entries, VersionKey());
    assert v.Some? && v.value.Number? ==> v.value == Number(v.value.lexeme);
  }

  lemma ReplyKeyTexts()
    ensures VersionKey() == Ascii("version") && IdKey() == Ascii("id")
    ensures ErrorKey() == Ascii("error") && ResultKey() == Ascii("result")
  {
    hide IsUtf8, Ascii;
  }

  /** The result a request was served with. */
  function ResultOf(world: World, o: Outcome): Option<Json> {
    match o
    case HandshakeDone(b) => Some(HandshakeReply(world, b))
    case Dispatched(Succeeded(result)) => if result.Object? then Some(result) else None
    case _ => None
  }

  // What the client's reader makes of the two kinds of response.

  lemma VersionRespelled(client: Reader)
    requires KeepsWholeNumbers(client)
    ensures Respelled(client.respell, Whole(PROTOCOL_VERSION)) == Whole(PROTOCOL_VERSION)
  {}

  lemma ErrorRespelled(client: Reader, from: Option<Utf8>, code: Utf8)
    requires KeepsWholeNumbers(client)
    ensures Respelled(client.respell, ErrorResponse(from, code)) == ErrorResponse(from, code)
  {
    hide ErrorKey, CodeKey, IdKey, VersionKey, KeepsWholeNumbers, Whole;
    VersionRespelled(client);
    var inner := Object([Entry(CodeKey(), String(code))]);
    assert Respelled(client.respell, inner).entries == inner.entries by {
      assert RespelledEntry(client.respell, inner.entries[0]) == inner.entries[0];
    }
    var v := ErrorResponse(from, code);
    assert Respelled(client.respell, v).entries == v.entries by {
      assert RespelledEntry(client.respell, v.entries[0]) == v.entries[0];
      assert RespelledEntry(client.respell, v.entries[1]) == v.entries[1];
      assert RespelledEntry(client.respell, v.entries[2]) == v.entries[2];
    }
  }

  lemma ResultRespelled(client: Reader, id: Utf8, result: Json)
    requires KeepsWholeNumbers(client)
    ensures Respelled(client.respell, ResultResponse(id, result)) == ResultResponse(id, Respelled(client.respell, result))
    ensures Respelled(client.respell, result).Object? <==> result.Object?
  {
    hide IdKey, ResultKey, VersionKey, KeepsWholeNumbers, Whole;
    VersionRespelled(client);
    var v, w := ResultResponse(id, result), ResultResponse(id, Respelled(client.respell, result));
    assert Respelled(client.respell, v).entries == w.entries by {
      assert RespelledEntry(client.respell, v.entries[0]) == w.entries[0];
      assert RespelledEntry(client.respell, v.entries[1]) == w.entries[1];
      assert RespelledEntry(client.respell, v.entries[2]) == w.entries[2];
    }
  }

  // --- The keys of a response --------------------------------------------------

  lemma ErrorDistinct(from: Option<Utf8>, code: Utf8)
    ensures DistinctKeys(ErrorResponse(from, code))
  {
    hide IsUtf8;
    KeysDiffer();
    hide ErrorKey, CodeKey, IdKey, VersionKey;
    var e := ErrorResponse(from, code).entries;
    assert DistinctKeys(Object([Entry(CodeKey(), String(code))]));
    assert forall i | 0 <= i < |e| :: DistinctKeys(e[i].value);
  }

  lemma ResultDistinct(id: Utf8, result: Json)
    requires DistinctKeys(result)
    ensures DistinctKeys(ResultResponse(id, result))
  {
    hide IsUtf8;
    KeysDiffer();
    hide IdKey, ResultKey, VersionKey;
    var e := ResultResponse(id, result).entries;
    assert forall i | 0 <= i < |e| :: DistinctKeys(e[i].value);
  }

  lemma HandshakeReplyKeys()
    ensures BinaryVersionKey() != BindingKey() && BinaryVersionKey() != CapabilitiesKey()
    ensures BinaryVersionKey() != ProtocolVersionKey() && BindingKey() != CapabilitiesKey()
    ensures BindingKey() != ProtocolVersionKey() && CapabilitiesKey() != ProtocolVersionKey()
    ensures ShutdownMethod() != BinaryVersionKey() && ShutdownMethod() != BindingKey()
    ensures ShutdownMethod() != CapabilitiesKey() && ShutdownMethod() != ProtocolVersionKey()
  {
    hide IsUtf8;
    assert BinaryVersionKey()[3] == 97 && BindingKey()[3] == 100;
    assert BinaryVersionKey()[0] == BindingKey()[0] == 98 && CapabilitiesKey()[0] == 99
        && ProtocolVersionKey()[0] == 112 && ShutdownMethod()[0] == 115;
  }

  lemma BindingDistinct(b: Binding)
    ensures DistinctKeys(BindingJson(b))
  {
    hide IsUtf8, AppStateRootKey, ChildPidKey, ChildStartMarkerKey, ParentPidKey, ParentStartMarkerKey,
         ProcessGenerationKey, ProjectRootKey, Decimal;
    BindingKeysAscend(b);
    var fields := BindingJson(b).entries;
    assert forall i | 0 <= i < |fields| :: DistinctKeys(fields[i].value);
  }

  lemma CapabilitiesDistinct()
    ensures DistinctKeys(Capabilities())
  {
    hide BridgeCapabilities;
  }

  lemma HandshakeReplyDistinct(world: World, b: Binding)
    ensures DistinctKeys(HandshakeReply(world, b))
  {
    hide IsUtf8, BinaryVersionKey, BindingKey, CapabilitiesKey, ProtocolVersionKey, BindingJson, Capabilities,
         ShutdownMethod, Decimal;
    HandshakeReplyKeys();
    BindingDistinct(b);
    CapabilitiesDistinct();
    var e := HandshakeReply(world, b).entries;
    assert forall i | 0 <= i < |e| :: DistinctKeys(e[i].value);
  }

  // --- What the client takes for a result -----------------------------------------

  /** What the client gets for an event: the result it was served with, as the
      client spells its numbers, when the answer fits a frame and can be read. */
  function ExpectedResult(world: World, client: Reader, e: Event): Option<Json> {
    var response := Response(world, e);
    if e.Served? && ResultOf(world, e.outcome).Some? && |Encode(response)| <= MAX_FRAME_BYTES && Readable(client, response)
    then Some(Respelled(client.respell, ResultOf(world, e.outcome).value))
    else None
  }

  /** A response object, written, read and checked. */
  function Checked(client: Reader, response: Json, id: Utf8): Option<Json> {
    CheckedReply(client, Frame(ResponseText(response)), id)
  }

  lemma ErrorReplyChecked(client: Reader, from: Option<Utf8>, code: Utf8, id: Utf8)
    requires ReadsCompactText(client)
    ensures Checked(client, ErrorResponse(from, code), id) == None
  {
    ErrorTextChecked(client, from, code, id);
    StandInChecked(client, ErrorResponse(from, code), id);
    hide *;
  }

  lemma ErrorTextChecked(client: Reader, from: Option<Utf8>, code: Utf8, id: Utf8)
    requires ReadsCompactText(client)
    ensures CheckedReply(client, Frame(Encode(ErrorResponse(from, code))), id) == None
  {
    ErrorEncodable(from, code);
    ErrorDistinct(from, code);
    ErrorRespelled(client, from, code);
    ErrorChecked(from, code, id);
    hide ErrorResponse, CheckedResult, Encode, Encodable, DistinctKeys, KeepsWholeNumbers, Reads, Respelled;
  }

  /** The stand-in for a response that is too long is never taken for a result. */
  lemma StandInChecked(client: Reader, response: Json, id: Utf8)
    requires ReadsCompactText(client)
    ensures |Encode(response)| > MAX_FRAME_BYTES ==> Checked(client, response, id) == None
    ensures |Encode(response)| <= MAX_FRAME_BYTES ==>
              Checked(client, response, id) == CheckedReply(client, Frame(Encode(response)), id)
  {
    ErrorTextChecked(client, AsString(Get(response, IdKey())), ResponseTooLargeCode(), id);
    hide ErrorResponse, CheckedReply, Encode, Get, IdKey, ReadsCompactText, ResponseTooLargeCode;
  }

  lemma ResultReplyChecked(client: Reader, id: Utf8, result: Json)
    requires ReadsCompactText(client) && Encodable(result) && DistinctKeys(result)
    ensures Checked(client, ResultResponse(id, result), id) ==
            if result.Object? && |Encode(ResultResponse(id, result))| <= MAX_FRAME_BYTES
               && Readable(client, ResultResponse(id, result))
            then Some(Respelled(client.respell, result)) else None
  {
    ResultEncodable(id, result);
    ResultDistinct(id, result);
    ResultRespelled(client, id, result);
    ResultChecked(id, Respelled(client.respell, result));
    StandInChecked(client, ResultResponse(id, result), id);
    hide CheckedResult, Encode, Encodable, DistinctKeys, KeepsWholeNumbers, Reads, Respelled, Checked, IdKey, ResultKey,
         VersionKey, Whole;
  }

  /** What `checked_result` gives for the frame the client reads: exactly the result
      the request was served with, when the response fits a frame and the client can
      read it; in every other case it refuses the answer. */
  lemma CheckedResultMeaning(world: World, client: Reader, e: Event, id: Utf8)
    requires Writable(world, e) && ReadsCompactText(client)
    requires e.Served? ==> e.request.id == id
    ensures CheckedReply(client, Frame(ResponseText(Response(world, e))), id) == ExpectedResult(world, client, e)
  {
    hide ReadsCompactText, ErrorResponse, ResultResponse, HandshakeReply, RefusalCode, ParseFailureCode, ValidRequestId,
         CheckedReply, ResponseText, Reads, Respelled, Encode, Encodable, DistinctKeys, FrameTooLargeCode,
         DuplicateRequestIdCode;
    assert Checked(client, Response(world, e), id) == CheckedReply(client, Frame(ResponseText(Response(world, e))), id);
    match e
    case TooLarge => ErrorReplyChecked(client, None, FrameTooLargeCode(), id);
    case Unreadable(from, failure) => ErrorReplyChecked(client, from, ParseFailureCode(failure), id);
    case Replayed(from) => ErrorReplyChecked(client, Some(from), DuplicateRequestIdCode(), id);
    case Served(request, outcome) =>
      match outcome
      case HandshakeDone(b) =>
        ReplyEncodable(world, b);
        HandshakeReplyDistinct(world, b);
        HandshakeReplyIsObject(world, b);
        ResultReplyChecked(client, id, HandshakeReply(world, b));
      case HandshakeRefused(r) => ErrorReplyChecked(client, Some(id), RefusalCode(r), id);
      case NotAuthenticated(r) => ErrorReplyChecked(client, Some(id), RefusalCode(r), id);
      case Dispatched(Succeeded(result)) => ResultReplyChecked(client, id, result);
      case Dispatched(Failed(code)) => ErrorReplyChecked(client, Some(id), code, id);
  }

  lemma HandshakeReplyIsObject(world: World, b: Binding)
    ensures HandshakeReply(world, b).Object?
  {}
}
