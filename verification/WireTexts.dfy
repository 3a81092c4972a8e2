/** The bytes on the wire, spelled out: what requests and responses look like, and
    the JSON text they are made of (RFC 8259). */
module WireTexts {
  import opened Bytes
  import opened Encoders
  import opened CanonicalJson
  import opened JsonText
  import opened JsonReader
  import opened RequestTags
  import opened BridgeProtocol
  import opened BridgeSession
  import opened BridgeRun
  import opened BridgeClient
  import opened BridgeConversation

  // --- JSON text -------------------------------------------------------------------

  function CommaJoined(parts: seq<Text>): Text {
    if parts == [] then []
    else if |parts| == 1 then parts[0]
    else parts[0] + Ascii(",") + CommaJoined(parts[1..])
  }

  function Braced(parts: seq<Text>): Text {
    Ascii("{") + CommaJoined(parts) + Ascii("}")
  }

  function Bracketed(parts: seq<Text>): Text {
    Ascii("[") + CommaJoined(parts) + Ascii("]")
  }

  function ItemTexts(items: seq<Json>): (texts: seq<Text>)
    ensures |texts| == |items|
  {
    seq(|items|, i requires 0 <= i < |items| => Encode(items[i]))
  }

  function EntryText(e: Entry): Text {
    Quoted(e.key) + Ascii(":") + Encode(e.value)
  }

  function EntryTexts(entries: seq<Entry>): (texts: seq<Text>)
    ensures |texts| == |entries|
  {
    seq(|entries|, i requires 0 <= i < |entries| => EntryText(entries[i]))
  }

  lemma Punctuation()
    ensures Ascii("{") == [123] && Ascii("}") == [125] && Ascii("[") == [91] && Ascii("]") == [93]
    ensures Ascii(",") == [44] && Ascii(":") == [58] && Ascii("\"") == [34]
  {
    hide IsUtf8;
  }

  lemma {:induction false} MoreItemsJoined(items: seq<Json>)
    ensures MoreItems(items) == (if items == [] then [] else [COMMA] + CommaJoined(ItemTexts(items))) + [CLOSE_ARRAY]
    decreases |items|
  {
    hide IsUtf8, Ascii, Encode;
    Punctuation();
    if items != [] {
      MoreItemsJoined(items[1..]);
      assert ItemTexts(items)[1..] == ItemTexts(items[1..]);
      assert items[1..] == [] ==> CommaJoined(ItemTexts(items)) == Encode(items[0]);
    }
  }

  lemma {:induction false} MoreMembersJoined(entries: seq<Entry>)
    ensures MoreMembers(entries) ==
            (if entries == [] then [] else [COMMA] + CommaJoined(EntryTexts(entries))) + [CLOSE_OBJECT]
    decreases |entries|
  {
    hide IsUtf8, Ascii, Encode, Quoted;
    Punctuation();
    if entries != [] {
      MoreMembersJoined(entries[1..]);
      assert EntryTexts(entries)[1..] == EntryTexts(entries[1..]);
      assert entries[1..] == [] ==> CommaJoined(EntryTexts(entries)) == EntryText(entries[0]);
    }
  }

  /** Arrays are their items between brackets, objects their entries between braces,
      with commas between them. */
  lemma ArrayIs(items: seq<Json>)
    ensures Encode(Array(items)) == Bracketed(ItemTexts(items))
  {
    hide IsUtf8, Ascii, CommaJoined;
    Punctuation();
    MoreItemsJoined(items);
    MoreItemsUnfold(items);
    if items == [] {
      NothingJoined();
    } else {
      var joined := CommaJoined(ItemTexts(items));
      Regroup([COMMA], joined, [CLOSE_ARRAY]);
      SplitEqual([COMMA], Encode(items[0]) + MoreItems(items[1..]), [COMMA], joined + [CLOSE_ARRAY]);
    }
  }

  lemma ObjectIs(entries: seq<Entry>)
    ensures Encode(Object(entries)) == Braced(EntryTexts(entries))
  {
    hide IsUtf8, Ascii, CommaJoined;
    Punctuation();
    MoreMembersJoined(entries);
    MoreMembersUnfold(entries);
    if entries == [] {
      NothingJoined();
    } else {
      var joined := CommaJoined(EntryTexts(entries));
      Regroup([COMMA], joined, [CLOSE_OBJECT]);
      SplitEqual([COMMA], Member(entries[0]) + MoreMembers(entries[1..]), [COMMA], joined + [CLOSE_OBJECT]);
    }
  }

  lemma NothingJoined()
    ensures CommaJoined([]) == []
  {}

  lemma MoreItemsUnfold(items: seq<Json>)
    ensures items != [] ==> [COMMA] + (Encode(items[0]) + MoreItems(items[1..])) == MoreItems(items)
  {
    hide Encode;
    if items != [] { Regroup([COMMA], Encode(items[0]), MoreItems(items[1..])); }
  }

  lemma MoreMembersUnfold(entries: seq<Entry>)
    ensures entries != [] ==> [COMMA] + (Member(entries[0]) + MoreMembers(entries[1..])) == MoreMembers(entries)
  {
    hide Member;
    if entries != [] { Regroup([COMMA], Member(entries[0]), MoreMembers(entries[1..])); }
  }

  lemma WordsAre()
    ensures Encode(Null) == Ascii("null") && Encode(Bool(true)) == Ascii("true") && Encode(Bool(false)) == Ascii("false")
  {
    hide IsUtf8;
  }

  /** The escapes of section 7 of RFC 8259, with the shortest form of each. */
  lemma EscapesAre(b: byte)
    ensures EscapedByte(34) == Ascii("\\\"") && EscapedByte(92) == Ascii("\\\\")
    ensures EscapedByte(8) == Ascii("\\b") && EscapedByte(12) == Ascii("\\f") && EscapedByte(10) == Ascii("\\n")
    ensures EscapedByte(13) == Ascii("\\r") && EscapedByte(9) == Ascii("\\t")
    ensures b < 32 && b != 8 && b != 9 && b != 10 && b != 12 && b != 13 ==>
              EscapedByte(b) == Ascii("\\u00") + [HexDigits()[b / 16], HexDigits()[b % 16]]
    ensures b >= 32 && b != 34 && b != 92 ==> EscapedByte(b) == [b]
  {
    hide IsUtf8;
    LowerDigitIs(b / 16);
    LowerDigitIs(b % 16);
  }

  // --- Requests and responses ---------------------------------------------------------

  predicate IsPlain(key: string) {
    forall i | 0 <= i < |key| :: ' ' <= key[i] <= '~' && key[i] != '"' && key[i] != '\\'
  }

  /** A field whose key needs no escape. */
  function Field(key: string, value: Text): Text {
    Ascii("\"") + Ascii(key) + Ascii("\"") + Ascii(":") + value
  }

  lemma {:induction false} PlainEscaped(t: Text)
    requires forall i | 0 <= i < |t| :: 32 <= t[i] < 127 && t[i] != 34 && t[i] != 92
    ensures Escaped(t) == t
    decreases |t|
  {
    if t != [] {
      PlainEscaped(t[1..]);
      EscapesAre(t[0]);
      assert t == [t[0]] + t[1..];
    }
  }

  lemma PlainBytes(key: string)
    requires IsPlain(key)
    ensures var t := Ascii(key); forall i | 0 <= i < |t| :: 32 <= t[i] < 127 && t[i] != 34 && t[i] != 92
  {
    hide IsUtf8;
  }

  lemma FieldIs(key: string, value: Json)
    requires IsPlain(key)
    ensures EntryText(Entry(Ascii(key), value)) == Field(key, Encode(value))
  {
    PlainBytes(key);
    hide IsUtf8, Encode, Ascii, IsPlain;
    Punctuation();
    PlainEscaped(Ascii(key));
  }

  lemma FieldIsPlain(e: Entry, key: string)
    requires IsPlain(key) && e.key == Ascii(key)
    ensures EntryText(e) == Field(key, Encode(e.value))
  {
    hide IsUtf8, Encode, IsPlain, Ascii, Field, EntryText;
    FieldIs(key, e.value);
    assert e == Entry(Ascii(key), e.value);
  }

  lemma KeyTexts()
    ensures AuthKey() == Ascii("auth") && IdKey() == Ascii("id") && MethodKey() == Ascii("method")
    ensures ParamsKey() == Ascii("params") && VersionKey() == Ascii("version")
    ensures ResultKey() == Ascii("result") && ErrorKey() == Ascii("error") && CodeKey() == Ascii("code")
  {
    hide IsUtf8, Ascii;
  }

  lemma KeysArePlain()
    ensures IsPlain("auth") && IsPlain("id") && IsPlain("method") && IsPlain("params") && IsPlain("version")
    ensures IsPlain("result") && IsPlain("error") && IsPlain("code")
  {}

  lemma TwoIs()
    ensures Encode(Whole(PROTOCOL_VERSION)) == Ascii("2")
  {
    hide IsUtf8;
  }

  /** An unauthenticated request, byte for byte. */
  lemma BareRequestIs(r: Request)
    requires r.auth.None?
    ensures RequestText(r) == Braced([Field("id", Quoted(r.id)), Field("method", Quoted(r.methodName)),
                                      Field("params", CanonicalText(r.params)), Field("version", Ascii("2"))])
  {
    hide IsUtf8, Ascii, IsPlain, AuthKey, IdKey, MethodKey, ParamsKey, VersionKey, EntryText, Field, Whole,
         Canonicalize, Quoted, CommaJoined;
    KeyTexts(); KeysArePlain(); TwoIs();
    CanonicalRequest(r);
    var e := RequestObject(r.(params := Canonicalize(r.params))).entries;
    ObjectIs(e);
    FieldIsPlain(e[0], "id"); FieldIsPlain(e[1], "method"); FieldIsPlain(e[2], "params"); FieldIsPlain(e[3], "version");
    assert EntryTexts(e) == [Field("id", Quoted(r.id)), Field("method", Quoted(r.methodName)),
                             Field("params", CanonicalText(r.params)), Field("version", Ascii("2"))];
  }

  lemma AuthKeyTexts()
    ensures AppStateRootKey() == Ascii("appStateRoot") && AuthTagKey() == Ascii("authTag")
    ensures ChildPidKey() == Ascii("childPid") && ChildStartMarkerKey() == Ascii("childStartMarker")
    ensures FingerprintKey() == Ascii("fingerprint") && OperationIdKey() == Ascii("operationId")
    ensures ParentPidKey() == Ascii("parentPid") && ParentStartMarkerKey() == Ascii("parentStartMarker")
    ensures ProcessGenerationKey() == Ascii("processGeneration") && ProjectRootKey() == Ascii("projectRoot")
    ensures SequenceKey() == Ascii("sequence") && SessionSecretKey() == Ascii("sessionSecret")
  {
    hide IsUtf8, Ascii;
  }

  lemma ReplyKeyTexts()
    ensures BinaryVersionKey() == Ascii("binaryVersion") && BindingKey() == Ascii("binding")
    ensures CapabilitiesKey() == Ascii("capabilities") && ProtocolVersionKey() == Ascii("protocolVersion")
    ensures IsPlain("binaryVersion") && IsPlain("binding") && IsPlain("capabilities") && IsPlain("protocolVersion")
  {
    hide IsUtf8, Ascii;
  }

  lemma AuthKeysArePlain()
    ensures IsPlain("appStateRoot") && IsPlain("authTag") && IsPlain("childPid") && IsPlain("childStartMarker")
  {}

  lemma MoreKeysArePlain()
    ensures IsPlain("fingerprint") && IsPlain("operationId") && IsPlain("parentPid") && IsPlain("parentStartMarker")
    ensures IsPlain("processGeneration") && IsPlain("projectRoot") && IsPlain("sequence") && IsPlain("sessionSecret")
  {}

  lemma NumberIs(n: nat)
    ensures Encode(Whole(n)) == Decimal(n)
  {}

  lemma TextField(key: string, name: Utf8, text: Utf8)
    requires IsPlain(key) && name == Ascii(key)
    ensures EntryText(Entry(name, String(text))) == Field(key, Quoted(text))
  {
    hide IsUtf8, Ascii, IsPlain, EntryText, Field, Quoted;
    FieldIsPlain(Entry(name, String(text)), key);
  }

  lemma NumberField(key: string, name: Utf8, n: nat)
    requires IsPlain(key) && name == Ascii(key)
    ensures EntryText(Entry(name, Whole(n))) == Field(key, Decimal(n))
  {
    hide IsUtf8, Ascii, IsPlain, EntryText, Field, Decimal;
    FieldIsPlain(Entry(name, Whole(n)), key);
  }

  lemma ElevenTexts(e: seq<Entry>)
    requires |e| == 11
    ensures EntryTexts(e) == [EntryText(e[0]), EntryText(e[1]), EntryText(e[2]), EntryText(e[3]), EntryText(e[4]),
                              EntryText(e[5]), EntryText(e[6]), EntryText(e[7]), EntryText(e[8]), EntryText(e[9]),
                              EntryText(e[10])]
  {
    hide EntryText;
  }

  /** The proof of origin, byte for byte. */
  lemma AuthIs(a: Auth)
    ensures Encode(AuthObject(a)) == Braced(
      [Field("appStateRoot", Quoted(a.appStateRoot)),
       Field("authTag", Quoted(a.authTag)),
       Field("childPid", Decimal(a.childPid)),
       Field("childStartMarker", Quoted(a.childStartMarker)),
       Field("fingerprint", Quoted(a.fingerprint)),
       Field("operationId", Quoted(a.operationId)),
       Field("parentPid", Decimal(a.parentPid)),
       Field("parentStartMarker", Quoted(a.parentStartMarker)),
       Field("processGeneration", Quoted(a.processGeneration)),
       Field("projectRoot", Quoted(a.projectRoot)),
       Field("sequence", Decimal(a.sequence))])
  {
    AuthKeyTexts(); AuthKeysArePlain(); MoreKeysArePlain();
    hide IsUtf8, Ascii, IsPlain, EntryText, EntryTexts, Field, Whole, Decimal, Quoted, CommaJoined, Encode, AppStateRootKey,
         AuthTagKey, ChildPidKey, ChildStartMarkerKey, FingerprintKey, OperationIdKey, ParentPidKey, ParentStartMarkerKey,
         ProcessGenerationKey, ProjectRootKey, SequenceKey;
    var e := AuthObject(a).entries;
    ObjectIs(e);
    ElevenTexts(e);
    TextField("appStateRoot", AppStateRootKey(), a.appStateRoot);
    TextField("authTag", AuthTagKey(), a.authTag);
    NumberField("childPid", ChildPidKey(), a.childPid);
    TextField("childStartMarker", ChildStartMarkerKey(), a.childStartMarker);
    TextField("fingerprint", FingerprintKey(), a.fingerprint);
    TextField("operationId", OperationIdKey(), a.operationId);
    NumberField("parentPid", ParentPidKey(), a.parentPid);
    TextField("parentStartMarker", ParentStartMarkerKey(), a.parentStartMarker);
    TextField("processGeneration", ProcessGenerationKey(), a.processGeneration);
    TextField("projectRoot", ProjectRootKey(), a.projectRoot);
    NumberField("sequence", SequenceKey(), a.sequence);
  }

  /** An authenticated request, byte for byte. */
  lemma SignedRequestIs(r: Request)
    requires r.auth.Some?
    ensures RequestText(r) == Braced(
      [Field("auth", Encode(AuthObject(r.auth.value))),
       Field("id", Quoted(r.id)),
       Field("method", Quoted(r.methodName)),
       Field("params", CanonicalText(r.params)),
       Field("version", Ascii("2"))])
  {
    hide IsUtf8, Ascii, IsPlain, EntryText, Field, Whole, Quoted, CommaJoined, AuthKey, IdKey, MethodKey,
         ParamsKey, VersionKey, AuthObject, Canonicalize;
    KeyTexts(); KeysArePlain(); TwoIs();
    CanonicalRequest(r);
    var e := RequestObject(r.(params := Canonicalize(r.params))).entries;
    ObjectIs(e);
    FieldIsPlain(e[0], "auth"); FieldIsPlain(e[1], "id"); FieldIsPlain(e[2], "method"); FieldIsPlain(e[3], "params");
    FieldIsPlain(e[4], "version");
    assert EntryTexts(e) ==
      [Field("auth", Encode(AuthObject(r.auth.value))),
       Field("id", Quoted(r.id)),
       Field("method", Quoted(r.methodName)),
       Field("params", CanonicalText(r.params)),
       Field("version", Ascii("2"))];
  }

  /** What the i-th request of a conversation says: its draft under its id, the binding's
      fields, the next number, the id again as the operation's, the digest of the params
      as its fingerprint, and the digest of all that as its tag. */
  lemma SentRequestIs(
      sha: Sha256, drafts: seq<Draft>, first: nat, b: Binding, secret: Text, i: nat)
    requires first + |drafts| <= MAX_U64 + 1 && i < |drafts|
    ensures Requests(sha, drafts, first, b, secret)[i] == Signed(sha, drafts[i], first + i, b, secret)
  {
    hide IsUtf8, Requests, Signed, AuthenticatedRequest;
    NumberedRequest(sha, drafts, first, b, secret, i);
    SignedIs(sha, drafts[i], first + i, b, secret);
  }

  function Signed(sha: Sha256, d: Draft, sequence: u64, b: Binding, secret: Text): Request {
    var digest := Digest(sha, CanonicalText(d.params));
    var tag := Digest(sha, SignedText(d, secret, sequence, digest));
    Request(d.id, d.methodName, d.params, Some(Auth(
      b.parentPid, b.parentStartMarker, b.childPid, b.childStartMarker, b.projectRoot, b.appStateRoot,
      b.processGeneration, sequence, d.id, digest, tag)))
  }

  lemma SignedIs(sha: Sha256, d: Draft, sequence: u64, b: Binding, secret: Text)
    ensures AuthenticatedRequest(sha, d, sequence, b, secret) == Signed(sha, d, sequence, b, secret)
  {
    hide IsUtf8, Digest, CanonicalText, Decimal, Ascii, SignedText, JoinNul;
    SignedTextIs(d, secret, sequence, Digest(sha, CanonicalText(d.params)));
  }

  lemma {:induction false} NumberedRequest(
      sha: Sha256, drafts: seq<Draft>, first: nat, b: Binding, secret: Text, i: nat)
    requires first + |drafts| <= MAX_U64 + 1 && i < |drafts|
    ensures Requests(sha, drafts, first, b, secret)[i] == AuthenticatedRequest(sha, drafts[i], first + i, b, secret)
    decreases i
  {
    hide AuthenticatedRequest;
    if i > 0 { NumberedRequest(sha, drafts[1..], first + 1, b, secret, i - 1); }
  }

  /** The text a client's tag is the digest of. */
  function SignedText(d: Draft, secret: Text, sequence: nat, digest: Text): Text {
    Ascii("unpin.desktop.bridge.request.v1") + ([NUL] + (secret + ([NUL] + (Decimal(sequence)
    + ([NUL] + (d.id + ([NUL] + (d.methodName + ([NUL] + (d.id + ([NUL] + (digest + ([NUL] + digest)))))))))))))
  }

  lemma SignedTextIs(d: Draft, secret: Text, sequence: nat, digest: Text)
    ensures JoinNul([TagDomain(), secret, Decimal(sequence), d.id, d.methodName, d.id, digest, digest]) ==
            SignedText(d, secret, sequence, digest)
  {
    hide IsUtf8, Decimal, Ascii, JoinNul;
    JoinFive(d.id, d.methodName, digest);
    var five := [d.id, d.methodName, d.id, digest, digest];
    JoinStep(Decimal(sequence), five);
    JoinStep(secret, [Decimal(sequence)] + five);
    JoinStep(TagDomain(), [secret] + ([Decimal(sequence)] + five));
    assert [TagDomain()] + ([secret] + ([Decimal(sequence)] + five)) ==
           [TagDomain(), secret, Decimal(sequence), d.id, d.methodName, d.id, digest, digest];
  }

  lemma JoinFive(id: Text, methodName: Text, digest: Text)
    ensures JoinNul([id, methodName, id, digest, digest]) ==
            id + ([NUL] + (methodName + ([NUL] + (id + ([NUL] + (digest + ([NUL] + digest)))))))
  {
    assert JoinNul([digest]) == digest;
    hide JoinNul;
    JoinStep(digest, [digest]);
    JoinStep(id, [digest] + [digest]);
    JoinStep(methodName, [id] + ([digest] + [digest]));
    JoinStep(id, [methodName] + ([id] + ([digest] + [digest])));
    assert [id] + ([methodName] + ([id] + ([digest] + [digest]))) == [id, methodName, id, digest, digest];
  }

  /** Requests go out one after the other, each with a newline. */
  lemma {:induction false} SentAppends(rs: seq<Request>, r: Request)
    ensures Sent(rs + [r]) == Sent(rs) + RequestText(r) + [10]
  {
    hide RequestText;
    if rs == [] {
      assert (rs + [r])[1..] == [];
    } else {
      assert (rs + [r])[1..] == rs[1..] + [r] && (rs + [r])[0] == rs[0];
      SentAppends(rs[1..], r);
    }
  }

  /** The parameters of the handshake, byte for byte. */
  lemma OfferIs(o: Offer)
    ensures Encode(HandshakeParams(o)) == Braced(
      [Field("appStateRoot", Quoted(o.appStateRoot)),
       Field("childPid", Decimal(o.childPid)),
       Field("parentPid", Decimal(o.parentPid)),
       Field("parentStartMarker", Quoted(o.parentStartMarker)),
       Field("processGeneration", Quoted(o.processGeneration)),
       Field("projectRoot", Quoted(o.projectRoot)),
       Field("sessionSecret", Quoted(o.secret))])
  {
    hide IsUtf8, Ascii, IsPlain, EntryText, Field, Whole, Quoted, CommaJoined, AppStateRootKey, ChildPidKey,
         ParentPidKey, ParentStartMarkerKey, ProcessGenerationKey, ProjectRootKey, SessionSecretKey;
    AuthKeyTexts(); AuthKeysArePlain(); MoreKeysArePlain();
    NumberIs(o.childPid); NumberIs(o.parentPid);
    var e := HandshakeParams(o).entries;
    ObjectIs(e);
    FieldIsPlain(e[0], "appStateRoot"); FieldIsPlain(e[1], "childPid"); FieldIsPlain(e[2], "parentPid");
    FieldIsPlain(e[3], "parentStartMarker"); FieldIsPlain(e[4], "processGeneration");
    FieldIsPlain(e[5], "projectRoot"); FieldIsPlain(e[6], "sessionSecret");
    assert EntryTexts(e) ==
      [Field("appStateRoot", Quoted(o.appStateRoot)),
       Field("childPid", Decimal(o.childPid)),
       Field("parentPid", Decimal(o.parentPid)),
       Field("parentStartMarker", Quoted(o.parentStartMarker)),
       Field("processGeneration", Quoted(o.processGeneration)),
       Field("projectRoot", Quoted(o.projectRoot)),
       Field("sessionSecret", Quoted(o.secret))];
  }

  lemma CodeIs(code: Utf8)
    ensures Encode(Object([Entry(CodeKey(), String(code))])) == Braced([Field("code", Quoted(code))])
  {
    hide IsUtf8, Ascii, IsPlain, EntryText, Field, Quoted, CommaJoined, CodeKey;
    KeyTexts(); KeysArePlain();
    var e := [Entry(CodeKey(), String(code))];
    ObjectIs(e);
    FieldIsPlain(e[0], "code");
    assert EntryTexts(e) == [Field("code", Quoted(code))];
  }

  lemma IdIs(id: Option<Utf8>)
    ensures Encode(IdJson(id)) == if id.Some? then Quoted(id.value) else Ascii("null")
  {
    WordsAre();
    hide IsUtf8, Ascii, Quoted;
  }

  /** An error response, byte for byte. */
  lemma ErrorIs(id: Option<Utf8>, code: Utf8)
    ensures Encode(ErrorResponse(id, code)) == Braced(
      [Field("error", Braced([Field("code", Quoted(code))])),
       Field("id", if id.Some? then Quoted(id.value) else Ascii("null")),
       Field("version", Ascii("2"))])
  {
    hide IsUtf8, Ascii, IsPlain, EntryText, Field, Whole, Quoted, CommaJoined, ErrorKey, IdKey, VersionKey, CodeKey, IdJson;
    KeyTexts(); KeysArePlain(); TwoIs(); CodeIs(code); IdIs(id);
    var e := ErrorResponse(id, code).entries;
    ObjectIs(e);
    FieldIsPlain(e[0], "error"); FieldIsPlain(e[1], "id"); FieldIsPlain(e[2], "version");
    assert EntryTexts(e) ==
      [Field("error", Braced([Field("code", Quoted(code))])),
       Field("id", if id.Some? then Quoted(id.value) else Ascii("null")),
       Field("version", Ascii("2"))];
  }

  /** A result response, byte for byte. */
  lemma ResultIs(id: Utf8, result: Json)
    ensures Encode(ResultResponse(id, result)) == Braced(
      [Field("id", Quoted(id)),
       Field("result", Encode(result)),
       Field("version", Ascii("2"))])
  {
    hide IsUtf8, Ascii, IsPlain, EntryText, Field, Whole, Quoted, CommaJoined, ResultKey, IdKey, VersionKey;
    KeyTexts(); KeysArePlain(); TwoIs();
    var e := ResultResponse(id, result).entries;
    ObjectIs(e);
    FieldIsPlain(e[0], "id"); FieldIsPlain(e[1], "result"); FieldIsPlain(e[2], "version");
    assert EntryTexts(e) ==
      [Field("id", Quoted(id)),
       Field("result", Encode(result)),
       Field("version", Ascii("2"))];
  }

  /** The binding in the handshake's answer, byte for byte. */
  lemma BindingIs(b: Binding)
    ensures Encode(BindingJson(b)) == Braced(
      [Field("appStateRoot", Quoted(b.appStateRoot)),
       Field("childPid", Decimal(b.childPid)),
       Field("childStartMarker", Quoted(b.childStartMarker)),
       Field("parentPid", Decimal(b.parentPid)),
       Field("parentStartMarker", Quoted(b.parentStartMarker)),
       Field("processGeneration", Quoted(b.processGeneration)),
       Field("projectRoot", Quoted(b.projectRoot))])
  {
    hide IsUtf8, Ascii, IsPlain, EntryText, Field, Whole, Quoted, CommaJoined, AppStateRootKey, ChildPidKey,
         ChildStartMarkerKey, ParentPidKey, ParentStartMarkerKey, ProcessGenerationKey, ProjectRootKey;
    AuthKeyTexts(); AuthKeysArePlain(); MoreKeysArePlain();
    NumberIs(b.childPid); NumberIs(b.parentPid);
    var e := BindingJson(b).entries;
    ObjectIs(e);
    FieldIsPlain(e[0], "appStateRoot"); FieldIsPlain(e[1], "childPid"); FieldIsPlain(e[2], "childStartMarker");
    FieldIsPlain(e[3], "parentPid"); FieldIsPlain(e[4], "parentStartMarker"); FieldIsPlain(e[5], "processGeneration");
    FieldIsPlain(e[6], "projectRoot");
    assert EntryTexts(e) ==
      [Field("appStateRoot", Quoted(b.appStateRoot)),
       Field("childPid", Decimal(b.childPid)),
       Field("childStartMarker", Quoted(b.childStartMarker)),
       Field("parentPid", Decimal(b.parentPid)),
       Field("parentStartMarker", Quoted(b.parentStartMarker)),
       Field("processGeneration", Quoted(b.processGeneration)),
       Field("projectRoot", Quoted(b.projectRoot))];
  }

  lemma ReplyFieldsAre(version: Utf8, binding: Json, capabilities: Json)
    ensures EntryTexts([Entry(BinaryVersionKey(), String(version)), Entry(BindingKey(), binding),
                        Entry(CapabilitiesKey(), capabilities), Entry(ProtocolVersionKey(), Whole(PROTOCOL_VERSION))]) ==
            [Field("binaryVersion", Quoted(version)), Field("binding", Encode(binding)),
             Field("capabilities", Encode(capabilities)), Field("protocolVersion", Ascii("2"))]
  {
    var two := Whole(PROTOCOL_VERSION);
    hide *;
    ReplyKeyTexts(); TwoIs(); StringIs(version);
    var e := [Entry(BinaryVersionKey(), String(version)), Entry(BindingKey(), binding),
              Entry(CapabilitiesKey(), capabilities), Entry(ProtocolVersionKey(), two)];
    FieldIsPlain(e[0], "binaryVersion"); FieldIsPlain(e[1], "binding"); FieldIsPlain(e[2], "capabilities");
    FieldIsPlain(e[3], "protocolVersion");
    FourTexts(e);
  }

  lemma FourTexts(e: seq<Entry>)
    requires |e| == 4
    ensures EntryTexts(e) == [EntryText(e[0]), EntryText(e[1]), EntryText(e[2]), EntryText(e[3])]
  {
    hide EntryText;
  }

  lemma StringIs(text: Utf8)
    ensures Encode(String(text)) == Quoted(text)
  {}

  /** The handshake's answer, byte for byte. */
  lemma HandshakeReplyIs(world: World, b: Binding)
    ensures Encode(HandshakeReply(world, b)) == Braced(
      [Field("binaryVersion", Quoted(world.binaryVersion)), Field("binding", Encode(BindingJson(b))),
       Field("capabilities", Encode(Capabilities())), Field("protocolVersion", Ascii("2"))])
  {
    hide IsUtf8, Ascii, EntryTexts, Field, Whole, Quoted, Encode, CommaJoined, BinaryVersionKey, BindingKey, CapabilitiesKey,
         ProtocolVersionKey, BindingJson, Capabilities, BridgeCapabilities;
    ObjectIs(HandshakeReply(world, b).entries);
    ReplyFieldsAre(world.binaryVersion, BindingJson(b), Capabilities());
  }

  // --- The codes ------------------------------------------------------------------------

  /** What each refusal and each failure to read a request is called on the wire. */
  lemma HandshakeCodesAre()
    ensures RefusalCode(BadParams) == Ascii("invalid-params") && RefusalCode(UnknownParameter) == Ascii("unknown-parameter")
    ensures RefusalCode(HandshakeAlreadyComplete) == Ascii("bridge-handshake-already-complete")
    ensures RefusalCode(InvalidSessionSecret) == Ascii("invalid-bridge-session-secret")
    ensures RefusalCode(InvalidParent) == Ascii("invalid-bridge-parent")
    ensures RefusalCode(InvalidChild) == Ascii("invalid-bridge-child")
    ensures RefusalCode(InvalidBinding) == Ascii("invalid-bridge-binding")
    ensures RefusalCode(RootMismatch) == Ascii("bridge-root-mismatch")
    ensures RefusalCode(ProcessMismatch) == Ascii("bridge-process-mismatch")
  {
    hide IsUtf8, Ascii;
  }

  lemma RequestCodesAre()
    ensures RefusalCode(HandshakeRequired) == Ascii("bridge-handshake-required")
    ensures RefusalCode(AuthRequired) == Ascii("bridge-auth-required")
    ensures RefusalCode(BindingMismatch) == Ascii("bridge-binding-mismatch")
    ensures RefusalCode(SequenceOverflow) == Ascii("bridge-sequence-overflow")
    ensures RefusalCode(SequenceMismatch) == Ascii("bridge-sequence-mismatch")
    ensures RefusalCode(InvalidRequestAuth) == Ascii("invalid-bridge-request-auth")
    ensures RefusalCode(AuthenticationFailed) == Ascii("bridge-authentication-failed")
  {
    hide IsUtf8, Ascii;
  }

  lemma ParseCodesAre()
    ensures ParseFailureCode(MalformedRequest) == Ascii("malformed-request")
    ensures ParseFailureCode(UnknownRequestField) == Ascii("unknown-request-field")
    ensures ParseFailureCode(MissingRequestId) == Ascii("missing-request-id")
    ensures ParseFailureCode(InvalidRequestId) == Ascii("invalid-request-id")
    ensures ParseFailureCode(UnsupportedProtocolVersion) == Ascii("unsupported-protocol-version")
    ensures ParseFailureCode(InvalidMethod) == Ascii("invalid-method")
    ensures ParseFailureCode(InvalidParams) == Ascii("invalid-params")
    ensures ParseFailureCode(InvalidBridgeAuth) == Ascii("invalid-bridge-auth")
  {
    hide IsUtf8, Ascii;
  }

  // --- What is answered -----------------------------------------------------------------

  /** A frame that reached no handler is answered with its code, under the id if there
      is one; a handshake with the binding; a handler's result or code with that. */
  lemma EventsAre(world: World, id: Option<Utf8>, f: ParseFailure, r: Request, refusal: Refusal, b: Binding,
                  result: Json, code: Utf8)
    ensures Response(world, TooLarge) == ErrorResponse(None, Ascii("frame-too-large"))
    ensures Response(world, Replayed(r.id)) == ErrorResponse(Some(r.id), Ascii("duplicate-request-id"))
    ensures Response(world, Unreadable(id, f)) == ErrorResponse(id, ParseFailureCode(f))
    ensures Response(world, Served(r, HandshakeDone(b))) == ResultResponse(r.id, HandshakeReply(world, b))
    ensures Response(world, Served(r, HandshakeRefused(refusal))) == ErrorResponse(Some(r.id), RefusalCode(refusal))
    ensures Response(world, Served(r, NotAuthenticated(refusal))) == ErrorResponse(Some(r.id), RefusalCode(refusal))
    ensures Response(world, Served(r, Dispatched(Succeeded(result)))) == ResultResponse(r.id, result)
    ensures Response(world, Served(r, Dispatched(Failed(code)))) == ErrorResponse(Some(r.id), code)
  {
    hide IsUtf8, Ascii, ErrorResponse, ResultResponse, HandshakeReply, RefusalCode, ParseFailureCode;
  }

  /** Lines longer than a mebibyte are replaced by an error under the same id. */
  lemma LineIs(response: Json)
    ensures |Encode(response)| <= 1048576 ==> ResponseLine(response) == Encode(response) + [10]
    ensures |Encode(response)| > 1048576 ==>
              ResponseLine(response) ==
              Encode(ErrorResponse(AsString(Get(response, Ascii("id"))), Ascii("response-too-large"))) + [10]
  {
    hide IsUtf8, Ascii, Encode, ErrorResponse, Get, AsString;
    KeyTexts();
  }

  /** The methods a handler answers. */
  lemma CapabilitiesAre()
    ensures BridgeCapabilities() == [
      Ascii("snapshot"), Ascii("group.plan"), Ascii("group.approve"), Ascii("group.apply"), Ascii("group.discard"),
      Ascii("agentPlugins.inspect"), Ascii("agentPlugins.plan"), Ascii("agentPlugins.approve"),
      Ascii("agentPlugins.apply"), Ascii("agentPlugins.discard"), Ascii("group.definition.plan"),
      Ascii("group.definition.apply"), Ascii("group.definition.discard"), Ascii("group.definition.history"),
      Ascii("recovery.snapshot"), Ascii("restore.plan"), Ascii("restore.approve"), Ascii("restore.apply"),
      Ascii("restore.discard"), Ascii("workflow.compose"), Ascii("workflow.validate"), Ascii("workflow.propose"),
      Ascii("workflow.launch"), Ascii("workflow.transition"), Ascii("workflow.observe"),
      Ascii("workflow.cancel-transition"), Ascii("workflow.status"), Ascii("workflow.recovery")]
  {
    hide IsUtf8, Ascii;
  }
}
