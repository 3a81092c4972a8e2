/** Requests and responses of desktop_bridge.rs as JSON. */
module BridgeProtocol {
  import opened Bytes
  import opened Encoders
  import opened CanonicalJson
  import opened JsonText
  import opened JsonReader

  const PROTOCOL_VERSION := 2
  const MAX_REQUEST_ID_BYTES := 128
  const MAX_METHOD_BYTES := 128
  const MAX_BRIDGE_IDENTIFIER_BYTES := 256

  datatype Option<+T> = None | Some(value: T)

  datatype Auth = Auth(
    parentPid: nat, parentStartMarker: Utf8, childPid: nat, childStartMarker: Utf8,
    projectRoot: Utf8, appStateRoot: Utf8, processGeneration: Utf8,
    sequence: u64, operationId: Utf8, fingerprint: Utf8, authTag: Utf8)

  datatype Request = Request(id: Utf8, methodName: Utf8, params: Json, auth: Option<Auth>)

  datatype ParseFailure =
    | MalformedRequest | UnknownRequestField | MissingRequestId | InvalidRequestId
    | UnsupportedProtocolVersion | InvalidMethod | InvalidParams | InvalidBridgeAuth

  datatype ParsedRequest =
    | Accepted(request: Request)
    | Rejected(id: Option<Utf8>, failure: ParseFailure)

  // --- Field access -------------------------------------------------------

  function Get(v: Json, key: Text): Option<Json> {
    if v.Object? then Lookup(v.entries, key) else None
  }

  function Lookup(entries: seq<Entry>, key: Text): Option<Json> {
    if entries == [] then None
    else if entries[0].key == key then Some(entries[0].value)
    else Lookup(entries[1..], key)
  }

  lemma {:induction false} LookupAt(entries: seq<Entry>, i: nat)
    requires DistinctEntries(entries) && i < |entries|
    ensures Lookup(entries, entries[i].key) == Some(entries[i].value)
    decreases i
  {
    if i > 0 {
      assert entries[1..][i - 1] == entries[i];
      LookupAt(entries[1..], i - 1);
    }
  }

  lemma {:induction false} LookupAbsent(entries: seq<Entry>, key: Text)
    requires forall i | 0 <= i < |entries| :: entries[i].key != key
    ensures Lookup(entries, key) == None
  {
    if entries != [] { LookupAbsent(entries[1..], key); }
  }

  function AsString(v: Option<Json>): Option<Utf8> {
    if v.Some? && v.value.String? then Some(v.value.text) else None
  }

  /** A number written as an unsigned 64-bit decimal. */
  function AsU64(v: Option<Json>): Option<u64> {
    if v.Some? && v.value.Number? && IsDecimalU64(v.value.lexeme) then Some(DecimalValue(v.value.lexeme))
    else None
  }

  function Whole(n: nat): Json {
    Number(Decimal(n))
  }

  lemma WholeIsU64(n: u64)
    ensures AsU64(Some(Whole(n))) == Some(n) && Encodable(Whole(n))
  {
    hide IsLexeme;
    DecimalRoundTrip(n);
    DecimalIsLexeme(n);
  }

  // --- Parsing ------------------------------------------------------------

  /** A control character in UTF-8: C0, DEL, or C1 as two bytes. */
  predicate HasControl(t: Text) {
    exists i | 0 <= i < |t| ::
      t[i] < 32 || t[i] == 127 || (t[i] == 0xC2 && i + 1 < |t| && 0x80 <= t[i + 1] <= 0x9F)
  }

  predicate ValidRequestId(id: Text) {
    id != [] && |id| <= MAX_REQUEST_ID_BYTES && !HasControl(id)
  }

  function VersionKey(): Utf8 { Ascii("version") }
  function IdKey(): Utf8 { Ascii("id") }
  function MethodKey(): Utf8 { Ascii("method") }
  function ParamsKey(): Utf8 { Ascii("params") }
  function AuthKey(): Utf8 { Ascii("auth") }
  function ResultKey(): Utf8 { Ascii("result") }
  function ErrorKey(): Utf8 { Ascii("error") }
  function CodeKey(): Utf8 { Ascii("code") }

  function ParentPidKey(): Utf8 { Ascii("parentPid") }
  function ParentStartMarkerKey(): Utf8 { Ascii("parentStartMarker") }
  function ChildPidKey(): Utf8 { Ascii("childPid") }
  function ChildStartMarkerKey(): Utf8 { Ascii("childStartMarker") }
  function ProjectRootKey(): Utf8 { Ascii("projectRoot") }
  function AppStateRootKey(): Utf8 { Ascii("appStateRoot") }
  function ProcessGenerationKey(): Utf8 { Ascii("processGeneration") }
  function SequenceKey(): Utf8 { Ascii("sequence") }
  function OperationIdKey(): Utf8 { Ascii("operationId") }
  function FingerprintKey(): Utf8 { Ascii("fingerprint") }
  function AuthTagKey(): Utf8 { Ascii("authTag") }

  function RequestKeys(): seq<Text> {
    [AuthKey(), IdKey(), MethodKey(), ParamsKey(), VersionKey()]
  }

  function AuthKeys(): seq<Text> {
    [AppStateRootKey(), AuthTagKey(), ChildPidKey(), ChildStartMarkerKey(), FingerprintKey(), OperationIdKey(),
     ParentPidKey(), ParentStartMarkerKey(), ProcessGenerationKey(), ProjectRootKey(), SequenceKey()]
  }

  predicate OnlyKeys(entries: seq<Entry>, allowed: seq<Text>) {
    forall i | 0 <= i < |entries| :: entries[i].key in allowed
  }

  function AsPid(v: Option<Json>): Option<nat> {
    var n := AsU64(v);
    if n.Some? && n.value < 0x1_0000_0000 then Some(n.value) else None
  }

  function ParseAuth(v: Json): Option<Auth> {
    if !v.Object? || |v.entries| != 11 || !OnlyKeys(v.entries, AuthKeys()) then None
    else
      var parentPid, childPid := AsPid(Get(v, ParentPidKey())), AsPid(Get(v, ChildPidKey()));
      var sequence := AsU64(Get(v, SequenceKey()));
      var parentStart, childStart := AsString(Get(v, ParentStartMarkerKey())), AsString(Get(v, ChildStartMarkerKey()));
      var projectRoot, appRoot := AsString(Get(v, ProjectRootKey())), AsString(Get(v, AppStateRootKey()));
      var generation, operationId := AsString(Get(v, ProcessGenerationKey())), AsString(Get(v, OperationIdKey()));
      var fingerprint, tag := AsString(Get(v, FingerprintKey())), AsString(Get(v, AuthTagKey()));
      if parentPid.None? || childPid.None? || sequence.None? || parentStart.None? || childStart.None?
         || projectRoot.None? || appRoot.None? || generation.None? || operationId.None?
         || fingerprint.None? || tag.None? then None
      else Some(Auth(parentPid.value, parentStart.value, childPid.value, childStart.value,
                     projectRoot.value, appRoot.value, generation.value, sequence.value,
                     operationId.value, fingerprint.value, tag.value))
  }

  function ParseRequest(parsed: Parsed): ParsedRequest {
    if parsed.Malformed? || !parsed.json.Object? then Rejected(None, MalformedRequest)
    else
      var v := parsed.json;
      var id := AsString(Get(v, IdKey()));
      if !OnlyKeys(v.entries, RequestKeys()) then Rejected(id, UnknownRequestField)
      else if id.None? then Rejected(None, MissingRequestId)
      else if !ValidRequestId(id.value) then Rejected(id, InvalidRequestId)
      else if AsU64(Get(v, VersionKey())) != Some(PROTOCOL_VERSION) then Rejected(id, UnsupportedProtocolVersion)
      else
        var methodName := AsString(Get(v, MethodKey()));
        if methodName.None? || methodName.value == [] || |methodName.value| > MAX_METHOD_BYTES then
          Rejected(id, InvalidMethod)
        else
          var params := Get(v, ParamsKey());
          if params.Some? && !params.value.Object? then Rejected(id, InvalidParams)
          else
            var body := if params.Some? then params.value else Object([]);
            match Get(v, AuthKey())
            case None => Accepted(Request(id.value, methodName.value, body, None))
            case Some(a) =>
              var auth := ParseAuth(a);
              if auth.None? then Rejected(id, InvalidBridgeAuth)
              else Accepted(Request(id.value, methodName.value, body, auth))
  }

  // --- The client's request objects ---------------------------------------

  /** The `auth` object the client sends, keys as `canonical_json` sorts them. */
  function AuthObject(a: Auth): Json {
    Object([
      Entry(AppStateRootKey(), String(a.appStateRoot)), Entry(AuthTagKey(), String(a.authTag)),
      Entry(ChildPidKey(), Whole(a.childPid)), Entry(ChildStartMarkerKey(), String(a.childStartMarker)),
      Entry(FingerprintKey(), String(a.fingerprint)), Entry(OperationIdKey(), String(a.operationId)),
      Entry(ParentPidKey(), Whole(a.parentPid)), Entry(ParentStartMarkerKey(), String(a.parentStartMarker)),
      Entry(ProcessGenerationKey(), String(a.processGeneration)), Entry(ProjectRootKey(), String(a.projectRoot)),
      Entry(SequenceKey(), Whole(a.sequence))])
  }

  function RequestObject(r: Request): Json {
    if r.auth.Some? then
      Object([
        Entry(AuthKey(), AuthObject(r.auth.value)), Entry(IdKey(), String(r.id)),
        Entry(MethodKey(), String(r.methodName)), Entry(ParamsKey(), r.params),
        Entry(VersionKey(), Whole(PROTOCOL_VERSION))])
    else
      Object([
        Entry(IdKey(), String(r.id)), Entry(MethodKey(), String(r.methodName)),
        Entry(ParamsKey(), r.params), Entry(VersionKey(), Whole(PROTOCOL_VERSION))])
  }

  // --- The client's requests parse back -----------------------------------

  lemma {:induction false} BeforeAt(a: Text, b: Text, k: nat)
    requires k < |a| && k < |b| && a[k] < b[k] && forall i | 0 <= i < k :: a[i] == b[i]
    ensures Before(a, b)
    decreases k
  {
    if k > 0 { BeforeAt(a[1..], b[1..], k - 1); }
  }

  ghost predicate AdjacentAscending(entries: seq<Entry>) {
    forall i | 0 < i < |entries| :: Before(entries[i - 1].key, entries[i].key)
  }

  lemma {:induction false} AscendingFromAdjacent(entries: seq<Entry>)
    requires AdjacentAscending(entries)
    ensures StrictlyAscending(entries) && DistinctEntries(entries) && Ascending(entries)
  {
    forall i, j | 0 <= i < j < |entries| ensures Before(entries[i].key, entries[j].key) {
      AdjacentReaches(entries, i, j);
    }
    forall i, j | 0 <= i < j < |entries| ensures entries[i].key != entries[j].key {
      BeforeIsStrict(entries[i].key);
    }
    forall i | 0 < i < |entries| ensures !Before(entries[i].key, entries[i - 1].key) {
      if Before(entries[i].key, entries[i - 1].key) {
        BeforeIsTransitive(entries[i].key, entries[i - 1].key, entries[i].key);
        BeforeIsStrict(entries[i].key);
      }
    }
  }

  lemma {:induction false} AdjacentReaches(entries: seq<Entry>, i: nat, j: nat)
    requires AdjacentAscending(entries) && i < j < |entries|
    ensures Before(entries[i].key, entries[j].key)
    decreases j
  {
    if i + 1 < j {
      AdjacentReaches(entries, i, j - 1);
      BeforeIsTransitive(entries[i].key, entries[j - 1].key, entries[j].key);
    }
  }

  lemma RequestKeysAscend()
    ensures Before(AuthKey(), IdKey()) && Before(IdKey(), MethodKey())
    ensures Before(MethodKey(), ParamsKey()) && Before(ParamsKey(), VersionKey())
    ensures Before(ErrorKey(), IdKey()) && Before(IdKey(), VersionKey())
    ensures Before(IdKey(), ResultKey()) && Before(ResultKey(), VersionKey())
  {
    hide IsUtf8;
    BeforeAt(AuthKey(), IdKey(), 0); BeforeAt(IdKey(), MethodKey(), 0);
    BeforeAt(MethodKey(), ParamsKey(), 0); BeforeAt(ParamsKey(), VersionKey(), 0);
    BeforeAt(ErrorKey(), IdKey(), 0); BeforeAt(IdKey(), VersionKey(), 0);
    BeforeAt(IdKey(), ResultKey(), 0); BeforeAt(ResultKey(), VersionKey(), 0);
  }

  lemma AuthKeysAscend()
    ensures Before(AppStateRootKey(), AuthTagKey()) && Before(AuthTagKey(), ChildPidKey())
    ensures Before(ChildPidKey(), ChildStartMarkerKey()) && Before(ChildStartMarkerKey(), FingerprintKey())
    ensures Before(FingerprintKey(), OperationIdKey()) && Before(OperationIdKey(), ParentPidKey())
    ensures Before(ParentPidKey(), ParentStartMarkerKey()) && Before(ParentStartMarkerKey(), ProcessGenerationKey())
    ensures Before(ProcessGenerationKey(), ProjectRootKey()) && Before(ProjectRootKey(), SequenceKey())
  {
    hide IsUtf8;
    BeforeAt(AppStateRootKey(), AuthTagKey(), 1);
    BeforeAt(AuthTagKey(), ChildPidKey(), 0);
    BeforeAt(ChildPidKey(), ChildStartMarkerKey(), 5);
    BeforeAt(ChildStartMarkerKey(), FingerprintKey(), 0);
    BeforeAt(FingerprintKey(), OperationIdKey(), 0);
    BeforeAt(OperationIdKey(), ParentPidKey(), 0);
    BeforeAt(ParentPidKey(), ParentStartMarkerKey(), 6);
    BeforeAt(ParentStartMarkerKey(), ProcessGenerationKey(), 1);
    BeforeAt(ProcessGenerationKey(), ProjectRootKey(), 3);
    BeforeAt(ProjectRootKey(), SequenceKey(), 0);
  }

  lemma {:induction false} AuthKeysDistinct(a: Auth)
    ensures DistinctEntries(AuthObject(a).entries) && Ascending(AuthObject(a).entries)
  {
    hide IsUtf8, Before, Whole, AppStateRootKey, AuthTagKey, ChildPidKey, ChildStartMarkerKey, FingerprintKey,
         OperationIdKey, ParentPidKey, ParentStartMarkerKey, ProcessGenerationKey, ProjectRootKey, SequenceKey;
    AuthKeysAscend();
    assert AdjacentAscending(AuthObject(a).entries);
    AscendingFromAdjacent(AuthObject(a).entries);
  }

  lemma AuthLookups(a: Auth)
    ensures |AuthObject(a).entries| == |AuthKeys()| == 11
    ensures forall i | 0 <= i < 11 :: AuthObject(a).entries[i].key == AuthKeys()[i]
    ensures forall i | 0 <= i < 11 ::
              Lookup(AuthObject(a).entries, AuthKeys()[i]) == Some(AuthObject(a).entries[i].value)
  {
    hide IsUtf8;
    var e := AuthObject(a).entries;
    assert forall i | 0 <= i < 11 :: e[i].key == AuthKeys()[i];
    AuthKeysDistinct(a);
    forall i | 0 <= i < 11 ensures Lookup(e, AuthKeys()[i]) == Some(e[i].value) {
      LookupAt(e, i);
    }
  }

  lemma AuthWellFormed(a: Auth)
    ensures DistinctKeys(AuthObject(a)) && Encodable(AuthObject(a))
  {
    hide IsUtf8, IsLexeme;
    AuthKeysDistinct(a);
    DecimalIsLexeme(a.parentPid); DecimalIsLexeme(a.childPid); DecimalIsLexeme(a.sequence);
    var e := AuthObject(a).entries;
    forall i | 0 <= i < |e| ensures DistinctKeys(e[i].value) && Encodable(e[i].value) {
      assert e[i].value.String? || e[i].value in {Whole(a.parentPid), Whole(a.childPid), Whole(a.sequence)};
    }
  }

  lemma AuthRoundTrip(a: Auth)
    requires a.parentPid < 0x1_0000_0000 && a.childPid < 0x1_0000_0000
    ensures ParseAuth(AuthObject(a)) == Some(a)
  {
    hide IsUtf8;
    AuthLookups(a);
    AuthFieldsAt(a);
    WholeIsU64(a.parentPid); WholeIsU64(a.childPid); WholeIsU64(a.sequence);
    assert OnlyKeys(AuthObject(a).entries, AuthKeys());
  }

  /** Each field of the auth object, by position. */
  lemma AuthFieldsAt(a: Auth)
    requires forall i | 0 <= i < 11 ::
               Lookup(AuthObject(a).entries, AuthKeys()[i]) == Some(AuthObject(a).entries[i].value)
    ensures var v := AuthObject(a);
            && Get(v, AppStateRootKey()) == Some(String(a.appStateRoot)) && Get(v, AuthTagKey()) == Some(String(a.authTag))
            && Get(v, ChildPidKey()) == Some(Whole(a.childPid))
            && Get(v, ChildStartMarkerKey()) == Some(String(a.childStartMarker))
            && Get(v, FingerprintKey()) == Some(String(a.fingerprint))
            && Get(v, OperationIdKey()) == Some(String(a.operationId))
            && Get(v, ParentPidKey()) == Some(Whole(a.parentPid))
            && Get(v, ParentStartMarkerKey()) == Some(String(a.parentStartMarker))
            && Get(v, ProcessGenerationKey()) == Some(String(a.processGeneration))
            && Get(v, ProjectRootKey()) == Some(String(a.projectRoot))
            && Get(v, SequenceKey()) == Some(Whole(a.sequence))
  {
    hide IsUtf8;
    var v, k := AuthObject(a), AuthKeys();
    assert Get(v, k[0]) == Some(v.entries[0].value) && Get(v, k[1]) == Some(v.entries[1].value);
    assert Get(v, k[2]) == Some(v.entries[2].value) && Get(v, k[3]) == Some(v.entries[3].value);
    assert Get(v, k[4]) == Some(v.entries[4].value) && Get(v, k[5]) == Some(v.entries[5].value);
    assert Get(v, k[6]) == Some(v.entries[6].value) && Get(v, k[7]) == Some(v.entries[7].value);
    assert Get(v, k[8]) == Some(v.entries[8].value) && Get(v, k[9]) == Some(v.entries[9].value);
    assert Get(v, k[10]) == Some(v.entries[10].value);
  }

  /** A request a client can send, with or without authentication: fields within
      the parser's limits. */
  predicate Sendable(r: Request) {
    && ValidRequestId(r.id) && r.methodName != [] && |r.methodName| <= MAX_METHOD_BYTES
    && r.params.Object? && DistinctKeys(r.params) && Encodable(r.params)
    && (r.auth.Some? ==> r.auth.value.parentPid < 0x1_0000_0000 && r.auth.value.childPid < 0x1_0000_0000)
  }

  lemma RequestKeysDistinct(r: Request)
    ensures DistinctEntries(RequestObject(r).entries) && Ascending(RequestObject(r).entries)
  {
    hide IsUtf8;
    RequestKeysAscend();
    hide AuthKey, IdKey, MethodKey, ParamsKey, VersionKey, Before, AuthObject, Whole;
    assert AdjacentAscending(RequestObject(r).entries);
    AscendingFromAdjacent(RequestObject(r).entries);
  }

  lemma RequestWellFormed(r: Request)
    requires Sendable(r)
    ensures DistinctKeys(RequestObject(r)) && Encodable(RequestObject(r))
  {
    hide IsUtf8;
    RequestKeysDistinct(r);
    WholeIsU64(PROTOCOL_VERSION);
    if r.auth.Some? { AuthWellFormed(r.auth.value); }
    hide AuthObject, IsLexeme, Whole, ValidRequestId, AuthKey, IdKey, MethodKey, ParamsKey, VersionKey;
    var e := RequestObject(r).entries;
    forall i | 0 <= i < |e| ensures DistinctKeys(e[i].value) && Encodable(e[i].value) {
      assert e[i].value.String? || e[i].value == r.params || e[i].value == Whole(PROTOCOL_VERSION)
             || (r.auth.Some? && e[i].value == AuthObject(r.auth.value));
    }
  }

  lemma AuthKeyDiffers()
    ensures AuthKey() != IdKey() && AuthKey() != MethodKey() && AuthKey() != ParamsKey() && AuthKey() != VersionKey()
  {
    assert AuthKey()[0] == 97 && IdKey()[0] == 105 && MethodKey()[0] == 109
        && ParamsKey()[0] == 112 && VersionKey()[0] == 118;
  }

  lemma RequestLookups(r: Request)
    ensures var v := RequestObject(r);
            && Get(v, AuthKey()) == (if r.auth.Some? then Some(AuthObject(r.auth.value)) else None)
            && Get(v, IdKey()) == Some(String(r.id))
            && Get(v, MethodKey()) == Some(String(r.methodName)) && Get(v, ParamsKey()) == Some(r.params)
            && Get(v, VersionKey()) == Some(Whole(PROTOCOL_VERSION))
            && OnlyKeys(v.entries, RequestKeys())
  {
    hide IsUtf8;
    var e := RequestObject(r).entries;
    AuthKeyDiffers();
    RequestKeysDistinct(r);
    hide AuthKey, IdKey, MethodKey, ParamsKey, VersionKey, AuthObject, Whole;
    LookupAt(e, 0); LookupAt(e, 1); LookupAt(e, 2); LookupAt(e, 3);
    if r.auth.Some? {
      LookupAt(e, 4);
      assert forall i | 0 <= i < 5 :: e[i].key == RequestKeys()[i];
    } else {
      LookupAbsent(e, AuthKey());
      assert forall i | 0 <= i < 4 :: e[i].key == RequestKeys()[i + 1];
    }
  }

  lemma RequestRoundTrip(r: Request)
    requires Sendable(r)
    ensures ParseRequest(Value(RequestObject(r))) == Accepted(r)
  {
    hide IsUtf8;
    RequestLookups(r);
    WholeIsU64(PROTOCOL_VERSION);
    if r.auth.Some? { AuthRoundTrip(r.auth.value); }
    hide AuthObject, ParseAuth, Get, OnlyKeys, RequestKeys, AuthKey, IdKey, MethodKey, ParamsKey, VersionKey, Whole,
         HasControl, AsU64;
  }

  // --- The requests' numbers are the params' --------------------------------

  /** A request object holds the params' numbers and whole 64-bit ones. */
  lemma RequestNumbers(p: Text -> bool, r: Request)
    requires (forall n: u64 :: p(Decimal(n))) && Sendable(r)
    ensures EveryNumber(p, RequestObject(r)) <==> EveryNumber(p, r.params)
  {
    hide IsUtf8;
    if r.auth.Some? { AuthNumbers(p, r.auth.value); }
    hide AuthObject, AuthKey, IdKey, MethodKey, ParamsKey, VersionKey, ValidRequestId, Encodable, DistinctKeys;
    var e := RequestObject(r).entries;
    assert EveryNumber(p, Whole(PROTOCOL_VERSION));
    assert r.params in (set i | 0 <= i < |e| :: e[i].value) by {
      assert e[if r.auth.Some? then 3 else 2].value == r.params;
    }
    assert forall i | 0 <= i < |e| :: e[i].value.String? || e[i].value == r.params || e[i].value == Whole(PROTOCOL_VERSION)
             || (r.auth.Some? && e[i].value == AuthObject(r.auth.value));
  }

  lemma AuthNumbers(p: Text -> bool, a: Auth)
    requires (forall n: u64 :: p(Decimal(n))) && a.parentPid < 0x1_0000_0000 && a.childPid < 0x1_0000_0000
    ensures EveryNumber(p, AuthObject(a))
  {
    hide IsUtf8;
    var e := AuthObject(a).entries;
    assert forall i | 0 <= i < |e| :: e[i].value.String? || e[i].value == Whole(a.parentPid)
             || e[i].value == Whole(a.childPid) || e[i].value == Whole(a.sequence);
  }

  /** Re-spelling a request object re-spells its params. */
  lemma RequestRespelled(respell: Respell, r: Request)
    requires (forall n: u64 :: respell(Decimal(n)) == Spelled(Decimal(n))) && Sendable(r)
    ensures Respelled(respell, RequestObject(r)) == RequestObject(r.(params := Respelled(respell, r.params)))
  {
    hide IsUtf8;
    if r.auth.Some? { AuthRespelled(respell, r.auth.value); }
    hide AuthObject, AuthKey, IdKey, MethodKey, ParamsKey, VersionKey, ValidRequestId, Encodable, DistinctKeys;
    var e, t := RequestObject(r).entries, RequestObject(r.(params := Respelled(respell, r.params))).entries;
    assert Respelled(respell, Whole(PROTOCOL_VERSION)) == Whole(PROTOCOL_VERSION);
    forall i | 0 <= i < |e| ensures RespelledEntry(respell, e[i]) == t[i] {
      assert e[i].key == t[i].key;
      assert e[i].value.String? || e[i].value == r.params || e[i].value == Whole(PROTOCOL_VERSION)
             || (r.auth.Some? && e[i].value == AuthObject(r.auth.value));
    }
    assert Respelled(respell, RequestObject(r)).entries == t;
  }

  lemma AuthRespelled(respell: Respell, a: Auth)
    requires forall n: u64 :: respell(Decimal(n)) == Spelled(Decimal(n))
    requires a.parentPid < 0x1_0000_0000 && a.childPid < 0x1_0000_0000
    ensures Respelled(respell, AuthObject(a)) == AuthObject(a)
  {
    AuthNumbers(OwnSpelling(respell), a);
    OwnSpellingInRange(respell, AuthObject(a));
    RespelledFixed(respell, AuthObject(a));
  }

  lemma CanonicalAuth(a: Auth)
    ensures Canonicalize(AuthObject(a)) == AuthObject(a)
  {
    hide IsUtf8;
    AuthKeysDistinct(a);
    var e := AuthObject(a).entries;
    forall i | 0 <= i < |e| ensures Canonicalize(e[i].value) == e[i].value {
      assert e[i].value.String? || e[i].value.Number?;
    }
    CanonicalOfAscending(e, e);
  }

  lemma CanonicalScalars(text: Utf8, n: nat)
    ensures Canonicalize(String(text)) == String(text) && Canonicalize(Whole(n)) == Whole(n)
  {}

  /** Canonicalising a request object only canonicalises its params. */
  lemma CanonicalRequest(r: Request)
    ensures Canonicalize(RequestObject(r)) == RequestObject(r.(params := Canonicalize(r.params)))
  {
    hide IsUtf8, AuthObject, AuthKey, IdKey, MethodKey, ParamsKey, VersionKey, Whole, Canonicalize;
    RequestKeysDistinct(r);
    var e := RequestObject(r).entries;
    var t := RequestObject(r.(params := Canonicalize(r.params))).entries;
    if r.auth.Some? { CanonicalAuth(r.auth.value); }
    CanonicalScalars(r.id, PROTOCOL_VERSION);
    CanonicalScalars(r.methodName, PROTOCOL_VERSION);
    assert |t| == |e|;
    forall i | 0 <= i < |e| ensures t[i] == Entry(e[i].key, Canonicalize(e[i].value)) {
      assert r.auth.Some? ==> (i == 0 || i == 1 || i == 2 || i == 3 || i == 4);
    }
    CanonicalOfAscending(e, t);
  }
}
