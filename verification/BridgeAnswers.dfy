/** What one request does, in plain terms: which store its handler sees, which check
    refuses it, and when the answer ends the run (`handle_request` of
    desktop_bridge.rs). */
module BridgeAnswers {
  import opened Bytes
  import opened Encoders
  import opened CanonicalJson
  import opened JsonText
  import opened JsonReader
  import opened RequestTags
  import opened BridgeFrames
  import opened BridgeProtocol
  import opened BridgeSession
  import opened BridgeHandshake
  import opened BridgeRun
  import opened ReplayWindow

  // --- The plans a handler sees ---------------------------------------------------

  /** The plans reviewed at most fifteen minutes ago, as they were. */
  ghost predicate KeepsFresh(kept: map<Text, Review>, plans: map<Text, Review>, now: i64) {
    && (forall k :: k in kept <==> k in plans && now - plans[k].reviewedAt <= 900)
    && (forall k | k in kept :: kept[k] == plans[k])
  }

  ghost predicate FreshPart(kept: Store, s: Store, now: i64) {
    && KeepsFresh(kept.groups, s.groups, now) && KeepsFresh(kept.agentPlugins, s.agentPlugins, now)
    && KeepsFresh(kept.restores, s.restores, now) && KeepsFresh(kept.definitions, s.definitions, now)
    && KeepsFresh(kept.workflowLaunches, s.workflowLaunches, now) && kept.other == s.other
  }

  lemma KeptIsFresh(kept: map<Text, Review>, plans: map<Text, Review>, now: i64)
    ensures KeepsFresh(kept, plans, now) <==> kept == Unexpired(plans, now)
  {
    forall k | k in plans ensures Expired(plans[k].reviewedAt, now) <==> now - plans[k].reviewedAt > 900 {
      ExpiredIsAge(plans[k].reviewedAt, now);
    }
    hide Expired;
    if KeepsFresh(kept, plans, now) {
      assert kept.Keys == Unexpired(plans, now).Keys;
    }
  }

  lemma FreshPartIsPruned(kept: Store, s: Store, now: i64)
    ensures FreshPart(kept, s, now) <==> kept == Pruned(s, now)
  {
    hide KeepsFresh, Unexpired;
    KeptIsFresh(kept.groups, s.groups, now);
    KeptIsFresh(kept.agentPlugins, s.agentPlugins, now);
    KeptIsFresh(kept.restores, s.restores, now);
    KeptIsFresh(kept.definitions, s.definitions, now);
    KeptIsFresh(kept.workflowLaunches, s.workflowLaunches, now);
  }

  lemma MethodTexts()
    ensures ShutdownMethod() == Ascii("shutdown") && HandshakeMethod() == Ascii("handshake")
    ensures UnknownMethodCode() == Ascii("unknown-method")
  {
    hide IsUtf8, Ascii;
  }

  /** Every request is handled on the fresh plans alone: the handler of a listed method
      is called on them and its store is kept; whatever else happens, they are the
      store that is left. */
  lemma HandlerSeesFreshPlans(world: World, n: nat, s: Session, r: Request, kept: Store)
    requires FreshPart(kept, s.store, world.now(n))
    ensures var a := HandleRequest(world, n, s, r);
            if a.outcome.Dispatched? && r.methodName != Ascii("shutdown") && r.methodName in BridgeCapabilities()
            then var h := world.handle(n, r.methodName, r.params, kept);
                 a.outcome.result == h.result && a.session.store == h.store
            else a.session.store == kept
  {
    hide IsUtf8, Ascii, Pruned, FreshPart, HandshakeBinding, Authenticated, BridgeCapabilities, UnknownMethodCode,
         HandshakeMethod, ShutdownMethod;
    MethodTexts();
    FreshPartIsPruned(kept, s.store, world.now(n));
  }

  /** The store with more plans in it, all of them expired. */
  ghost predicate AddsExpired(more: map<Text, Review>, plans: map<Text, Review>, now: i64) {
    && (forall k | k in plans :: k in more && more[k] == plans[k])
    && (forall k | k in more && k !in plans :: now - more[k].reviewedAt > 900)
  }

  ghost predicate OnlyExpiredMore(t: Store, s: Store, now: i64) {
    && AddsExpired(t.groups, s.groups, now) && AddsExpired(t.agentPlugins, s.agentPlugins, now)
    && AddsExpired(t.restores, s.restores, now) && AddsExpired(t.definitions, s.definitions, now)
    && AddsExpired(t.workflowLaunches, s.workflowLaunches, now) && t.other == s.other
  }

  lemma FreshOfMore(kept: map<Text, Review>, more: map<Text, Review>, plans: map<Text, Review>, now: i64)
    requires AddsExpired(more, plans, now) && KeepsFresh(kept, plans, now)
    ensures KeepsFresh(kept, more, now)
  {}

  /** So expired plans change no answer. */
  lemma ExpiredPlansChangeNothing(world: World, n: nat, s: Session, r: Request, t: Store)
    requires OnlyExpiredMore(t, s.store, world.now(n))
    ensures HandleRequest(world, n, s.(store := t), r) == HandleRequest(world, n, s, r)
  {
    hide IsUtf8, KeepsFresh, AddsExpired, Pruned, HandshakeBinding, Authenticated, Dispatch, HandshakeMethod;
    var now: i64 := world.now(n);
    var kept := Pruned(s.store, now);
    FreshPartIsPruned(kept, s.store, now);
    FreshOfMore(kept.groups, t.groups, s.store.groups, now);
    FreshOfMore(kept.agentPlugins, t.agentPlugins, s.store.agentPlugins, now);
    FreshOfMore(kept.restores, t.restores, s.store.restores, now);
    FreshOfMore(kept.definitions, t.definitions, s.store.definitions, now);
    FreshOfMore(kept.workflowLaunches, t.workflowLaunches, s.store.workflowLaunches, now);
    FreshPartIsPruned(kept, t, now);
    assert s.(store := t).(store := kept) == s.(store := kept);
  }

  // --- The methods without a handler ------------------------------------------------

  lemma OneField()
    ensures Get(Object([Entry(ShutdownMethod(), Bool(true))]), ShutdownMethod()) == Some(Bool(true))
  {
    hide IsUtf8, ShutdownMethod;
  }

  /** A dispatched `shutdown` is answered `{"shutdown": true}`, and that ends the run;
      a method nobody handles is answered with an error, and the run goes on. */
  lemma ShutdownEndsTheRun(world: World, n: nat, s: Session, r: Request)
    requires HandleRequest(world, n, s, r).outcome.Dispatched?
    ensures var o := HandleRequest(world, n, s, r).outcome;
            && (r.methodName == Ascii("shutdown") ==>
                  o.result == Succeeded(Object([Entry(Ascii("shutdown"), Bool(true))]))
                  && ShutsDown(Response(world, Served(r, o))))
            && (r.methodName != Ascii("shutdown") && r.methodName !in BridgeCapabilities() ==>
                  o.result == Failed(Ascii("unknown-method")) && !ShutsDown(Response(world, Served(r, o))))
  {
    hide IsUtf8, Ascii, HandshakeBinding, Authenticated, BridgeCapabilities, Pruned, HandshakeMethod, ShutdownMethod,
         UnknownMethodCode, IdKey, ResultKey, ErrorKey, VersionKey, CodeKey, ErrorResponse, ResultResponse;
    MethodTexts();
    OneField();
    var o := HandleRequest(world, n, s, r).outcome;
    if o.result.Succeeded? { ResultIsFound(r.id, o.result.result); } else { NoResultFound(r.id, o.result.code); }
  }

  lemma ResultIsFound(id: Utf8, result: Json)
    ensures Get(ResultResponse(id, result), ResultKey()) == Some(result)
  {
    hide IsUtf8;
    var e := ResultResponse(id, result).entries;
    assert IdKey()[0] == 105 && ResultKey()[0] == 114;
    hide IdKey, ResultKey, VersionKey;
    assert e[1..][0] == e[1] && e[0].key != ResultKey();
    assert Lookup(e, ResultKey()) == Lookup(e[1..], ResultKey());
  }

  lemma NoResultFound(id: Utf8, code: Utf8)
    ensures Get(ErrorResponse(Some(id), code), ResultKey()) == None
  {
    hide IsUtf8;
    var e := ErrorResponse(Some(id), code).entries;
    assert IdKey()[0] == 105 && ResultKey()[0] == 114 && ErrorKey()[0] == 101 && VersionKey()[0] == 118;
    hide IdKey, ResultKey, ErrorKey, VersionKey, CodeKey;
    LookupAbsent(e, ResultKey());
  }

  // --- Which check refuses ------------------------------------------------------------

  /** The text a request's tag is the digest of. */
  function Material(world: World, secret: Text, r: Request, a: Auth): Text {
    Ascii("unpin.desktop.bridge.request.v1") + ([NUL] + (secret + ([NUL] + (Decimal(a.sequence)
    + ([NUL] + (r.id + ([NUL] + ((r.methodName + ([NUL] + a.operationId))
    + ([NUL] + (a.fingerprint + ([NUL] + Digest(world.sha, CanonicalText(r.params)))))))))))))
  }

  lemma TagMaterial(world: World, secret: Text, r: Request, a: Auth)
    ensures RequestTag(world, secret, r, a) == Digest(world.sha, Material(world, secret, r, a))
  {
    hide IsUtf8, Digest, CanonicalText, Decimal, Preimage, Ascii, Body;
    PreimageText(FieldsOf(world, secret, r, a));
    BodyText(FieldsOf(world, secret, r, a));
  }

  predicate Hex64(t: Text) {
    |t| == 64 && forall i | 0 <= i < 64 :: 48 <= t[i] <= 57 || 65 <= t[i] <= 70 || 97 <= t[i] <= 102
  }

  /** The proof of origin names the process, its parent and the roots of the binding. */
  predicate SameOrigin(a: Auth, b: Binding) {
    && a.parentPid == b.parentPid && a.parentStartMarker == b.parentStartMarker
    && a.childPid == b.childPid && a.childStartMarker == b.childStartMarker
    && a.projectRoot == b.projectRoot && a.appStateRoot == b.appStateRoot
    && a.processGeneration == b.processGeneration
  }

  predicate IsFormed(a: Auth) {
    1 <= |a.operationId| <= 256 && Hex64(a.fingerprint) && Hex64(a.authTag)
  }

  /** The first check that a request other than a handshake fails, if any. */
  ghost function RequestFault(world: World, s: Session, r: Request): Option<Refusal> {
    if s.binding.None? then Some(HandshakeRequired)
    else if r.auth.None? then Some(AuthRequired)
    else
      var a, b := r.auth.value, s.binding.value;
      if !SameOrigin(a, b) then Some(BindingMismatch)
      else if s.counter == 0xFFFF_FFFF_FFFF_FFFF then Some(SequenceOverflow)
      else if a.sequence != s.counter + 1 then Some(SequenceMismatch)
      else if !IsFormed(a) then Some(InvalidRequestAuth)
      else if a.authTag != Digest(world.sha, Material(world, b.sessionSecret, r, a)) then Some(AuthenticationFailed)
      else None
  }

  lemma OriginIs(a: Auth, b: Binding)
    ensures WellFormedAuth(a) <==> IsFormed(a)
    ensures SameBinding(a, b) <==> SameOrigin(a, b)
  {
    hide IsUtf8;
  }

  lemma AuthenticationIsTried(world: World, s: Session, r: Request)
    ensures var fault, result := RequestFault(world, s, r), Authenticated(world, s, r);
            if fault == None then result.Fine? else result == Refused(fault.value)
  {
    hide IsUtf8, Material, RequestTag, Digest, WellFormedAuth, IsFormed, SameBinding, SameOrigin, ConstantTimeTextEqual;
    if s.binding.Some? && r.auth.Some? {
      TagMaterial(world, s.binding.value.sessionSecret, r, r.auth.value);
      OriginIs(r.auth.value, s.binding.value);
    }
  }

  /** A request is dispatched exactly when no check fails, and else refused with the
      first that does. */
  lemma RequestIsTried(world: World, n: nat, s: Session, r: Request)
    requires r.methodName != Ascii("handshake")
    ensures var fault, o := RequestFault(world, s, r), HandleRequest(world, n, s, r).outcome;
            if fault == None then o.Dispatched? else o == NotAuthenticated(fault.value)
  {
    hide IsUtf8, Ascii, Pruned, HandshakeBinding, Dispatch, Authenticated, Material, SameOrigin, IsFormed, Digest,
         HandshakeMethod;
    MethodTexts();
    AuthenticationIsTried(world, s.(store := Pruned(s.store, world.now(n))), r);
  }

  /** The first check a handshake fails, if any. */
  ghost function HandshakeFault(world: World, n: nat, bound: bool, params: Json): Option<Refusal> {
    var secret := AsString(Get(params, Ascii("sessionSecret")));
    var parent, child := AsPid(Get(params, Ascii("parentPid"))), AsPid(Get(params, Ascii("childPid")));
    if !params.Object? then Some(BadParams)
    else if OffersMore(params.entries) then Some(UnknownParameter)
    else if bound then Some(HandshakeAlreadyComplete)
    else if !HasString(params, Ascii("sessionSecret"), 1024) then Some(BadParams)
    else if !Hex64(secret.value) then Some(InvalidSessionSecret)
    else if parent.None? || parent.value == 0 then Some(InvalidParent)
    else if child.None? || child.value == 0 then Some(InvalidChild)
    else if MarkerFault(params, Ascii("parentStartMarker")).Some? then MarkerFault(params, Ascii("parentStartMarker"))
    else if MarkerFault(params, Ascii("processGeneration")).Some? then MarkerFault(params, Ascii("processGeneration"))
    else if MarkerFault(params, Ascii("projectRoot")).Some? then MarkerFault(params, Ascii("projectRoot"))
    else if MarkerFault(params, Ascii("appStateRoot")).Some? then MarkerFault(params, Ascii("appStateRoot"))
    else if AsString(Get(params, Ascii("projectRoot"))) != Some(world.projectRoot)
            || AsString(Get(params, Ascii("appStateRoot"))) != Some(world.appStateRoot) then Some(RootMismatch)
    else if !world.sandboxed(n) then Some(SandboxRefused)
    else if child.value != world.processId || parent.value != world.parentProcessId(n) then Some(ProcessMismatch)
    else if !world.fixtureMode && !world.parentSigned(n, parent.value) then Some(SigningRefused)
    else None
  }

  /** A parameter that no handshake has. */
  ghost predicate OffersMore(entries: seq<Entry>) {
    exists i | 0 <= i < |entries| ::
      var key := entries[i].key;
      && key != Ascii("sessionSecret") && key != Ascii("parentPid") && key != Ascii("parentStartMarker")
      && key != Ascii("childPid") && key != Ascii("processGeneration") && key != Ascii("projectRoot")
      && key != Ascii("appStateRoot")
  }

  lemma OffersOnly(entries: seq<Entry>)
    ensures OffersMore(entries) <==> !OnlyKeys(entries, HandshakeKeys())
  {
    hide IsUtf8, Ascii, SessionSecretKey, ParentPidKey, ParentStartMarkerKey, ChildPidKey, ProcessGenerationKey,
         ProjectRootKey, AppStateRootKey;
    HandshakeKeyTexts();
  }

  /** A marker or root: a string of 1 to 256 bytes without control characters. */
  ghost function MarkerFault(params: Json, key: Text): Option<Refusal> {
    if !HasString(params, key, 1024) then Some(BadParams)
    else if |AsString(Get(params, key)).value| > 256 || HasControl(AsString(Get(params, key)).value) then Some(InvalidBinding)
    else None
  }

  lemma HandshakeKeyTexts()
    ensures SessionSecretKey() == Ascii("sessionSecret") && ParentPidKey() == Ascii("parentPid")
    ensures ChildPidKey() == Ascii("childPid") && ParentStartMarkerKey() == Ascii("parentStartMarker")
    ensures ProcessGenerationKey() == Ascii("processGeneration") && ProjectRootKey() == Ascii("projectRoot")
    ensures AppStateRootKey() == Ascii("appStateRoot")
  {
    hide IsUtf8, Ascii;
  }

  lemma SecretIs(t: Text)
    ensures Hex64(t) <==> |t| == 64 && AllHex(t)
  {}

  lemma StringResult(params: Json, key: Text)
    ensures RequiredString(params, key) ==
            if HasString(params, key, 1024) then Fine(AsString(Get(params, key)).value) else Refused(BadParams)
    ensures HasString(params, key, 1024) ==> AsString(Get(params, key)).Some?
  {
    hide IsUtf8, Get;
  }

  lemma MarkerResult(params: Json, key: Text)
    ensures BoundedString(params, key) ==
            if MarkerFault(params, key).Some? then Refused(MarkerFault(params, key).value)
            else Fine(AsString(Get(params, key)).value)
    ensures MarkerFault(params, key).None? ==> AsString(Get(params, key)).Some?
  {
    hide IsUtf8, HasControl, Get;
  }

  lemma PidResult(params: Json, key: Text, refusal: Refusal)
    ensures var pid := AsPid(Get(params, key));
            NonZeroPid(params, key, refusal) == if pid.Some? && pid.value > 0 then Fine(pid.value) else Refused(refusal)
  {
    hide IsUtf8, Get, AsPid;
  }

  /** The secret and the process ids are as they must be. */
  predicate NamesProcesses(params: Json) {
    var secret := AsString(Get(params, SessionSecretKey()));
    var parent, child := AsPid(Get(params, ParentPidKey())), AsPid(Get(params, ChildPidKey()));
    && HasString(params, SessionSecretKey(), 1024) && secret.Some? && Hex64(secret.value)
    && parent.Some? && parent.value > 0 && child.Some? && child.value > 0
  }

  lemma HandshakeFailsEarly(world: World, n: nat, bound: bool, params: Json)
    requires !params.Object? || !OnlyKeys(params.entries, HandshakeKeys()) || bound || !NamesProcesses(params)
    ensures HandshakeFault(world, n, bound, params).Some?
    ensures HandshakeBinding(world, n, bound, params) == Refused(HandshakeFault(world, n, bound, params).value)
  {
    hide IsUtf8, Ascii, RequiredString, BoundedString, NonZeroPid, ChildStartMarker, LowerCase, OnlyKeys, HandshakeKeys,
         OffersMore, HasControl, AllHex, Hex64, Get, AsPid, AsString, HasString, MarkerFault, SessionSecretKey, ParentPidKey,
         ParentStartMarkerKey, ChildPidKey, ProcessGenerationKey, ProjectRootKey, AppStateRootKey;
    HandshakeKeyTexts();
    if params.Object? { OffersOnly(params.entries); }
    StringResult(params, SessionSecretKey());
    PidResult(params, ParentPidKey(), InvalidParent);
    PidResult(params, ChildPidKey(), InvalidChild);
    if HasString(params, SessionSecretKey(), 1024) { SecretIs(AsString(Get(params, SessionSecretKey())).value); }
  }

  lemma HandshakeFailsLate(world: World, n: nat, params: Json)
    requires params.Object? && OnlyKeys(params.entries, HandshakeKeys()) && NamesProcesses(params)
    ensures var fault, result := HandshakeFault(world, n, false, params), HandshakeBinding(world, n, false, params);
            if fault == None then result.Fine? else result == Refused(fault.value)
  {
    hide IsUtf8, Ascii, RequiredString, BoundedString, NonZeroPid, ChildStartMarker, LowerCase, OnlyKeys, HandshakeKeys,
         OffersMore, HasControl, AllHex, Hex64, Get, AsPid, AsString, HasString, MarkerFault, SessionSecretKey, ParentPidKey,
         ParentStartMarkerKey, ChildPidKey, ProcessGenerationKey, ProjectRootKey, AppStateRootKey;
    HandshakeKeyTexts();
    if params.Object? { OffersOnly(params.entries); }
    StringResult(params, SessionSecretKey());
    PidResult(params, ParentPidKey(), InvalidParent);
    PidResult(params, ChildPidKey(), InvalidChild);
    SecretIs(AsString(Get(params, SessionSecretKey())).value);
    MarkerResult(params, ParentStartMarkerKey());
    MarkerResult(params, ProcessGenerationKey());
    MarkerResult(params, ProjectRootKey());
    MarkerResult(params, AppStateRootKey());
  }

  /** A handshake is refused exactly when a check fails, and with the first that does. */
  lemma HandshakeIsTried(world: World, n: nat, bound: bool, params: Json)
    ensures var fault, result := HandshakeFault(world, n, bound, params), HandshakeBinding(world, n, bound, params);
            if fault == None then result.Fine? else result == Refused(fault.value)
  {
    hide HandshakeFault, HandshakeBinding, OnlyKeys, HandshakeKeys, NamesProcesses;
    if params.Object? && OnlyKeys(params.entries, HandshakeKeys()) && !bound && NamesProcesses(params) {
      HandshakeFailsLate(world, n, params);
    } else {
      HandshakeFailsEarly(world, n, bound, params);
    }
  }

  // --- Which requests are read ---------------------------------------------------------

  /** The first thing wrong with what a frame holds, if any. */
  ghost function ParseFault(v: Json): Option<ParseFailure> {
    if !v.Object? then Some(MalformedRequest)
    else
      var id, methodName := AsString(Get(v, Ascii("id"))), AsString(Get(v, Ascii("method")));
      var params, auth := Get(v, Ascii("params")), Get(v, Ascii("auth"));
      if exists e <- v.entries ::
           e.key != Ascii("version") && e.key != Ascii("id") && e.key != Ascii("method")
           && e.key != Ascii("params") && e.key != Ascii("auth")
      then Some(UnknownRequestField)
      else if id.None? then Some(MissingRequestId)
      else if |id.value| == 0 || |id.value| > 128 || HasControl(id.value) then Some(InvalidRequestId)
      else if AsU64(Get(v, Ascii("version"))) != Some(2) then Some(UnsupportedProtocolVersion)
      else if methodName.None? || |methodName.value| == 0 || |methodName.value| > 128 then Some(InvalidMethod)
      else if params.Some? && !params.value.Object? then Some(InvalidParams)
      else if auth.Some? && ParseAuth(auth.value).None? then Some(InvalidBridgeAuth)
      else None
  }

  lemma RequestKeyTexts()
    ensures IdKey() == Ascii("id") && MethodKey() == Ascii("method") && ParamsKey() == Ascii("params")
    ensures AuthKey() == Ascii("auth") && VersionKey() == Ascii("version")
  {
    hide IsUtf8, Ascii;
  }

  lemma KnownKeys(v: Json)
    requires v.Object?
    ensures OnlyKeys(v.entries, RequestKeys()) <==>
            forall e <- v.entries ::
              e.key == Ascii("version") || e.key == Ascii("id") || e.key == Ascii("method")
              || e.key == Ascii("params") || e.key == Ascii("auth")
  {
    hide IsUtf8, Ascii, IdKey, MethodKey, ParamsKey, AuthKey, VersionKey;
    RequestKeyTexts();
  }

  /** A request is read exactly when nothing is wrong, field by field, and else rejected
      for the first thing that is, under its id when it has one. */
  lemma RequestIsRead(v: Json)
    ensures var id := AsString(Get(v, Ascii("id")));
            ParseFault(v).Some? ==> ParseRequest(Value(v)) == Rejected(id, ParseFault(v).value)
    ensures ParseFault(v).None? ==>
              var params, auth := Get(v, Ascii("params")), Get(v, Ascii("auth"));
              ParseRequest(Value(v)) ==
              Accepted(Request(
                AsString(Get(v, Ascii("id"))).value, AsString(Get(v, Ascii("method"))).value,
                if params.Some? then params.value else Object([]),
                if auth.Some? then ParseAuth(auth.value) else None))
    ensures ParseRequest(Malformed) == Rejected(None, MalformedRequest)
  {
    hide IsUtf8, Ascii, HasControl, ParseAuth, OnlyKeys, RequestKeys, AsU64, IdKey, MethodKey, ParamsKey, AuthKey,
         VersionKey, Lookup;
    RequestKeyTexts();
    if v.Object? { KnownKeys(v); }
  }

  predicate IsFlat(v: Json) {
    !v.Array? && !v.Object?
  }

  /** The same keys with the same values. */
  ghost predicate SameFields(s: seq<Entry>, e: seq<Entry>) {
    && KeySet(s) == KeySet(e)
    && forall i, j | 0 <= i < |s| && 0 <= j < |e| && s[i].key == e[j].key :: s[i].value == e[j].value
  }

  ghost predicate KeyAmong(key: Text, e: seq<Entry>) {
    exists j | 0 <= j < |e| :: e[j].key == key
  }

  ghost predicate KeysAmong(s: seq<Entry>, e: seq<Entry>) {
    forall i | 0 <= i < |s| :: KeyAmong(s[i].key, e)
  }

  ghost predicate AllFound(s: seq<Entry>, e: seq<Entry>) {
    && |s| == |e| && KeysAmong(s, e)
    && (forall j | 0 <= j < |e| :: Lookup(s, e[j].key) == Some(e[j].value))
  }

  lemma FlatIsSame(v: Json, e: seq<Entry>)
    requires v.Object? && forall j | 0 <= j < |e| :: IsFlat(e[j].value)
    ensures SameUpToKeyOrder(v, Object(e)) <==> SameFields(v.entries, e)
  {
    var s := v.entries;
    hide KeySet;
    forall i, j | 0 <= i < |s| && 0 <= j < |e|
      ensures SameUpToKeyOrder(s[i].value, e[j].value) <==> s[i].value == e[j].value {}
  }

  lemma FieldsAreFound(s: seq<Entry>, e: seq<Entry>)
    requires DistinctEntries(s) && DistinctEntries(e) && SameFields(s, e)
    ensures AllFound(s, e)
  {
    SortStrict(s); SortStrict(e); SortKeySet(s); SortKeySet(e);
    hide SortByKey, Before, Lookup, StrictlyAscending;
    AscendingKeysAreForced(SortByKey(s), SortByKey(e));
    forall i | 0 <= i < |s| ensures KeyAmong(s[i].key, e) {
      assert s[i].key in KeySet(s);
    }
    forall j | 0 <= j < |e| ensures Lookup(s, e[j].key) == Some(e[j].value) {
      assert e[j].key in KeySet(e);
      var i :| 0 <= i < |s| && s[i].key == e[j].key;
      LookupAt(s, i);
    }
  }

  lemma FoundAreFields(s: seq<Entry>, e: seq<Entry>)
    requires DistinctEntries(s) && AllFound(s, e)
    ensures SameFields(s, e)
  {
    hide Lookup;
    forall j | 0 <= j < |e| ensures e[j].key in KeySet(s) {
      FoundIsThere(s, e[j].key);
    }
    forall i | 0 <= i < |s| ensures s[i].key in KeySet(e) && Lookup(s, s[i].key) == Some(s[i].value) {
      LookupAt(s, i);
      var j :| 0 <= j < |e| && e[j].key == s[i].key;
      assert e[j] in e;
    }
  }

  /** An object without nested ones is known by its fields. */
  lemma FlatObjectIs(v: Json, e: seq<Entry>)
    requires v.Object? && DistinctEntries(v.entries) && DistinctEntries(e)
    requires forall j | 0 <= j < |e| :: IsFlat(e[j].value)
    ensures SameUpToKeyOrder(v, Object(e)) <==> AllFound(v.entries, e)
  {
    hide IsFlat, SameUpToKeyOrder, SameFields, AllFound, DistinctEntries;
    FlatIsSame(v, e);
    if SameFields(v.entries, e) { FieldsAreFound(v.entries, e); }
    if AllFound(v.entries, e) { FoundAreFields(v.entries, e); }
  }

  lemma FoundIsThere(s: seq<Entry>, key: Text)
    requires Lookup(s, key).Some?
    ensures key in KeySet(s)
  {
    if key !in KeySet(s) {
      assert forall i | 0 <= i < |s| :: s[i] in s;
      LookupAbsent(s, key);
    }
  }

  lemma NumberIsRead(v: Option<Json>, n: u64)
    ensures AsU64(v) == Some(n) <==> v == Some(Whole(n))
    ensures n < 0x1_0000_0000 ==> (AsPid(v) == Some(n) <==> v == Some(Whole(n)))
  {
    WholeIsU64(n);
  }

  lemma PidIsSmall(v: Option<Json>)
    ensures AsPid(v).Some? ==> AsPid(v).value < 0x1_0000_0000
  {}

  /** The eleven fields, each found under its key. */
  ghost predicate HoldsAuth(v: Json, a: Auth) {
    && Get(v, AppStateRootKey()) == Some(String(a.appStateRoot)) && Get(v, AuthTagKey()) == Some(String(a.authTag))
    && Get(v, ChildPidKey()) == Some(Whole(a.childPid))
    && Get(v, ChildStartMarkerKey()) == Some(String(a.childStartMarker))
    && Get(v, FingerprintKey()) == Some(String(a.fingerprint)) && Get(v, OperationIdKey()) == Some(String(a.operationId))
    && Get(v, ParentPidKey()) == Some(Whole(a.parentPid))
    && Get(v, ParentStartMarkerKey()) == Some(String(a.parentStartMarker))
    && Get(v, ProcessGenerationKey()) == Some(String(a.processGeneration))
    && Get(v, ProjectRootKey()) == Some(String(a.projectRoot)) && Get(v, SequenceKey()) == Some(Whole(a.sequence))
  }

  predicate SmallPids(a: Auth) {
    a.parentPid < 0x1_0000_0000 && a.childPid < 0x1_0000_0000
  }

  lemma AuthFieldsRead(v: Json, a: Auth)
    requires v.Object?
    ensures ParseAuth(v) == Some(a) <==>
            |v.entries| == 11 && OnlyKeys(v.entries, AuthKeys()) && HoldsAuth(v, a) && SmallPids(a)
  {
    hide IsUtf8, Ascii, Get, OnlyKeys, AuthKeys, AsU64, AsPid, Whole, AppStateRootKey, AuthTagKey, ChildPidKey,
         ChildStartMarkerKey, FingerprintKey, OperationIdKey, ParentPidKey, ParentStartMarkerKey, ProcessGenerationKey,
         ProjectRootKey, SequenceKey;
    if SmallPids(a) {
      NumberIsRead(Get(v, ParentPidKey()), a.parentPid);
      NumberIsRead(Get(v, ChildPidKey()), a.childPid);
    }
    PidIsSmall(Get(v, ParentPidKey()));
    PidIsSmall(Get(v, ChildPidKey()));
    NumberIsRead(Get(v, SequenceKey()), a.sequence);
  }

  lemma AuthFieldsHeld(v: Json, a: Auth)
    requires v.Object? && DistinctEntries(v.entries)
    ensures SameUpToKeyOrder(v, AuthObject(a)) <==>
            |v.entries| == 11 && OnlyKeys(v.entries, AuthKeys()) && HoldsAuth(v, a)
  {
    var e, k := AuthObject(a).entries, AuthKeys();
    hide IsUtf8, Lookup, SameUpToKeyOrder, AuthObject, AuthKeys, HoldsAuth, OnlyKeys, KeysAmong, DistinctEntries, Whole,
         IsFlat;
    AuthLookups(a);
    AuthEntriesDistinct(a);
    AuthObjectIsFlat(a);
    AuthValuesAre(v, a);
    FlatObjectIs(v, e);
    SameKeys(v.entries, e, k);
    assert AuthObject(a) == Object(e);
  }

  lemma AuthEntriesDistinct(a: Auth)
    ensures AuthObject(a).Object? && DistinctEntries(AuthObject(a).entries)
  {
    hide IsUtf8;
    AuthKeysDistinct(a);
  }

  lemma SameKey(key: Text, e: seq<Entry>, k: seq<Text>)
    requires |e| == |k| && forall i | 0 <= i < |k| :: e[i].key == k[i]
    ensures key in k <==> KeyAmong(key, e)
  {
    if key in k {
      var j :| 0 <= j < |k| && k[j] == key;
      assert e[j].key == key;
    }
    if KeyAmong(key, e) {
      var j :| 0 <= j < |e| && e[j].key == key;
      assert k[j] == key;
    }
  }

  lemma SameKeys(s: seq<Entry>, e: seq<Entry>, k: seq<Text>)
    requires |e| == |k| && forall i | 0 <= i < |k| :: e[i].key == k[i]
    ensures OnlyKeys(s, k) <==> KeysAmong(s, e)
  {
    hide KeyAmong;
    forall i | 0 <= i < |s| ensures s[i].key in k <==> KeyAmong(s[i].key, e) {
      SameKey(s[i].key, e, k);
    }
  }

  ghost predicate FoundAt(v: Json, e: seq<Entry>, j: int)
    requires v.Object?
  {
    0 <= j < |e| && Lookup(v.entries, e[j].key) == Some(e[j].value)
  }

  lemma ElevenFound(v: Json, e: seq<Entry>)
    requires v.Object? && |e| == 11
    ensures (forall j | 0 <= j < |e| :: Lookup(v.entries, e[j].key) == Some(e[j].value)) <==>
            && FoundAt(v, e, 0) && FoundAt(v, e, 1) && FoundAt(v, e, 2) && FoundAt(v, e, 3) && FoundAt(v, e, 4)
            && FoundAt(v, e, 5) && FoundAt(v, e, 6) && FoundAt(v, e, 7) && FoundAt(v, e, 8) && FoundAt(v, e, 9)
            && FoundAt(v, e, 10)
  {
    hide Lookup;
    if forall j | 0 <= j < |e| :: FoundAt(v, e, j) {
      forall j | 0 <= j < |e| ensures Lookup(v.entries, e[j].key) == Some(e[j].value) { assert FoundAt(v, e, j); }
    }
  }

  lemma AuthObjectIsFlat(a: Auth)
    ensures var e := AuthObject(a).entries; |e| == 11 && forall j | 0 <= j < |e| :: IsFlat(e[j].value)
  {
    hide IsUtf8, AppStateRootKey, AuthTagKey, ChildPidKey,
         ChildStartMarkerKey, FingerprintKey, OperationIdKey, ParentPidKey, ParentStartMarkerKey, ProcessGenerationKey,
         ProjectRootKey, SequenceKey, Decimal;
  }

  lemma AuthValuesAre(v: Json, a: Auth)
    requires v.Object?
    ensures var e := AuthObject(a).entries;
            HoldsAuth(v, a) <==> forall j | 0 <= j < |e| :: Lookup(v.entries, e[j].key) == Some(e[j].value)
  {
    hide IsUtf8, Lookup, AppStateRootKey, AuthTagKey, ChildPidKey, Whole,
         ChildStartMarkerKey, FingerprintKey, OperationIdKey, ParentPidKey, ParentStartMarkerKey, ProcessGenerationKey,
         ProjectRootKey, SequenceKey;
    ElevenFound(v, AuthObject(a).entries);
  }

  /** A proof of origin is read exactly when it is the client's object of those eleven
      fields, in any order, and its process ids have 32 bits. */
  lemma AuthIsRead(v: Json, a: Auth)
    requires DistinctKeys(v)
    ensures ParseAuth(v) == Some(a) <==>
            SameUpToKeyOrder(v, AuthObject(a)) && a.parentPid < 0x1_0000_0000 && a.childPid < 0x1_0000_0000
  {
    hide IsUtf8, Get, OnlyKeys, AuthKeys, HoldsAuth;
    if v.Object? {
      AuthFieldsRead(v, a);
      AuthFieldsHeld(v, a);
    }
  }

  // --- Control characters ----------------------------------------------------------------

  /** The code point of the character that starts at `i` (section 3 of RFC 3629). */
  function CodePoint(t: Text, i: nat): int
    requires i < |t| && CharLength(t, i) > 0
  {
    var a := t[i] as int;
    match CharLength(t, i)
    case 1 => a
    case 2 => (a - 192) * 64 + Low(t, i + 1)
    case 3 => (a - 224) * 4096 + Low(t, i + 1) * 64 + Low(t, i + 2)
    case _ => (a - 240) * 262144 + Low(t, i + 1) * 4096 + Low(t, i + 2) * 64 + Low(t, i + 3)
  }

  /** The six bits of a byte that follows in a character. */
  function Low(t: Text, i: nat): int {
    if i < |t| then t[i] as int - 128 else 0
  }

  ghost predicate ControlAt(t: Text, i: nat) {
    i < |t| && CharLength(t, i) > 0 && (0 <= CodePoint(t, i) <= 31 || 127 <= CodePoint(t, i) <= 159)
  }

  lemma ControlIs(t: Text, i: nat)
    requires i < |t|
    ensures ControlAt(t, i) <==>
            t[i] < 32 || t[i] == 127 || (t[i] == 0xC2 && i + 1 < |t| && 0x80 <= t[i + 1] <= 0x9F)
  {}

  /** A text has a control character exactly when one of its characters is U+0000 to
      U+001F or U+007F to U+009F. */
  lemma HasControlIs(t: Text)
    ensures HasControl(t) <==> exists i: nat :: ControlAt(t, i)
  {
    hide CharLength, CodePoint;
    if HasControl(t) {
      var i: nat :| i < |t| &&
        (t[i] < 32 || t[i] == 127 || (t[i] == 0xC2 && i + 1 < |t| && 0x80 <= t[i + 1] <= 0x9F));
      ControlIs(t, i);
    }
    if i: nat :| ControlAt(t, i) {
      ControlIs(t, i);
    }
  }

  // --- One frame ---------------------------------------------------------------------------

  /** What a frame leads to: an overlong one, one that is no request, one whose id is among
      the last 4096, and any other, which alone is handled and recorded. */
  lemma FrameIsAnswered(world: World, n: nat, server: Server, bytes: Text)
    ensures ServeFrame(world, n, server, Oversized) == Step(server, TooLarge, server)
    ensures var step := ServeFrame(world, n, server, Complete(bytes));
            match ParseRequest(world.reader.parse(bytes))
            case Rejected(id, failure) => step == Step(server, Unreadable(id, failure), server)
            case Accepted(r) =>
              var a := HandleRequest(world, n, server.session, r);
              if exists k :: |server.seen| - 4096 <= k < |server.seen| && k >= 0 && server.seen[k] == r.id
              then step == Step(server, Replayed(r.id), server)
              else step == Step(server, Served(r, a.outcome), Server(a.session, server.seen + [r.id]))
  {
    hide ParseRequest, HandleRequest;
    var w := Window(server.seen);
    assert forall k | 0 <= k < |w| :: w[k] == server.seen[|server.seen| - |w| + k];
    assert forall k | |server.seen| - |w| <= k < |server.seen| :: server.seen[k] == w[k - (|server.seen| - |w|)];
  }

  // --- What the binding says -----------------------------------------------------------------

  /** The secret is kept in lower case: the same digits, none of them a capital. */
  lemma LowerCaseIs(t: Text, i: nat)
    requires AllHex(t) && i < |t|
    ensures IsHexDigit(t[i]) && |LowerCase(t)| == |t| && IsLowerHexDigit(LowerCase(t)[i])
    ensures HexValue(LowerCase(t)[i]) == HexValue(t[i])
  {}

  /** The child's marker is a digest of its process id and of the time. */
  lemma ChildMarkerIs(world: World, secret: Text, childPid: nat, now: Unix)
    ensures ChildStartMarker(world, secret, childPid, now) ==
            Digest(world.sha, Ascii("unpin.desktop.bridge.child.v1") + ([NUL] + (secret + ([NUL] + (Decimal(childPid)
                              + ([NUL] + Decimal(now)))))))
  {
    hide IsUtf8, Digest, Decimal, Ascii;
    var d, c, b, a := Decimal(now), Decimal(childPid), secret, Ascii("unpin.desktop.bridge.child.v1");
    JoinStep(c, [d]);
    JoinStep(b, [c, d]);
    JoinStep(a, [b, c, d]);
    assert [c] + [d] == [c, d] && [b] + [c, d] == [b, c, d] && [a] + [b, c, d] == [a, b, c, d];
  }
}
