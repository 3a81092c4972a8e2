/** The whole session of scripts/run_authenticated_desktop_bridge_smoke.py with the
    bridge: from the bytes of the handshake on, what is dispatched and what the
    client takes for a result, each with its exact condition. */
module BridgeConversation {
  import opened Bytes
  import opened Encoders
  import opened CanonicalJson
  import opened JsonText
  import opened JsonReader
  import opened RequestTags
  import opened BridgeFrames
  import opened BridgeProtocol
  import opened BridgeSession
  import opened BridgeRun
  import opened BridgeClient
  import opened BridgeHandshake
  import opened BridgeReplies
  import opened ReplayWindow

  // --- Every answer can be written ----------------------------------------------

  /** The handlers' results are JSON that can be written. */
  ghost predicate HandlersWriteJson(world: World) {
    forall n, name, params, store ::
      var h := world.handle(n, name, params, store);
      h.result.Succeeded? ==> Encodable(h.result.result) && DistinctKeys(h.result.result)
  }

  lemma DispatchWrites(world: World, n: nat, r: Request, store: Store)
    requires HandlersWriteJson(world)
    ensures var h := Dispatch(world, n, r, store);
            h.result.Succeeded? ==> Encodable(h.result.result) && DistinctKeys(h.result.result)
  {
    hide ShutdownMethod, UnknownMethodCode, BridgeCapabilities;
    assert Encodable(Bool(true)) && DistinctKeys(Bool(true));
  }

  lemma AcceptedIdIsValid(parsed: Parsed)
    requires ParseRequest(parsed).Accepted?
    ensures ValidRequestId(ParseRequest(parsed).request.id)
  {
    hide ParseAuth, OnlyKeys, RequestKeys, Get, AsU64, AsString, HasControl,
         IdKey, VersionKey, MethodKey, ParamsKey, AuthKey;
  }

  lemma AnswerWrites(world: World, n: nat, s: Session, r: Request)
    requires HandlersWriteJson(world)
    ensures var o := HandleRequest(world, n, s, r).outcome;
            o.Dispatched? && o.result.Succeeded? ==> Encodable(o.result.result) && DistinctKeys(o.result.result)
  {
    hide HandshakeBinding, Authenticated, Dispatch, HandlersWriteJson, HandshakeMethod, Encodable, DistinctKeys;
    DispatchWrites(world, n, r, Pruned(s.store, world.now(n)));
  }

  lemma ServedIsWritable(world: World, n: nat, server: Server, frame: ReadResult)
    requires HandlersWriteJson(world)
    ensures var e := ServeFrame(world, n, server, frame).event;
            e.Served? ==> Writable(world, e)
  {
    hide HandleRequest, ParseRequest, ValidRequestId, HandlersWriteJson, Encodable, DistinctKeys;
    if frame.Complete? && ParseRequest(world.reader.parse(frame.bytes)).Accepted? {
      AcceptedIdIsValid(world.reader.parse(frame.bytes));
      AnswerWrites(world, n, server.session, ParseRequest(world.reader.parse(frame.bytes)).request);
    }
  }

  lemma {:induction false} TraceIsWritable(world: World, n: nat, server: Server, frames: seq<ReadResult>)
    requires HandlersWriteJson(world)
    ensures forall s | s in Trace(world, n, server, frames) && s.event.Served? :: Writable(world, s.event)
    decreases |frames|
  {
    hide HandlersWriteJson, ServeFrame, Response, ShutsDown, Writable;
    if frames != [] {
      ServedIsWritable(world, n, server, frames[0]);
      TraceIsWritable(world, n + 1, ServeFrame(world, n, server, frames[0]).after, frames[1..]);
    }
  }

  // --- The client's side of a conversation ------------------------------------------

  /** Each answer is read back whole, checks to exactly what it should, and nothing
      is left on the stream. */
  ghost predicate AnswersAreChecked(world: World, client: Reader, trace: seq<Step>, ids: seq<Utf8>) {
    && |trace| <= |ids| && AfterReplies(|trace|, Written(world, trace)) == []
    && forall i | 0 <= i < |trace| ::
         CheckedReply(client, Replies(|trace|, Written(world, trace))[i], ids[i]) ==
         ExpectedResult(world, client, trace[i].event)
  }

  /** What makes an event's answer checkable under an id. */
  ghost predicate Checkable(world: World, e: Event, id: Utf8) {
    Writable(world, e) && (e.Served? ==> e.request.id == id)
  }

  lemma AnswersCheck(world: World, client: Reader, trace: seq<Step>, ids: seq<Utf8>)
    requires |trace| <= |ids| && ReadsCompactText(client)
    requires forall i | 0 <= i < |trace| :: Checkable(world, trace[i].event, ids[i])
    ensures AnswersAreChecked(world, client, trace, ids)
  {
    hide Writable, ReadsCompactText, Replies, AfterReplies, Written, CheckedReply, ExpectedResult, ResponseText, Response;
    assert forall i | 0 <= i < |trace| :: Writable(world, trace[i].event);
    RepliesAreRead(world, trace, []);
    assert Written(world, trace) + [] == Written(world, trace);
    forall i | 0 <= i < |trace|
      ensures CheckedReply(client, Replies(|trace|, Written(world, trace))[i], ids[i]) ==
              ExpectedResult(world, client, trace[i].event)
    {
      CheckedResultMeaning(world, client, trace[i].event, ids[i]);
    }
  }

  function Ids(drafts: seq<Draft>): (ids: seq<Utf8>)
    ensures |ids| == |drafts|
  {
    seq(|drafts|, i requires 0 <= i < |drafts| => drafts[i].id)
  }

  lemma AnsweredIsCheckable(world: World, step: Step, r: Request)
    requires Answered(world, step, r) && (step.event.Served? ==> Writable(world, step.event))
    ensures Checkable(world, step.event, r.id)
  {
    hide Readable, RequestObject, ValidRequestId, Encodable, DistinctKeys, Respelled, Canonicalize;
  }

  lemma ServedIsCheckable(
      world: World, n: nat, server: Server, frames: seq<ReadResult>, drafts: seq<Draft>, first: nat, b: Binding,
      secret: Text)
    requires first + |drafts| <= MAX_U64 + 1 && HandlersWriteJson(world)
    requires ServedExactly(world, Trace(world, n, server, frames), drafts, first, b, secret)
    ensures var trace := Trace(world, n, server, frames);
            forall i | 0 <= i < |trace| :: Checkable(world, trace[i].event, drafts[i].id)
  {
    hide HandlersWriteJson, Trace, Writable, Answered, DispatchStep, AllPass, Response, ShutsDown, Checkable;
    var trace := Trace(world, n, server, frames);
    TraceIsWritable(world, n, server, frames);
    forall i: nat | i < |trace| ensures Checkable(world, trace[i].event, drafts[i].id) {
      assert trace[i] in trace && StepExact(world, trace, drafts, first, b, secret, i);
      AnsweredIsCheckable(world, trace[i], AuthenticatedRequest(world.sha, drafts[i], first + i, b, secret));
    }
  }

  /** The composition both ways, after a handshake: each request is dispatched
      exactly when it and all before it pass, and the client takes exactly the
      results of requests served with one that it can read. */
  lemma ConversationIsAnswered(
      world: World, client: Reader, n: nat, server: Server, drafts: seq<Draft>, first: nat, b: Binding, secret: Text)
    requires Ready(world, server, drafts, first, b, secret) && first == server.session.counter + 1
    requires LinesInBound(Requests(world.sha, drafts, first, b, secret))
    requires HandlersWriteJson(world) && ReadsCompactText(client)
    ensures var trace := Trace(world, n, server, AllFrames(Sent(Requests(world.sha, drafts, first, b, secret))));
            && ServedExactly(world, trace, drafts, first, b, secret)
            && AnswersAreChecked(world, client, trace, Ids(drafts))
  {
    hide HandlersWriteJson, LinesInBound, Requests, Sent, AllFrames, Trace, AnswersAreChecked, Checkable,
         DraftsAreSendable, ReadsCanonicalText, ReadsCompactText, BindingFits, StepExact, Response, ShutsDown, NulFree;
    var frames := AllFrames(Sent(Requests(world.sha, drafts, first, b, secret)));
    ClientAndServerCompose(world, n, server, drafts, first, b, secret);
    ServedIsCheckable(world, n, server, frames, drafts, first, b, secret);
    AnswersCheck(world, client, Trace(world, n, server, frames), Ids(drafts));
  }

  // --- The handshake's bytes ----------------------------------------------------------

  /** What the client offers in its handshake. */
  datatype Offer = Offer(
    secret: Utf8, parentPid: u64, parentStartMarker: Utf8, childPid: u64, processGeneration: Utf8,
    projectRoot: Utf8, appStateRoot: Utf8)

  /** The parameters of the handshake, keys as `canonical_json` sorts them. */
  function HandshakeParams(o: Offer): Json {
    Object([
      Entry(AppStateRootKey(), String(o.appStateRoot)), Entry(ChildPidKey(), Whole(o.childPid)),
      Entry(ParentPidKey(), Whole(o.parentPid)), Entry(ParentStartMarkerKey(), String(o.parentStartMarker)),
      Entry(ProcessGenerationKey(), String(o.processGeneration)), Entry(ProjectRootKey(), String(o.projectRoot)),
      Entry(SessionSecretKey(), String(o.secret))])
  }

  function HandshakeRequest(id: Utf8, o: Offer): Request {
    Request(id, HandshakeMethod(), HandshakeParams(o), None)
  }

  lemma OfferKeyOrder()
    ensures Before(AppStateRootKey(), ChildPidKey()) && Before(ChildPidKey(), ParentPidKey())
    ensures Before(ParentPidKey(), ParentStartMarkerKey()) && Before(ParentStartMarkerKey(), ProcessGenerationKey())
    ensures Before(ProcessGenerationKey(), ProjectRootKey()) && Before(ProjectRootKey(), SessionSecretKey())
  {
    BindingKeyOrder();
    assert ChildPidKey()[0] == 99 && ParentPidKey()[0] == 112 && ProjectRootKey()[0] == 112 && SessionSecretKey()[0] == 115;
    hide AppStateRootKey, ChildPidKey, ParentPidKey, ParentStartMarkerKey, ProcessGenerationKey, ProjectRootKey,
         SessionSecretKey;
    BeforeAt(ChildPidKey(), ParentPidKey(), 0);
    BeforeAt(ProjectRootKey(), SessionSecretKey(), 0);
  }

  lemma OfferKeysAscend(o: Offer)
    ensures DistinctEntries(HandshakeParams(o).entries) && Ascending(HandshakeParams(o).entries)
  {
    OfferKeyOrder();
    hide AppStateRootKey, ChildPidKey, ParentPidKey, ParentStartMarkerKey, ProcessGenerationKey, ProjectRootKey,
         SessionSecretKey, Before, Whole;
    assert AdjacentAscending(HandshakeParams(o).entries);
    AscendingFromAdjacent(HandshakeParams(o).entries);
  }

  lemma OfferFields(o: Offer)
    ensures var p := HandshakeParams(o);
            && Get(p, AppStateRootKey()) == Some(String(o.appStateRoot)) && Get(p, ChildPidKey()) == Some(Whole(o.childPid))
            && Get(p, ParentPidKey()) == Some(Whole(o.parentPid))
            && Get(p, ParentStartMarkerKey()) == Some(String(o.parentStartMarker))
            && Get(p, ProcessGenerationKey()) == Some(String(o.processGeneration))
            && Get(p, ProjectRootKey()) == Some(String(o.projectRoot))
            && Get(p, SessionSecretKey()) == Some(String(o.secret))
  {
    OfferKeysAscend(o);
    hide AppStateRootKey, ChildPidKey, ParentPidKey, ParentStartMarkerKey, ProcessGenerationKey, ProjectRootKey,
         SessionSecretKey, Whole;
    var e := HandshakeParams(o).entries;
    LookupAt(e, 0); LookupAt(e, 1); LookupAt(e, 2); LookupAt(e, 3); LookupAt(e, 4); LookupAt(e, 5); LookupAt(e, 6);
  }

  /** The values of an offer are strings and whole numbers. */
  lemma OfferValues(o: Offer, i: nat)
    requires i < 7
    ensures |HandshakeParams(o).entries| == 7
    ensures var v := HandshakeParams(o).entries[i].value;
            v.String? || v == Whole(o.childPid) || v == Whole(o.parentPid)
  {
    hide AppStateRootKey, ChildPidKey, ParentPidKey, ParentStartMarkerKey, ProcessGenerationKey, ProjectRootKey,
         SessionSecretKey, Whole;
  }

  lemma OfferIsJson(o: Offer)
    ensures Encodable(HandshakeParams(o)) && DistinctKeys(HandshakeParams(o))
    ensures Canonicalize(HandshakeParams(o)) == HandshakeParams(o)
    ensures forall d: nat :: Within(HandshakeParams(o), d) <==> d >= 1
  {
    OfferKeysAscend(o);
    WholeIsU64(o.childPid);
    WholeIsU64(o.parentPid);
    hide HandshakeParams, IsLexeme;
    var p := HandshakeParams(o);
    OfferIsObject(o);
    var e := p.entries;
    forall i: nat | i < 7
      ensures Encodable(e[i].value) && DistinctKeys(e[i].value) && Canonicalize(e[i].value) == e[i].value
      ensures forall d: nat :: Within(e[i].value, d)
    {
      OfferValues(o, i);
    }
    assert CanonicalEntriesOf(e, e);
    CanonicalOfAscending(e, e);
  }

  lemma OfferIsObject(o: Offer)
    ensures HandshakeParams(o).Object? && |HandshakeParams(o).entries| == 7
  {}

  lemma OfferNumbers(p: Text -> bool, o: Offer)
    requires forall n: u64 :: p(Decimal(n))
    ensures EveryNumber(p, HandshakeParams(o))
  {
    hide HandshakeParams;
    OfferIsObject(o);
    var e := HandshakeParams(o).entries;
    forall i: nat | i < 7 ensures EveryNumber(p, e[i].value) {
      OfferValues(o, i);
      assert EveryNumber(p, Whole(o.childPid)) && EveryNumber(p, Whole(o.parentPid));
    }
  }

  lemma OfferIsSendable(id: Utf8, o: Offer)
    requires ValidRequestId(id)
    ensures Sendable(HandshakeRequest(id, o))
  {
    hide ValidRequestId, HandshakeParams, Encodable, DistinctKeys;
    OfferIsObject(o);
    OfferIsJson(o);
    assert |HandshakeMethod()| == 9;
  }

  /** The offer arrives as it was sent, when two levels of nesting are allowed. */
  lemma OfferArrives(reader: Reader, id: Utf8, o: Offer)
    requires ReadsCanonicalText(reader) && ValidRequestId(id)
    ensures ParseRequest(reader.parse(RequestText(HandshakeRequest(id, o)))) ==
            if reader.depthLimit >= 2 then Accepted(HandshakeRequest(id, o)) else Rejected(None, MalformedRequest)
  {
    var r := HandshakeRequest(id, o);
    OfferIsSendable(id, o);
    RequestArrives(reader, r);
    ReadableRequest(reader, r);
    OfferIsJson(o);
    OfferNumbers(OwnSpelling(reader.respell), o);
    OwnSpellingInRange(reader.respell, HandshakeParams(o));
    RespelledFixed(reader.respell, HandshakeParams(o));
    OfferNesting(id, o, reader.depthLimit);
    hide ParseRequest, RequestText, HandshakeParams, RequestObject, EveryNumber, Within, Respelled, Canonicalize,
         SpellsNumbers, Sendable, ValidRequestId, Encodable, DistinctKeys, HandshakeMethod, Encode, Reads;
  }

  lemma OfferNesting(id: Utf8, o: Offer, depth: nat)
    ensures Within(RequestObject(HandshakeRequest(id, o)), depth) <==> depth >= 2
  {
    OfferIsJson(o);
    hide HandshakeParams, HandshakeMethod, IdKey, MethodKey, ParamsKey, VersionKey, Encodable, DistinctKeys;
    var e := RequestObject(HandshakeRequest(id, o)).entries;
    assert |e| == 4 && e[2].value == HandshakeParams(o);
    assert forall i | 0 <= i < 4 :: i != 2 ==> e[i].value.String? || e[i].value.Number?;
    OfferIsObject(o);
  }

  // --- From the handshake on -------------------------------------------------------------

  function FreshServer(store: Store): Server {
    Server(NewSession(store), [])
  }

  function HandshakeFrame(id: Utf8, o: Offer): ReadResult {
    Complete(RequestText(HandshakeRequest(id, o)))
  }

  /** The step a fresh server takes on the client's handshake. */
  function FirstStep(world: World, store: Store, id: Utf8, o: Offer): Step {
    ServeFrame(world, 0, FreshServer(store), HandshakeFrame(id, o))
  }

  /** What the binding says, as the client knows it from its offer. */
  ghost predicate Binds(b: Binding, o: Offer) {
    && b.parentPid == o.parentPid && b.childPid == o.childPid
    && b.parentStartMarker == o.parentStartMarker && b.processGeneration == o.processGeneration
    && b.projectRoot == o.projectRoot && b.appStateRoot == o.appStateRoot
    && AllHex(o.secret) && b.sessionSecret == LowerCase(o.secret)
  }

  lemma OfferBinds(world: World, n: nat, o: Offer)
    requires HandshakeBinding(world, n, false, HandshakeParams(o)).Fine?
    ensures Binds(HandshakeBinding(world, n, false, HandshakeParams(o)).value, o)
    ensures BindingFits(HandshakeBinding(world, n, false, HandshakeParams(o)).value)
  {
    hide IsUtf8, HandshakeBinding, HandshakeParams, Get, HasControl, Whole, LowerCase, AllHex, OnlyKeys, HandshakeKeys,
         AppStateRootKey, ChildPidKey, ParentPidKey, ParentStartMarkerKey, ProcessGenerationKey, ProjectRootKey,
         SessionSecretKey, IsLowerHexDigest;
    HandshakeAcceptedExactly(world, n, false, HandshakeParams(o));
    HandshakeBindingSound(world, n, false, HandshakeParams(o));
    OfferFields(o);
    WholeIsU64(o.parentPid);
    WholeIsU64(o.childPid);
  }

  lemma HexIsNulFree(t: Text)
    requires AllHex(t)
    ensures NulFree(t) && NulFree(LowerCase(t))
  {}

  /** A secret is kept exactly when it is lower case. */
  lemma SecretIsKept(t: Text)
    requires AllHex(t)
    ensures t == LowerCase(t) <==> AllLowerHex(t)
  {
    forall i | 0 <= i < |t| ensures LowerCase(t)[i] == t[i] <==> IsLowerHexDigit(t[i]) {}
    assert t == LowerCase(t) ==> forall i | 0 <= i < |t| :: LowerCase(t)[i] == t[i];
  }

  /** A fresh server takes the client's handshake exactly when its offer is
      acceptable and two levels of nesting are allowed; it is then bound to the offer. */
  lemma HandshakeIsDone(world: World, store: Store, id: Utf8, o: Offer)
    requires ReadsCanonicalText(world.reader) && ValidRequestId(id)
    ensures var step := FirstStep(world, store, id, o);
            && (HandshakeStep(step) <==> world.reader.depthLimit >= 2 && Acceptable(world, 0, HandshakeParams(o)))
            && (HandshakeStep(step) ==>
                  && step.event.request == HandshakeRequest(id, o)
                  && Binds(step.event.outcome.binding, o) && BindingFits(step.event.outcome.binding)
                  && step.after.session.binding == Some(step.event.outcome.binding)
                  && step.after.session.counter == 0 && step.after.seen == [id])
  {
    hide IsUtf8, HandshakeBinding, HandshakeParams, Acceptable, Binds, BindingFits, ReadsCanonicalText, ParseRequest,
         RequestText, HandshakeMethod, HandleRequest, ValidRequestId, Get, HasPid, LowerCase, SessionSecretKey, AsString,
         Window;
    OfferArrives(world.reader, id, o);
    HandshakeAcceptedExactly(world, 0, false, HandshakeParams(o));
    if HandshakeBinding(world, 0, false, HandshakeParams(o)).Fine? {
      OfferBinds(world, 0, o);
    }
    FirstAnswer(world, store, id, o);
  }

  lemma FirstAnswer(world: World, store: Store, id: Utf8, o: Offer)
    ensures var a := HandleRequest(world, 0, NewSession(store), HandshakeRequest(id, o));
            var bound := HandshakeBinding(world, 0, false, HandshakeParams(o));
            && (a.outcome.HandshakeDone? <==> bound.Fine?)
            && (bound.Fine? ==> a.outcome.binding == bound.value
                                && a.session.binding == Some(bound.value) && a.session.counter == 0)
    ensures id !in Window(FreshServer(store).seen)
  {
    hide HandshakeBinding, HandshakeParams, HandshakeMethod, Pruned;
  }

  /** A finished handshake leaves the server ready for any list of drafts with ids of
      their own, exactly when none of them is the handshake's. */
  lemma HandshakeMakesReady(world: World, store: Store, id: Utf8, o: Offer, drafts: seq<Draft>)
    requires ReadsCanonicalText(world.reader) && ValidRequestId(id) && HandshakeStep(FirstStep(world, store, id, o))
    requires |drafts| <= MAX_U64
    requires forall i | 0 <= i < |drafts| :: DraftIsSendable(drafts[i])
    requires forall i, j | 0 <= i < j < |drafts| :: drafts[i].id != drafts[j].id
    ensures var step := FirstStep(world, store, id, o);
            Ready(world, step.after, drafts, 1, step.event.outcome.binding, o.secret) <==>
            forall i | 0 <= i < |drafts| :: drafts[i].id != id
  {
    hide FirstStep, BindingFits, DraftIsSendable, ReadsCanonicalText, NulFree, LowerCase, AllHex, Window, Acceptable,
         HandshakeRequest, ValidRequestId, Ready;
    HandshakeIsDone(world, store, id, o);
    HexIsNulFree(o.secret);
    var step := FirstStep(world, store, id, o);
    ReadyAfter(world, step.after, id, drafts, step.event.outcome.binding, o.secret);
  }

  lemma ReadyAfter(world: World, server: Server, id: Utf8, drafts: seq<Draft>, b: Binding, secret: Text)
    requires ReadsCanonicalText(world.reader) && BindingFits(b) && NulFree(secret) && NulFree(b.sessionSecret)
    requires server.session.binding == Some(b) && server.session.counter == 0 && server.seen == [id]
    requires |drafts| <= MAX_U64
    requires forall i | 0 <= i < |drafts| :: DraftIsSendable(drafts[i])
    requires forall i, j | 0 <= i < j < |drafts| :: drafts[i].id != drafts[j].id
    ensures Ready(world, server, drafts, 1, b, secret) <==> forall i | 0 <= i < |drafts| :: drafts[i].id != id
  {
    hide DraftIsSendable, ReadsCanonicalText, NulFree, BindingFits;
    assert Window(server.seen) == [id];
  }

  /** The handshake's answer does not shut the bridge down. */
  lemma HandshakeGoesOn(world: World, r: Request, b: Binding)
    ensures !ShutsDown(Response(world, Served(r, HandshakeDone(b))))
  {
    hide IsUtf8, BinaryVersionKey, BindingKey, CapabilitiesKey, ProtocolVersionKey, ShutdownMethod, BindingJson, Capabilities,
         ResultResponse, ResultKey, Whole;
    HandshakeReplyKeys();
    HandshakeReplyIsObject(world, b);
    ResultFields(r.id, HandshakeReply(world, b));
    LookupAbsent(HandshakeReply(world, b).entries, ShutdownMethod());
  }

  /** The bytes of a whole session: the handshake, then the drafts numbered from 1. */
  function SessionRequests(world: World, id: Utf8, o: Offer, drafts: seq<Draft>, b: Binding): seq<Request>
    requires |drafts| <= MAX_U64
  {
    [HandshakeRequest(id, o)] + Requests(world.sha, drafts, 1, b, o.secret)
  }

  /** Drafts a session can hold. */
  ghost predicate SessionDrafts(id: Utf8, drafts: seq<Draft>) {
    && |drafts| <= MAX_U64
    && (forall i | 0 <= i < |drafts| :: DraftIsSendable(drafts[i]) && drafts[i].id != id)
    && (forall i, j | 0 <= i < j < |drafts| :: drafts[i].id != drafts[j].id)
  }

  lemma SessionFrames(world: World, id: Utf8, o: Offer, drafts: seq<Draft>, b: Binding)
    requires ValidRequestId(id) && SessionDrafts(id, drafts) && BindingFits(b)
    requires LinesInBound(SessionRequests(world, id, o, drafts, b))
    ensures AllFrames(Sent(SessionRequests(world, id, o, drafts, b))) ==
            [HandshakeFrame(id, o)] + FramesOf(Requests(world.sha, drafts, 1, b, o.secret))
  {
    hide RequestText, DraftIsSendable, BindingFits, Printable, Requests, HandshakeRequest, AllFrames, Sent, ValidRequestId;
    var rs := Requests(world.sha, drafts, 1, b, o.secret);
    var all := SessionRequests(world, id, o, drafts, b);
    RequestsPrint(world, drafts, 1, b, o.secret);
    OfferIsSendable(id, o);
    RequestPrints(HandshakeRequest(id, o));
    assert all[1..] == rs;
    PrintableFirst(all);
    SentFrames(all);
  }

  /** The run of a whole session: the handshake's step, then the run of the drafts. */
  lemma SessionTrace(world: World, store: Store, id: Utf8, o: Offer, drafts: seq<Draft>)
    requires ReadsCanonicalText(world.reader) && ValidRequestId(id) && SessionDrafts(id, drafts)
    requires HandshakeStep(FirstStep(world, store, id, o))
    requires LinesInBound(SessionRequests(world, id, o, drafts, FirstStep(world, store, id, o).event.outcome.binding))
    ensures var first := FirstStep(world, store, id, o);
            var b := first.event.outcome.binding;
            Trace(world, 0, FreshServer(store), AllFrames(Sent(SessionRequests(world, id, o, drafts, b)))) ==
            [first] + Trace(world, 1, first.after, FramesOf(Requests(world.sha, drafts, 1, b, o.secret)))
  {
    var first := FirstStep(world, store, id, o);
    var b := first.event.outcome.binding;
    HandshakeIsDone(world, store, id, o);
    SessionFrames(world, id, o, drafts, b);
    var frames := [HandshakeFrame(id, o)] + FramesOf(Requests(world.sha, drafts, 1, b, o.secret));
    assert frames[1..] == FramesOf(Requests(world.sha, drafts, 1, b, o.secret));
    TraceUnfolds(world, 0, FreshServer(store), frames);
    HandshakeGoesOn(world, first.event.request, b);
    hide Trace, AllFrames, Sent, SessionRequests, FramesOf, Requests, ServeFrame, ShutsDown, Response, LinesInBound,
         SessionDrafts, ReadsCanonicalText, Binds, BindingFits;
  }

  /** A session as it has to go: the handshake binds what was offered, each draft is
      dispatched exactly when it and all before it pass, and the client takes exactly
      the results it was served and can read. */
  ghost predicate SessionHolds(
      world: World, client: Reader, trace: seq<Step>, id: Utf8, o: Offer, drafts: seq<Draft>, b: Binding)
    requires |drafts| <= MAX_U64
  {
    && trace != [] && HandshakeStep(trace[0]) && trace[0].event.outcome.binding == b && Binds(b, o)
    && ServedExactly(world, trace[1..], drafts, 1, b, o.secret)
    && AnswersAreChecked(world, client, trace, [id] + Ids(drafts))
  }

  lemma FirstIsCheckable(world: World, store: Store, id: Utf8, o: Offer)
    requires ReadsCanonicalText(world.reader) && ValidRequestId(id) && HandshakeStep(FirstStep(world, store, id, o))
    ensures Checkable(world, FirstStep(world, store, id, o).event, id)
  {
    hide FirstStep, ReadsCanonicalText, ValidRequestId, HandshakeParams, HandshakeMethod, Binds, BindingFits, Acceptable;
    HandshakeIsDone(world, store, id, o);
  }

  lemma JoinCheckable(world: World, first: Step, more: seq<Step>, id: Utf8, drafts: seq<Draft>)
    requires |more| <= |drafts| && Checkable(world, first.event, id)
    requires forall i | 0 <= i < |more| :: Checkable(world, more[i].event, drafts[i].id)
    ensures var trace, ids := [first] + more, [id] + Ids(drafts);
            |trace| <= |ids| && forall i | 0 <= i < |trace| :: Checkable(world, trace[i].event, ids[i])
  {
    hide Checkable;
    var trace, ids := [first] + more, [id] + Ids(drafts);
    forall i | 0 <= i < |trace| ensures Checkable(world, trace[i].event, ids[i]) {
      assert i > 0 ==> trace[i] == more[i - 1] && ids[i] == drafts[i - 1].id;
    }
  }

  /** The whole session, from its bytes: whenever the handshake succeeds. */
  lemma WholeSession(world: World, client: Reader, store: Store, id: Utf8, o: Offer, drafts: seq<Draft>)
    requires ReadsCanonicalText(world.reader) && ReadsCompactText(client) && HandlersWriteJson(world)
    requires ValidRequestId(id) && SessionDrafts(id, drafts)
    requires HandshakeStep(FirstStep(world, store, id, o))
    requires LinesInBound(SessionRequests(world, id, o, drafts, FirstStep(world, store, id, o).event.outcome.binding))
    ensures var b := FirstStep(world, store, id, o).event.outcome.binding;
            SessionHolds(world, client,
              Trace(world, 0, FreshServer(store), AllFrames(Sent(SessionRequests(world, id, o, drafts, b)))),
              id, o, drafts, b)
  {
    hide ReadsCanonicalText, ReadsCompactText, HandlersWriteJson, ValidRequestId, LinesInBound, SessionRequests, Trace,
         AllFrames, Sent, FramesOf, Requests, FirstStep, Ready, ServedExactly, AnswersAreChecked, Checkable, DraftIsSendable,
         HandshakeParams, HandshakeMethod, Binds, BindingFits, Acceptable;
    var first := FirstStep(world, store, id, o);
    var b := first.event.outcome.binding;
    var frames := FramesOf(Requests(world.sha, drafts, 1, b, o.secret));
    var more := Trace(world, 1, first.after, frames);
    SessionTrace(world, store, id, o, drafts);
    HandshakeIsDone(world, store, id, o);
    HandshakeMakesReady(world, store, id, o, drafts);
    RunIsExact(world, 1, first.after, drafts, 1, b, o.secret);
    ServedIsCheckable(world, 1, first.after, frames, drafts, 1, b, o.secret);
    FirstIsCheckable(world, store, id, o);
    ExactLength(world, more, drafts, b, o.secret);
    JoinCheckable(world, first, more, id, drafts);
    AnswersCheck(world, client, [first] + more, [id] + Ids(drafts));
    assert ([first] + more)[1..] == more;
  }

  lemma ExactLength(world: World, trace: seq<Step>, drafts: seq<Draft>, b: Binding, secret: Text)
    requires |drafts| <= MAX_U64 && ServedExactly(world, trace, drafts, 1, b, secret)
    ensures |trace| <= |drafts|
  {
    hide StepExact, ShutsDown, Response;
  }

  /** A draft that nests within the server's limit and keeps its numbers. */
  ghost predicate KeptAt(world: World, drafts: seq<Draft>, b: Binding, secret: Text, j: nat)
    requires j < |drafts| <= MAX_U64
  {
    && Within(RequestObject(AuthenticatedRequest(world.sha, drafts[j], 1 + j, b, secret)), world.reader.depthLimit)
    && NumbersKept(world, drafts[j])
  }

  ghost predicate CollidesAt(world: World, drafts: seq<Draft>, b: Binding, secret: Text, j: nat)
    requires j < |drafts| <= MAX_U64
  {
    ParamsCollide(world, drafts[j]) || MaterialsCollide(world, drafts[j], 1 + j, b, secret)
  }

  /** What it takes for the first drafts of a session to be dispatched, short of a
      SHA-256 collision on the named texts: a lower-case secret, and drafts that nest
      within the server's limit and keep their numbers. */
  lemma SessionUnlessCollision(world: World, o: Offer, drafts: seq<Draft>, b: Binding, k: nat)
    requires 0 < k <= |drafts| <= MAX_U64 && Binds(b, o)
    requires forall j: nat | j < k :: !CollidesAt(world, drafts, b, o.secret, j)
    ensures AllPass(world, drafts, 1, b, o.secret, k) <==>
            AllLowerHex(o.secret) && forall j: nat | j < k :: KeptAt(world, drafts, b, o.secret, j)
  {
    hide Passes, ParamsCollide, MaterialsCollide, NumbersKept, Within, RequestObject, AuthenticatedRequest, AllLowerHex,
         AllHex, LowerCase;
    SecretIsKept(o.secret);
    forall j: nat | j < k
      ensures PassesAt(world, drafts, 1, b, o.secret, j) <==>
              o.secret == b.sessionSecret && KeptAt(world, drafts, b, o.secret, j)
    {
      assert !CollidesAt(world, drafts, b, o.secret, j);
      PassesUnlessCollision(world, b, o.secret, drafts[j], 1 + j);
    }
    hide PassesAt, KeptAt;
    if AllPass(world, drafts, 1, b, o.secret, k) {
      assert PassesAt(world, drafts, 1, b, o.secret, 0);
    }
  }

  lemma BindingNumbers(b: Binding, p: Text -> bool)
    requires BindingFits(b) && forall n: u64 :: p(Decimal(n))
    ensures EveryNumber(p, BindingJson(b))
  {
    hide AppStateRootKey, ChildPidKey, ChildStartMarkerKey, ParentPidKey, ParentStartMarkerKey, ProcessGenerationKey,
         ProjectRootKey;
    var fields := BindingJson(b).entries;
    assert EveryNumber(p, Whole(b.childPid)) && EveryNumber(p, Whole(b.parentPid));
    assert forall i | 0 <= i < |fields| ::
             fields[i].value.String? || fields[i].value == Whole(b.childPid) || fields[i].value == Whole(b.parentPid);
  }

  lemma ReplyNumbers(world: World, b: Binding, p: Text -> bool)
    requires BindingFits(b) && forall n: u64 :: p(Decimal(n))
    ensures EveryNumber(p, HandshakeReply(world, b))
  {
    hide IsUtf8, BinaryVersionKey, BindingKey, CapabilitiesKey, ProtocolVersionKey, BridgeCapabilities, BindingJson;
    BindingNumbers(b, p);
    assert EveryNumber(p, Whole(PROTOCOL_VERSION)) && EveryNumber(p, Capabilities());
    hide Capabilities, Whole;
    var e := HandshakeReply(world, b).entries;
    assert forall i | 0 <= i < |e| :: EveryNumber(p, e[i].value);
  }

  lemma ReplyBinding(world: World, b: Binding)
    ensures Get(HandshakeReply(world, b), BindingKey()) == Some(BindingJson(b))
  {
    hide IsUtf8;
    HandshakeReplyKeys();
    hide BinaryVersionKey, BindingKey, CapabilitiesKey, ProtocolVersionKey, BindingJson, Capabilities, ShutdownMethod, Whole;
    LookupAt(HandshakeReply(world, b).entries, 1);
  }

  /** When the client takes the handshake's answer for a result, the binding it finds
      there is the server's, field by field. */
  lemma ClientLearnsBinding(world: World, client: Reader, r: Request, b: Binding)
    requires ReadsCompactText(client) && BindingFits(b)
    ensures var result := ExpectedResult(world, client, Served(r, HandshakeDone(b)));
            result.Some? ==> Get(result.value, BindingKey()) == Some(BindingJson(b))
  {
    hide HandshakeReply, BindingKey, BindingJson, Readable, Response, Encode, EveryNumber, Respelled, Get;
    ReplyNumbers(world, b, OwnSpelling(client.respell));
    OwnSpellingInRange(client.respell, HandshakeReply(world, b));
    RespelledFixed(client.respell, HandshakeReply(world, b));
    ReplyBinding(world, b);
  }

  // --- Which offers are acceptable ---------------------------------------------------------

  predicate IsIdentifier(t: Text) {
    1 <= |t| <= 256 && !HasControl(t)
  }

  predicate IsPid(n: nat) {
    0 < n < 0x1_0000_0000
  }

  lemma OfferKeysAreKnown(o: Offer)
    ensures OnlyKeys(HandshakeParams(o).entries, HandshakeKeys())
  {
    hide IsUtf8, AppStateRootKey, ChildPidKey, ParentPidKey, ParentStartMarkerKey, ProcessGenerationKey, ProjectRootKey,
         SessionSecretKey, Whole;
    var k := HandshakeKeys();
    assert k[0] == SessionSecretKey() && k[1] == ParentPidKey() && k[2] == ParentStartMarkerKey() && k[3] == ChildPidKey()
        && k[4] == ProcessGenerationKey() && k[5] == ProjectRootKey() && k[6] == AppStateRootKey();
  }

  lemma IdentifierGiven(params: Json, key: Text, text: Utf8)
    requires Get(params, key) == Some(String(text))
    ensures HasIdentifier(params, key) <==> IsIdentifier(text)
    ensures AsString(Get(params, key)) == Some(text)
    ensures HasString(params, key, 64) <==> 0 < |text| <= 64
  {
    hide IsUtf8, HasControl, Get;
  }

  lemma PidOffered(params: Json, key: Text, n: u64, pid: nat)
    requires Get(params, key) == Some(Whole(n))
    ensures HasPid(params, key, pid) <==> n == pid && IsPid(pid)
  {
    WholeIsU64(n);
    hide IsUtf8, Whole, Get, AsU64;
  }

  /** The offers that a bridge can take, in their own terms: a secret of 64 hexadecimal
      digits, the process ids of the two processes, markers and roots of 1 to 256 bytes
      without control characters, and the bridge's own roots. */
  lemma OfferIsAcceptable(world: World, o: Offer)
    ensures Acceptable(world, 0, HandshakeParams(o)) <==>
            && |o.secret| == 64 && AllHex(o.secret)
            && o.parentPid == world.parentProcessId(0) && IsPid(o.parentPid)
            && o.childPid == world.processId && IsPid(o.childPid)
            && IsIdentifier(o.parentStartMarker) && IsIdentifier(o.processGeneration)
            && IsIdentifier(o.projectRoot) && IsIdentifier(o.appStateRoot)
            && o.projectRoot == world.projectRoot && o.appStateRoot == world.appStateRoot
            && world.sandboxed(0) && (world.fixtureMode || world.parentSigned(0, world.parentProcessId(0)))
  {
    hide IsUtf8, HandshakeParams, HasIdentifier, IsIdentifier, HasPid, HasString, Get, AllHex, OnlyKeys, HandshakeKeys,
         AsString, AppStateRootKey, ChildPidKey, ParentPidKey, ParentStartMarkerKey, ProcessGenerationKey, ProjectRootKey,
         SessionSecretKey, Whole;
    var p := HandshakeParams(o);
    OfferIsObject(o);
    OfferKeysAreKnown(o);
    OfferFields(o);
    PidOffered(p, ParentPidKey(), o.parentPid, world.parentProcessId(0));
    PidOffered(p, ChildPidKey(), o.childPid, world.processId);
    IdentifierGiven(p, SessionSecretKey(), o.secret);
    IdentifierGiven(p, ParentStartMarkerKey(), o.parentStartMarker);
    IdentifierGiven(p, ProcessGenerationKey(), o.processGeneration);
    IdentifierGiven(p, ProjectRootKey(), o.projectRoot);
    IdentifierGiven(p, AppStateRootKey(), o.appStateRoot);
  }
}
