/** Whole runs of the bridge: `run_with_io` of desktop_bridge.rs.

    A run is a trace of steps, one per frame.  The imperative loop is proved to
    write exactly the responses of the trace; the safety results speak of every
    trace, over every input and every `World`. */
module BridgeRun {
  import opened Bytes
  import opened CanonicalJson
  import opened JsonText
  import opened JsonReader
  import opened BridgeFrames
  import opened BridgeProtocol
  import opened BridgeSession
  import opened ReplayWindow

  // --- Responses ----------------------------------------------------------

  function ParseFailureCode(f: ParseFailure): Utf8 {
    match f
    case MalformedRequest => Ascii("malformed-request")
    case UnknownRequestField => Ascii("unknown-request-field")
    case MissingRequestId => Ascii("missing-request-id")
    case InvalidRequestId => Ascii("invalid-request-id")
    case UnsupportedProtocolVersion => Ascii("unsupported-protocol-version")
    case InvalidMethod => Ascii("invalid-method")
    case InvalidParams => Ascii("invalid-params")
    case InvalidBridgeAuth => Ascii("invalid-bridge-auth")
  }

  function RefusalCode(r: Refusal): Utf8 {
    match r
    case BadParams => Ascii("invalid-params")
    case UnknownParameter => Ascii("unknown-parameter")
    case HandshakeAlreadyComplete => Ascii("bridge-handshake-already-complete")
    case InvalidSessionSecret => Ascii("invalid-bridge-session-secret")
    case InvalidParent => Ascii("invalid-bridge-parent")
    case InvalidChild => Ascii("invalid-bridge-child")
    case InvalidBinding => Ascii("invalid-bridge-binding")
    case RootMismatch => Ascii("bridge-root-mismatch")
    case SandboxRefused => Ascii("bridge-sandbox-refused")
    case ProcessMismatch => Ascii("bridge-process-mismatch")
    case SigningRefused => Ascii("bridge-signing-identity-mismatch")
    case HandshakeRequired => Ascii("bridge-handshake-required")
    case AuthRequired => Ascii("bridge-auth-required")
    case BindingMismatch => Ascii("bridge-binding-mismatch")
    case SequenceOverflow => Ascii("bridge-sequence-overflow")
    case SequenceMismatch => Ascii("bridge-sequence-mismatch")
    case InvalidRequestAuth => Ascii("invalid-bridge-request-auth")
    case AuthenticationFailed => Ascii("bridge-authentication-failed")
  }

  function FrameTooLargeCode(): Utf8 { Ascii("frame-too-large") }
  function DuplicateRequestIdCode(): Utf8 { Ascii("duplicate-request-id") }
  function ResponseTooLargeCode(): Utf8 { Ascii("response-too-large") }

  function IdJson(id: Option<Utf8>): Json {
    if id.Some? then String(id.value) else Null
  }

  function ErrorResponse(id: Option<Utf8>, code: Utf8): Json {
    Object([
      Entry(ErrorKey(), Object([Entry(CodeKey(), String(code))])),
      Entry(IdKey(), IdJson(id)),
      Entry(VersionKey(), Whole(PROTOCOL_VERSION))])
  }

  function ResultResponse(id: Utf8, result: Json): Json {
    Object([Entry(IdKey(), String(id)), Entry(ResultKey(), result), Entry(VersionKey(), Whole(PROTOCOL_VERSION))])
  }

  function BindingJson(b: Binding): Json {
    Object([
      Entry(AppStateRootKey(), String(b.appStateRoot)), Entry(ChildPidKey(), Whole(b.childPid)),
      Entry(ChildStartMarkerKey(), String(b.childStartMarker)), Entry(ParentPidKey(), Whole(b.parentPid)),
      Entry(ParentStartMarkerKey(), String(b.parentStartMarker)),
      Entry(ProcessGenerationKey(), String(b.processGeneration)), Entry(ProjectRootKey(), String(b.projectRoot))])
  }

  function BinaryVersionKey(): Utf8 { Ascii("binaryVersion") }
  function BindingKey(): Utf8 { Ascii("binding") }
  function CapabilitiesKey(): Utf8 { Ascii("capabilities") }
  function ProtocolVersionKey(): Utf8 { Ascii("protocolVersion") }

  function Capabilities(): Json {
    var names := BridgeCapabilities();
    Array(seq(|names|, i requires 0 <= i < |names| => String(names[i])))
  }

  function HandshakeReply(world: World, b: Binding): Json {
    Object([
      Entry(BinaryVersionKey(), String(world.binaryVersion)), Entry(BindingKey(), BindingJson(b)),
      Entry(CapabilitiesKey(), Capabilities()), Entry(ProtocolVersionKey(), Whole(PROTOCOL_VERSION))])
  }

  function OutcomeResponse(world: World, id: Utf8, o: Outcome): Json {
    match o
    case HandshakeDone(b) => ResultResponse(id, HandshakeReply(world, b))
    case HandshakeRefused(r) => ErrorResponse(Some(id), RefusalCode(r))
    case NotAuthenticated(r) => ErrorResponse(Some(id), RefusalCode(r))
    case Dispatched(Succeeded(result)) => ResultResponse(id, result)
    case Dispatched(Failed(code)) => ErrorResponse(Some(id), code)
  }

  // --- One frame ----------------------------------------------------------

  datatype Server = Server(session: Session, seen: seq<Text>)

  datatype Event =
    | TooLarge
    | Unreadable(id: Option<Utf8>, failure: ParseFailure)
    | Replayed(repeated: Utf8)
    | Served(request: Request, outcome: Outcome)

  datatype Step = Step(before: Server, event: Event, after: Server)

  /** `seen` is every id recorded so far; only the window of it is refused. */
  function ServeFrame(world: World, n: nat, server: Server, frame: ReadResult): Step {
    if !frame.Complete? then Step(server, TooLarge, server)
    else
      match ParseRequest(world.reader.parse(frame.bytes))
      case Rejected(id, failure) => Step(server, Unreadable(id, failure), server)
      case Accepted(request) =>
        if request.id in Window(server.seen) then Step(server, Replayed(request.id), server)
        else
          var answer := HandleRequest(world, n, server.session, request);
          Step(server, Served(request, answer.outcome), Server(answer.session, server.seen + [request.id]))
  }

  function Response(world: World, e: Event): Json {
    match e
    case TooLarge => ErrorResponse(None, FrameTooLargeCode())
    case Unreadable(id, failure) => ErrorResponse(id, ParseFailureCode(failure))
    case Replayed(id) => ErrorResponse(Some(id), DuplicateRequestIdCode())
    case Served(request, outcome) => OutcomeResponse(world, request.id, outcome)
  }

  predicate ShutsDown(response: Json) {
    var result := Get(response, ResultKey());
    result.Some? && Get(result.value, ShutdownMethod()) == Some(Bool(true))
  }

  /** The steps of a run, up to and including the one that shuts down. */
  function Trace(world: World, n: nat, server: Server, frames: seq<ReadResult>): seq<Step>
    decreases |frames|
  {
    if frames == [] then []
    else
      var step := ServeFrame(world, n, server, frames[0]);
      if ShutsDown(Response(world, step.event)) then [step]
      else [step] + Trace(world, n + 1, step.after, frames[1..])
  }

  /** What `write_response` writes: a bounded line, or a stand-in error. */
  function ResponseLine(response: Json): Text {
    var encoded := Encode(response);
    if |encoded| > MAX_FRAME_BYTES then
      Encode(ErrorResponse(AsString(Get(response, IdKey())), ResponseTooLargeCode())) + [LF]
    else encoded + [LF]
  }

  function Written(world: World, trace: seq<Step>): Text {
    if trace == [] then [] else ResponseLine(Response(world, trace[0].event)) + Written(world, trace[1..])
  }

  // --- Safety of every run ------------------------------------------------

  ghost predicate SoundServer(server: Server) {
    Sound(server.session) && Fresh(server.seen)
  }

  ghost predicate HandshakeStep(s: Step) {
    s.event.Served? && s.event.outcome.HandshakeDone?
  }

  ghost predicate DispatchStep(s: Step) {
    s.event.Served? && s.event.outcome.Dispatched?
  }

  /** What holds of a single step. */
  ghost predicate SafeStep(s: Step) {
    var before, after := s.before.session, s.after.session;
    && SoundServer(s.before) && SoundServer(s.after)
    && (!s.event.Served? ==> s.after == s.before)
    && (HandshakeStep(s) ==> before.binding.None? && after.binding == Some(s.event.outcome.binding))
    && (!HandshakeStep(s) ==> after.binding == before.binding)
    && (DispatchStep(s) ==>
          before.binding.Some? && s.event.request.auth.Some?
          && s.event.request.auth.value.sequence == after.counter == before.counter + 1)
    && (!DispatchStep(s) ==> after.counter == before.counter)
    && (s.event.Served? ==>
          s.event.request.id !in Window(s.before.seen) && s.after.seen == s.before.seen + [s.event.request.id])
  }

  lemma {:induction false} ServeFrameIsSafe(world: World, n: nat, server: Server, frame: ReadResult)
    requires SoundServer(server)
    ensures SafeStep(ServeFrame(world, n, server, frame)) && ServeFrame(world, n, server, frame).before == server
  {
    hide IsUtf8, HandleRequest, ParseRequest;
    var step := ServeFrame(world, n, server, frame);
    if step.event.Served? {
      OneRequest(world, n, server.session, step.event.request);
      FreshExtended(server.seen, step.event.request.id);
    }
  }

  ghost predicate SafeTrace(trace: seq<Step>) {
    && (forall i | 0 <= i < |trace| :: SafeStep(trace[i]))
    && (forall i | 0 < i < |trace| :: trace[i].before == trace[i - 1].after)
  }

  lemma {:induction false} TraceIsSafe(world: World, n: nat, server: Server, frames: seq<ReadResult>)
    requires SoundServer(server)
    ensures SafeTrace(Trace(world, n, server, frames))
    ensures Trace(world, n, server, frames) != [] ==> Trace(world, n, server, frames)[0].before == server
    decreases |frames|
  {
    hide ServeFrame, SafeStep, Response, ShutsDown, SoundServer;
    if frames != [] {
      var step := ServeFrame(world, n, server, frames[0]);
      ServeFrameIsSafe(world, n, server, frames[0]);
      if !ShutsDown(Response(world, step.event)) {
        SafeStepEnds(step);
        TraceIsSafe(world, n + 1, step.after, frames[1..]);
      }
    }
  }

  lemma SafeStepEnds(s: Step)
    requires SafeStep(s)
    ensures SoundServer(s.after)
  {}

  /** Once fixed, the binding is the same ever after. */
  lemma {:induction false} BindingIsFixed(trace: seq<Step>, i: nat, j: nat)
    requires SafeTrace(trace) && i <= j < |trace| && trace[i].after.session.binding.Some?
    ensures trace[j].after.session.binding == trace[i].after.session.binding
    decreases j
  {
    if i < j { BindingIsFixed(trace, i, j - 1); }
  }

  /** At most one handshake succeeds in a run. */
  lemma HandshakeHappensOnce(trace: seq<Step>, i: nat, j: nat)
    requires SafeTrace(trace) && i < j < |trace| && HandshakeStep(trace[i])
    ensures !HandshakeStep(trace[j])
  {
    BindingIsFixed(trace, i, j - 1);
  }

  /** A handler runs only after a handshake of this run, under its binding. */
  lemma {:induction false} BindingComesFromHandshake(trace: seq<Step>, j: nat)
    requires SafeTrace(trace) && trace != [] && trace[0].before.session.binding.None?
    requires j < |trace| && trace[j].before.session.binding.Some?
    ensures BoundBefore(trace, j)
    decreases j
  {
    if HandshakeStep(trace[j - 1]) {
      assert trace[j - 1].after == trace[j].before;
    } else {
      BindingComesFromHandshake(trace, j - 1);
    }
  }

  /** The sequence numbers of the dispatched requests, in order. */
  function Sequences(trace: seq<Step>): seq<nat> {
    if trace == [] then []
    else
      var last := trace[|trace| - 1];
      Sequences(trace[..|trace| - 1]) +
      (if last.event.Served? && last.event.outcome.Dispatched? && last.event.request.auth.Some?
       then [last.event.request.auth.value.sequence as nat] else [])
  }

  /** They count up by one from where the run started, and the counter is the
      last of them: it never skips, repeats or wraps. */
  lemma {:induction false} SequencesCount(trace: seq<Step>)
    requires SafeTrace(trace) && trace != []
    ensures var first := trace[0].before.session.counter;
            var numbers := Sequences(trace);
            && trace[|trace| - 1].after.session.counter == first + |numbers| <= MAX_U64
            && forall k | 0 <= k < |numbers| :: numbers[k] == first + 1 + k
    decreases |trace|
  {
    var rest := trace[..|trace| - 1];
    if rest == [] {
      assert Sequences(rest) == [];
    } else {
      SequencesCount(rest);
      assert trace[|trace| - 1].before == rest[|rest| - 1].after;
    }
  }

  /** Requests served under equal ids are more than a window apart. */
  lemma {:induction false} SeenGrows(trace: seq<Step>, i: nat, j: nat)
    requires SafeTrace(trace) && i <= j < |trace|
    ensures trace[i].after.seen <= trace[j].after.seen
    decreases j
  {
    if i < j {
      SeenGrows(trace, i, j - 1);
      assert trace[j].before.seen <= trace[j].after.seen;
    }
  }

  lemma ReplaysAreFarApart(trace: seq<Step>, i: nat, j: nat)
    requires SafeTrace(trace) && i < j < |trace| && trace[i].event.Served? && trace[j].event.Served?
    requires trace[i].event.request.id == trace[j].event.request.id
    ensures |trace[j].before.seen| - |trace[i].before.seen| > MAX_SEEN_REQUEST_IDS
  {
    SeenGrows(trace, i, j - 1);
    var history := trace[j].after.seen;
    var a, b := |trace[i].before.seen|, |trace[j].before.seen|;
    assert trace[i].after.seen <= trace[j].before.seen;
    assert history[a] == trace[i].event.request.id && history[b] == trace[j].event.request.id;
    RepeatsAreFarApart(history, a, b);
  }

  /** Safety of a whole run from a fresh start. */
  ghost predicate SafeRun(trace: seq<Step>) {
    // The binding is set at most once and never changes.
    && (forall i, j | 0 <= i < j < |trace| && HandshakeStep(trace[i]) :: !HandshakeStep(trace[j]))
    && (forall i, j | 0 <= i <= j < |trace| && trace[i].after.session.binding.Some? ::
          trace[j].after.session.binding == trace[i].after.session.binding)
    // No handler runs without it.
    && (forall j | 0 <= j < |trace| && DispatchStep(trace[j]) :: BoundBefore(trace, j))
    // The dispatched sequence numbers are 1, 2, ..., and the counter is their count.
    && (forall k | 0 <= k < |Sequences(trace)| :: Sequences(trace)[k] == k + 1)
    && (trace != [] ==> trace[|trace| - 1].after.session.counter == |Sequences(trace)| <= MAX_U64)
    // Whatever is not dispatched leaves the counter alone.
    && (forall i | 0 <= i < |trace| && !DispatchStep(trace[i]) ::
          trace[i].after.session.counter == trace[i].before.session.counter)
    // Equal ids are served more than a window of recorded ids apart.
    && (forall i, j | 0 <= i < j < |trace| && trace[i].event.Served? && trace[j].event.Served?
                      && trace[i].event.request.id == trace[j].event.request.id ::
          |trace[j].before.seen| - |trace[i].before.seen| > MAX_SEEN_REQUEST_IDS)
  }

  /** An earlier handshake fixed the binding step `j` runs under. */
  ghost predicate BoundBefore(trace: seq<Step>, j: nat)
    requires j < |trace|
  {
    exists i :: 0 <= i < j && HandshakeStep(trace[i])
                && trace[j].before.session.binding == Some(trace[i].event.outcome.binding)
  }

  /** The safety theorem: every input, every world. */
  lemma {:induction false} EveryRunIsSafe(world: World, store: Store, input: Text)
    ensures SafeRun(Trace(world, 0, Server(NewSession(store), []), AllFrames(input)))
  {
    assert SoundServer(Server(NewSession(store), []));
    hide *;
    TraceIsSafe(world, 0, Server(NewSession(store), []), AllFrames(input));
    RunIsSafe(Trace(world, 0, Server(NewSession(store), []), AllFrames(input)), store);
  }

  lemma RunIsSafe(trace: seq<Step>, store: Store)
    requires SafeTrace(trace) && (trace != [] ==> trace[0].before == Server(NewSession(store), []))
    ensures SafeRun(trace)
  {
    forall i, j | 0 <= i < j < |trace| && HandshakeStep(trace[i]) ensures !HandshakeStep(trace[j]) {
      HandshakeHappensOnce(trace, i, j);
    }
    forall i, j | 0 <= i <= j < |trace| && trace[i].after.session.binding.Some?
      ensures trace[j].after.session.binding == trace[i].after.session.binding
    {
      BindingIsFixed(trace, i, j);
    }
    forall j | 0 <= j < |trace| && DispatchStep(trace[j]) ensures BoundBefore(trace, j) {
      BindingComesFromHandshake(trace, j);
    }
    if trace != [] { SequencesCount(trace); }
    forall i, j | 0 <= i < j < |trace| && trace[i].event.Served? && trace[j].event.Served?
                  && trace[i].event.request.id == trace[j].event.request.id
      ensures |trace[j].before.seen| - |trace[i].before.seen| > MAX_SEEN_REQUEST_IDS
    {
      ReplaysAreFarApart(trace, i, j);
    }
  }

  // --- The loop -----------------------------------------------------------

  class Output {
    var written: Text

    constructor ()
      ensures written == []
    {
      written := [];
    }

    method WriteAll(bytes: Text)
      modifies this
      ensures written == old(written) + bytes
    {
      written := written + bytes;
    }
  }

  method WriteResponse(output: Output, response: Json)
    modifies output
    ensures output.written == old(output.written) + ResponseLine(response)
  {
    var encoded := Encode(response);
    if |encoded| > MAX_FRAME_BYTES {
      output.WriteAll(Encode(ErrorResponse(AsString(Get(response, IdKey())), ResponseTooLargeCode())));
    } else {
      output.WriteAll(encoded);
    }
    output.WriteAll([LF]);
  }

  lemma WrittenStep(world: World, step: Step, more: seq<Step>)
    ensures Written(world, [step] + more) == ResponseLine(Response(world, step.event)) + Written(world, more)
  {
    hide ResponseLine, Response;
    assert ([step] + more)[1..] == more;
  }

  /** One turn of the loop after a frame was read. */
  method RespondTo(state: DesktopBridgeState, seen: RecentRequestIds, n: nat, frame: ReadResult)
    returns (event: Event)
    requires seen.Valid() && !frame.EndOfInput?
    modifies state, seen
    ensures seen.Valid()
    ensures Step(Server(old(state.State()), old(seen.history)), event, Server(state.State(), seen.history))
         == ServeFrame(state.world, n, Server(old(state.State()), old(seen.history)), frame)
  {
    hide HandleRequest, ParseRequest;
    if frame.Oversized? {
      return TooLarge;
    }
    var parsed := ParseRequest(state.world.reader.parse(frame.bytes));
    if parsed.Rejected? {
      return Unreadable(parsed.id, parsed.failure);
    }
    var recorded := seen.Record(parsed.request.id);
    if !recorded {
      return Replayed(parsed.request.id);
    }
    var outcome := state.Handle(n, parsed.request);
    return Served(parsed.request, outcome);
  }

  /** What a run still has to write. */
  ghost function ToWrite(world: World, n: nat, server: Server, unread: Text): Text {
    Written(world, Trace(world, n, server, AllFrames(unread)))
  }

  lemma ToWriteMeaning(world: World, n: nat, server: Server, unread: Text)
    ensures ToWrite(world, n, server, unread) == Written(world, Trace(world, n, server, AllFrames(unread)))
  {}

  lemma {:induction false} ToWriteStep(world: World, n: nat, server: Server, unread: Text)
    requires unread != []
    ensures var step := ServeFrame(world, n, server, NextFrame(unread));
            var response := Response(world, step.event);
            ToWrite(world, n, server, unread) ==
            ResponseLine(response) +
            (if ShutsDown(response) then [] else ToWrite(world, n + 1, step.after, AfterFrame(unread)))
  {
    hide ServeFrame, ResponseLine, Response, ShutsDown, NextFrame;
    var frames := AllFrames(unread);
    assert frames[0] == NextFrame(unread) && frames[1..] == AllFrames(AfterFrame(unread));
    var step := ServeFrame(world, n, server, frames[0]);
    WrittenStep(world, step,
      if ShutsDown(Response(world, step.event)) then [] else Trace(world, n + 1, step.after, frames[1..]));
    assert [step] + [] == [step];
  }

  /** One turn of the loop: read a frame, answer it, decide whether to go on. */
  method Turn(state: DesktopBridgeState, seen: RecentRequestIds, frame: FrameBuffer,
              input: BufferedInput, output: Output, n: nat)
    returns (more: bool)
    requires input.Valid() && seen.Valid()
    modifies state, seen, frame, input, output
    ensures input.Valid() && seen.Valid()
    ensures old(output.written) +
            ToWrite(state.world, n, Server(old(state.State()), old(seen.history)), old(input.Unread())) ==
            output.written +
            (if more then ToWrite(state.world, n + 1, Server(state.State(), seen.history), input.Unread()) else [])
    ensures more ==> |input.Unread()| < |old(input.Unread())|
  {
    hide ServeFrame, ResponseLine, Response, ShutsDown, ToWrite, NextFrame, AfterFrame;
    ghost var unread, server := input.Unread(), Server(state.State(), seen.history);
    var result := ReadFrame(input, frame);
    if result == EndOfInput {
      NothingToWrite(state.world, n, server, unread);
      return false;
    }
    NothingLeft(unread);
    ToWriteStep(state.world, n, server, unread);
    var event := RespondTo(state, seen, n, result);
    var response := Response(state.world, event);
    WriteResponse(output, response);
    return !ShutsDown(response);
  }

  lemma NothingLeft(unread: Text)
    ensures NextFrame(unread) == EndOfInput <==> unread == []
    ensures unread != [] ==> |AfterFrame(unread)| < |unread|
  {}

  lemma NothingToWrite(world: World, n: nat, server: Server, unread: Text)
    requires NextFrame(unread) == EndOfInput
    ensures ToWrite(world, n, server, unread) == []
  {
    hide ServeFrame, ResponseLine, Response, ShutsDown;
  }

  /** `run_with_io`: however the input is delivered, the output is the responses
      of the trace over the input's frames. */
  method RunWithIo(world: World, store: Store, input: BufferedInput, output: Output)
    requires input.Valid() && output.written == []
    modifies input, output
    ensures output.written ==
            Written(world, Trace(world, 0, Server(NewSession(store), []), AllFrames(old(input.Unread()))))
  {
    hide *;
    var state := new DesktopBridgeState(world, store);
    var seen := new RecentRequestIds();
    var frame := new FrameBuffer();
    ghost var goal := ToWrite(world, 0, Server(NewSession(store), []), input.Unread());
    ToWriteMeaning(world, 0, Server(NewSession(store), []), input.Unread());
    assert goal == output.written + goal;
    var n := 0;
    var more := true;
    while more
      invariant input.Valid() && seen.Valid() && state.world == world
      invariant goal == output.written +
                (if more then ToWrite(world, n, Server(state.State(), seen.history), input.Unread()) else [])
      decreases more, |input.Unread()|
    {
      more := Turn(state, seen, frame, input, output, n);
      n := n + 1;
    }
  }
}
