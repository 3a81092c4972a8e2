/** The session state machine of desktop_bridge.rs.

    What the bridge cannot decide itself comes from a `World`: the digest, the
    JSON parser, the clock, the process and signing checks, and the handlers.
    All of them may answer differently at every step; a handler sees and changes
    only the `Store`, never the binding or the sequence counter. */
module BridgeSession {
  import opened Bytes
  import opened Encoders
  import opened CanonicalJson
  import opened JsonText
  import opened JsonReader
  import opened RequestTags
  import opened BridgeProtocol

  type i64 = n: int | -0x8000_0000_0000_0000 <= n < 0x8000_0000_0000_0000

  /** Seconds since the epoch, as the clock reports them. */
  type Unix = n: int | 0 <= n < 0x8000_0000_0000_0000

  const MAX_REVIEWED_CONTROL_PLANS := 32
  const REVIEWED_PLAN_TTL_SECONDS := 15 * 60
  const MAX_U64 := 0xFFFF_FFFF_FFFF_FFFF

  // --- Reviewed plans -----------------------------------------------------

  datatype Review = Review(reviewedAt: i64, plan: Json)

  datatype Store = Store(
    groups: map<Text, Review>, agentPlugins: map<Text, Review>, restores: map<Text, Review>,
    definitions: map<Text, Review>, workflowLaunches: map<Text, Review>, other: Json)

  function SaturatingSub(a: i64, b: i64): (d: i64)
    ensures d == if a - b > 0x7FFF_FFFF_FFFF_FFFF then 0x7FFF_FFFF_FFFF_FFFF
                 else if a - b < -0x8000_0000_0000_0000 then -0x8000_0000_0000_0000 else a - b
  {
    if a - b > 0x7FFF_FFFF_FFFF_FFFF then 0x7FFF_FFFF_FFFF_FFFF
    else if a - b < -0x8000_0000_0000_0000 then -0x8000_0000_0000_0000
    else a - b
  }

  predicate Expired(reviewedAt: i64, now: i64) {
    SaturatingSub(now, reviewedAt) > REVIEWED_PLAN_TTL_SECONDS
  }

  /** Saturation never matters to expiry: it is the plain age that counts. */
  lemma ExpiredIsAge(reviewedAt: i64, now: i64)
    ensures Expired(reviewedAt, now) <==> now - reviewedAt > REVIEWED_PLAN_TTL_SECONDS
  {}

  function Unexpired(plans: map<Text, Review>, now: i64): (kept: map<Text, Review>)
    ensures forall k :: k in kept <==> k in plans && !Expired(plans[k].reviewedAt, now)
    ensures forall k | k in kept :: kept[k] == plans[k]
  {
    map k | k in plans && !Expired(plans[k].reviewedAt, now) :: plans[k]
  }

  function Pruned(s: Store, now: i64): Store {
    Store(Unexpired(s.groups, now), Unexpired(s.agentPlugins, now), Unexpired(s.restores, now),
          Unexpired(s.definitions, now), Unexpired(s.workflowLaunches, now), s.other)
  }

  ghost predicate NothingExpired(s: Store, now: i64) {
    && (forall k | k in s.groups :: now - s.groups[k].reviewedAt <= REVIEWED_PLAN_TTL_SECONDS)
    && (forall k | k in s.agentPlugins :: now - s.agentPlugins[k].reviewedAt <= REVIEWED_PLAN_TTL_SECONDS)
    && (forall k | k in s.restores :: now - s.restores[k].reviewedAt <= REVIEWED_PLAN_TTL_SECONDS)
    && (forall k | k in s.definitions :: now - s.definitions[k].reviewedAt <= REVIEWED_PLAN_TTL_SECONDS)
    && (forall k | k in s.workflowLaunches :: now - s.workflowLaunches[k].reviewedAt <= REVIEWED_PLAN_TTL_SECONDS)
  }

  predicate HasReviewedPlanCapacity(plans: map<Text, Review>, operationId: Text) {
    operationId in plans || |plans| < MAX_REVIEWED_CONTROL_PLANS
  }

  /** Guarded by the capacity check, storing a plan keeps the bound; unguarded
      it breaks it exactly when the check says so. */
  lemma CapacityKeepsBound(plans: map<Text, Review>, operationId: Text, review: Review)
    requires |plans| <= 32
    ensures |plans[operationId := review]| <= 32 <==>
            HasReviewedPlanCapacity(plans, operationId)
  {
    if operationId in plans {
      assert plans[operationId := review].Keys == plans.Keys;
    } else {
      assert plans[operationId := review].Keys == plans.Keys + {operationId};
    }
  }

  // --- The world ----------------------------------------------------------

  datatype HandlerResult = Succeeded(result: Json) | Failed(code: Utf8)

  datatype Handled = Handled(store: Store, result: HandlerResult)

  datatype World = World(
    sha: Sha256,
    reader: Reader,
    now: nat -> Unix,
    processId: nat,
    parentProcessId: nat -> nat,
    projectRoot: Utf8,
    appStateRoot: Utf8,
    fixtureMode: bool,
    binaryVersion: Utf8,
    sandboxed: nat -> bool,
    parentSigned: (nat, nat) -> bool,
    handle: (nat, Text, Json, Store) -> Handled)

  datatype Binding = Binding(
    sessionSecret: Text, parentPid: nat, parentStartMarker: Utf8, childPid: nat, childStartMarker: Utf8,
    projectRoot: Utf8, appStateRoot: Utf8, processGeneration: Utf8)

  datatype Session = Session(binding: Option<Binding>, counter: u64, store: Store)

  function NewSession(store: Store): Session {
    Session(None, 0, store)
  }

  datatype Refusal =
    | BadParams | UnknownParameter | HandshakeAlreadyComplete | InvalidSessionSecret
    | InvalidParent | InvalidChild | InvalidBinding | RootMismatch | SandboxRefused
    | ProcessMismatch | SigningRefused
    | HandshakeRequired | AuthRequired | BindingMismatch | SequenceOverflow | SequenceMismatch
    | InvalidRequestAuth | AuthenticationFailed

  datatype Check<+T> = Fine(value: T) | Refused(refusal: Refusal) {
    predicate IsFailure() {
      Refused?
    }

    function PropagateFailure<U>(): Check<U>
      requires Refused?
    {
      Refused(refusal)
    }

    function Extract(): T
      requires Fine?
    {
      value
    }
  }

  datatype Gate = Pass | Blocked(refusal: Refusal) {
    predicate IsFailure() {
      Blocked?
    }

    function PropagateFailure<U>(): Check<U>
      requires Blocked?
    {
      Refused(refusal)
    }
  }

  function Need(condition: bool, refusal: Refusal): Gate {
    if condition then Pass else Blocked(refusal)
  }

  function Given<T>(value: Option<T>, refusal: Refusal): Check<T> {
    if value.Some? then Fine(value.value) else Refused(refusal)
  }

  // --- The handshake ------------------------------------------------------

  function SessionSecretKey(): Utf8 { Ascii("sessionSecret") }

  function HandshakeKeys(): seq<Text> {
    [SessionSecretKey(), ParentPidKey(), ParentStartMarkerKey(), ChildPidKey(), ProcessGenerationKey(),
     ProjectRootKey(), AppStateRootKey()]
  }

  function RequiredString(params: Json, key: Text): Check<Utf8> {
    var text := AsString(Get(params, key));
    if text.Some? && text.value != [] && |text.value| <= 1024 then Fine(text.value) else Refused(BadParams)
  }

  function BoundedString(params: Json, key: Text): (c: Check<Utf8>)
    ensures c.Fine? ==> !HasControl(c.value)
  {
    var text :- RequiredString(params, key);
    :- Need(|text| <= MAX_BRIDGE_IDENTIFIER_BYTES && !HasControl(text), InvalidBinding);
    Fine(text)
  }

  function NonZeroPid(params: Json, key: Text, refusal: Refusal): (c: Check<nat>)
    ensures c.Fine? ==> 0 < c.value < 0x1_0000_0000
  {
    var pid :- Given(AsPid(Get(params, key)), refusal);
    :- Need(pid != 0, refusal);
    Fine(pid)
  }

  function LowerCase(t: Text): (l: Text)
    ensures |l| == |t|
    ensures AllHex(t) ==> AllLowerHex(l)
  {
    seq(|t|, i requires 0 <= i < |t| => if 65 <= t[i] <= 90 then t[i] + 32 else t[i])
  }

  predicate AllHex(t: Text) {
    forall i | 0 <= i < |t| :: IsHexDigit(t[i])
  }

  function ChildStartMarker(world: World, secret: Text, childPid: nat, now: Unix): (marker: Utf8)
    ensures IsLowerHexDigest(marker)
  {
    LowerHexRoundTrip(world.sha(JoinNul([Ascii("unpin.desktop.bridge.child.v1"), secret, Decimal(childPid), Decimal(now)])));
    Digest(world.sha, JoinNul([Ascii("unpin.desktop.bridge.child.v1"), secret, Decimal(childPid), Decimal(now)]))
  }

  /** The binding a handshake would fix, or the first check that refuses it. */
  function HandshakeBinding(world: World, n: nat, bound: bool, params: Json): Check<Binding> {
    var entries :- Given(if params.Object? then Some(params.entries) else None, BadParams);
    :- Need(OnlyKeys(entries, HandshakeKeys()), UnknownParameter);
    :- Need(!bound, HandshakeAlreadyComplete);
    var secret :- RequiredString(params, SessionSecretKey());
    :- Need(|secret| == 64 && AllHex(secret), InvalidSessionSecret);
    var parentPid :- NonZeroPid(params, ParentPidKey(), InvalidParent);
    var childPid :- NonZeroPid(params, ChildPidKey(), InvalidChild);
    var parentStart :- BoundedString(params, ParentStartMarkerKey());
    var generation :- BoundedString(params, ProcessGenerationKey());
    var projectRoot :- BoundedString(params, ProjectRootKey());
    var appRoot :- BoundedString(params, AppStateRootKey());
    :- Need(projectRoot == world.projectRoot && appRoot == world.appStateRoot, RootMismatch);
    :- Need(world.sandboxed(n), SandboxRefused);
    :- Need(childPid == world.processId && parentPid == world.parentProcessId(n), ProcessMismatch);
    :- Need(world.fixtureMode || world.parentSigned(n, parentPid), SigningRefused);
    Fine(Binding(LowerCase(secret), parentPid, parentStart, childPid,
                 ChildStartMarker(world, secret, childPid, world.now(n)),
                 projectRoot, appRoot, generation))
  }

  /** A binding only ever names this process, its parent and its own roots, and
      holds a lower-case secret and markers without control characters. */
  ghost predicate SoundBinding(world: World, b: Binding) {
    && IsLowerHexDigest(b.sessionSecret) && IsLowerHexDigest(b.childStartMarker)
    && b.childPid == world.processId && 0 < b.childPid < 0x1_0000_0000 && 0 < b.parentPid < 0x1_0000_0000
    && b.projectRoot == world.projectRoot && b.appStateRoot == world.appStateRoot
    && !HasControl(b.parentStartMarker) && !HasControl(b.processGeneration)
  }

  lemma {:induction false} HandshakeBindingSound(world: World, n: nat, bound: bool, params: Json)
    requires HandshakeBinding(world, n, bound, params).Fine?
    ensures !bound && SoundBinding(world, HandshakeBinding(world, n, bound, params).value)
    ensures HandshakeBinding(world, n, bound, params).value.parentPid == world.parentProcessId(n)
    ensures world.sandboxed(n) && (world.fixtureMode || world.parentSigned(n, world.parentProcessId(n)))
  {
    hide IsUtf8, RequiredString, BoundedString, NonZeroPid, ChildStartMarker, LowerCase, OnlyKeys, HandshakeKeys, HasControl,
         SessionSecretKey, ParentPidKey, ChildPidKey, ParentStartMarkerKey, ProcessGenerationKey, ProjectRootKey,
         AppStateRootKey;
  }

  // --- Authentication -----------------------------------------------------

  /** Rust's fold over zipped bytes; it decides equality. */
  predicate ConstantTimeTextEqual(left: Text, right: Text)
    ensures ConstantTimeTextEqual(left, right) <==> left == right
  {
    |left| == |right| && Difference(left, right) == 0
  }

  function FieldsOf(world: World, secret: Text, r: Request, a: Auth): TagFields {
    TagFields(secret, a.sequence, r.id, r.methodName, a.operationId, a.fingerprint,
              ParamsDigest(world.sha, r.params))
  }

  function RequestTag(world: World, secret: Text, r: Request, a: Auth): Text {
    Digest(world.sha, Preimage(FieldsOf(world, secret, r, a)))
  }

  predicate SameBinding(a: Auth, b: Binding) {
    && a.parentPid == b.parentPid && a.parentStartMarker == b.parentStartMarker
    && a.childPid == b.childPid && a.childStartMarker == b.childStartMarker
    && a.projectRoot == b.projectRoot && a.appStateRoot == b.appStateRoot
    && a.processGeneration == b.processGeneration
  }

  predicate WellFormedAuth(a: Auth) {
    && a.operationId != [] && |a.operationId| <= MAX_BRIDGE_IDENTIFIER_BYTES
    && |a.fingerprint| == 64 && AllHex(a.fingerprint)
    && |a.authTag| == 64 && AllHex(a.authTag)
  }

  /** The next counter value, or the first check that refuses the request. */
  function Authenticated(world: World, s: Session, r: Request): Check<u64> {
    var b :- Given(s.binding, HandshakeRequired);
    var a :- Given(r.auth, AuthRequired);
    :- Need(SameBinding(a, b), BindingMismatch);
    :- Need(s.counter < MAX_U64, SequenceOverflow);
    :- Need(a.sequence == s.counter + 1, SequenceMismatch);
    :- Need(WellFormedAuth(a), InvalidRequestAuth);
    :- Need(ConstantTimeTextEqual(RequestTag(world, b.sessionSecret, r, a), a.authTag), AuthenticationFailed);
    Fine(s.counter + 1)
  }

  // --- One request --------------------------------------------------------

  function HandshakeMethod(): Utf8 { Ascii("handshake") }
  function ShutdownMethod(): Utf8 { Ascii("shutdown") }
  function UnknownMethodCode(): Utf8 { Ascii("unknown-method") }

  const CAPABILITY_COUNT := 28

  function BridgeCapability(i: nat): Utf8
    requires i < CAPABILITY_COUNT
  {
    match i
    case 0 => Ascii("snapshot")
    case 1 => Ascii("group.plan")
    case 2 => Ascii("group.approve")
    case 3 => Ascii("group.apply")
    case 4 => Ascii("group.discard")
    case 5 => Ascii("agentPlugins.inspect")
    case 6 => Ascii("agentPlugins.plan")
    case 7 => Ascii("agentPlugins.approve")
    case 8 => Ascii("agentPlugins.apply")
    case 9 => Ascii("agentPlugins.discard")
    case 10 => Ascii("group.definition.plan")
    case 11 => Ascii("group.definition.apply")
    case 12 => Ascii("group.definition.discard")
    case 13 => Ascii("group.definition.history")
    case 14 => Ascii("recovery.snapshot")
    case 15 => Ascii("restore.plan")
    case 16 => Ascii("restore.approve")
    case 17 => Ascii("restore.apply")
    case 18 => Ascii("restore.discard")
    case 19 => Ascii("workflow.compose")
    case 20 => Ascii("workflow.validate")
    case 21 => Ascii("workflow.propose")
    case 22 => Ascii("workflow.launch")
    case 23 => Ascii("workflow.transition")
    case 24 => Ascii("workflow.observe")
    case 25 => Ascii("workflow.cancel-transition")
    case 26 => Ascii("workflow.status")
    case _ => Ascii("workflow.recovery")
  }

  /** The methods a handler answers. */
  function BridgeCapabilities(): (names: seq<Utf8>)
    ensures |names| == CAPABILITY_COUNT
  {
    seq(CAPABILITY_COUNT, i requires 0 <= i < CAPABILITY_COUNT => BridgeCapability(i))
  }

  datatype Outcome =
    | HandshakeDone(binding: Binding)
    | HandshakeRefused(refusal: Refusal)
    | NotAuthenticated(refusal: Refusal)
    | Dispatched(result: HandlerResult)

  datatype Answer = Answer(session: Session, outcome: Outcome)

  function Dispatch(world: World, n: nat, r: Request, store: Store): Handled {
    if r.methodName == ShutdownMethod() then Handled(store, Succeeded(Object([Entry(ShutdownMethod(), Bool(true))])))
    else if r.methodName in BridgeCapabilities() then world.handle(n, r.methodName, r.params, store)
    else Handled(store, Failed(UnknownMethodCode()))
  }

  function HandleRequest(world: World, n: nat, s: Session, r: Request): Answer {
    var pruned := s.(store := Pruned(s.store, world.now(n)));
    if r.methodName == HandshakeMethod() then
      match HandshakeBinding(world, n, s.binding.Some?, r.params)
      case Refused(refusal) => Answer(pruned, HandshakeRefused(refusal))
      case Fine(binding) => Answer(Session(Some(binding), 0, pruned.store), HandshakeDone(binding))
    else
      match Authenticated(world, pruned, r)
      case Refused(refusal) => Answer(pruned, NotAuthenticated(refusal))
      case Fine(counter) =>
        var handled := Dispatch(world, n, r, pruned.store);
        Answer(Session(s.binding, counter, handled.store), Dispatched(handled.result))
  }

  /** The counter is zero until a binding exists. */
  predicate Sound(s: Session) {
    s.binding.None? ==> s.counter == 0
  }

  /** What one request can do to the binding and the counter. */
  lemma {:induction false} OneRequest(world: World, n: nat, s: Session, r: Request)
    requires Sound(s)
    ensures var a := HandleRequest(world, n, s, r);
            && Sound(a.session)
            && (a.outcome.HandshakeDone? ==>
                  s.binding == None && a.session.binding == Some(a.outcome.binding)
                  && r.methodName == HandshakeMethod() && SoundBinding(world, a.outcome.binding))
            && (!a.outcome.HandshakeDone? ==> a.session.binding == s.binding)
            && (a.outcome.Dispatched? ==>
                  s.binding.Some? && r.auth.Some? && r.auth.value.sequence == s.counter + 1
                  && a.session.counter == s.counter + 1 && SameBinding(r.auth.value, s.binding.value))
            && (!a.outcome.Dispatched? ==> a.session.counter == s.counter)
  {
    hide IsUtf8, HandshakeBinding, Dispatch, RequestTag, WellFormedAuth, Pruned;
    if r.methodName == HandshakeMethod() && HandshakeBinding(world, n, s.binding.Some?, r.params).Fine? {
      HandshakeBindingSound(world, n, s.binding.Some?, r.params);
    }
  }

  lemma AuthenticatedExactly(world: World, s: Session, r: Request)
    ensures Authenticated(world, s, r).Fine? <==>
            && s.binding.Some? && r.auth.Some?
            && SameBinding(r.auth.value, s.binding.value) && WellFormedAuth(r.auth.value)
            && r.auth.value.sequence == s.counter + 1
            && r.auth.value.authTag == RequestTag(world, s.binding.value.sessionSecret, r, r.auth.value)
  {
    hide IsUtf8, RequestTag, WellFormedAuth, SameBinding, ConstantTimeTextEqual;
  }

  /** Exactly the requests that get past every check are dispatched, and their
      tag is the tag of what was received under the session secret. */
  lemma {:induction false} DispatchedExactly(world: World, n: nat, s: Session, r: Request)
    ensures HandleRequest(world, n, s, r).outcome.Dispatched? <==>
            && r.methodName != HandshakeMethod() && s.binding.Some? && r.auth.Some?
            && SameBinding(r.auth.value, s.binding.value) && WellFormedAuth(r.auth.value)
            && r.auth.value.sequence == s.counter + 1
            && r.auth.value.authTag == RequestTag(world, s.binding.value.sessionSecret, r, r.auth.value)
  {
    hide IsUtf8, HandshakeBinding, Dispatch, RequestTag, WellFormedAuth, SameBinding, Pruned, HandshakeMethod,
         Authenticated;
    AuthenticatedExactly(world, s.(store := Pruned(s.store, world.now(n))), r);
  }

  /** No handler ever sees an expired plan, and every younger one survives. */
  lemma {:induction false} PrunedIsFresh(s: Store, now: i64)
    ensures NothingExpired(Pruned(s, now), now)
    ensures NothingExpired(s, now) ==> Pruned(s, now) == s
  {
    if NothingExpired(s, now) {
      assert Unexpired(s.groups, now) == s.groups;
      assert Unexpired(s.agentPlugins, now) == s.agentPlugins;
      assert Unexpired(s.restores, now) == s.restores;
      assert Unexpired(s.definitions, now) == s.definitions;
      assert Unexpired(s.workflowLaunches, now) == s.workflowLaunches;
    }
  }

  // --- The state object ---------------------------------------------------

  class DesktopBridgeState {
    const world: World
    var binding: Option<Binding>
    var nextAuthenticatedSequence: u64
    var reviewedGroups: map<Text, Review>
    var reviewedAgentPlugins: map<Text, Review>
    var reviewedRestores: map<Text, Review>
    var reviewedDefinitions: map<Text, Review>
    var reviewedWorkflowLaunches: map<Text, Review>
    var other: Json

    function Plans(): Store
      reads this
    {
      Store(reviewedGroups, reviewedAgentPlugins, reviewedRestores, reviewedDefinitions,
            reviewedWorkflowLaunches, other)
    }

    function State(): Session
      reads this
    {
      Session(binding, nextAuthenticatedSequence, Plans())
    }

    constructor (world: World, store: Store)
      ensures State() == NewSession(store) && this.world == world
    {
      this.world := world;
      binding, nextAuthenticatedSequence := None, 0;
      reviewedGroups, reviewedAgentPlugins := store.groups, store.agentPlugins;
      reviewedRestores, reviewedDefinitions := store.restores, store.definitions;
      reviewedWorkflowLaunches, other := store.workflowLaunches, store.other;
    }

    method SetPlans(store: Store)
      modifies this
      ensures State() == old(State()).(store := store)
    {
      reviewedGroups, reviewedAgentPlugins := store.groups, store.agentPlugins;
      reviewedRestores, reviewedDefinitions := store.restores, store.definitions;
      reviewedWorkflowLaunches, other := store.workflowLaunches, store.other;
    }

    method PruneExpiredReviewedPlans(now: i64)
      modifies this
      ensures State() == old(State()).(store := Pruned(old(Plans()), now))
    {
      hide Expired;
      reviewedGroups := map k | k in reviewedGroups && !Expired(reviewedGroups[k].reviewedAt, now) :: reviewedGroups[k];
      reviewedAgentPlugins :=
        map k | k in reviewedAgentPlugins && !Expired(reviewedAgentPlugins[k].reviewedAt, now) ::
          reviewedAgentPlugins[k];
      reviewedRestores :=
        map k | k in reviewedRestores && !Expired(reviewedRestores[k].reviewedAt, now) :: reviewedRestores[k];
      reviewedDefinitions :=
        map k | k in reviewedDefinitions && !Expired(reviewedDefinitions[k].reviewedAt, now) :: reviewedDefinitions[k];
      reviewedWorkflowLaunches :=
        map k | k in reviewedWorkflowLaunches && !Expired(reviewedWorkflowLaunches[k].reviewedAt, now) ::
          reviewedWorkflowLaunches[k];
    }

    method HandleHandshake(n: nat, params: Json) returns (result: Check<Binding>)
      modifies this`binding, this`nextAuthenticatedSequence
      ensures result == HandshakeBinding(world, n, old(binding).Some?, params)
      ensures result.Fine? ==> binding == Some(result.value) && nextAuthenticatedSequence == 0
      ensures result.Refused? ==> State() == old(State())
    {
      result := HandshakeBinding(world, n, binding.Some?, params);
      if result.Fine? {
        binding := Some(result.value);
        nextAuthenticatedSequence := 0;
      }
    }

    method AuthenticateRequest(r: Request) returns (result: Gate)
      modifies this`nextAuthenticatedSequence
      ensures match Authenticated(world, old(State()), r)
              case Refused(refusal) => result == Blocked(refusal) && State() == old(State())
              case Fine(counter) => result == Pass && State() == old(State()).(counter := counter)
    {
      hide RequestTag;
      if binding.None? {
        return Blocked(HandshakeRequired);
      }
      if r.auth.None? {
        return Blocked(AuthRequired);
      }
      var b, a := binding.value, r.auth.value;
      if a.parentPid != b.parentPid || a.parentStartMarker != b.parentStartMarker
         || a.childPid != b.childPid || a.childStartMarker != b.childStartMarker
         || a.projectRoot != b.projectRoot || a.appStateRoot != b.appStateRoot
         || a.processGeneration != b.processGeneration {
        return Blocked(BindingMismatch);
      }
      if nextAuthenticatedSequence == MAX_U64 {
        return Blocked(SequenceOverflow);
      }
      var expectedSequence := nextAuthenticatedSequence + 1;
      if a.sequence != expectedSequence {
        return Blocked(SequenceMismatch);
      }
      if a.operationId == [] || |a.operationId| > MAX_BRIDGE_IDENTIFIER_BYTES
         || |a.fingerprint| != 64 || !AllHex(a.fingerprint) || |a.authTag| != 64 || !AllHex(a.authTag) {
        return Blocked(InvalidRequestAuth);
      }
      var expectedTag := RequestTag(world, b.sessionSecret, r, a);
      if !ConstantTimeTextEqual(expectedTag, a.authTag) {
        return Blocked(AuthenticationFailed);
      }
      nextAuthenticatedSequence := expectedSequence;
      return Pass;
    }

    method Handle(n: nat, r: Request) returns (outcome: Outcome)
      modifies this
      ensures Answer(State(), outcome) == HandleRequest(world, n, old(State()), r)
    {
      hide HandshakeBinding, Authenticated, Dispatch, Pruned;
      PruneExpiredReviewedPlans(world.now(n));
      if r.methodName == HandshakeMethod() {
        var result := HandleHandshake(n, r.params);
        return if result.Fine? then HandshakeDone(result.value) else HandshakeRefused(result.refusal);
      }
      var gate := AuthenticateRequest(r);
      if gate.Blocked? {
        return NotAuthenticated(gate.refusal);
      }
      var handled := Dispatch(world, n, r, Plans());
      SetPlans(handled.store);
      return Dispatched(handled.result);
    }
  }
}
