/** The client of scripts/run_authenticated_desktop_bridge_smoke.py, and its
    composition with the bridge: what it sends is authenticated, request by
    request, and what the bridge answers is read back whole. */
module BridgeClient {
  import opened Bytes
  import opened Encoders
  import opened CanonicalJson
  import opened JsonText
  import opened JsonReader
  import opened RequestTags
  import opened BridgeFrames
  import opened BridgeProtocol
  import opened BridgeSession
  import opened BridgeRun
  import opened ReplayWindow

  // --- Building requests --------------------------------------------------

  /** What a caller asks for; the client adds the proof of origin. */
  datatype Draft = Draft(id: Utf8, methodName: Utf8, params: Json)

  function AuthenticatedRequest(sha: Sha256, d: Draft, sequence: u64, b: Binding, secret: Text): Request {
    var paramsDigest := Digest(sha, CanonicalText(d.params));
    var material := JoinNul(
      [TagDomain(), secret, Decimal(sequence), d.id, d.methodName, d.id, paramsDigest, paramsDigest]);
    Request(d.id, d.methodName, d.params, Some(Auth(
      b.parentPid, b.parentStartMarker, b.childPid, b.childStartMarker, b.projectRoot, b.appStateRoot,
      b.processGeneration, sequence, d.id, paramsDigest, Digest(sha, material))))
  }

  function RequestText(r: Request): Text {
    CanonicalText(RequestObject(r))
  }

  ghost predicate DraftIsSendable(d: Draft) {
    && ValidRequestId(d.id) && d.methodName != [] && |d.methodName| <= MAX_METHOD_BYTES
    && d.methodName != HandshakeMethod()
    && d.params.Object? && DistinctKeys(d.params) && Encodable(d.params)
  }

  /** The process ids of a binding are 32-bit, as the handshake made sure. */
  ghost predicate BindingFits(b: Binding) {
    b.parentPid < 0x1_0000_0000 && b.childPid < 0x1_0000_0000
  }

  // --- What arrives -----------------------------------------------------------

  /** The request as the server parses it: the params arrive with their keys
      sorted and their numbers in the server's spelling. */
  function Received(reader: Reader, r: Request): Request {
    r.(params := Respelled(reader.respell, Canonicalize(r.params)))
  }

  lemma CanonicalIsObject(v: Json)
    requires v.Object?
    ensures Canonicalize(v).Object?
  {}

  /** A request that nests too deep, or has a number out of the server's range, is
      malformed to it; any other arrives, with or without authentication. */
  lemma RequestArrives(reader: Reader, r: Request)
    requires ReadsCanonicalText(reader) && Sendable(r)
    ensures ParseRequest(reader.parse(RequestText(r))) ==
            if Readable(reader, RequestObject(r)) then Accepted(Received(reader, r)) else Rejected(None, MalformedRequest)
  {
    var sorted := r.(params := Canonicalize(r.params));
    SortedIsSendable(r);
    CanonicalRequest(r);
    RequestWellFormed(sorted);
    CanonicalIdempotent(RequestObject(r));
    ReadableCanonical(reader, RequestObject(r));
    RequestRespelled(reader.respell, sorted);
    ReceivedIsSendable(reader, r);
    RequestRoundTrip(Received(reader, r));
    ParsesMalformed();
    hide ParseRequest, RequestObject, Sendable, SpellsNumbers, Reads, Encode, Canonicalize, Encodable, DistinctKeys,
         Received, Respelled;
  }

  lemma ParsesMalformed()
    ensures ParseRequest(Malformed) == Rejected(None, MalformedRequest)
  {}

  lemma SortedIsSendable(r: Request)
    requires Sendable(r)
    ensures Sendable(r.(params := Canonicalize(r.params)))
  {
    hide ValidRequestId;
    CanonicalIsObject(r.params);
    CanonicalSame(r.params);
    CanonicalEncodable(r.params);
  }

  lemma ReceivedIsSendable(reader: Reader, r: Request)
    requires Sendable(r) && SpellsNumbers(reader)
    ensures Sendable(Received(reader, r))
  {
    hide ValidRequestId, SpellsNumbers;
    SortedIsSendable(r);
    RespelledDistinct(reader.respell, Canonicalize(r.params));
    RespelledEncodable(reader, Canonicalize(r.params));
  }

  lemma RequestPrints(r: Request)
    requires Sendable(r)
    ensures Printable(RequestText(r))
  {
    SortedIsSendable(r);
    CanonicalRequest(r);
    RequestWellFormed(r.(params := Canonicalize(r.params)));
    EncodePrintable(Canonicalize(RequestObject(r)));
  }

  /** Readability is that of the params, but for the nesting of the whole. */
  lemma ReadableRequest(reader: Reader, r: Request)
    requires SpellsNumbers(reader) && Sendable(r)
    ensures Readable(reader, RequestObject(r)) <==>
            Within(RequestObject(r), reader.depthLimit) && EveryNumber(InRange(reader.respell), r.params)
  {
    RequestNumbers(InRange(reader.respell), r);
  }

  // --- When the tags meet -------------------------------------------------------

  /** The fields the client put into its tag. */
  function ClientFields(sha: Sha256, d: Draft, sequence: u64, secret: Text): TagFields {
    var paramsDigest := Digest(sha, CanonicalText(d.params));
    TagFields(secret, sequence, d.id, d.methodName, d.id, paramsDigest, paramsDigest)
  }

  /** The fields the server puts into the tag it compares with. */
  function ServerFields(world: World, d: Draft, sequence: u64, b: Binding): TagFields {
    ClientFields(world.sha, d, sequence, b.sessionSecret)
      .(paramsDigest := ParamsDigest(world.sha, Respelled(world.reader.respell, d.params)))
  }

  /** Every number of the params is spelled as the server spells it. */
  predicate NumbersKept(world: World, d: Draft) {
    EveryNumber(OwnSpelling(world.reader.respell), d.params)
  }

  /** The two texts a re-spelling makes the digest see, and the two tag materials. */
  ghost predicate ParamsCollide(world: World, d: Draft) {
    Collides(world.sha, CanonicalText(d.params), CanonicalText(Respelled(world.reader.respell, d.params)))
  }

  ghost predicate MaterialsCollide(world: World, d: Draft, sequence: u64, b: Binding, secret: Text) {
    Collides(world.sha, Preimage(ClientFields(world.sha, d, sequence, secret)),
             Preimage(ServerFields(world, d, sequence, b)))
  }

  ghost predicate TagHolds(world: World, d: Draft, sequence: u64, b: Binding, secret: Text) {
    || (secret == b.sessionSecret && (NumbersKept(world, d) || ParamsCollide(world, d)))
    || MaterialsCollide(world, d, sequence, b, secret)
  }

  lemma ReceivedText(world: World, p: Json)
    ensures CanonicalText(Respelled(world.reader.respell, Canonicalize(p))) ==
            CanonicalText(Respelled(world.reader.respell, p))
  {
    RespelledCanonical(world.reader.respell, Canonicalize(p));
    RespelledCanonical(world.reader.respell, p);
    CanonicalIdempotent(p);
  }

  /** The digested texts are equal exactly when no number is re-spelled. */
  lemma TextsAgree(world: World, p: Json)
    requires SpellsNumbers(world.reader) && Encodable(p) && EveryNumber(InRange(world.reader.respell), p)
    ensures CanonicalText(p) == CanonicalText(Respelled(world.reader.respell, p)) <==>
            EveryNumber(OwnSpelling(world.reader.respell), p)
  {
    var respell, c := world.reader.respell, Canonicalize(p);
    RespelledCanonical(respell, p);
    EveryNumberCanonical(InRange(respell), p);
    EveryNumberCanonical(OwnSpelling(respell), p);
    RespelledFixed(respell, c);
    CanonicalEncodable(p);
    RespelledEncodable(world.reader, c);
    hide EveryNumber, Respelled, Canonicalize, Encodable, SpellsNumbers, Encode;
    if Encode(c) == Encode(Respelled(respell, c)) {
      EncodeInjective(c, Respelled(respell, c));
    }
  }

  lemma IdIsNulFree(id: Text)
    requires ValidRequestId(id)
    ensures NulFree(id)
  {}

  lemma FieldsPass(sha: Sha256, d: Draft, sequence: u64, secret: Text)
    requires DraftIsSendable(d) && NulFree(secret)
    ensures PassesChecks(ClientFields(sha, d, sequence, secret))
  {
    hide Digest, CanonicalText;
    IdIsNulFree(d.id);
  }

  /** The materials agree exactly when the secrets do and the digests of the params. */
  lemma MaterialsAgree(world: World, d: Draft, sequence: u64, b: Binding, secret: Text)
    requires DraftIsSendable(d) && NulFree(secret) && NulFree(b.sessionSecret)
    ensures Preimage(ClientFields(world.sha, d, sequence, secret)) == Preimage(ServerFields(world, d, sequence, b)) <==>
            secret == b.sessionSecret && ParamsDigest(world.sha, d.params) ==
                                         ParamsDigest(world.sha, Respelled(world.reader.respell, d.params))
  {
    FieldsPass(world.sha, d, sequence, secret);
    FieldsPass(world.sha, d, sequence, b.sessionSecret);
    hide Digest, CanonicalText, Preimage, DraftIsSendable, Respelled, NulFree;
    PreimagesAgree(ClientFields(world.sha, d, sequence, secret), ServerFields(world, d, sequence, b));
  }

  lemma DigestsAgree(sha: Sha256, a: Text, b: Text)
    ensures Digest(sha, a) == Digest(sha, b) <==> a == b || Collides(sha, a, b)
  {
    if Digest(sha, a) == Digest(sha, b) { DigestBinds(sha, a, b); }
  }

  lemma TagTexts(world: World, d: Draft, sequence: u64, b: Binding, secret: Text)
    ensures var r := Received(world.reader, AuthenticatedRequest(world.sha, d, sequence, b, secret));
            && r.auth.value.authTag == Digest(world.sha, Preimage(ClientFields(world.sha, d, sequence, secret)))
            && RequestTag(world, b.sessionSecret, r, r.auth.value) ==
               Digest(world.sha, Preimage(ServerFields(world, d, sequence, b)))
  {
    ReceivedText(world, d.params);
    hide CanonicalText, Canonicalize, Respelled, JoinNul, TagDomain;
  }

  lemma ParamsDigestsAgree(world: World, d: Draft)
    requires SpellsNumbers(world.reader) && Encodable(d.params) && EveryNumber(InRange(world.reader.respell), d.params)
    ensures ParamsDigest(world.sha, d.params) == ParamsDigest(world.sha, Respelled(world.reader.respell, d.params)) <==>
            NumbersKept(world, d) || ParamsCollide(world, d)
  {
    hide Digest, CanonicalText, Respelled, EveryNumber, Encodable, SpellsNumbers, Collides, InRange, OwnSpelling;
    TextsAgree(world, d.params);
    DigestsAgree(world.sha, CanonicalText(d.params), CanonicalText(Respelled(world.reader.respell, d.params)));
  }

  lemma MaterialDigestsAgree(world: World, d: Draft, sequence: u64, b: Binding, secret: Text)
    ensures var f, g := Preimage(ClientFields(world.sha, d, sequence, secret)), Preimage(ServerFields(world, d, sequence, b));
            Digest(world.sha, f) == Digest(world.sha, g) <==> f == g || MaterialsCollide(world, d, sequence, b, secret)
  {
    hide Digest, Preimage, ClientFields, ServerFields, Collides;
    DigestsAgree(world.sha, Preimage(ClientFields(world.sha, d, sequence, secret)),
                 Preimage(ServerFields(world, d, sequence, b)));
  }

  lemma TagDigestsAgree(world: World, d: Draft, sequence: u64, b: Binding, secret: Text)
    requires SpellsNumbers(world.reader) && DraftIsSendable(d) && NulFree(secret) && NulFree(b.sessionSecret)
    requires EveryNumber(InRange(world.reader.respell), d.params)
    ensures Digest(world.sha, Preimage(ClientFields(world.sha, d, sequence, secret))) ==
            Digest(world.sha, Preimage(ServerFields(world, d, sequence, b))) <==>
            TagHolds(world, d, sequence, b, secret)
  {
    hide Digest, CanonicalText, Preimage, ClientFields, ServerFields, Respelled, EveryNumber, ValidRequestId,
         HandshakeMethod, DistinctKeys, Encodable, SpellsNumbers, NulFree, ParamsCollide, MaterialsCollide, ParamsDigest,
         InRange, OwnSpelling, NumbersKept;
    MaterialsAgree(world, d, sequence, b, secret);
    ParamsDigestsAgree(world, d);
    MaterialDigestsAgree(world, d, sequence, b, secret);
  }

  /** The client's tag is the one the server computes over what it received exactly
      when the secrets agree and no number was re-spelled, or SHA-256 collides on
      the params' two texts or on the two tag materials. */
  lemma TagsMeetExactly(world: World, d: Draft, sequence: u64, b: Binding, secret: Text)
    requires SpellsNumbers(world.reader) && DraftIsSendable(d) && NulFree(secret) && NulFree(b.sessionSecret)
    requires EveryNumber(InRange(world.reader.respell), d.params)
    ensures var r := Received(world.reader, AuthenticatedRequest(world.sha, d, sequence, b, secret));
            r.auth.value.authTag == RequestTag(world, b.sessionSecret, r, r.auth.value) <==>
            TagHolds(world, d, sequence, b, secret)
  {
    hide Digest, CanonicalText, Preimage, ClientFields, ServerFields, Respelled, EveryNumber, DraftIsSendable,
         SpellsNumbers, NulFree, InRange, TagHolds, RequestTag, Canonicalize, JoinNul, TagDomain;
    TagTexts(world, d, sequence, b, secret);
    TagDigestsAgree(world, d, sequence, b, secret);
  }

  lemma DigestIsHex(sha: Sha256, m: Text)
    ensures |Digest(sha, m)| == 64 && AllHex(Digest(sha, m))
  {
    LowerHexRoundTrip(sha(m));
  }

  lemma TagIsHex(world: World, d: Draft, sequence: u64, b: Binding, secret: Text)
    requires DraftIsSendable(d)
    ensures WellFormedAuth(AuthenticatedRequest(world.sha, d, sequence, b, secret).auth.value)
  {
    hide HandshakeMethod, JoinNul, TagDomain, CanonicalText, Encodable, DistinctKeys, HasControl, Digest, AllHex;
    DigestIsHex(world.sha, CanonicalText(d.params));
    var digest := Digest(world.sha, CanonicalText(d.params));
    DigestIsHex(world.sha, JoinNul(
      [TagDomain(), secret, Decimal(sequence), d.id, d.methodName, d.id, digest, digest]));
  }

  /** A client request that the server could read is dispatched exactly when it is
      the next in sequence and its tag holds. */
  lemma RequestIsDispatched(world: World, n: nat, s: Session, d: Draft, sequence: u64, b: Binding, secret: Text)
    requires SpellsNumbers(world.reader) && DraftIsSendable(d) && NulFree(secret) && NulFree(b.sessionSecret)
    requires EveryNumber(InRange(world.reader.respell), d.params)
    requires s.binding == Some(b)
    ensures var r := Received(world.reader, AuthenticatedRequest(world.sha, d, sequence, b, secret));
            var o := HandleRequest(world, n, s, r).outcome;
            && (o.Dispatched? <==> sequence == s.counter + 1 && TagHolds(world, d, sequence, b, secret))
            && (!o.Dispatched? && sequence == s.counter + 1 ==> o == NotAuthenticated(AuthenticationFailed))
  {
    hide *;
    var r := Received(world.reader, AuthenticatedRequest(world.sha, d, sequence, b, secret));
    ReceivedShape(world, d, sequence, b, secret);
    TagsMeetExactly(world, d, sequence, b, secret);
    DispatchedExactly(world, n, s, r);
    if sequence == s.counter + 1 && r.auth.value.authTag != RequestTag(world, b.sessionSecret, r, r.auth.value) {
      WrongTagFails(world, n, s, r);
    }
  }

  lemma ReceivedShape(world: World, d: Draft, sequence: u64, b: Binding, secret: Text)
    requires DraftIsSendable(d)
    ensures var r := Received(world.reader, AuthenticatedRequest(world.sha, d, sequence, b, secret));
            && r.id == d.id && r.methodName == d.methodName && r.methodName != HandshakeMethod()
            && r.auth.Some? && r.auth.value.sequence == sequence
            && SameBinding(r.auth.value, b) && WellFormedAuth(r.auth.value)
  {
    hide JoinNul, TagDomain, CanonicalText, Canonicalize, Respelled, HandshakeMethod, WellFormedAuth, Digest,
         ValidRequestId, DistinctKeys, Encodable;
    TagIsHex(world, d, sequence, b, secret);
  }

  /** When everything but the tag is right, the refusal says so. */
  lemma WrongTagFails(world: World, n: nat, s: Session, r: Request)
    requires r.methodName != HandshakeMethod() && s.binding.Some? && r.auth.Some?
    requires SameBinding(r.auth.value, s.binding.value) && WellFormedAuth(r.auth.value)
    requires r.auth.value.sequence == s.counter + 1
    requires r.auth.value.authTag != RequestTag(world, s.binding.value.sessionSecret, r, r.auth.value)
    ensures HandleRequest(world, n, s, r).outcome == NotAuthenticated(AuthenticationFailed)
  {
    hide HandshakeBinding, Dispatch, RequestTag, WellFormedAuth, SameBinding, Pruned, HandshakeMethod;
  }

  // --- One request, served ------------------------------------------------------

  /** Whether the server reads a request and its tag holds. */
  ghost predicate Passes(world: World, b: Binding, secret: Text, d: Draft, sequence: u64) {
    && Within(RequestObject(AuthenticatedRequest(world.sha, d, sequence, b, secret)), world.reader.depthLimit)
    && EveryNumber(InRange(world.reader.respell), d.params)
    && TagHolds(world, d, sequence, b, secret)
  }

  /** Unless SHA-256 collides on one of the two named pairs of texts, a request
      passes exactly when the secrets agree, it nests within the limit, and every
      number of its params is spelled as the server spells it. */
  lemma PassesUnlessCollision(world: World, b: Binding, secret: Text, d: Draft, sequence: u64)
    requires !ParamsCollide(world, d) && !MaterialsCollide(world, d, sequence, b, secret)
    ensures Passes(world, b, secret, d, sequence) <==>
            && secret == b.sessionSecret
            && Within(RequestObject(AuthenticatedRequest(world.sha, d, sequence, b, secret)), world.reader.depthLimit)
            && NumbersKept(world, d)
  {
    hide ParamsCollide, MaterialsCollide, AuthenticatedRequest, RequestObject, Within, EveryNumber;
    if NumbersKept(world, d) { OwnSpellingInRange(world.reader.respell, d.params); }
  }

  /** What the server says of one request of the client. */
  ghost predicate Answered(world: World, step: Step, r: Request) {
    if Readable(world.reader, RequestObject(r))
    then step.event.Served? && step.event.request == Received(world.reader, r)
    else step.event == Unreadable(None, MalformedRequest)
  }

  lemma KeepsDraft(world: World, d: Draft, sequence: u64, b: Binding, secret: Text)
    ensures var r := AuthenticatedRequest(world.sha, d, sequence, b, secret);
            r.params == d.params && Received(world.reader, r).id == d.id
  {
    hide CanonicalText, JoinNul, TagDomain, Digest, Respelled, Canonicalize;
  }

  /** One request of the client, served: it is dispatched exactly when it is the next
      in sequence and passes, and then the counter counts it. */
  lemma OneIsServed(world: World, n: nat, server: Server, d: Draft, sequence: u64, b: Binding, secret: Text)
    requires ReadsCanonicalText(world.reader) && DraftIsSendable(d) && BindingFits(b)
    requires NulFree(secret) && NulFree(b.sessionSecret)
    requires server.session.binding == Some(b) && d.id !in Window(server.seen)
    ensures var r := AuthenticatedRequest(world.sha, d, sequence, b, secret);
            var step := ServeFrame(world, n, server, Complete(RequestText(r)));
            && Answered(world, step, r)
            && (DispatchStep(step) <==> sequence == server.session.counter + 1 && Passes(world, b, secret, d, sequence))
            && step.after.session.binding == Some(b)
            && step.after.session.counter == server.session.counter + (if DispatchStep(step) then 1 else 0)
            && (step.after.seen == server.seen || step.after.seen == server.seen + [d.id])
  {
    hide HandleRequest, RequestText, DraftIsSendable, ParseRequest, RequestObject, AuthenticatedRequest, Received,
         TagHolds, Within, EveryNumber, SpellsNumbers, Reads, Sendable, BindingFits, NulFree, Window, InRange, Encode,
         Respelled, SameBinding, WellFormedAuth, HandshakeMethod;
    var r := AuthenticatedRequest(world.sha, d, sequence, b, secret);
    ClientRequestIsSendable(world, d, sequence, b, secret);
    RequestArrives(world.reader, r);
    ReadableRequest(world.reader, r);
    KeepsDraft(world, d, sequence, b, secret);
    if Readable(world.reader, RequestObject(r)) {
      RequestIsDispatched(world, n, server.session, d, sequence, b, secret);
      ReceivedShape(world, d, sequence, b, secret);
      NotAHandshake(world, n, server.session, Received(world.reader, r));
    }
  }

  lemma ClientRequestIsSendable(world: World, d: Draft, sequence: u64, b: Binding, secret: Text)
    requires DraftIsSendable(d) && BindingFits(b)
    ensures Sendable(AuthenticatedRequest(world.sha, d, sequence, b, secret))
  {
    hide ValidRequestId, DistinctKeys, Encodable, Digest, JoinNul, CanonicalText, TagDomain, HandshakeMethod;
  }

  lemma NotAHandshake(world: World, n: nat, s: Session, r: Request)
    requires r.methodName != HandshakeMethod() && s.binding.Some?
    ensures var a := HandleRequest(world, n, s, r);
            && a.session.binding == s.binding && !a.outcome.HandshakeDone?
            && a.session.counter == s.counter + (if a.outcome.Dispatched? then 1 else 0)
  {
    OneRequest(world, n, s, r);
  }

  // --- A whole conversation -------------------------------------------------------

  /** The client's requests, numbered from `first` on. */
  function Requests(sha: Sha256, drafts: seq<Draft>, first: nat, b: Binding, secret: Text): (rs: seq<Request>)
    requires first + |drafts| <= MAX_U64 + 1
    ensures |rs| == |drafts|
  {
    if drafts == [] then []
    else [AuthenticatedRequest(sha, drafts[0], first, b, secret)] + Requests(sha, drafts[1..], first + 1, b, secret)
  }

  function Sent(rs: seq<Request>): Text {
    if rs == [] then [] else RequestText(rs[0]) + [LF] + Sent(rs[1..])
  }

  function FramesOf(rs: seq<Request>): (fs: seq<ReadResult>)
    ensures |fs| == |rs|
  {
    if rs == [] then [] else [Complete(RequestText(rs[0]))] + FramesOf(rs[1..])
  }

  ghost predicate DraftsAreSendable(server: Server, drafts: seq<Draft>) {
    && (forall i | 0 <= i < |drafts| :: DraftIsSendable(drafts[i]) && drafts[i].id !in Window(server.seen))
    && (forall i, j | 0 <= i < j < |drafts| :: drafts[i].id != drafts[j].id)
  }

  lemma StripsNothing(text: Text)
    requires Printable(text) && |text| + 1 <= MAX_FRAME_BYTES
    ensures NoNewline(text) && LineFrame(text) == Complete(text)
  {}

  /** Every request line, newline included, fits a frame. */
  ghost predicate LinesInBound(rs: seq<Request>) {
    forall i | 0 <= i < |rs| :: |RequestText(rs[i])| + 1 <= MAX_FRAME_BYTES
  }

  ghost predicate LinesPrintable(rs: seq<Request>) {
    forall i | 0 <= i < |rs| :: Printable(RequestText(rs[i]))
  }

  /** The requests are printable and their lines fit a frame. */
  ghost predicate LinesFit(rs: seq<Request>) {
    LinesInBound(rs) && LinesPrintable(rs)
  }

  lemma {:induction false} SentFrames(rs: seq<Request>)
    requires LinesFit(rs)
    ensures AllFrames(Sent(rs)) == FramesOf(rs)
    decreases |rs|
  {
    hide RequestText, LineFrame, NextFrame, AfterFrame;
    if rs != [] {
      var text := RequestText(rs[0]);
      StripsNothing(text);
      FirstLine(text, Sent(rs[1..]));
      SentFrames(rs[1..]);
    }
  }

  lemma RequestsUnfold(sha: Sha256, drafts: seq<Draft>, first: nat, b: Binding, secret: Text)
    requires first + |drafts| <= MAX_U64 + 1 && drafts != []
    ensures var rs := Requests(sha, drafts, first, b, secret);
            && rs[0] == AuthenticatedRequest(sha, drafts[0], first, b, secret)
            && rs[1..] == Requests(sha, drafts[1..], first + 1, b, secret)
            && FramesOf(rs)[0] == Complete(RequestText(rs[0])) && FramesOf(rs)[1..] == FramesOf(rs[1..])
  {
    hide AuthenticatedRequest, RequestText;
  }

  lemma WindowGainsOne(history: seq<Text>, id: Text, other: Text)
    requires other !in Window(history) && other != id
    ensures other !in Window(history + [id])
  {
    WindowSlides(history, id);
  }

  lemma DraftsAdvance(server: Server, next: Server, drafts: seq<Draft>)
    requires DraftsAreSendable(server, drafts) && drafts != []
    requires next.seen == server.seen || next.seen == server.seen + [drafts[0].id]
    ensures DraftsAreSendable(next, drafts[1..])
  {
    hide DraftIsSendable, Window;
    forall i | 0 <= i < |drafts[1..]| ensures drafts[1..][i].id !in Window(next.seen) {
      if next.seen != server.seen {
        WindowGainsOne(server.seen, drafts[0].id, drafts[1..][i].id);
      }
    }
  }

  lemma TraceUnfolds(world: World, n: nat, server: Server, frames: seq<ReadResult>)
    requires frames != []
    ensures var step := ServeFrame(world, n, server, frames[0]);
            Trace(world, n, server, frames) ==
            [step] + (if ShutsDown(Response(world, step.event)) then [] else Trace(world, n + 1, step.after, frames[1..]))
  {
    hide ServeFrame, ShutsDown, Response;
  }

  /** A server bound to `b`, and drafts numbered from `first`, not behind its counter. */
  ghost predicate Ready(world: World, server: Server, drafts: seq<Draft>, first: nat, b: Binding, secret: Text) {
    && ReadsCanonicalText(world.reader)
    && server.session.binding == Some(b) && BindingFits(b) && NulFree(secret) && NulFree(b.sessionSecret)
    && DraftsAreSendable(server, drafts)
    && server.session.counter < first && first + |drafts| <= MAX_U64 + 1
  }

  /** The run follows the drafts: while all of them passed, each that passes is
      dispatched; from the first that does not, none is. */
  ghost predicate Follows(
      world: World, trace: seq<Step>, drafts: seq<Draft>, first: nat, b: Binding, secret: Text, live: bool)
    requires first + |drafts| <= MAX_U64 + 1
    decreases |trace|
  {
    trace == [] ||
    (&& drafts != []
     && Answered(world, trace[0], AuthenticatedRequest(world.sha, drafts[0], first, b, secret))
     && (DispatchStep(trace[0]) <==> live && Passes(world, b, secret, drafts[0], first))
     && Follows(world, trace[1..], drafts[1..], first + 1, b, secret,
                live && Passes(world, b, secret, drafts[0], first)))
  }

  lemma NextIsServed(
      world: World, n: nat, server: Server, drafts: seq<Draft>, first: nat, b: Binding, secret: Text)
    requires Ready(world, server, drafts, first, b, secret) && drafts != []
    ensures var r := AuthenticatedRequest(world.sha, drafts[0], first, b, secret);
            var step := ServeFrame(world, n, server, Complete(RequestText(r)));
            && Answered(world, step, r)
            && (DispatchStep(step) <==> first == server.session.counter + 1 && Passes(world, b, secret, drafts[0], first))
            && Ready(world, step.after, drafts[1..], first + 1, b, secret)
            && (first + 1 == step.after.session.counter + 1 <==> DispatchStep(step))
  {
    hide ReadsCanonicalText, ServeFrame, DispatchStep, Answered, Passes, DraftIsSendable, RequestText,
         AuthenticatedRequest, Window, BindingFits, NulFree;
    OneIsServed(world, n, server, drafts[0], first, b, secret);
    var r := AuthenticatedRequest(world.sha, drafts[0], first, b, secret);
    DraftsAdvance(server, ServeFrame(world, n, server, Complete(RequestText(r))).after, drafts);
  }

  /** Every conversation of the client with a bound server goes that way. */
  lemma {:induction false} ConversationIsServed(
      world: World, n: nat, server: Server, drafts: seq<Draft>, first: nat, b: Binding, secret: Text)
    requires Ready(world, server, drafts, first, b, secret)
    ensures Follows(world, Trace(world, n, server, FramesOf(Requests(world.sha, drafts, first, b, secret))),
                    drafts, first, b, secret, server.session.counter + 1 == first)
    decreases |drafts|
  {
    hide ReadsCanonicalText, ServeFrame, Response, ShutsDown, DispatchStep, DraftsAreSendable, Answered, Passes,
         AuthenticatedRequest, RequestText, BindingFits, NulFree;
    if drafts != [] {
      var rs := Requests(world.sha, drafts, first, b, secret);
      RequestsUnfold(world.sha, drafts, first, b, secret);
      TraceUnfolds(world, n, server, FramesOf(rs));
      NextIsServed(world, n, server, drafts, first, b, secret);
      var step := ServeFrame(world, n, server, FramesOf(rs)[0]);
      if !ShutsDown(Response(world, step.event)) {
        ConversationIsServed(world, n + 1, step.after, drafts[1..], first + 1, b, secret);
        var more := Trace(world, n + 1, step.after, FramesOf(rs[1..]));
        assert ([step] + more)[1..] == more;
      }
    }
  }

  /** Draft `i` of the list passes under the sequence number it is sent with. */
  ghost predicate PassesAt(
      world: World, drafts: seq<Draft>, first: nat, b: Binding, secret: Text, i: nat)
    requires i < |drafts| && first + |drafts| <= MAX_U64 + 1
  {
    Passes(world, b, secret, drafts[i], first + i)
  }

  ghost predicate AnsweredAt(
      world: World, trace: seq<Step>, drafts: seq<Draft>, first: nat, b: Binding, secret: Text, i: nat)
    requires i < |drafts| && i < |trace| && first + |drafts| <= MAX_U64 + 1
  {
    Answered(world, trace[i], AuthenticatedRequest(world.sha, drafts[i], first + i, b, secret))
  }

  /** The first `k` drafts pass. */
  ghost predicate AllPass(world: World, drafts: seq<Draft>, first: nat, b: Binding, secret: Text, k: nat)
    requires k <= |drafts| && first + |drafts| <= MAX_U64 + 1
  {
    forall j: nat | j < k :: PassesAt(world, drafts, first, b, secret, j)
  }

  /** Step `i` of the run answers request `i`, and dispatches it exactly when it and
      all before it pass. */
  ghost predicate StepExact(
      world: World, trace: seq<Step>, drafts: seq<Draft>, first: nat, b: Binding, secret: Text, i: nat)
    requires i < |drafts| && i < |trace| && first + |drafts| <= MAX_U64 + 1
  {
    && AnsweredAt(world, trace, drafts, first, b, secret, i)
    && (DispatchStep(trace[i]) <==> AllPass(world, drafts, first, b, secret, i + 1))
  }

  /** So does every step, and a run ends before the last only by shutting down. */
  ghost predicate ServedExactly(
      world: World, trace: seq<Step>, drafts: seq<Draft>, first: nat, b: Binding, secret: Text)
    requires first + |drafts| <= MAX_U64 + 1
  {
    && |trace| <= |drafts|
    && (|trace| < |drafts| ==> trace != [] && ShutsDown(Response(world, trace[|trace| - 1].event)))
    && (forall i: nat | i < |trace| :: StepExact(world, trace, drafts, first, b, secret, i))
  }

  lemma {:induction false} FollowsAt(
      world: World, trace: seq<Step>, drafts: seq<Draft>, first: nat, b: Binding, secret: Text, live: bool, i: nat)
    requires first + |drafts| <= MAX_U64 + 1
    requires Follows(world, trace, drafts, first, b, secret, live) && i < |trace|
    ensures i < |drafts| && AnsweredAt(world, trace, drafts, first, b, secret, i)
    ensures DispatchStep(trace[i]) <==> live && AllPass(world, drafts, first, b, secret, i + 1)
    decreases |trace|
  {
    hide DispatchStep, Answered, Passes, AuthenticatedRequest, AllPass;
    if i == 0 {
      FirstPasses(world, drafts, first, b, secret);
    } else {
      var next := live && Passes(world, b, secret, drafts[0], first);
      FollowsAt(world, trace[1..], drafts[1..], first + 1, b, secret, next, i - 1);
      assert trace[1..][i - 1] == trace[i] && drafts[1..][i - 1] == drafts[i];
      AllPassUnfold(world, drafts, first, b, secret, i);
    }
  }

  lemma FirstPasses(world: World, drafts: seq<Draft>, first: nat, b: Binding, secret: Text)
    requires first + |drafts| <= MAX_U64 + 1 && drafts != []
    ensures AllPass(world, drafts, first, b, secret, 1) <==> Passes(world, b, secret, drafts[0], first)
  {
    hide Passes;
    assert PassesAt(world, drafts, first, b, secret, 0) == Passes(world, b, secret, drafts[0], first);
  }

  lemma PassesNext(world: World, drafts: seq<Draft>, first: nat, b: Binding, secret: Text, j: nat)
    requires first + |drafts| <= MAX_U64 + 1 && j + 1 < |drafts|
    ensures PassesAt(world, drafts[1..], first + 1, b, secret, j) == PassesAt(world, drafts, first, b, secret, j + 1)
  {
    hide Passes;
    assert drafts[1..][j] == drafts[j + 1] && first + 1 + j == first + (j + 1);
  }

  lemma AllPassUnfold(world: World, drafts: seq<Draft>, first: nat, b: Binding, secret: Text, i: nat)
    requires first + |drafts| <= MAX_U64 + 1 && 0 < i < |drafts|
    ensures AllPass(world, drafts, first, b, secret, i + 1) <==>
            Passes(world, b, secret, drafts[0], first) && AllPass(world, drafts[1..], first + 1, b, secret, i)
  {
    hide PassesAt, Passes;
    var rest, next := drafts[1..], first + 1;
    FirstPasses(world, drafts, first, b, secret);
    assert PassesAt(world, drafts, first, b, secret, 0) <==> Passes(world, b, secret, drafts[0], first);
    if AllPass(world, drafts, first, b, secret, i + 1) {
      forall j: nat | j < i ensures PassesAt(world, rest, next, b, secret, j) {
        PassesNext(world, drafts, first, b, secret, j);
      }
    }
    if Passes(world, b, secret, drafts[0], first) && AllPass(world, rest, next, b, secret, i) {
      forall j: nat | j < i + 1 ensures PassesAt(world, drafts, first, b, secret, j) {
        if j > 0 {
          PassesNext(world, drafts, first, b, secret, j - 1);
          assert PassesAt(world, rest, next, b, secret, j - 1);
        }
      }
    }
  }

  /** A run ends early only by shutting down. */
  lemma {:induction false} TraceLength(world: World, n: nat, server: Server, frames: seq<ReadResult>)
    ensures var trace := Trace(world, n, server, frames);
            && |trace| <= |frames|
            && (|trace| < |frames| ==> trace != [] && ShutsDown(Response(world, trace[|trace| - 1].event)))
    decreases |frames|
  {
    hide ServeFrame, Response, ShutsDown;
    if frames != [] {
      TraceUnfolds(world, n, server, frames);
      var step := ServeFrame(world, n, server, frames[0]);
      if !ShutsDown(Response(world, step.event)) {
        TraceLength(world, n + 1, step.after, frames[1..]);
      }
    }
  }

  lemma PrintableFirst(rs: seq<Request>)
    requires rs != [] && Printable(RequestText(rs[0])) && LinesPrintable(rs[1..])
    ensures LinesPrintable(rs)
  {
    hide Printable, RequestText;
    forall i | 0 < i < |rs| ensures Printable(RequestText(rs[i])) {
      assert rs[i] == rs[1..][i - 1];
    }
  }

  lemma {:induction false} RequestsPrint(
      world: World, drafts: seq<Draft>, first: nat, b: Binding, secret: Text)
    requires BindingFits(b)
    requires first + |drafts| <= MAX_U64 + 1 && forall i | 0 <= i < |drafts| :: DraftIsSendable(drafts[i])
    ensures LinesPrintable(Requests(world.sha, drafts, first, b, secret))
    decreases |drafts|
  {
    hide RequestText, DraftIsSendable, AuthenticatedRequest, Printable, BindingFits, Sendable;
    if drafts != [] {
      ClientRequestIsSendable(world, drafts[0], first, b, secret);
      RequestPrints(AuthenticatedRequest(world.sha, drafts[0], first, b, secret));
      RequestsPrint(world, drafts[1..], first + 1, b, secret);
      hide Requests, LinesPrintable;
      RequestsUnfold(world.sha, drafts, first, b, secret);
      PrintableFirst(Requests(world.sha, drafts, first, b, secret));
    }
  }

  lemma RunIsExact(world: World, n: nat, server: Server, drafts: seq<Draft>, first: nat, b: Binding, secret: Text)
    requires Ready(world, server, drafts, first, b, secret) && first == server.session.counter + 1
    ensures ServedExactly(world, Trace(world, n, server, FramesOf(Requests(world.sha, drafts, first, b, secret))),
                          drafts, first, b, secret)
  {
    hide Trace, FramesOf, Follows, Requests, ShutsDown, Response, ReadsCanonicalText, DraftIsSendable, NulFree,
         BindingFits, ServedExactly, Window;
    ConversationIsServed(world, n, server, drafts, first, b, secret);
    TraceLength(world, n, server, FramesOf(Requests(world.sha, drafts, first, b, secret)));
    var trace := Trace(world, n, server, FramesOf(Requests(world.sha, drafts, first, b, secret)));
    FollowsExactly(world, trace, drafts, first, b, secret);
  }

  lemma FollowsExactly(world: World, trace: seq<Step>, drafts: seq<Draft>, first: nat, b: Binding, secret: Text)
    requires first + |drafts| <= MAX_U64 + 1 && Follows(world, trace, drafts, first, b, secret, true)
    requires |trace| <= |drafts|
    requires |trace| < |drafts| ==> trace != [] && ShutsDown(Response(world, trace[|trace| - 1].event))
    ensures ServedExactly(world, trace, drafts, first, b, secret)
  {
    hide Follows, DispatchStep, AnsweredAt, AllPass, ShutsDown, Response;
    forall i: nat | i < |trace| ensures StepExact(world, trace, drafts, first, b, secret, i) {
      FollowsAt(world, trace, drafts, first, b, secret, true, i);
    }
  }

  /** The composition, from the bytes on the wire: of the requests the client sends
      in sequence order within the frame limit, each is dispatched exactly when it
      and all before it pass, up to an answer that shuts the bridge down. */
  lemma ClientAndServerCompose(
      world: World, n: nat, server: Server, drafts: seq<Draft>, first: nat, b: Binding, secret: Text)
    requires Ready(world, server, drafts, first, b, secret) && first == server.session.counter + 1
    requires LinesInBound(Requests(world.sha, drafts, first, b, secret))
    ensures ServedExactly(world, Trace(world, n, server, AllFrames(Sent(Requests(world.sha, drafts, first, b, secret)))),
                          drafts, first, b, secret)
  {
    hide DraftIsSendable, BindingFits, LinesPrintable, ReadsCanonicalText, NulFree, Window, ServedExactly, Trace,
         AllFrames, Sent, FramesOf, Requests, LinesInBound;
    RequestsPrint(world, drafts, first, b, secret);
    SentFrames(Requests(world.sha, drafts, first, b, secret));
    RunIsExact(world, n, server, drafts, first, b, secret);
  }

  // --- What does not pass -----------------------------------------------------------

  /** A bound server and a draft the client could send it next. */
  ghost predicate MayAsk(server: Server, d: Draft, b: Binding) {
    && DraftIsSendable(d) && BindingFits(b) && NulFree(b.sessionSecret)
    && server.session.binding == Some(b) && d.id !in Window(server.seen)
  }

  /** The draft as the client sends it next, knowing the secret. */
  function NextRequest(world: World, server: Server, d: Draft, b: Binding): Request
    requires server.session.counter < MAX_U64
  {
    AuthenticatedRequest(world.sha, d, server.session.counter + 1, b, b.sessionSecret)
  }

  ghost predicate NextCollides(world: World, server: Server, d: Draft, b: Binding)
    requires server.session.counter < MAX_U64
  {
    ParamsCollide(world, d) || MaterialsCollide(world, d, server.session.counter + 1, b, b.sessionSecret)
  }

  /** The server reads the request and answers that its authentication failed. */
  ghost predicate RefusesNext(world: World, n: nat, server: Server, d: Draft, b: Binding)
    requires server.session.counter < MAX_U64
  {
    var r := NextRequest(world, server, d, b);
    ServeFrame(world, n, server, Complete(RequestText(r))).event ==
    Served(Received(world.reader, r), NotAuthenticated(AuthenticationFailed))
  }

  lemma ReceivedNext(world: World, server: Server, d: Draft, b: Binding)
    requires server.session.counter < MAX_U64
    ensures Received(world.reader, NextRequest(world, server, d, b)).id == d.id
  {
    hide AuthenticatedRequest, Received;
    KeepsDraft(world, d, server.session.counter + 1, b, b.sessionSecret);
  }

  lemma NextIsSendable(world: World, server: Server, d: Draft, b: Binding)
    requires server.session.counter < MAX_U64 && MayAsk(server, d, b)
    ensures Sendable(NextRequest(world, server, d, b)) && NextRequest(world, server, d, b).params == d.params
  {
    hide AuthenticatedRequest, DraftIsSendable, BindingFits, Sendable, NulFree, Window;
    ClientRequestIsSendable(world, d, server.session.counter + 1, b, b.sessionSecret);
    KeepsDraft(world, d, server.session.counter + 1, b, b.sessionSecret);
  }

  lemma CanonicalReaderSpells(reader: Reader)
    requires ReadsCanonicalText(reader)
    ensures SpellsNumbers(reader)
  {
    hide SpellsNumbers;
  }

  lemma NextIsRead(world: World, server: Server, d: Draft, b: Binding)
    requires server.session.counter < MAX_U64
    requires ReadsCanonicalText(world.reader) && MayAsk(server, d, b)
    requires EveryNumber(InRange(world.reader.respell), d.params)
    requires Within(RequestObject(NextRequest(world, server, d, b)), world.reader.depthLimit)
    ensures var r := NextRequest(world, server, d, b);
            ParseRequest(world.reader.parse(RequestText(r))) == Accepted(Received(world.reader, r))
  {
    hide *;
    var r := NextRequest(world, server, d, b);
    NextIsSendable(world, server, d, b);
    CanonicalReaderSpells(world.reader);
    RequestArrives(world.reader, r);
    ReadableRequest(world.reader, r);
  }

  lemma NextIsRefused(world: World, n: nat, server: Server, d: Draft, b: Binding)
    requires server.session.counter < MAX_U64
    requires SpellsNumbers(world.reader) && MayAsk(server, d, b) && !NextCollides(world, server, d, b)
    requires !NumbersKept(world, d) && EveryNumber(InRange(world.reader.respell), d.params)
    ensures HandleRequest(world, n, server.session, Received(world.reader, NextRequest(world, server, d, b))).outcome ==
            NotAuthenticated(AuthenticationFailed)
  {
    hide HandleRequest, AuthenticatedRequest, DraftIsSendable, Received, EveryNumber, SpellsNumbers, NulFree, Window,
         InRange, BindingFits, ParamsCollide, MaterialsCollide, NumbersKept;
    RequestIsDispatched(world, n, server.session, d, server.session.counter + 1, b, b.sessionSecret);
  }

  /** A number the server spells in another way is refused, whatever the server's
      spelling of it is, unless SHA-256 collides on the two named pairs of texts. */
  lemma RespelledIsRefused(world: World, n: nat, server: Server, d: Draft, b: Binding)
    requires server.session.counter < MAX_U64
    requires ReadsCanonicalText(world.reader) && MayAsk(server, d, b) && !NextCollides(world, server, d, b)
    requires !NumbersKept(world, d) && EveryNumber(InRange(world.reader.respell), d.params)
    requires Within(RequestObject(NextRequest(world, server, d, b)), world.reader.depthLimit)
    ensures RefusesNext(world, n, server, d, b)
  {
    hide HandleRequest, NextRequest, RequestText, DraftIsSendable, ParseRequest, RequestObject, Received, Within, EveryNumber,
         SpellsNumbers, NulFree, Window, InRange, Encode, BindingFits, NextCollides, NumbersKept;
    NextIsRead(world, server, d, b);
    NextIsRefused(world, n, server, d, b);
    ReceivedNext(world, server, d, b);
  }

  /** Params that nest past the server's limit are malformed to it. */
  lemma TooDeepIsMalformed(world: World, n: nat, server: Server, r: Request)
    requires ReadsCanonicalText(world.reader) && Sendable(r)
    requires !Within(RequestObject(r), world.reader.depthLimit)
    ensures ServeFrame(world, n, server, Complete(RequestText(r))).event == Unreadable(None, MalformedRequest)
  {
    RequestArrives(world.reader, r);
    hide RequestText, ParseRequest, RequestObject, Within, EveryNumber, Sendable, Encode, HandleRequest;
  }

  /** One more than fits 64 bits, which a server of 64-bit numbers spells anew. */
  function BigNumber(): Text { Decimal(MAX_U64 + 1) }

  function BigDraft(id: Utf8, methodName: Utf8, key: Utf8): Draft {
    Draft(id, methodName, Object([Entry(key, Number(BigNumber()))]))
  }

  lemma OneNumber(p: Text -> bool, key: Utf8, lexeme: Text)
    ensures EveryNumber(p, Object([Entry(key, Number(lexeme))])) <==> p(lexeme)
  {
    var v := Object([Entry(key, Number(lexeme))]);
    assert v.entries[0].value == Number(lexeme);
  }

  lemma BigDraftIsSendable(id: Utf8, methodName: Utf8, key: Utf8)
    requires ValidRequestId(id) && methodName != [] && |methodName| <= MAX_METHOD_BYTES && methodName != HandshakeMethod()
    ensures DraftIsSendable(BigDraft(id, methodName, key))
  {
    hide ValidRequestId, HandshakeMethod, IsLexeme, Decimal;
    DecimalIsLexeme(MAX_U64 + 1);
    var v := Number(BigNumber());
    assert Encodable(v) && DistinctKeys(v);
  }

  /** So a client that asks with this number is refused by such a server. */
  lemma BigNumberIsRefused(world: World, n: nat, server: Server, b: Binding, id: Utf8, methodName: Utf8, key: Utf8)
    requires server.session.counter < MAX_U64
    requires ReadsCanonicalText(world.reader) && MayAsk(server, BigDraft(id, methodName, key), b)
    requires world.reader.respell(BigNumber()).Spelled? && world.reader.respell(BigNumber()) != Spelled(BigNumber())
    requires !NextCollides(world, server, BigDraft(id, methodName, key), b)
    requires Within(RequestObject(NextRequest(world, server, BigDraft(id, methodName, key), b)), world.reader.depthLimit)
    ensures RefusesNext(world, n, server, BigDraft(id, methodName, key), b)
  {
    var d := BigDraft(id, methodName, key);
    hide IsUtf8, IsLexeme, BigNumber, MayAsk, NextCollides, RefusesNext, NextRequest, RequestObject, ReadsCanonicalText;
    OneNumber(OwnSpelling(world.reader.respell), key, BigNumber());
    OneNumber(InRange(world.reader.respell), key, BigNumber());
    assert !NumbersKept(world, d) && EveryNumber(InRange(world.reader.respell), d.params);
    hide *;
    RespelledIsRefused(world, n, server, d, b);
  }

  // --- A server that refuses the number ---------------------------------------------

  /** The number as a 64-bit float is written. */
  function BigFloat(): Utf8 { Ascii("1.8446744073709552e19") }

  /** Whole numbers past 64 bits are held as floats; this is how one is spelled. */
  function AsFloat(): Respell {
    l => if l == BigNumber() then Spelled(BigFloat()) else Spelled(l)
  }

  /** A reader of 64-bit numbers with serde_json's limit on nesting. */
  function FloatReader(): Reader {
    CompactReader(SixtyFourBit(AsFloat()), 127)
  }

  lemma BigFloatIsLexeme()
    ensures IsLexeme(BigFloat())
  {
    hide IsUtf8, DigitsEnd;
    var t := BigFloat();
    DigitsEndAt(t, 0, 1);
    DigitsEndAt(t, 2, 18);
    DigitsEndAt(t, 19, 21);
  }

  lemma AsFloatSpells()
    ensures forall l | IsLexeme(l) && AsFloat()(l).Spelled? :: IsLexeme(AsFloat()(l).lexeme)
  {
    hide IsLexeme, BigFloat, BigNumber, IsUtf8;
    BigFloatIsLexeme();
  }

  lemma FloatReaderReads()
    ensures ReadsCanonicalText(FloatReader())
  {
    hide IsLexeme, AsFloat, SixtyFourBit, ReadsCanonicalText, ReadsCompactText, KeepsWholeNumbers, SpellsNumbers,
         ParseCompact;
    AsFloatSpells();
    SixtyFourBitSpells(FloatReader().parse, AsFloat(), 127);
    CompactReaderReads(SixtyFourBit(AsFloat()), 127);
  }

  /** It spells the number as the float. */
  lemma BigNumberIsRespelled()
    ensures FloatReader().respell(BigNumber()) == Spelled(BigFloat()) && BigFloat() != BigNumber()
  {
    hide IsLexeme, IsUtf8, ParseCompact, Decimal, DecimalValue;
    DecimalRoundTrip(MAX_U64 + 1);
    assert BigFloat()[1] == 46;
    assert !IsDecimalU64(BigNumber());
  }

  lemma AuthIsFlat(a: Auth, depth: nat)
    requires depth > 0
    ensures Within(AuthObject(a), depth)
  {
    hide IsUtf8;
    var e := AuthObject(a).entries;
    assert forall i | 0 <= i < |e| :: e[i].value.String? || e[i].value.Number?;
  }

  lemma WholeIsFlat(n: nat, depth: nat)
    ensures Within(Whole(n), depth)
  {}

  lemma RequestIsFlat(r: Request, depth: nat)
    requires depth > 1 && Within(r.params, depth - 1)
    ensures Within(RequestObject(r), depth)
  {
    hide IsUtf8, AuthObject, Whole, AuthKey, IdKey, MethodKey, ParamsKey, VersionKey;
    if r.auth.Some? { AuthIsFlat(r.auth.value, depth - 1); }
    WholeIsFlat(PROTOCOL_VERSION, depth - 1);
    var e := RequestObject(r).entries;
    forall i | 0 <= i < |e| ensures Within(e[i].value, depth - 1) {
      assert e[i].value.String? || e[i].value == r.params || e[i].value == Whole(PROTOCOL_VERSION)
             || (r.auth.Some? && e[i].value == AuthObject(r.auth.value));
    }
  }

  lemma BigDraftIsFlat(world: World, server: Server, b: Binding, id: Utf8, methodName: Utf8, key: Utf8)
    requires server.session.counter < MAX_U64
    ensures Within(RequestObject(NextRequest(world, server, BigDraft(id, methodName, key), b)), FloatReader().depthLimit)
  {
    hide IsUtf8, RequestObject, Digest, CanonicalText, JoinNul, BigNumber, SixtyFourBit;
    var r := NextRequest(world, server, BigDraft(id, methodName, key), b);
    assert r.params.entries[0].value.Number?;
    RequestIsFlat(r, 127);
  }

  /** The failing input outright: a server with this reader refuses the client that
      asks with 2 to the 64th, though the client knows its secret. */
  lemma FloatServerRefuses(world: World, n: nat, server: Server, b: Binding, id: Utf8, methodName: Utf8, key: Utf8)
    requires server.session.counter < MAX_U64
    requires world.reader == FloatReader() && MayAsk(server, BigDraft(id, methodName, key), b)
    requires !NextCollides(world, server, BigDraft(id, methodName, key), b)
    ensures RefusesNext(world, n, server, BigDraft(id, methodName, key), b)
  {
    hide *;
    FloatReaderReads();
    BigNumberIsRespelled();
    BigDraftIsFlat(world, server, b, id, methodName, key);
    BigNumberIsRefused(world, n, server, b, id, methodName, key);
  }
}
