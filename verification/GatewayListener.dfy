/** The listener of crates/unpin-cli/src/gateway_session.rs as interleaved steps:
    connection tasks that hold a permit each, authenticate, take a claim from the
    registry, serve, and give it back; and the ways the listener itself ends. */
module GatewayListener {

  const MAX_CONCURRENT_CONNECTIONS := 32

  datatype Claim = Claim(id: nat, primary: bool)

  datatype End = Rejected | TimedOut | Refused | Served(claim: Claim) | Panicked | Cancelled

  /** Only `Handshaking` and `Serving` wait; the others run on without yielding. */
  datatype Phase = Handshaking | Authenticated | Serving(claim: Claim) | Drained(claim: Claim) | Done(end: End)

  datatype Task = Task(phase: Phase, aborting: bool, joined: bool)

  /** What the registry and the notifier see. */
  datatype Call = Admitted(claim: Claim) | Denied | Withdrawn(claim: Claim) | Cleared(claim: Claim)

  datatype Event = Event(task: nat, call: Call)

  datatype Outcome = Finished | RuntimePanicked | AcceptFailed

  datatype Listener = Accepting | Draining | Returned(outcome: Outcome)

  datatype State = State(free: nat, tasks: seq<Task>, log: seq<Event>, listener: Listener)

  datatype Step =
    | Accept | AcceptFails | Shutdown | Join(task: nat) | AllJoined
    | HandshakeSucceeds(task: nat) | HandshakeFails(task: nat) | HandshakeTimesOut(task: nat)
    | ConnectionAdmitted(task: nat, claim: Claim) | ConnectionDenied(task: nat)
    | ServeEnds(task: nat) | Disconnect(task: nat) | Panic(task: nat) | Cancel(task: nat)

  const START := State(MAX_CONCURRENT_CONNECTIONS, [], [], Accepting)

  // --- Steps --------------------------------------------------------------

  predicate InPhase(s: State, id: nat, waiting: bool) {
    id < |s.tasks| && !s.tasks[id].phase.Done? && (waiting ==> !s.tasks[id].aborting)
  }

  predicate Enabled(s: State, step: Step) {
    match step
    case Accept => s.listener.Accepting?
    case AcceptFails => s.listener.Accepting?
    case Shutdown => s.listener.Accepting?
    case Join(id) => !s.listener.Returned? && id < |s.tasks| && s.tasks[id].phase.Done? && !s.tasks[id].joined
    case AllJoined => s.listener.Draining? && forall t <- s.tasks :: t.joined
    case HandshakeSucceeds(id) => InPhase(s, id, true) && s.tasks[id].phase.Handshaking?
    case HandshakeFails(id) => InPhase(s, id, true) && s.tasks[id].phase.Handshaking?
    case HandshakeTimesOut(id) => InPhase(s, id, true) && s.tasks[id].phase.Handshaking?
    case ConnectionAdmitted(id, _) => InPhase(s, id, false) && s.tasks[id].phase.Authenticated?
    case ConnectionDenied(id) => InPhase(s, id, false) && s.tasks[id].phase.Authenticated?
    case ServeEnds(id) => InPhase(s, id, true) && s.tasks[id].phase.Serving?
    case Disconnect(id) => InPhase(s, id, false) && s.tasks[id].phase.Drained?
    case Panic(id) => InPhase(s, id, false)
    case Cancel(id) =>
      InPhase(s, id, false) && s.tasks[id].aborting && (s.tasks[id].phase.Handshaking? || s.tasks[id].phase.Serving?)
  }

  function AbortAll(tasks: seq<Task>): (r: seq<Task>)
    ensures |r| == |tasks|
  {
    seq(|tasks|, i requires 0 <= i < |tasks| => tasks[i].(aborting := true))
  }

  function Enter(s: State, id: nat, phase: Phase): State
    requires id < |s.tasks|
  {
    s.(tasks := s.tasks[id := s.tasks[id].(phase := phase)])
  }

  /** A task that ends drops its permit, however it ends. */
  function Finish(s: State, id: nat, end: End): State
    requires id < |s.tasks|
  {
    Enter(s, id, Done(end)).(free := s.free + 1)
  }

  /** Leaving the listener drops its task set, which aborts the tasks in it. */
  function Leave(s: State, outcome: Outcome): State {
    s.(listener := Returned(outcome), tasks := AbortAll(s.tasks))
  }

  function Record(s: State, id: nat, calls: seq<Call>): State {
    s.(log := s.log + seq(|calls|, i requires 0 <= i < |calls| => Event(id, calls[i])))
  }

  function WithdrawalOf(c: Claim): seq<Call> {
    if c.primary then [Withdrawn(c), Cleared(c)] else [Withdrawn(c)]
  }

  function Apply(s: State, step: Step): State
    requires Enabled(s, step)
  {
    match step
    case Accept =>
      if s.free == 0 then s
      else s.(free := s.free - 1, tasks := s.tasks + [Task(Handshaking, false, false)])
    case AcceptFails => Leave(s, AcceptFailed)
    case Shutdown => s.(listener := Draining, tasks := AbortAll(s.tasks))
    case Join(id) =>
      var joined := s.(tasks := s.tasks[id := s.tasks[id].(joined := true)]);
      var end := s.tasks[id].phase.end;
      if end.Panicked? || (end.Cancelled? && s.listener.Accepting?) then Leave(joined, RuntimePanicked) else joined
    case AllJoined => s.(listener := Returned(Finished))
    case HandshakeSucceeds(id) => Enter(s, id, Authenticated)
    case HandshakeFails(id) => Finish(s, id, Rejected)
    case HandshakeTimesOut(id) => Finish(s, id, TimedOut)
    case ConnectionAdmitted(id, claim) => Record(Enter(s, id, Serving(claim)), id, [Admitted(claim)])
    case ConnectionDenied(id) => Record(Finish(s, id, Refused), id, [Denied])
    case ServeEnds(id) => Enter(s, id, Drained(s.tasks[id].phase.claim))
    case Disconnect(id) =>
      var claim := s.tasks[id].phase.claim;
      Record(Finish(s, id, Served(claim)), id, WithdrawalOf(claim))
    case Panic(id) => Finish(s, id, Panicked)
    case Cancel(id) => Finish(s, id, Cancelled)
  }

  /** `steps` can be taken one after another from `from`, and end in `to`. */
  ghost predicate IsRun(from: State, steps: seq<Step>, to: State)
    decreases |steps|
  {
    if steps == [] then from == to
    else
      var k := |steps| - 1;
      exists before :: IsRun(from, steps[..k], before) && Enabled(before, steps[k]) && to == Apply(before, steps[k])
  }

  // --- What every state of a run satisfies ---------------------------------

  function Unfinished(tasks: seq<Task>): (n: nat)
    ensures n <= |tasks|
  {
    if tasks == [] then 0
    else Unfinished(tasks[..|tasks| - 1]) + if tasks[|tasks| - 1].phase.Done? then 0 else 1
  }

  /** The calls one task made, in order. */
  function CallsOf(log: seq<Event>, id: nat): seq<Call> {
    if log == [] then []
    else
      var last := log[|log| - 1];
      CallsOf(log[..|log| - 1], id) + if last.task == id then [last.call] else []
  }

  /** The calls a task in this phase has made: none before authentication, a claim
      withdrawn exactly once by every task that served to its end. */
  ghost predicate Accounted(phase: Phase, calls: seq<Call>) {
    match phase
    case Handshaking => calls == []
    case Authenticated => calls == []
    case Serving(c) => calls == [Admitted(c)]
    case Drained(c) => calls == [Admitted(c)]
    case Done(Rejected) => calls == []
    case Done(TimedOut) => calls == []
    case Done(Refused) => calls == [Denied]
    case Done(Served(c)) => calls == [Admitted(c)] + WithdrawalOf(c)
    case Done(_) => calls == [] || exists c :: calls == [Admitted(c)]
  }

  ghost predicate TaskSafe(s: State, id: nat)
    requires id < |s.tasks|
  {
    var t := s.tasks[id];
    && Accounted(t.phase, CallsOf(s.log, id))
    && (t.aborting <==> !s.listener.Accepting?)
    && (t.phase == Done(Cancelled) ==> t.aborting)
    && (t.joined ==> t.phase.Done? && (t.phase.end.Panicked? ==> s.listener == Returned(RuntimePanicked)))
    && (s.listener == Returned(Finished) ==> t.joined)
  }

  predicate PanicJoined(tasks: seq<Task>, id: nat) {
    id < |tasks| && tasks[id].phase == Done(Panicked) && tasks[id].joined
  }

  ghost predicate Safe(s: State) {
    && s.free + Unfinished(s.tasks) == MAX_CONCURRENT_CONNECTIONS
    && (forall id | 0 <= id < |s.tasks| :: TaskSafe(s, id))
    && (forall e <- s.log :: e.task < |s.tasks|)
    && (s.listener == Returned(RuntimePanicked) ==> exists id :: PanicJoined(s.tasks, id))
  }

  lemma {:induction false} UnfinishedUpdate(tasks: seq<Task>, id: nat, t: Task)
    requires id < |tasks|
    ensures Unfinished(tasks[id := t]) + (if tasks[id].phase.Done? then 0 else 1)
         == Unfinished(tasks) + (if t.phase.Done? then 0 else 1)
    decreases |tasks|
  {
    var k := |tasks| - 1;
    if id < k {
      UnfinishedUpdate(tasks[..k], id, t);
      assert tasks[id := t][..k] == tasks[..k][id := t];
    } else {
      assert tasks[id := t][..k] == tasks[..k];
    }
  }

  lemma {:induction false} UnfinishedAborted(tasks: seq<Task>)
    ensures Unfinished(AbortAll(tasks)) == Unfinished(tasks)
    decreases |tasks|
  {
    if tasks != [] {
      var k := |tasks| - 1;
      UnfinishedAborted(tasks[..k]);
      assert AbortAll(tasks)[..k] == AbortAll(tasks[..k]);
    }
  }

  lemma UnfinishedNew(tasks: seq<Task>, t: Task)
    ensures Unfinished(tasks + [t]) == Unfinished(tasks) + if t.phase.Done? then 0 else 1
  {
    assert (tasks + [t])[..|tasks|] == tasks;
  }

  lemma {:induction false} CallsAppend(log: seq<Event>, id: nat, calls: seq<Call>, other: nat)
    ensures var more := seq(|calls|, i requires 0 <= i < |calls| => Event(id, calls[i]));
            CallsOf(log + more, other) == CallsOf(log, other) + if other == id then calls else []
    decreases |calls|
  {
    var more := seq(|calls|, i requires 0 <= i < |calls| => Event(id, calls[i]));
    if calls == [] {
      assert log + more == log;
    } else {
      var k := |calls| - 1;
      CallsAppend(log, id, calls[..k], other);
      assert (log + more)[..|log| + k] == log + seq(k, i requires 0 <= i < k => Event(id, calls[..k][i]));
      assert calls == calls[..k] + [calls[k]];
    }
  }

  lemma {:induction false} NoCallsOfNew(log: seq<Event>, id: nat)
    requires forall e <- log :: e.task < id
    ensures CallsOf(log, id) == []
  {
    if log != [] {
      NoCallsOfNew(log[..|log| - 1], id);
    }
  }

  /** One task moves on, having made some calls. */
  function Moved(s: State, id: nat, phase: Phase, calls: seq<Call>): State
    requires id < |s.tasks|
  {
    Record(if phase.Done? then Finish(s, id, phase.end) else Enter(s, id, phase), id, calls)
  }

  lemma MoveIsSafe(s: State, id: nat, phase: Phase, calls: seq<Call>)
    requires Safe(s) && InPhase(s, id, false)
    requires Accounted(s.tasks[id].phase, CallsOf(s.log, id)) ==> Accounted(phase, CallsOf(s.log, id) + calls)
    requires phase == Done(Cancelled) ==> s.tasks[id].aborting
    ensures Safe(Moved(s, id, phase, calls))
  {
    hide Accounted, CallsOf, Unfinished;
    var moved := Moved(s, id, phase, calls);
    assert forall other | PanicJoined(s.tasks, other) :: PanicJoined(moved.tasks, other);
    assert TaskSafe(s, id);
    UnfinishedUpdate(s.tasks, id, s.tasks[id].(phase := phase));
    forall i | 0 <= i < |moved.tasks| ensures TaskSafe(moved, i) {
      assert TaskSafe(s, i);
      CallsAppend(s.log, id, calls, i);
      assert CallsOf(s.log, i) + [] == CallsOf(s.log, i);
    }
  }

  lemma AbortIsSafe(s: State, listener: Listener)
    requires Safe(s) && !s.listener.Returned? && !listener.Accepting?
    requires listener != Returned(Finished) && listener != Returned(RuntimePanicked)
    ensures Safe(s.(listener := listener, tasks := AbortAll(s.tasks)))
  {
    hide Accounted, CallsOf, Unfinished;
    UnfinishedAborted(s.tasks);
    var after := s.(listener := listener, tasks := AbortAll(s.tasks));
    forall i | 0 <= i < |after.tasks| ensures TaskSafe(after, i) {
      assert TaskSafe(s, i);
    }
  }

  lemma AcceptIsSafe(s: State)
    requires Safe(s) && s.listener.Accepting?
    ensures Safe(Apply(s, Accept))
  {
    hide Unfinished;
    if s.free > 0 {
      var after := Apply(s, Accept);
      UnfinishedNew(s.tasks, Task(Handshaking, false, false));
      forall i | 0 <= i < |after.tasks| ensures TaskSafe(after, i) {
        if i < |s.tasks| {
          assert TaskSafe(s, i);
        } else {
          NoCallsOfNew(s.log, i);
        }
      }
    }
  }

  lemma JoinIsSafe(s: State, id: nat)
    requires Safe(s) && Enabled(s, Join(id))
    ensures Safe(Apply(s, Join(id)))
  {
    hide Accounted, CallsOf, Unfinished;
    assert TaskSafe(s, id);
    var joined := s.tasks[id := s.tasks[id].(joined := true)];
    UnfinishedUpdate(s.tasks, id, joined[id]);
    UnfinishedAborted(joined);
    var after := Apply(s, Join(id));
    assert s.tasks[id].phase.end.Panicked? ==> PanicJoined(after.tasks, id);
    forall i | 0 <= i < |after.tasks| ensures TaskSafe(after, i) {
      assert TaskSafe(s, i);
    }
  }

  /** Every step keeps the permits counted and every task's calls in order. */
  lemma StepIsSafe(s: State, step: Step)
    requires Safe(s) && Enabled(s, step)
    ensures Safe(Apply(s, step))
  {
    hide Safe, Unfinished, CallsOf;
    match step
    case Accept => AcceptIsSafe(s);
    case AcceptFails => AbortIsSafe(s, Returned(AcceptFailed));
    case Shutdown => AbortIsSafe(s, Draining);
    case Join(id) => JoinIsSafe(s, id);
    case AllJoined => AllJoinedIsSafe(s);
    case HandshakeSucceeds(id) => Moves(s, id, Authenticated, []);
    case HandshakeFails(id) => Moves(s, id, Done(Rejected), []);
    case HandshakeTimesOut(id) => Moves(s, id, Done(TimedOut), []);
    case ConnectionAdmitted(id, c) => Moves(s, id, Serving(c), [Admitted(c)]);
    case ConnectionDenied(id) => Moves(s, id, Done(Refused), [Denied]);
    case ServeEnds(id) => Moves(s, id, Drained(s.tasks[id].phase.claim), []);
    case Disconnect(id) => var c := s.tasks[id].phase.claim; Moves(s, id, Done(Served(c)), WithdrawalOf(c));
    case Panic(id) => Moves(s, id, Done(Panicked), []);
    case Cancel(id) => Moves(s, id, Done(Cancelled), []);
  }

  lemma Moves(s: State, id: nat, phase: Phase, calls: seq<Call>)
    requires Safe(s) && InPhase(s, id, false)
    requires forall h :: Accounted(s.tasks[id].phase, h) ==> Accounted(phase, h + calls)
    requires phase == Done(Cancelled) ==> s.tasks[id].aborting
    ensures Safe(Moved(s, id, phase, calls))
    ensures calls == [] ==>
              Moved(s, id, phase, calls) == if phase.Done? then Finish(s, id, phase.end) else Enter(s, id, phase)
  {
    hide Safe;
    MoveIsSafe(s, id, phase, calls);
    assert s.log + [] == s.log;
  }

  lemma AllJoinedIsSafe(s: State)
    requires Safe(s) && Enabled(s, AllJoined)
    ensures Safe(Apply(s, AllJoined))
  {
    hide Accounted, CallsOf, Unfinished;
    var after := Apply(s, AllJoined);
    forall i | 0 <= i < |after.tasks| ensures TaskSafe(after, i) {
      assert TaskSafe(s, i);
    }
  }

  lemma StartIsSafe()
    ensures Safe(START)
  {}

  lemma {:induction false} EveryRunIsSafe(from: State, steps: seq<Step>, to: State)
    requires Safe(from) && IsRun(from, steps, to)
    ensures Safe(to)
    decreases |steps|
  {
    hide Safe;
    if steps != [] {
      var k := |steps| - 1;
      var before :| IsRun(from, steps[..k], before) && Enabled(before, steps[k]) && to == Apply(before, steps[k]);
      EveryRunIsSafe(from, steps[..k], before);
      StepIsSafe(before, steps[k]);
    }
  }

  // --- Authentication comes first ------------------------------------------

  predicate PastHandshake(phase: Phase) {
    !phase.Handshaking? && phase != Done(Rejected) && phase != Done(TimedOut)
  }

  /** What the steps taken say about the phase a task is in now. */
  ghost predicate Remembered(steps: seq<Step>, s: State, id: nat) {
    && (id < |s.tasks| && s.tasks[id].phase.Authenticated? ==> HandshakeSucceeds(id) in steps)
    && (HandshakeFails(id) in steps ==> id < |s.tasks| && s.tasks[id].phase == Done(Rejected))
    && (HandshakeTimesOut(id) in steps ==> id < |s.tasks| && s.tasks[id].phase == Done(TimedOut))
    && (forall c :: ConnectionAdmitted(id, c) in steps ==>
          id < |s.tasks| && PastHandshake(s.tasks[id].phase) && !s.tasks[id].phase.Authenticated?)
  }

  ghost predicate AuthenticatedFirst(steps: seq<Step>) {
    forall k, id, c | 0 <= k < |steps| && steps[k] == ConnectionAdmitted(id, c) :: HandshakeSucceeds(id) in steps[..k]
  }

  lemma {:induction false} RunRemembers(steps: seq<Step>, to: State)
    requires IsRun(START, steps, to)
    ensures AuthenticatedFirst(steps) && forall id: nat :: Remembered(steps, to, id)
    decreases |steps|
  {
    if steps != [] {
      var k := |steps| - 1;
      var before :| IsRun(START, steps[..k], before) && Enabled(before, steps[k]) && to == Apply(before, steps[k]);
      RunRemembers(steps[..k], before);
      assert steps == steps[..k] + [steps[k]];
      forall id: nat ensures Remembered(steps, to, id) {
        RememberStep(steps[..k], before, steps[k], id);
      }
      forall j, id, c | 0 <= j < |steps| && steps[j] == ConnectionAdmitted(id, c)
        ensures HandshakeSucceeds(id) in steps[..j]
      {
        assert Remembered(steps[..k], before, id);
        assert j < k ==> steps[..k][j] == steps[j] && steps[..j] == steps[..k][..j];
      }
    }
  }

  lemma RememberStep(steps: seq<Step>, s: State, step: Step, id: nat)
    requires Remembered(steps, s, id) && Enabled(s, step)
    ensures Remembered(steps + [step], Apply(s, step), id)
  {}

  // --- The whole listener ---------------------------------------------------

  /** In every run: permits and unfinished tasks make 32; a claim is taken only
      after the same task's handshake succeeded; a task whose handshake failed or
      timed out makes no call; a task that serves to its end has withdrawn its
      claim exactly once; a panic is reported exactly when a joined task panicked;
      and after a normal return every task has ended and every permit is free. */
  lemma {:induction false} ListenerIsSafe(steps: seq<Step>, to: State)
    requires IsRun(START, steps, to)
    ensures to.free + Unfinished(to.tasks) == 32
    ensures AuthenticatedFirst(steps)
    ensures forall id: nat | HandshakeFails(id) in steps || HandshakeTimesOut(id) in steps ::
              id < |to.tasks| && CallsOf(to.log, id) == []
    ensures forall id: nat, c | id < |to.tasks| && to.tasks[id].phase == Done(Served(c)) ::
              CallsOf(to.log, id) ==
              if c.primary then [Admitted(c), Withdrawn(c), Cleared(c)] else [Admitted(c), Withdrawn(c)]
    ensures to.listener == Returned(RuntimePanicked) <==>
            exists id :: PanicJoined(to.tasks, id)
    ensures to.listener == Returned(Finished) ==>
            to.free == 32 && forall t <- to.tasks :: t.phase.Done? && t.joined
  {
    hide CallsOf, Unfinished;
    StartIsSafe();
    EveryRunIsSafe(START, steps, to);
    RunRemembers(steps, to);
    forall id: nat | HandshakeFails(id) in steps || HandshakeTimesOut(id) in steps
      ensures id < |to.tasks| && CallsOf(to.log, id) == []
    {
      assert Remembered(steps, to, id) && TaskSafe(to, id);
    }
    forall id: nat, c | id < |to.tasks| && to.tasks[id].phase == Done(Served(c))
      ensures CallsOf(to.log, id) ==
              if c.primary then [Admitted(c), Withdrawn(c), Cleared(c)] else [Admitted(c), Withdrawn(c)]
    {
      assert TaskSafe(to, id);
    }
    forall id | PanicJoined(to.tasks, id) ensures to.listener == Returned(RuntimePanicked) {
      assert TaskSafe(to, id);
    }
    if to.listener == Returned(Finished) {
      forall t <- to.tasks ensures t.phase.Done? && t.joined {
        var id: nat :| id < |to.tasks| && to.tasks[id] == t;
        assert TaskSafe(to, id);
      }
      NoneUnfinished(to.tasks);
    }
  }

  lemma {:induction false} NoneUnfinished(tasks: seq<Task>)
    requires forall t <- tasks :: t.phase.Done?
    ensures Unfinished(tasks) == 0
  {
    if tasks != [] {
      NoneUnfinished(tasks[..|tasks| - 1]);
    }
  }

  // --- Draining ends ---------------------------------------------------------

  function Rank(t: Task): nat {
    match t.phase
    case Handshaking => 5
    case Authenticated => 4
    case Serving(_) => 3
    case Drained(_) => 2
    case Done(_) => if t.joined then 0 else 1
  }

  function Ranks(tasks: seq<Task>): nat {
    if tasks == [] then 0 else Ranks(tasks[..|tasks| - 1]) + Rank(tasks[|tasks| - 1])
  }

  /** How many steps a listener that no longer accepts can still take. */
  function StepsLeft(s: State): nat {
    Ranks(s.tasks) + if s.listener.Returned? then 0 else 1
  }

  lemma {:induction false} RanksUpdate(tasks: seq<Task>, id: nat, t: Task)
    requires id < |tasks|
    ensures Ranks(tasks[id := t]) + Rank(tasks[id]) == Ranks(tasks) + Rank(t)
    decreases |tasks|
  {
    var k := |tasks| - 1;
    if id < k {
      RanksUpdate(tasks[..k], id, t);
      assert tasks[id := t][..k] == tasks[..k][id := t];
    } else {
      assert tasks[id := t][..k] == tasks[..k];
    }
  }

  lemma {:induction false} RanksAborted(tasks: seq<Task>)
    ensures Ranks(AbortAll(tasks)) == Ranks(tasks)
    decreases |tasks|
  {
    if tasks != [] {
      var k := |tasks| - 1;
      RanksAborted(tasks[..k]);
      assert AbortAll(tasks)[..k] == AbortAll(tasks[..k]);
    }
  }

  /** Once draining, every step is one of finitely many, and until the listener has
      returned there is always a step to take: it does return. */
  lemma DrainingEnds(s: State)
    requires Safe(s) && !s.listener.Accepting?
    ensures forall step | Enabled(s, step) ::
              StepsLeft(Apply(s, step)) < StepsLeft(s) && !Apply(s, step).listener.Accepting?
    ensures s.listener.Draining? ==> exists step :: Enabled(s, step)
  {
    hide Ranks, Accounted, CallsOf, Unfinished;
    forall step | Enabled(s, step)
      ensures StepsLeft(Apply(s, step)) < StepsLeft(s) && !Apply(s, step).listener.Accepting?
    {
      DrainStep(s, step);
    }
    if s.listener.Draining? && !Enabled(s, AllJoined) {
      var id: nat :| id < |s.tasks| && !s.tasks[id].joined;
      assert TaskSafe(s, id);
      match s.tasks[id].phase
      case Handshaking => assert Enabled(s, Cancel(id));
      case Serving(_) => assert Enabled(s, Cancel(id));
      case Authenticated => assert Enabled(s, ConnectionDenied(id));
      case Drained(_) => assert Enabled(s, Disconnect(id));
      case Done(_) => assert Enabled(s, Join(id));
    }
  }

  lemma DrainStep(s: State, step: Step)
    requires Safe(s) && !s.listener.Accepting? && Enabled(s, step)
    ensures StepsLeft(Apply(s, step)) < StepsLeft(s) && !Apply(s, step).listener.Accepting?
  {
    hide Ranks, Accounted, CallsOf, Unfinished;
    var after := Apply(s, step);
    if !step.AllJoined? {
      var id := step.task;
      assert TaskSafe(s, id);
      if step.Join? {
        RanksUpdate(s.tasks, id, s.tasks[id].(joined := true));
        RanksAborted(s.tasks[id := s.tasks[id].(joined := true)]);
      } else {
        RanksUpdate(s.tasks, id, after.tasks[id]);
        assert after.tasks == s.tasks[id := after.tasks[id]];
      }
    }
  }
}
