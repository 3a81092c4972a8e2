/** What the listener of crates/unpin-cli/src/gateway_session.rs does for those who
    connect: whom it takes, that each can be served, and why it ends. */
module GatewayLiveness {
  import opened GatewayListener

  /** The tasks that have not ended yet. */
  ghost function Living(tasks: seq<Task>): set<nat> {
    set i: nat | i < |tasks| && !tasks[i].phase.Done?
  }

  lemma {:induction false} LivingCount(tasks: seq<Task>)
    ensures |Living(tasks)| == Unfinished(tasks)
    decreases |tasks|
  {
    if tasks == [] {
      assert Living(tasks) == {};
    } else {
      var k := |tasks| - 1;
      var front := tasks[..k];
      LivingCount(front);
      assert Living(tasks) == Living(front) + if tasks[k].phase.Done? then {} else {k};
    }
  }

  /** A connection is taken, as one new task that has yet to authenticate, exactly when
      fewer than 32 tasks live; otherwise it is dropped and nothing changes. */
  lemma AcceptTakesOne(steps: seq<Step>, s: State)
    requires IsRun(START, steps, s) && s.listener.Accepting?
    ensures Enabled(s, Accept) && s.free == 32 - |Living(s.tasks)|
    ensures Apply(s, Accept) ==
            if |Living(s.tasks)| < 32
            then State(s.free - 1, s.tasks + [Task(Handshaking, false, false)], s.log, Accepting)
            else s
  {
    hide Unfinished, Living, IsRun;
    StartIsSafe();
    EveryRunIsSafe(START, steps, s);
    LivingCount(s.tasks);
  }

  lemma RunGoesOn(from: State, steps: seq<Step>, s: State, step: Step)
    requires IsRun(from, steps, s) && Enabled(s, step)
    ensures IsRun(from, steps + [step], Apply(s, step))
  {
    hide Enabled, Apply;
    assert (steps + [step])[..|steps|] == steps && (steps + [step])[|steps|] == step;
  }

  /** The steps of a connection that is served to its end, as task `id`. */
  function ServedSteps(id: nat, claim: Claim): seq<Step> {
    [Accept, HandshakeSucceeds(id), ConnectionAdmitted(id, claim), ServeEnds(id), Disconnect(id)]
  }

  /** What the registry and the notifier see of it. */
  function ServedCalls(id: nat, claim: Claim): seq<Event> {
    [Event(id, Admitted(claim)), Event(id, Withdrawn(claim))]
    + if claim.primary then [Event(id, Cleared(claim))] else []
  }

  lemma FiveSteps(from: State, a: State, b: State, c: State, d: State, steps: seq<Step>)
    requires |steps| == 5
    requires Enabled(from, steps[0]) && a == Apply(from, steps[0])
    requires Enabled(a, steps[1]) && b == Apply(a, steps[1])
    requires Enabled(b, steps[2]) && c == Apply(b, steps[2])
    requires Enabled(c, steps[3]) && d == Apply(c, steps[3])
    requires Enabled(d, steps[4])
    ensures IsRun(from, steps, Apply(d, steps[4]))
  {
    hide Enabled, Apply;
    hide IsRun;
    Nowhere(from);
    RunGoesOn(from, [], from, steps[0]);
    assert [] + [steps[0]] == [steps[0]];
    RunGoesOn(from, [steps[0]], a, steps[1]);
    assert [steps[0]] + [steps[1]] == [steps[0], steps[1]];
    RunGoesOn(from, [steps[0], steps[1]], b, steps[2]);
    assert [steps[0], steps[1]] + [steps[2]] == [steps[0], steps[1], steps[2]];
    RunGoesOn(from, [steps[0], steps[1], steps[2]], c, steps[3]);
    assert [steps[0], steps[1], steps[2]] + [steps[3]] == [steps[0], steps[1], steps[2], steps[3]];
    RunGoesOn(from, [steps[0], steps[1], steps[2], steps[3]], d, steps[4]);
    assert [steps[0], steps[1], steps[2], steps[3]] + [steps[4]] == steps;
  }

  lemma Nowhere(from: State)
    ensures IsRun(from, [], from)
  {}

  /** Whoever connects while a permit is free can be served: from every safe state that
      accepts, whatever claim the registry gives, some run does exactly that, and leaves
      everybody else and the permits as they were. */
  lemma AnybodyCanBeServed(s: State, claim: Claim)
    requires Safe(s) && s.listener.Accepting? && s.free > 0
    ensures var id := |s.tasks|;
            IsRun(s, ServedSteps(id, claim),
                  s.(tasks := s.tasks + [Task(Done(Served(claim)), false, false)], log := s.log + ServedCalls(id, claim)))
  {
    hide Safe, IsRun;
    var id := |s.tasks|;
    var steps := ServedSteps(id, claim);
    var a := Apply(s, steps[0]);
    var b := Apply(a, steps[1]);
    var c := Apply(b, steps[2]);
    var d := Apply(c, steps[3]);
    FiveSteps(s, a, b, c, d, steps);
    var e := Apply(d, steps[4]);
    assert e.tasks == s.tasks + [Task(Done(Served(claim)), false, false)];
    assert e.log == s.log + ServedCalls(id, claim);
  }

  lemma AbortedWhenStopped(steps: seq<Step>, s: State, id: nat)
    requires IsRun(START, steps, s) && id < |s.tasks|
    ensures s.tasks[id].aborting <==> !s.listener.Accepting?
  {
    StartIsSafe();
    EveryRunIsSafe(START, steps, s);
    hide IsRun, CallsOf, Unfinished, Accounted;
    assert TaskSafe(s, id);
  }

  /** In every run: while the listener accepts, a waiting task can come to the end of its
      wait and is never cancelled; once it does not, a waiting task can only be cancelled
      or panic. */
  lemma WhatAWaitingTaskCanDo(steps: seq<Step>, s: State, id: nat)
    requires IsRun(START, steps, s) && id < |s.tasks|
    ensures var phase, accepting := s.tasks[id].phase, s.listener.Accepting?;
            && (Enabled(s, HandshakeSucceeds(id)) <==> phase.Handshaking? && accepting)
            && (Enabled(s, HandshakeFails(id)) <==> phase.Handshaking? && accepting)
            && (Enabled(s, HandshakeTimesOut(id)) <==> phase.Handshaking? && accepting)
            && (Enabled(s, ServeEnds(id)) <==> phase.Serving? && accepting)
            && (Enabled(s, Cancel(id)) <==> (phase.Handshaking? || phase.Serving?) && !accepting)
  {
    AbortedWhenStopped(steps, s, id);
    hide IsRun, Safe, Unfinished, CallsOf, Apply;
  }

  /** A task that does not wait runs on, stopped or not; a panic is possible until the end,
      and an end is joined once. */
  lemma WhatARunningTaskCanDo(s: State, id: nat, claim: Claim)
    requires id < |s.tasks|
    ensures var phase := s.tasks[id].phase;
            && (Enabled(s, ConnectionAdmitted(id, claim)) <==> phase.Authenticated?)
            && (Enabled(s, ConnectionDenied(id)) <==> phase.Authenticated?)
            && (Enabled(s, Disconnect(id)) <==> phase.Drained?)
            && (Enabled(s, Panic(id)) <==> !phase.Done?)
            && (Enabled(s, Join(id)) <==> phase.Done? && !s.tasks[id].joined && !s.listener.Returned?)
  {}

  /** Why a listener is where it is: it drains or returns normally only when told to
      stop, and reports a failed accept exactly when there was one. */
  ghost predicate Explained(steps: seq<Step>, s: State) {
    && (s.listener.Accepting? ==> Shutdown !in steps && AcceptFails !in steps)
    && (s.listener.Draining? ==> Shutdown in steps && AcceptFails !in steps)
    && (s.listener == Returned(Finished) ==> Shutdown in steps && AcceptFails !in steps)
    && (s.listener == Returned(AcceptFailed) <==> AcceptFails in steps)
  }

  lemma ExplainedStep(steps: seq<Step>, s: State, step: Step)
    requires Explained(steps, s) && Enabled(s, step)
    ensures Explained(steps + [step], Apply(s, step))
  {}

  lemma {:induction false} EndIsExplained(steps: seq<Step>, to: State)
    requires IsRun(START, steps, to)
    ensures Explained(steps, to)
    decreases |steps|
  {
    if steps != [] {
      var k := |steps| - 1;
      var before :| IsRun(START, steps[..k], before) && Enabled(before, steps[k]) && to == Apply(before, steps[k]);
      EndIsExplained(steps[..k], before);
      ExplainedStep(steps[..k], before, steps[k]);
      assert steps == steps[..k] + [steps[k]];
    }
  }

  /** Every end of a task has its step: nobody is refused, rejected, timed out or called
      panicked who was not. */
  ghost predicate EndsByStep(steps: seq<Step>, s: State, id: nat) {
    id < |s.tasks| ==>
      && (s.tasks[id].phase == Done(Rejected) ==> HandshakeFails(id) in steps)
      && (s.tasks[id].phase == Done(TimedOut) ==> HandshakeTimesOut(id) in steps)
      && (s.tasks[id].phase == Done(Refused) ==> ConnectionDenied(id) in steps)
      && (s.tasks[id].phase == Done(Panicked) ==> Panic(id) in steps)
      && (s.tasks[id].phase == Done(Cancelled) ==> Cancel(id) in steps)
      && (s.tasks[id].phase.Done? && s.tasks[id].phase.end.Served? ==> Disconnect(id) in steps)
  }

  lemma EndsStep(steps: seq<Step>, s: State, step: Step, id: nat)
    requires EndsByStep(steps, s, id) && Enabled(s, step)
    ensures EndsByStep(steps + [step], Apply(s, step), id)
  {}

  lemma {:induction false} EveryEndHasItsStep(steps: seq<Step>, to: State, id: nat)
    requires IsRun(START, steps, to)
    ensures EndsByStep(steps, to, id)
    decreases |steps|
  {
    if steps != [] {
      var k := |steps| - 1;
      var before :| IsRun(START, steps[..k], before) && Enabled(before, steps[k]) && to == Apply(before, steps[k]);
      EveryEndHasItsStep(steps[..k], before, id);
      EndsStep(steps[..k], before, steps[k], id);
      assert steps == steps[..k] + [steps[k]];
    }
  }
}
