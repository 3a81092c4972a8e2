/** Stopping the session gateway of crates/unpin-cli/src/gateway_session.rs: called
    by `shutdown` and again when the runtime is dropped. */
module GatewayRuntime {
  import opened GatewayListener

  datatype StopError = ListenerFailed(outcome: Outcome) | ReconcileFailed | SocketRemains | DirectoryRemains

  datatype StopResult = Stopped | Failed(error: StopError)

  /** What removing a path can give. */
  datatype Removal = Removed | NotFound | RemovalFailed

  datatype Action = SendShutdown | JoinThread | Reconcile | RemoveSocket | RemoveDirectory

  /** How the world answers, should it be asked. */
  datatype Answers = Answers(joined: Outcome, reconciled: bool, socket: Removal, directory: Removal)

  /** The first failure of those that were met, in the order they were met. */
  function FirstFailure(listener: Outcome, reconciled: bool, socket: Removal, directory: Removal): StopResult {
    if listener != Finished then Failed(ListenerFailed(listener))
    else if !reconciled then Failed(ReconcileFailed)
    else if socket.RemovalFailed? then Failed(SocketRemains)
    else if directory.RemovalFailed? then Failed(DirectoryRemains)
    else Stopped
  }

  class GatewaySessionRuntime {
    /** The sender and the thread handle, each taken at most once. */
    var shutdown: bool
    var thread: bool
    /** Everything done to the outside, in order. */
    ghost var actions: seq<Action>

    constructor ()
      ensures shutdown && thread && actions == []
    {
      shutdown, thread, actions := true, true, [];
    }

    /** The listener is told, then joined, then its lease reconciled, each at most
        once in the life of the runtime; the files go last, whatever failed before.
        Only when the socket alone could not be removed is its directory left. */
    method Stop(world: Answers) returns (result: StopResult)
      modifies this
      ensures !shutdown && !thread
      ensures actions == old(actions)
        + (if old(shutdown) then [SendShutdown] else [])
        + (if old(thread) then [JoinThread] else [])
        + (if old(shutdown) || old(thread) then [Reconcile] else [])
        + [RemoveSocket]
        + (if result == Failed(SocketRemains) then [] else [RemoveDirectory])
      ensures result == FirstFailure(
                          if old(thread) then world.joined else Finished,
                          old(shutdown) || old(thread) ==> world.reconciled,
                          world.socket, world.directory)
    {
      var runtimeWasActive := shutdown || thread;
      if shutdown {
        shutdown := false;
        actions := actions + [SendShutdown];
      }
      var listenerResult := Finished;
      if thread {
        thread := false;
        actions := actions + [JoinThread];
        listenerResult := world.joined;
      }
      var reconciliation := true;
      if runtimeWasActive {
        actions := actions + [Reconcile];
        reconciliation := world.reconciled;
      }
      result := if listenerResult != Finished then Failed(ListenerFailed(listenerResult))
      else if !reconciliation then Failed(ReconcileFailed)
      else Stopped;
      actions := actions + [RemoveSocket];
      if world.socket.RemovalFailed? && result.Stopped? {
        return Failed(SocketRemains);
      }
      actions := actions + [RemoveDirectory];
      if world.directory.RemovalFailed? && result.Stopped? {
        return Failed(DirectoryRemains);
      }
    }
  }

  /** `shutdown` consumes the runtime, so dropping it stops it again: the listener
      is told, joined and reconciled once all the same, and the drop is left with
      the files alone. */
  method ShutdownThenDrop(first: Answers, second: Answers)
    returns (result: StopResult, dropped: StopResult, ghost actions: seq<Action>)
    ensures result == FirstFailure(first.joined, first.reconciled, first.socket, first.directory)
    ensures dropped == FirstFailure(Finished, true, second.socket, second.directory)
    ensures |actions| > 4 && actions[..4] == [SendShutdown, JoinThread, Reconcile, RemoveSocket]
    ensures forall i | 4 <= i < |actions| :: actions[i] == RemoveSocket || actions[i] == RemoveDirectory
  {
    var runtime := new GatewaySessionRuntime();
    result := runtime.Stop(first);
    ghost var stop := [SendShutdown, JoinThread, Reconcile, RemoveSocket];
    ghost var more := if result == Failed(SocketRemains) then [] else [RemoveDirectory];
    assert runtime.actions == stop + more;
    dropped := runtime.Stop(second);
    ghost var last := if dropped == Failed(SocketRemains) then [] else [RemoveDirectory];
    assert runtime.actions == stop + (more + [RemoveSocket] + last);
    actions := runtime.actions;
  }

  /** The listener's failure comes first, then the lease's, then the socket's, then the
      directory's. */
  lemma FirstFailureIs(listener: Outcome, reconciled: bool, socket: Removal, directory: Removal)
    ensures var r := FirstFailure(listener, reconciled, socket, directory);
            && (r == Stopped <==>
                  listener == Finished && reconciled && socket != RemovalFailed && directory != RemovalFailed)
            && (r == Failed(ListenerFailed(listener)) <==> listener != Finished)
            && (r == Failed(ReconcileFailed) <==> listener == Finished && !reconciled)
            && (r == Failed(SocketRemains) <==> listener == Finished && reconciled && socket == RemovalFailed)
            && (r == Failed(DirectoryRemains) <==>
                  listener == Finished && reconciled && socket != RemovalFailed && directory == RemovalFailed)
  {}
}
