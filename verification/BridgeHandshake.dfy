/** The handshake from both ends: what the bridge accepts, and what the client of
    scripts/run_authenticated_desktop_bridge_smoke.py finds in the answer. */
module BridgeHandshake {
  import opened Bytes
  import opened Encoders
  import opened CanonicalJson
  import opened JsonText
  import opened JsonReader
  import opened BridgeProtocol
  import opened BridgeSession
  import opened BridgeRun

  /** A parameter that is a non-empty string of at most `limit` bytes. */
  predicate HasString(params: Json, key: Text, limit: nat) {
    var text := AsString(Get(params, key));
    text.Some? && 0 < |text.value| <= limit
  }

  /** The same, without control characters. */
  predicate HasIdentifier(params: Json, key: Text) {
    HasString(params, key, MAX_BRIDGE_IDENTIFIER_BYTES) && !HasControl(AsString(Get(params, key)).value)
  }

  predicate HasPid(params: Json, key: Text, pid: nat) {
    pid > 0 && AsPid(Get(params, key)) == Some(pid)
  }

  /** What a first handshake must say, in any order of checking. */
  predicate Acceptable(world: World, n: nat, params: Json) {
    && params.Object? && OnlyKeys(params.entries, HandshakeKeys())
    && HasString(params, SessionSecretKey(), 64)
    && |AsString(Get(params, SessionSecretKey())).value| == 64 && AllHex(AsString(Get(params, SessionSecretKey())).value)
    && HasPid(params, ParentPidKey(), world.parentProcessId(n)) && HasPid(params, ChildPidKey(), world.processId)
    && HasIdentifier(params, ParentStartMarkerKey()) && HasIdentifier(params, ProcessGenerationKey())
    && HasIdentifier(params, ProjectRootKey()) && HasIdentifier(params, AppStateRootKey())
    && AsString(Get(params, ProjectRootKey())) == Some(world.projectRoot)
    && AsString(Get(params, AppStateRootKey())) == Some(world.appStateRoot)
    && world.sandboxed(n) && (world.fixtureMode || world.parentSigned(n, world.parentProcessId(n)))
  }

  lemma StringGiven(params: Json, key: Text)
    ensures RequiredString(params, key).Fine? <==> HasString(params, key, 1024)
    ensures BoundedString(params, key).Fine? <==> HasIdentifier(params, key)
    ensures BoundedString(params, key).Fine? ==> AsString(Get(params, key)) == Some(BoundedString(params, key).value)
    ensures RequiredString(params, key).Fine? ==> AsString(Get(params, key)) == Some(RequiredString(params, key).value)
  {
    hide HasControl;
  }

  lemma PidGiven(params: Json, key: Text, refusal: Refusal)
    ensures NonZeroPid(params, key, refusal).Fine? ==> HasPid(params, key, NonZeroPid(params, key, refusal).value)
    ensures forall pid: nat | HasPid(params, key, pid) :: NonZeroPid(params, key, refusal) == Fine(pid)
  {}

  /** A handshake succeeds exactly when none did before and everything it says is
      acceptable; the binding is then what it said. */
  lemma {:induction false} HandshakeAcceptedExactly(world: World, n: nat, bound: bool, params: Json)
    ensures HandshakeBinding(world, n, bound, params).Fine? <==> !bound && Acceptable(world, n, params)
    ensures HandshakeBinding(world, n, bound, params).Fine? ==>
              var b := HandshakeBinding(world, n, bound, params).value;
              && HasPid(params, ParentPidKey(), b.parentPid) && HasPid(params, ChildPidKey(), b.childPid)
              && AsString(Get(params, ParentStartMarkerKey())) == Some(b.parentStartMarker)
              && AsString(Get(params, ProcessGenerationKey())) == Some(b.processGeneration)
              && AsString(Get(params, ProjectRootKey())) == Some(b.projectRoot)
              && AsString(Get(params, AppStateRootKey())) == Some(b.appStateRoot)
              && AsString(Get(params, SessionSecretKey())).Some?
              && b.sessionSecret == LowerCase(AsString(Get(params, SessionSecretKey())).value)
  {
    hide IsUtf8;
    StringGiven(params, SessionSecretKey());
    StringGiven(params, ParentStartMarkerKey());
    StringGiven(params, ProcessGenerationKey());
    StringGiven(params, ProjectRootKey());
    StringGiven(params, AppStateRootKey());
    PidGiven(params, ParentPidKey(), InvalidParent);
    PidGiven(params, ChildPidKey(), InvalidChild);
    hide RequiredString, BoundedString, NonZeroPid, ChildStartMarker, LowerCase, OnlyKeys, HandshakeKeys, HasControl,
         AsPid, AllHex, Get, SessionSecretKey, ParentPidKey, ParentStartMarkerKey, ChildPidKey, ProcessGenerationKey,
         ProjectRootKey, AppStateRootKey, HasIdentifier;
  }

  lemma BindingKeyOrder()
    ensures Before(AppStateRootKey(), ChildPidKey()) && Before(ChildPidKey(), ChildStartMarkerKey())
    ensures Before(ChildStartMarkerKey(), ParentPidKey()) && Before(ParentPidKey(), ParentStartMarkerKey())
    ensures Before(ParentStartMarkerKey(), ProcessGenerationKey()) && Before(ProcessGenerationKey(), ProjectRootKey())
  {
    hide IsUtf8;
    AuthKeysAscend();
    FirstLetters();
    hide AppStateRootKey, ChildPidKey, ChildStartMarkerKey, ParentPidKey;
    BeforeAt(AppStateRootKey(), ChildPidKey(), 0);
    BeforeAt(ChildStartMarkerKey(), ParentPidKey(), 0);
  }

  lemma FirstLetters()
    ensures |AppStateRootKey()| > 0 && AppStateRootKey()[0] == 97 && |ChildPidKey()| > 0 && ChildPidKey()[0] == 99
    ensures |ChildStartMarkerKey()| > 0 && ChildStartMarkerKey()[0] == 99 && |ParentPidKey()| > 0 && ParentPidKey()[0] == 112
  {
    hide IsUtf8;
  }

  lemma BindingKeysAscend(b: Binding)
    ensures DistinctEntries(BindingJson(b).entries)
  {
    BindingKeyOrder();
    hide AppStateRootKey, ChildPidKey, ChildStartMarkerKey, ParentPidKey, ParentStartMarkerKey,
         ProcessGenerationKey, ProjectRootKey, Before, Whole;
    assert AdjacentAscending(BindingJson(b).entries);
    AscendingFromAdjacent(BindingJson(b).entries);
  }

  lemma BindingFields(b: Binding)
    ensures var j := BindingJson(b);
            && Get(j, AppStateRootKey()) == Some(String(b.appStateRoot)) && Get(j, ChildPidKey()) == Some(Whole(b.childPid))
            && Get(j, ChildStartMarkerKey()) == Some(String(b.childStartMarker))
            && Get(j, ParentPidKey()) == Some(Whole(b.parentPid))
            && Get(j, ParentStartMarkerKey()) == Some(String(b.parentStartMarker))
            && Get(j, ProcessGenerationKey()) == Some(String(b.processGeneration))
            && Get(j, ProjectRootKey()) == Some(String(b.projectRoot))
  {
    hide IsUtf8;
    BindingKeysAscend(b);
    var e := BindingJson(b).entries;
    LookupAt(e, 0); LookupAt(e, 1); LookupAt(e, 2); LookupAt(e, 3); LookupAt(e, 4); LookupAt(e, 5); LookupAt(e, 6);
  }

  lemma PidIsWhole(params: Json, key: Text, pid: nat)
    requires HasPid(params, key, pid)
    ensures Get(params, key) == Some(Whole(pid))
  {}

  /** The binding in the answer repeats every parameter but the secret, and adds a
      child marker that is not empty: the client's check of it always passes. */
  lemma {:induction false} HandshakeIsEchoed(world: World, n: nat, bound: bool, params: Json)
    requires HandshakeBinding(world, n, bound, params).Fine?
    ensures var b := HandshakeBinding(world, n, bound, params).value;
            && (forall key | key in HandshakeKeys() && key != SessionSecretKey() ::
                  Get(BindingJson(b), key) == Get(params, key))
            && Get(BindingJson(b), ChildStartMarkerKey()) == Some(String(b.childStartMarker)) && b.childStartMarker != []
  {
    hide IsUtf8, HandshakeBinding, BindingJson, Get, HasPid, HasControl, Whole, Acceptable,
         ParentPidKey, ParentStartMarkerKey, ChildPidKey, ProcessGenerationKey, ProjectRootKey, AppStateRootKey,
         SessionSecretKey, ChildStartMarkerKey;
    var b := HandshakeBinding(world, n, bound, params).value;
    HandshakeAcceptedExactly(world, n, bound, params);
    HandshakeBindingSound(world, n, bound, params);
    BindingFields(b);
    PidIsWhole(params, ParentPidKey(), b.parentPid);
    PidIsWhole(params, ChildPidKey(), b.childPid);
  }
}
