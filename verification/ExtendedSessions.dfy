/** Sessions, method catalogues and breakers together: pkg/registry/session_ext.go. */
module ExtendedSessions {
  import opened Common
  import opened MethodIndex
  import opened Methods
  import opened Sessions
  import SessionSpec
  import Breaker

  datatype HealthCheckResult = HealthCheckResult(
    sessionHealthy: bool, lastHeartbeat: Option<SessionSpec.Time>, breakerState: Breaker.State, methodCount: nat)

  class ExtendedSessionManager {
    const sessionManager: SessionManager
    const methodRegistry: MethodRegistry
    const cbConfig: Breaker.Config
    var circuitBreakers: map<PeerID, Breaker.CircuitBreaker>

    ghost predicate Valid()
      reads this, sessionManager, sessionManager.created, methodRegistry
    {
      sessionManager.Valid() && methodRegistry.Valid()
    }

    /** A session is registered and no open breaker stands in the way. */
    ghost predicate Healthy(peerID: PeerID)
      reads this, sessionManager, circuitBreakers.Values
    {
      && peerID in sessionManager.sessions
      && (peerID in circuitBreakers ==> circuitBreakers[peerID].state != Breaker.Open)
    }

    constructor (sessionManager: SessionManager, methodRegistry: MethodRegistry, cbConfig: Option<Breaker.Config>)
      requires sessionManager.Valid() && methodRegistry.Valid()
      ensures Valid() && circuitBreakers == map[]
      ensures this.sessionManager == sessionManager && this.methodRegistry == methodRegistry
      ensures this.cbConfig == if cbConfig.Some? then cbConfig.value else Breaker.Config(5, 10_000_000_000, 1, 2, 3)
    {
      this.sessionManager, this.methodRegistry := sessionManager, methodRegistry;
      this.cbConfig := if cbConfig.Some? then cbConfig.value else Breaker.Config(5, 10_000_000_000, 1, 2, 3);
      circuitBreakers := map[];
    }

    /** A breaker is made for a new peer; a re-registered peer keeps the one it has, whatever its state.
        As with the legacy Register underneath, the pointer must be new and open for the result to be sound. */
    method RegisterSession(session: SessionState?, now: SessionSpec.Time) returns (err: Option<Error>)
      requires Valid()
      modifies this, sessionManager, sessionManager.created
      ensures Valid() <==> session == null || (session !in old(sessionManager.created) && old(session.controlOpen))
      ensures err == if session == null then Some(ErrInvalidHandshake) else None
      ensures session == null ==> circuitBreakers == old(circuitBreakers) && sessionManager.Abs() == old(sessionManager.Abs())
      ensures session != null ==>
        && sessionManager.Abs() == SessionSpec.Placed(old(sessionManager.Abs()), session, old(session.Value()))
        && circuitBreakers.Keys == old(circuitBreakers.Keys) + {session.peerID}
        && (forall p | p in old(circuitBreakers) :: circuitBreakers[p] == old(circuitBreakers[p]))
        && (session.peerID !in old(circuitBreakers) ==>
              && fresh(circuitBreakers[session.peerID])
              && circuitBreakers[session.peerID].config == Breaker.Normalize(cbConfig)
              && circuitBreakers[session.peerID].Abs() == Breaker.Fresh(now))
    {
      err := sessionManager.Register(session);
      if err.Some? {
        return;
      }
      if session.peerID !in circuitBreakers {
        var cb := new Breaker.CircuitBreaker(cbConfig, now);
        circuitBreakers := circuitBreakers[session.peerID := cb];
      }
    }

    /** Catalogue and breaker go only if there was a session to remove. */
    method RemoveSession(peerID: PeerID) returns (err: Option<Error>)
      requires Valid()
      modifies this, sessionManager, sessionManager.created, methodRegistry
      ensures Valid()
      ensures err == if peerID in old(sessionManager.sessions) then None else Some(ErrSessionNotFound)
      ensures sessionManager.Abs() == SessionSpec.Remove(old(sessionManager.Abs()), peerID)
      ensures methodRegistry.history == old(methodRegistry.history) + if err.None? then [Removed(peerID)] else []
      ensures circuitBreakers == if err.None? then old(circuitBreakers) - {peerID} else old(circuitBreakers)
    {
      err := sessionManager.Remove(peerID);
      if err.Some? {
        return;
      }
      DropResources(peerID);
    }

    method DropResources(peerID: PeerID)
      requires Valid()
      modifies this, methodRegistry
      ensures Valid() && sessionManager.Abs() == old(sessionManager.Abs())
      ensures methodRegistry.history == old(methodRegistry.history) + [Removed(peerID)]
      ensures circuitBreakers == old(circuitBreakers) - {peerID}
    {
      methodRegistry.RemovePeer(peerID);
      circuitBreakers := circuitBreakers - {peerID};
    }

    method UpdateMethods(peerID: PeerID, methods: seq<MethodDescriptor>) returns (err: Option<Error>)
      requires Valid()
      modifies methodRegistry
      ensures Valid()
      ensures err == if peerID in sessionManager.sessions then None else Some(ErrSessionNotFound)
      ensures methodRegistry.history == old(methodRegistry.history) + if err.None? then [Updated(peerID, methods)] else []
    {
      var session := sessionManager.Get(peerID);
      if session == null {
        return Some(ErrSessionNotFound);
      }
      methodRegistry.UpdateMethods(peerID, methods);
      err := None;
    }

    method HealthCheck(peerID: PeerID) returns (result: HealthCheckResult)
      requires Valid()
      ensures result.sessionHealthy && result.breakerState != Breaker.Open <==> Healthy(peerID)
      ensures result.sessionHealthy <==> peerID in sessionManager.sessions
      ensures result.lastHeartbeat ==
        if peerID in sessionManager.sessions then Some(sessionManager.sessions[peerID].lastHeartbeat) else None
      ensures result.breakerState ==
        if peerID in circuitBreakers then circuitBreakers[peerID].state else Breaker.Closed
      ensures result.methodCount == |CatalogOf(methodRegistry.history, peerID)|
    {
      var session := sessionManager.Get(peerID);
      var state := if peerID in circuitBreakers then circuitBreakers[peerID].state else Breaker.Closed;
      var methods := methodRegistry.GetPeerMethods(peerID);
      result := HealthCheckResult(
        session != null, if session != null then Some(session.lastHeartbeat) else None, state, if methods.Some? then |methods.value| else 0);
    }

    /** The sessions come in arbitrary order. */
    method ListHealthyPeers() returns (healthy: seq<PeerID>)
      requires Valid()
      ensures NoDuplicates(healthy)
      ensures forall p :: p in healthy <==> Healthy(p)
    {
      healthy := [];
      var todo := sessionManager.sessions.Keys;
      while todo != {}
        invariant todo <= sessionManager.sessions.Keys
        invariant NoDuplicates(healthy)
        invariant forall p :: p in healthy <==> Healthy(p) && p !in todo
        decreases todo
      {
        var peerID :| peerID in todo;
        var health := HealthCheck(peerID);
        if health.sessionHealthy && health.breakerState != Breaker.Open {
          healthy := healthy + [peerID];
        }
        todo := todo - {peerID};
      }
    }

    /** Exactly the healthy ones among the peers whose last update lists the method, in the index's order.
        A peer whose session was swept keeps its catalogue and is filtered out here. */
    method FindHealthyPeersWithMethod(methodName: string) returns (healthy: seq<PeerID>)
      requires Valid()
      ensures forall p :: p in healthy <==> Offers(methodRegistry.history, p, methodName) && Healthy(p)
      ensures Ascending(methodRegistry.history, healthy)
    {
      var allPeers := methodRegistry.FindPeersWithMethod(methodName);
      healthy := [];
      for i := 0 to |allPeers|
        invariant forall p :: p in healthy <==> p in allPeers[..i] && Healthy(p)
        invariant Ascending(methodRegistry.history, healthy)
      {
        var peerID := allPeers[i];
        var health := HealthCheck(peerID);
        if health.sessionHealthy && health.breakerState != Breaker.Open {
          AscendingAppend(methodRegistry.history, allPeers, i, healthy);
          healthy := healthy + [peerID];
        }
        assert allPeers[..i + 1] == allPeers[..i] + [peerID];
      }
      assert allPeers[..|allPeers|] == allPeers;
    }
  }

  lemma AscendingAppend(history: seq<Event>, all: seq<PeerID>, i: nat, kept: seq<PeerID>)
    requires i < |all| && Ascending(history, all) && Ascending(history, kept)
    requires forall p | p in kept :: p in all[..i]
    ensures Ascending(history, kept + [all[i]])
  {
    forall q | q in kept ensures Latest(history, q) < Latest(history, all[i]) {
      var j :| 0 <= j < i && all[j] == q;
    }
  }

  /** Ascending order leaves one list per set of peers, so the healthy peers keep the relative order of the
      full list and none repeats. */
  lemma HealthyIsSubsequence(history: seq<Event>, all: seq<PeerID>, healthy: seq<PeerID>)
    requires Ascending(history, all) && Ascending(history, healthy) && forall p | p in healthy :: p in all
    ensures NoDuplicates(healthy) && healthy == Keep(all, healthy)
  {
    KeepAscending(history, all, healthy);
    SortedUnique(history, healthy, Keep(all, healthy));
  }

  /** The members of `kept` in the order of `all`. */
  function Keep(all: seq<PeerID>, kept: seq<PeerID>): seq<PeerID> {
    if all == [] then [] else (if all[0] in kept then [all[0]] else []) + Keep(all[1..], kept)
  }

  lemma {:induction false} KeepAscending(history: seq<Event>, all: seq<PeerID>, kept: seq<PeerID>)
    requires Ascending(history, all)
    ensures Ascending(history, Keep(all, kept))
    ensures forall p :: p in Keep(all, kept) <==> p in all && p in kept
  {
    if all != [] {
      HeadAndTail(all);
      KeepAscending(history, all[1..], kept);
      if all[0] in kept {
        AscendingCons(history, all[0], Keep(all[1..], kept));
      } else {
        assert [] + Keep(all[1..], kept) == Keep(all[1..], kept);
      }
    }
  }
}
