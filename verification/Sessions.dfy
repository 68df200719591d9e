/** Registry values: what one critical section of pkg/registry/registry.go does to the map of sessions. */
module SessionSpec {
  type PeerID = string
  type Time = int // nanoseconds

  /** One SessionState. `closes` counts the runs of close(ControlChan); Go panics on the second. */
  datatype Session = Session(peer: PeerID, connected: bool, lastHeartbeat: Time, closes: nat)

  /** `store` holds every session ever created, by identity; `mapped` is the manager's map. */
  datatype Registry<Id(==)> = Registry(store: map<Id, Session>, mapped: map<PeerID, Id>)

  const EMPTY: Registry<nat> := Registry(map[], map[])

  predicate IsMapped<Id>(r: Registry<Id>, id: Id) {
    id in r.store && r.store[id].peer in r.mapped && r.mapped[r.store[id].peer] == id
  }

  /** Each session is mapped under its own peer and never closed, or unmapped, closed exactly once and
      marked disconnected. */
  ghost predicate Conserved<Id>(r: Registry<Id>) {
    && (forall p | p in r.mapped :: r.mapped[p] in r.store && r.store[r.mapped[p]].peer == p)
    && (forall id | id in r.store :: Accounted(r, id))
  }

  predicate Accounted<Id>(r: Registry<Id>, id: Id)
    requires id in r.store
  {
    if IsMapped(r, id) then r.store[id].closes == 0 else r.store[id].closes == 1 && !r.store[id].connected
  }

  function Close<Id>(r: Registry<Id>, id: Id): Registry<Id>
    requires id in r.store
  {
    r.(store := r.store[id := r.store[id].(connected := false, closes := r.store[id].closes + 1)])
  }

  /** A session stored under its peer, the previous holder closed in the same critical section. */
  function Install<Id>(r: Registry<Id>, id: Id, s: Session): Registry<Id>
    requires s.peer in r.mapped ==> r.mapped[s.peer] in r.store
  {
    var closed := if s.peer in r.mapped then Close(r, r.mapped[s.peer]) else r;
    Registry(closed.store[id := s], closed.mapped[s.peer := id])
  }

  /** The legacy Register on any pointer at all, known to the manager or not: `s` is what it points to. */
  function Placed<Id>(r: Registry<Id>, id: Id, s: Session): Registry<Id>
    requires s.peer in r.mapped ==> r.mapped[s.peer] in r.store
  {
    var known := r.(store := r.store[id := s]);
    var closed := if s.peer in r.mapped then Close(known, r.mapped[s.peer]) else known;
    closed.(mapped := closed.mapped[s.peer := id])
  }

  function NewSession(peer: PeerID, now: Time): Session {
    Session(peer, true, now, 0)
  }

  function Unmap<Id>(r: Registry<Id>, peer: PeerID): Registry<Id>
    requires peer in r.mapped && r.mapped[peer] in r.store
  {
    var closed := Close(r, r.mapped[peer]);
    closed.(mapped := closed.mapped - {peer})
  }

  function Remove<Id>(r: Registry<Id>, peer: PeerID): Registry<Id>
    requires peer in r.mapped ==> r.mapped[peer] in r.store
  {
    if peer in r.mapped then Unmap(r, peer) else r
  }

  function RemoveIfCurrent<Id>(r: Registry<Id>, peer: PeerID, id: Id): Registry<Id>
    requires peer in r.mapped ==> r.mapped[peer] in r.store
  {
    if peer in r.mapped && r.mapped[peer] == id then Unmap(r, peer) else r
  }

  function MarkDisconnected<Id>(r: Registry<Id>, peer: PeerID): Registry<Id>
    requires peer in r.mapped ==> r.mapped[peer] in r.store
  {
    if peer in r.mapped
    then r.(store := r.store[r.mapped[peer] := r.store[r.mapped[peer]].(connected := false)])
    else r
  }

  function Touch<Id>(r: Registry<Id>, id: Id, now: Time): Registry<Id>
    requires id in r.store
  {
    r.(store := r.store[id := r.store[id].(lastHeartbeat := now)])
  }

  predicate Stale(s: Session, now: Time, maxAge: Time) {
    !s.connected || now - s.lastHeartbeat > maxAge
  }

  /** The sessions a sweep evicts. */
  predicate Evicted<Id>(r: Registry<Id>, id: Id, now: Time, maxAge: Time) {
    IsMapped(r, id) && Stale(r.store[id], now, maxAge)
  }

  /** The sweep of every peer but those in `todo`: the state in the middle of the loop. */
  ghost function Sweep<Id>(r: Registry<Id>, now: Time, maxAge: Time, todo: set<PeerID>): Registry<Id>
    requires forall p | p in r.mapped :: r.mapped[p] in r.store
  {
    Registry(
      map id | id in r.store ::
        if Evicted(r, id, now, maxAge) && r.store[id].peer !in todo
        then r.store[id].(connected := false, closes := r.store[id].closes + 1)
        else r.store[id],
      map p | p in r.mapped && (p in todo || !Stale(r.store[r.mapped[p]], now, maxAge)) :: r.mapped[p])
  }

  ghost function Cleanup<Id>(r: Registry<Id>, now: Time, maxAge: Time): Registry<Id>
    requires forall p | p in r.mapped :: r.mapped[p] in r.store
  {
    Sweep(r, now, maxAge, {})
  }

  lemma SweepStart<Id>(r: Registry<Id>, now: Time, maxAge: Time)
    requires Conserved(r)
    ensures Sweep(r, now, maxAge, r.mapped.Keys) == r
  {
    assert Sweep(r, now, maxAge, r.mapped.Keys).store == r.store;
  }

  /** One round of the sweep unmaps the visited peer's session exactly when it is stale. */
  lemma SweepStep<Id>(r: Registry<Id>, now: Time, maxAge: Time, todo: set<PeerID>, peer: PeerID)
    requires Conserved(r) && peer in r.mapped && peer in todo
    ensures var swept := Sweep(r, now, maxAge, todo);
            && peer in swept.mapped && swept.mapped[peer] == r.mapped[peer]
            && swept.store[r.mapped[peer]] == r.store[r.mapped[peer]]
            && Sweep(r, now, maxAge, todo - {peer})
               == if Stale(r.store[r.mapped[peer]], now, maxAge) then Unmap(swept, peer) else swept
  {
    var swept := Sweep(r, now, maxAge, todo);
    var next := Sweep(r, now, maxAge, todo - {peer});
    var want := if Stale(r.store[r.mapped[peer]], now, maxAge) then Unmap(swept, peer) else swept;
    assert next.store == want.store;
    assert next.mapped == want.mapped;
  }

  // ---- What every critical section keeps ----

  lemma InstallConserves<Id>(r: Registry<Id>, id: Id, s: Session)
    requires Conserved(r) && id !in r.store && s.closes == 0
    ensures Conserved(Install(r, id, s))
    ensures IsMapped(Install(r, id, s), id)
  {
    var r' := Install(r, id, s);
    forall i | i in r'.store
      ensures Accounted(r', i)
    {
      if i != id { assert r'.store[i].peer == r.store[i].peer && Accounted(r, i); }
    }
  }

  lemma UnmapConserves<Id>(r: Registry<Id>, peer: PeerID)
    requires Conserved(r) && peer in r.mapped
    ensures Conserved(Unmap(r, peer))
    ensures !IsMapped(Unmap(r, peer), r.mapped[peer])
  {
    var r' := Unmap(r, peer);
    forall i | i in r'.store
      ensures Accounted(r', i)
    {
      assert IsMapped(r', i) <==> IsMapped(r, i) && i != r.mapped[peer];
      assert Accounted(r, i);
    }
  }

  lemma UpdateConserves<Id>(r: Registry<Id>, id: Id, s: Session)
    requires Conserved(r) && id in r.store
    requires s.peer == r.store[id].peer && s.closes == r.store[id].closes && (s.connected ==> r.store[id].connected)
    ensures Conserved(r.(store := r.store[id := s]))
  {
    var r' := r.(store := r.store[id := s]);
    forall i | i in r'.store
      ensures Accounted(r', i)
    {
      assert IsMapped(r', i) == IsMapped(r, i) && Accounted(r, i);
    }
  }

  /** A sweep closes exactly the stale mapped sessions, once each, and keeps exactly the fresh ones. */
  lemma CleanupConserves<Id>(r: Registry<Id>, now: Time, maxAge: Time)
    requires Conserved(r)
    ensures Conserved(Cleanup(r, now, maxAge))
    ensures forall id | id in r.store ::
              IsMapped(Cleanup(r, now, maxAge), id) <==> IsMapped(r, id) && !Stale(r.store[id], now, maxAge)
    ensures forall id | id in r.store && !Evicted(r, id, now, maxAge) ::
              Cleanup(r, now, maxAge).store[id] == r.store[id]
  {
    var r' := Cleanup(r, now, maxAge);
    forall i | i in r'.store
      ensures IsMapped(r', i) <==> IsMapped(r, i) && !Stale(r.store[i], now, maxAge)
    {
      assert r'.store[i].peer == r.store[i].peer && Accounted(r, i);
    }
  }

  /** A session marked disconnected stays mapped and open, and goes with the next sweep of any age. */
  lemma MarkedGoesWithNextSweep<Id>(r: Registry<Id>, id: Id, now: Time, maxAge: Time)
    requires Conserved(r) && IsMapped(r, id)
    ensures var marked := MarkDisconnected(r, r.store[id].peer);
            && Conserved(marked) && IsMapped(marked, id)
            && !IsMapped(Cleanup(marked, now, maxAge), id) && Cleanup(marked, now, maxAge).store[id].closes == 1
  {
    var marked := MarkDisconnected(r, r.store[id].peer);
    UpdateConserves(r, id, r.store[id].(connected := false));
    CleanupConserves(marked, now, maxAge);
    assert Accounted(Cleanup(marked, now, maxAge), id);
  }

  /** A connected session touched at `t` is kept by every sweep up to t + maxAge, and by none after it. */
  lemma TouchBuysMaxAge<Id>(r: Registry<Id>, id: Id, t: Time, now: Time, maxAge: Time)
    requires Conserved(r) && IsMapped(r, id) && r.store[id].connected
    ensures IsMapped(Cleanup(Touch(r, id, t), now, maxAge), id) <==> now <= t + maxAge
  {
    UpdateConserves(r, id, r.store[id].(lastHeartbeat := t));
    CleanupConserves(Touch(r, id, t), now, maxAge);
  }

  /** Whoever registers, the record is stored as it came and nobody but the session it replaces is touched. */
  lemma InstallMeans<Id>(r: Registry<Id>, id: Id, s: Session, other: Id)
    requires Conserved(r) && id !in r.store && s.closes == 0 && other in r.store
    ensures var r' := Install(r, id, s);
            && r'.store[id] == s && r'.mapped[s.peer] == id && r'.mapped.Keys == r.mapped.Keys + {s.peer}
            && (IsMapped(r', other) <==> IsMapped(r, other) && r.store[other].peer != s.peer)
            && r'.store[other] == (if IsMapped(r, other) && r.store[other].peer == s.peer
                                   then Session(s.peer, false, r.store[other].lastHeartbeat, 1) else r.store[other])
  {
    assert Accounted(r, other);
  }

  /** A session registered at t is kept by every sweep up to t + maxAge, and by none after it. */
  lemma RegistrationBuysMaxAge<Id>(r: Registry<Id>, id: Id, peer: PeerID, t: Time, now: Time, maxAge: Time)
    requires Conserved(r) && id !in r.store
    ensures IsMapped(Cleanup(Install(r, id, NewSession(peer, t)), now, maxAge), id) <==> now <= t + maxAge
  {
    InstallConserves(r, id, NewSession(peer, t));
    CleanupConserves(Install(r, id, NewSession(peer, t)), now, maxAge);
  }

  lemma PlacedNew<Id>(r: Registry<Id>, id: Id, s: Session)
    requires Conserved(r) && id !in r.store
    ensures Placed(r, id, s) == Install(r, id, s)
  {
    assert Placed(r, id, s).store == Install(r, id, s).store;
  }

  /** The legacy entry point keeps every session accounted for if and only if the pointer is new to the
      manager and its channel still open. Any other pointer, mapped, removed before or closed by its maker,
      ends up in the map closed, and its removal closes the channel again. */
  lemma PlacedConservesExactly<Id>(r: Registry<Id>, id: Id, s: Session)
    requires Conserved(r) && (id in r.store ==> s == r.store[id])
    ensures Conserved(Placed(r, id, s)) <==> id !in r.store && s.closes == 0
    ensures var r' := Placed(r, id, s);
            && IsMapped(r', id)
            && (!Conserved(r') ==> r'.store[id].closes >= 1 && Remove(r', s.peer).store[id].closes >= 2)
  {
    var r' := Placed(r, id, s);
    assert IsMapped(r', id);
    if id in r.store {
      assert Accounted(r, id);
      assert !Accounted(r', id);
    } else {
      PlacedNew(r, id, s);
      if s.closes == 0 { InstallConserves(r, id, s); } else { assert !Accounted(r', id); }
    }
  }

  /** So registering a pointer a second time breaks conservation, whatever became of its session. */
  lemma ReRegisteringSamePointerBreaks<Id>(r: Registry<Id>, id: Id)
    requires Conserved(r) && id in r.store
    ensures var s := r.store[id];
            var r' := Placed(r, id, s);
            !Conserved(r') && IsMapped(r', id) && r'.store[id].closes == 1 && Remove(r', s.peer).store[id].closes == 2
  {
    PlacedConservesExactly(r, id, r.store[id]);
    assert Accounted(r, id);
  }

  /** Close is public and lookups hand out the live pointer. A call to it from outside the manager is a first
      close if and only if the session is mapped. It is never accounted for: a mapped session stays in the map
      closed, and its removal closes it again. */
  lemma DirectCloseExactly<Id>(r: Registry<Id>, id: Id)
    requires Conserved(r) && id in r.store
    ensures var s, r' := r.store[id], Close(r, id);
            && (r'.store[id].closes == 1 <==> IsMapped(r, id))
            && !Conserved(r')
            && (IsMapped(r, id) ==> IsMapped(r', id) && Remove(r', s.peer).store[id].closes == 2)
  {
    assert Accounted(r, id);
    assert !Accounted(Close(r, id), id);
  }
}

/** The SessionManager of pkg/registry/registry.go; each method is one run under sm.mu. */
module Sessions {
  import opened Common
  import opened SessionSpec

  datatype Error = ErrSessionNotFound | ErrInvalidHandshake

  class SessionState {
    const peerID: PeerID
    var connected: bool
    var lastHeartbeat: Time
    var controlOpen: bool // ControlChan not closed yet

    ghost function Value(): Session
      reads this
    {
      Session(peerID, connected, lastHeartbeat, if controlOpen then 0 else 1)
    }

    constructor (peerID: PeerID, now: Time)
      ensures Value() == NewSession(peerID, now)
      ensures this.peerID == peerID && connected && lastHeartbeat == now && controlOpen
    {
      this.peerID := peerID;
      connected, lastHeartbeat, controlOpen := true, now, true;
    }

    /** close(ControlChan) panics on a closed channel, so the caller must know it is open. The manager's own
        methods do; what a call from elsewhere does to the manager is DirectCloseExactly. */
    method Close()
      requires controlOpen
      modifies this
      ensures Value() == old(Value()).(connected := false, closes := 1)
    {
      connected := false;
      controlOpen := false;
    }

    method TouchHeartbeat(now: Time)
      modifies this
      ensures Value() == old(Value()).(lastHeartbeat := now)
    {
      lastHeartbeat := now;
    }
  }

  class SessionManager {
    var sessions: map<PeerID, SessionState>
    ghost var created: set<SessionState>

    ghost function Abs(): Registry<SessionState>
      reads this, created
    {
      Registry(map s | s in created :: s.Value(), sessions)
    }

    /** The class invariant is conservation of the abstract registry. */
    ghost predicate Valid()
      reads this, created
    {
      Conserved(Abs())
    }

    /** What the invariant says of the heap: mapped sessions are known, under their own peer, and open. */
    lemma MappedIsOpen(peerID: PeerID)
      requires Valid() && peerID in sessions
      ensures sessions[peerID] in created
      ensures sessions[peerID].peerID == peerID && sessions[peerID].controlOpen
      ensures Abs().store[sessions[peerID]] == sessions[peerID].Value()
    {
      assert Abs().mapped[peerID] in Abs().store;
      assert Abs().store[sessions[peerID]] == sessions[peerID].Value();
      assert IsMapped(Abs(), sessions[peerID]) && Accounted(Abs(), sessions[peerID]);
    }

    constructor ()
      ensures Valid() && Abs() == Registry(map[], map[])
    {
      sessions := map[];
      created := {};
    }

    /** Closes the session mapped for a peer; the caller then unmaps or replaces it. */
    method CloseCurrent(peerID: PeerID)
      requires Valid() && peerID in sessions
      modifies created
      ensures old(sessions[peerID] in Abs().store)
      ensures Abs() == Close(old(Abs()), sessions[peerID])
    {
      MappedIsOpen(peerID);
      sessions[peerID].Close();
    }

    /** Close and delete, the tail of every removal. */
    method Detach(peerID: PeerID)
      requires Valid() && peerID in sessions
      modifies this, created
      ensures Valid() && created == old(created)
      ensures sessions.Keys == old(sessions).Keys - {peerID} && |sessions| == |old(sessions)| - 1
      ensures old(sessions[peerID] in Abs().store)
      ensures Abs() == Unmap(old(Abs()), peerID)
    {
      MappedIsOpen(peerID);
      ghost var want := Unmap(Abs(), peerID);
      UnmapConserves(Abs(), peerID);
      CloseCurrent(peerID);
      sessions := sessions - {peerID};
      assert sessions.Keys == old(sessions).Keys - {peerID};
      assert Abs() == want;
    }

    /** The shared tail of both registration entry points. */
    method Place(state: SessionState)
      requires Valid()
      modifies this, created
      ensures created == old(created) + {state}
      ensures state !in old(created) ==> state.Value() == old(state.Value())
      ensures old(state.peerID in sessions ==> Abs().mapped[state.peerID] in Abs().store)
      ensures Abs() == Placed(old(Abs()), state, old(state.Value()))
    {
      ghost var want := Placed(Abs(), state, state.Value());
      if state.peerID in sessions {
        CloseCurrent(state.peerID);
        assert state in created ==> state.Value() == Abs().store[state];
      }
      Store(state);
      assert Abs().store == want.store;
    }

    method Store(state: SessionState)
      modifies this
      ensures created == old(created) + {state}
      ensures Abs() == Registry(old(Abs()).store[state := state.Value()], old(sessions)[state.peerID := state])
    {
      sessions := sessions[state.peerID := state];
      created := created + {state};
      assert Abs().store == old(Abs()).store[state := state.Value()];
    }

    method RegisterSession(peerID: PeerID, handshake: Option<string>, now: Time)
      returns (state: SessionState?, err: Option<Error>)
      requires Valid()
      modifies this, created
      ensures Valid()
      ensures handshake.None? ==> state == null && err == Some(ErrInvalidHandshake) && Abs() == old(Abs())
      ensures handshake.Some? ==> state != null && fresh(state) && err == None
                                  && created == old(created) + {state}
                                  && Abs() == Install(old(Abs()), state, NewSession(peerID, now))
      ensures handshake.Some? ==> state.connected && state.lastHeartbeat == now && state.controlOpen && state.peerID == peerID
    {
      if handshake.None? {
        return null, Some(ErrInvalidHandshake);
      }
      state := new SessionState(peerID, now);
      err := None;
      InstallConserves(Abs(), state, NewSession(peerID, now));
      PlacedNew(Abs(), state, NewSession(peerID, now));
      Place(state);
    }

    /** The legacy entry point, on any pointer. It never panics itself; what it leaves behind is sound if
        and only if the pointer was new to the manager and its channel open. */
    method Register(session: SessionState?) returns (err: Option<Error>)
      requires Valid()
      modifies this, created
      ensures session == null ==> err == Some(ErrInvalidHandshake) && Abs() == old(Abs()) && created == old(created)
      ensures session != null ==> err == None && created == old(created) + {session}
                                  && Abs() == Placed(old(Abs()), session, old(session.Value()))
      ensures Valid() <==> session == null || (session !in old(created) && old(session.controlOpen))
    {
      if session == null {
        return Some(ErrInvalidHandshake);
      }
      PlacedConservesExactly(Abs(), session, session.Value());
      Place(session);
      err := None;
    }

    method Get(peerID: PeerID) returns (state: SessionState?)
      requires Valid()
      ensures state != null <==> peerID in sessions
      ensures state != null ==> state == sessions[peerID] && state.controlOpen && state.peerID == peerID
    {
      if peerID in sessions { MappedIsOpen(peerID); }
      state := if peerID in sessions then sessions[peerID] else null;
    }

    method Remove(peerID: PeerID) returns (err: Option<Error>)
      requires Valid()
      modifies this, created
      ensures Valid() && created == old(created)
      ensures err == if peerID in old(sessions) then None else Some(ErrSessionNotFound)
      ensures Abs() == SessionSpec.Remove(old(Abs()), peerID)
    {
      if peerID !in sessions {
        return Some(ErrSessionNotFound);
      }
      Detach(peerID);
      err := None;
    }

    method RemoveIfCurrent(peerID: PeerID, session: SessionState) returns (err: Option<Error>)
      requires Valid()
      modifies this, created
      ensures Valid() && created == old(created)
      ensures err == if peerID in old(sessions) then None else Some(ErrSessionNotFound)
      ensures Abs() == SessionSpec.RemoveIfCurrent(old(Abs()), peerID, session)
    {
      if peerID !in sessions {
        return Some(ErrSessionNotFound);
      }
      if sessions[peerID] != session {
        return None;
      }
      Detach(peerID);
      err := None;
    }

    method MarkDisconnected(peerID: PeerID)
      requires Valid()
      modifies created
      ensures Valid()
      ensures Abs() == SessionSpec.MarkDisconnected(old(Abs()), peerID)
    {
      if peerID in sessions {
        MappedIsOpen(peerID);
        UpdateConserves(Abs(), sessions[peerID], sessions[peerID].Value().(connected := false));
        sessions[peerID].connected := false;
      }
    }

    method Heartbeat(peerID: PeerID, now: Time) returns (err: Option<Error>)
      requires Valid()
      modifies created
      ensures Valid()
      ensures err == if peerID in sessions then None else Some(ErrSessionNotFound)
      ensures Abs() == if peerID in sessions then Touch(old(Abs()), sessions[peerID], now) else old(Abs())
    {
      if peerID !in sessions {
        return Some(ErrSessionNotFound);
      }
      MappedIsOpen(peerID);
      UpdateConserves(Abs(), sessions[peerID], sessions[peerID].Value().(lastHeartbeat := now));
      sessions[peerID].TouchHeartbeat(now);
      err := None;
    }

    /** The body of the sweep for one peer of the map. */
    method EvictIfStale(peerID: PeerID, now: Time, maxAge: Time) returns (evicted: bool)
      requires Valid() && peerID in sessions
      modifies this, created
      ensures Valid() && created == old(created)
      ensures sessions.Keys == if evicted then old(sessions).Keys - {peerID} else old(sessions).Keys
      ensures |sessions| == if evicted then |old(sessions)| - 1 else |old(sessions)|
      ensures old(sessions[peerID] in Abs().store)
      ensures evicted == Stale(old(Abs().store[sessions[peerID]]), now, maxAge)
      ensures Abs() == if evicted then Unmap(old(Abs()), peerID) else old(Abs())
    {
      var state := sessions[peerID];
      MappedIsOpen(peerID);
      evicted := !state.connected || now - state.lastHeartbeat > maxAge;
      if evicted {
        Detach(peerID);
      }
    }

    /** Deletes while ranging over the map; the iteration order is arbitrary. */
    method Cleanup(now: Time, maxAge: Time) returns (removed: nat)
      requires Valid()
      modifies this, created
      ensures Valid() && created == old(created)
      ensures removed == |old(sessions)| - |sessions|
      ensures Abs() == SessionSpec.Cleanup(old(Abs()), now, maxAge)
    {
      removed := 0;
      var todo := sessions.Keys;
      ghost var before := Abs();
      SweepStart(before, now, maxAge);
      while todo != {}
        invariant Valid() && created == old(created)
        invariant todo <= before.mapped.Keys && todo <= sessions.Keys
        invariant removed + |sessions| == |before.mapped|
        invariant Abs() == Sweep(before, now, maxAge, todo)
        decreases todo
      {
        var peerID :| peerID in todo;
        SweepStep(before, now, maxAge, todo, peerID);
        var evicted := EvictIfStale(peerID, now, maxAge);
        if evicted {
          removed := removed + 1;
        }
        todo := todo - {peerID};
      }
    }
  }
}
