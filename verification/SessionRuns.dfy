/** Safety of the session protocol over whole runs. */
module SessionRuns {
  import opened Common
  import opened SessionSpec
  import opened SessionProtocol

  /** A finite schedule of enabled steps. */
  ghost predicate Runs(v: Variant, w: World, acts: seq<Action>)
    requires Inv(v, w)
    decreases |acts|
  {
    acts == [] || (Enabled(v, w, acts[0]) && (NextKeepsInv(v, w, acts[0]); Runs(v, Next(v, w, acts[0]), acts[1..])))
  }

  ghost function After(v: Variant, w: World, acts: seq<Action>): World
    requires Inv(v, w) && Runs(v, w, acts)
    decreases |acts|
  {
    if acts == [] then w else NextKeepsInv(v, w, acts[0]); After(v, Next(v, w, acts[0]), acts[1..])
  }

  lemma {:induction false} RunKeepsInv(v: Variant, w: World, acts: seq<Action>)
    requires Inv(v, w) && Runs(v, w, acts)
    ensures Inv(v, After(v, w, acts))
    decreases |acts|
  {
    if acts != [] {
      NextKeepsInv(v, w, acts[0]);
      RunKeepsInv(v, Next(v, w, acts[0]), acts[1..]);
    }
  }

  /** Conservation: after any run from start-up, a session is mapped under its peer with its channel open,
      or unmapped with its channel closed exactly once, and readDone carried at most one value. */
  lemma SessionsConserved(v: Variant, now: Time, acts: seq<Action>)
    requires Runs(v, Start(now), acts)
    ensures var w := After(v, Start(now), acts);
            && (forall id | id in w.reg.store ::
                  if IsMapped(w.reg, id) then w.reg.store[id].closes == 0
                  else w.reg.store[id].closes == 1 && !w.reg.store[id].connected)
            && (forall p | p in w.reg.mapped :: IsMapped(w.reg, w.reg.mapped[p]) && w.reg.store[w.reg.mapped[p]].peer == p)
            && (forall i | 0 <= i < |w.handlers| :: w.handlers[i].taken <= w.handlers[i].sent <= 1)
            && w.wg == Live(w.handlers) + if w.accepting then 1 else 0
  {
    RunKeepsInv(v, Start(now), acts);
    var w := After(v, Start(now), acts);
    assert forall id | id in w.reg.store :: Accounted(w.reg, id);
    forall i | 0 <= i < |w.handlers| ensures w.handlers[i].sent <= 1 {
      assert HandlerOk(v, w.reg, w.handlers[i]);
    }
  }

  // ---- Who may unmap a session ----

  /** The steps that take a mapped session out of the map. */
  predicate Cause(w: World, a: Action, sid: nat)
    requires sid in w.reg.store
  {
    var s := w.reg.store[sid];
    match a
    case Register(_, peer) => peer == s.peer
    case ApiRegister(made) => made.peer == s.peer
    case ApiRemove(peer) => peer == s.peer
    case SweepTick(maxAge) => Stale(s, w.now, maxAge)
    case Deregister(h) => h < |w.handlers| && w.handlers[h].sid == Some(sid)
    case _ => false
  }

  lemma RegistryLeavesExactly(w: World, a: Action, sid: nat)
    requires Conserved(w.reg) && Stored(w) && OnRegistry(a) && IsMapped(w.reg, sid)
    requires (a.Deliver? ==> a.h < |w.handlers|) && (a.ApiTouch? ==> a.id in w.reg.store)
    ensures sid in RegistryAfter(w, a).store
    ensures RegistryAfter(w, a).store[sid].peer == w.reg.store[sid].peer
    ensures IsMapped(RegistryAfter(w, a), sid) <==> !Cause(w, a, sid)
  {
    if a.SweepTick? { CleanupConserves(w.reg, w.now, a.maxAge); }
  }

  lemma CreatedLeavesExactly(w: World, s: Session, sid: nat)
    requires Conserved(w.reg) && IsMapped(w.reg, sid) && sid != w.nextSid
    ensures var r := Created(w, s).reg;
            sid in r.store && r.store[sid].peer == w.reg.store[sid].peer
            && (IsMapped(r, sid) <==> s.peer != w.reg.store[sid].peer)
  {
  }

  lemma RemovedLeavesExactly(w: World, h: nat, sid: nat)
    requires Conserved(w.reg) && Stored(w) && IsMapped(w.reg, sid) && h < |w.handlers| && w.handlers[h].sid.Some?
    ensures var r := Removed(w, h).reg;
            sid in r.store && r.store[sid].peer == w.reg.store[sid].peer
            && (IsMapped(r, sid) <==> w.handlers[h].sid.value != sid)
  {
  }

  lemma NextLeavesExactly(v: Variant, w: World, a: Action, sid: nat)
    requires Inv(v, w) && Stored(w) && Enabled(v, w, a) && IsMapped(w.reg, sid)
    ensures sid in NextRegistry(w, a).store
    ensures NextRegistry(w, a).store[sid].peer == w.reg.store[sid].peer
    ensures IsMapped(NextRegistry(w, a), sid) <==> !Cause(w, a, sid)
  {
    if OnRegistry(a) {
      RegistryLeavesExactly(w, a, sid);
    } else if a.Register? || a.ApiRegister? {
      CreatedLeavesExactly(w, if a.Register? then NewSession(a.peer, w.now) else a.s, sid);
    } else if a.Deregister? {
      RemovedLeavesExactly(w, a.h, sid);
    }
  }

  /** A step unmaps a mapped session exactly when it is one of its causes. */
  lemma LeavesMapExactly(v: Variant, w: World, a: Action, sid: nat)
    requires Inv(v, w) && Stored(w) && Enabled(v, w, a) && IsMapped(w.reg, sid)
    ensures sid in Next(v, w, a).reg.store
    ensures Next(v, w, a).reg.store[sid].peer == w.reg.store[sid].peer
    ensures IsMapped(Next(v, w, a).reg, sid) <==> !Cause(w, a, sid)
  {
    NextRegistryIs(v, w, a);
    NextLeavesExactly(v, w, a, sid);
  }

  lemma NextEvolves(v: Variant, w: World, a: Action)
    requires Inv(v, w) && Stored(w) && Enabled(v, w, a)
    ensures Evolves(w.reg, NextRegistry(w, a))
  {
    if OnRegistry(a) { RegistryAfterOk(v, w, a); }
  }

  /** Once unmapped, never mapped again: every registration makes a new session. */
  lemma StaysUnmapped(v: Variant, w: World, a: Action, sid: nat)
    requires Inv(v, w) && Stored(w) && Enabled(v, w, a) && sid in w.reg.store && !IsMapped(w.reg, sid)
    ensures sid in Next(v, w, a).reg.store && !IsMapped(Next(v, w, a).reg, sid)
  {
    NextRegistryIs(v, w, a);
    NextEvolves(v, w, a);
  }

  lemma StaysStored(v: Variant, w: World, a: Action, sid: nat)
    requires Inv(v, w) && Stored(w) && Enabled(v, w, a) && sid in w.reg.store
    ensures sid in Next(v, w, a).reg.store && Next(v, w, a).reg.store[sid].peer == w.reg.store[sid].peer
  {
    NextRegistryIs(v, w, a);
    NextEvolves(v, w, a);
  }

  /** Some step of the run was a cause for this session at the moment it ran. */
  ghost predicate Provoked(v: Variant, w: World, acts: seq<Action>, sid: nat)
    requires Inv(v, w) && Runs(v, w, acts) && sid in w.reg.store
    decreases |acts|
  {
    acts != [] &&
    (Cause(w, acts[0], sid) ||
     (NextKeepsInv(v, w, acts[0]); StaysStored(v, w, acts[0], sid);
      Provoked(v, Next(v, w, acts[0]), acts[1..], sid)))
  }

  /** Survival: a mapped session is still mapped after a run exactly when no step of the run was one of:
      a registration for its peer, a Remove of its peer, a sweep that saw it stale, its own handler's removal. */
  lemma {:induction false} SurvivesExactly(v: Variant, w: World, acts: seq<Action>, sid: nat)
    requires Inv(v, w) && Runs(v, w, acts) && IsMapped(w.reg, sid)
    ensures IsMapped(After(v, w, acts).reg, sid) <==> !Provoked(v, w, acts, sid)
    decreases |acts|
  {
    if acts != [] {
      NextKeepsInv(v, w, acts[0]);
      LeavesMapExactly(v, w, acts[0], sid);
      var w1 := Next(v, w, acts[0]);
      if IsMapped(w1.reg, sid) {
        SurvivesExactly(v, w1, acts[1..], sid);
      } else {
        UnmappedForever(v, w1, acts[1..], sid);
      }
    }
  }

  lemma {:induction false} UnmappedForever(v: Variant, w: World, acts: seq<Action>, sid: nat)
    requires Inv(v, w) && Runs(v, w, acts) && sid in w.reg.store && !IsMapped(w.reg, sid)
    ensures sid in After(v, w, acts).reg.store && !IsMapped(After(v, w, acts).reg, sid)
    decreases |acts|
  {
    if acts != [] {
      NextKeepsInv(v, w, acts[0]);
      StaysUnmapped(v, w, acts[0], sid);
      UnmappedForever(v, Next(v, w, acts[0]), acts[1..], sid);
    }
  }

  // ---- A replaced handler is harmless ----

  /** The steps of one connection: its handler, its read loop and its yamux session. */
  predicate OfConnection(a: Action, h: nat) {
    match a
    case Abort(i) => i == h
    case Leave(i, _) => i == h
    case CloseStreams(i) => i == h
    case Drain(i) => i == h
    case Deregister(i) => i == h
    case Finish(i) => i == h
    case Deliver(i, _) => i == h
    case ReadFail(i) => i == h
    case YamuxClose(i) => i == h
    case _ => false
  }

  lemma ReplacedStepIsHarmless(v: Variant, w: World, a: Action, h: nat)
    requires Inv(v, w) && Stored(w) && Enabled(v, w, a) && h < |w.handlers| && OfConnection(a, h)
    requires w.handlers[h].sid.Some? && !IsMapped(w.reg, w.handlers[h].sid.value)
    ensures var w' := Next(v, w, a);
            && h < |w'.handlers| && w'.handlers[h].sid == w.handlers[h].sid
            && w'.reg.mapped == w.reg.mapped
            && w'.reg.store.Keys == w.reg.store.Keys
            && forall id | id in w.reg.store && id != w.handlers[h].sid.value :: w'.reg.store[id] == w.reg.store[id]
  {
    assert HandlerOk(v, w.reg, w.handlers[h]);
  }

  /** However many steps a connection whose session was replaced or removed still takes, the map and
      every mapped session stay exactly as they were: the successor is neither closed nor unmapped. */
  lemma {:induction false} ReplacedHandlerIsHarmless(v: Variant, w: World, acts: seq<Action>, h: nat)
    requires Inv(v, w) && Runs(v, w, acts) && h < |w.handlers|
    requires w.handlers[h].sid.Some? && w.handlers[h].sid.value in w.reg.store
    requires !IsMapped(w.reg, w.handlers[h].sid.value)
    requires forall k | 0 <= k < |acts| :: OfConnection(acts[k], h)
    ensures var w' := After(v, w, acts);
            && w'.reg.mapped == w.reg.mapped
            && forall id | IsMapped(w.reg, id) :: IsMapped(w'.reg, id) && w'.reg.store[id] == w.reg.store[id]
    decreases |acts|
  {
    if acts != [] {
      NextKeepsInv(v, w, acts[0]);
      StaysUnmapped(v, w, acts[0], w.handlers[h].sid.value);
      ReplacedStepIsHarmless(v, w, acts[0], h);
      ReplacedHandlerIsHarmless(v, Next(v, w, acts[0]), acts[1..], h);
    }
  }

  // ---- Heartbeats ----

  /** What a delivered message does to the sessions: a heartbeat that names the connection's own peer stamps
      that session with the present time, and any other message does nothing. */
  lemma DeliverExactly(v: Variant, w: World, h: nat, msg: Message, sid: nat)
    requires Inv(v, w) && Stored(w) && Enabled(v, w, Deliver(h, msg)) && w.handlers[h].sid == Some(sid)
    ensures sid in w.reg.store
    ensures var own := msg == Heartbeat(Some(w.reg.store[sid].peer));
            && Next(v, w, Deliver(h, msg)).reg.mapped == w.reg.mapped
            && Next(v, w, Deliver(h, msg)).reg.store
               == if own then w.reg.store[sid := w.reg.store[sid].(lastHeartbeat := w.now)] else w.reg.store
  {
    assert HandlerOk(v, w.reg, w.handlers[h]);
  }

  /** The step shows that the session's node is alive: a heartbeat naming the node arrives on its connection, or
      an API caller touches the session. */
  predicate Beats(w: World, a: Action, sid: nat)
    requires sid in w.reg.store
  {
    || a == ApiTouch(sid)
    || (a.Deliver? && a.h < |w.handlers| && w.handlers[a.h].sid == Some(sid)
        && a.msg == Heartbeat(Some(w.reg.store[sid].peer)))
  }

  lemma RegistryBeat(v: Variant, w: World, a: Action, sid: nat)
    requires Inv(v, w) && Stored(w) && Enabled(v, w, a) && OnRegistry(a) && sid in w.reg.store
    ensures sid in RegistryAfter(w, a).store
    ensures RegistryAfter(w, a).store[sid].lastHeartbeat
            == if Beats(w, a, sid) then w.now else w.reg.store[sid].lastHeartbeat
  {
    if a.Deliver? { assert HandlerOk(v, w.reg, w.handlers[a.h]); }
  }

  lemma NextBeat(v: Variant, w: World, a: Action, sid: nat)
    requires Inv(v, w) && Stored(w) && Enabled(v, w, a) && sid in w.reg.store
    ensures sid in NextRegistry(w, a).store
    ensures NextRegistry(w, a).store[sid].lastHeartbeat
            == if Beats(w, a, sid) then w.now else w.reg.store[sid].lastHeartbeat
  {
    if OnRegistry(a) { RegistryBeat(v, w, a, sid); }
  }

  lemma BeatStep(v: Variant, w: World, a: Action, sid: nat)
    requires Inv(v, w) && Stored(w) && Enabled(v, w, a) && sid in w.reg.store
    ensures sid in Next(v, w, a).reg.store
    ensures Next(v, w, a).reg.store[sid].lastHeartbeat
            == if Beats(w, a, sid) then w.now else w.reg.store[sid].lastHeartbeat
  {
    NextRegistryIs(v, w, a);
    NextBeat(v, w, a, sid);
  }

  /** The time of the last such step of a run. */
  ghost function LastBeat(v: Variant, w: World, acts: seq<Action>, sid: nat, otherwise: Time): Time
    requires Inv(v, w) && Runs(v, w, acts) && sid in w.reg.store
    decreases |acts|
  {
    if acts == [] then otherwise
    else
      NextKeepsInv(v, w, acts[0]); StaysStored(v, w, acts[0], sid);
      LastBeat(v, Next(v, w, acts[0]), acts[1..], sid, if Beats(w, acts[0], sid) then w.now else otherwise)
  }

  /** Over every run a session's heartbeat is the time its node last showed to be alive, and nothing else moves it. */
  lemma {:induction false} HeartbeatIsLastBeat(v: Variant, w: World, acts: seq<Action>, sid: nat)
    requires Inv(v, w) && Runs(v, w, acts) && sid in w.reg.store
    ensures sid in After(v, w, acts).reg.store
    ensures After(v, w, acts).reg.store[sid].lastHeartbeat
            == LastBeat(v, w, acts, sid, w.reg.store[sid].lastHeartbeat)
    decreases |acts|
  {
    if acts != [] {
      NextKeepsInv(v, w, acts[0]);
      BeatStep(v, w, acts[0], sid);
      HeartbeatIsLastBeat(v, Next(v, w, acts[0]), acts[1..], sid);
    }
  }

  /** The run leaves the session to itself: no registration, removal or mark of its peer, no deregistration by
      its handler, and every sweep comes within its age limit of the last sign of life, counted from `beat`. */
  ghost predicate KeptAlive(v: Variant, w: World, acts: seq<Action>, sid: nat, beat: Time)
    requires Inv(v, w) && Runs(v, w, acts) && sid in w.reg.store
    decreases |acts|
  {
    acts != [] ==>
      && acts[0] != ApiMark(w.reg.store[sid].peer)
      && (if acts[0].SweepTick? then w.now - beat <= acts[0].maxAge else !Cause(w, acts[0], sid))
      && (NextKeepsInv(v, w, acts[0]); StaysStored(v, w, acts[0], sid);
          KeptAlive(v, Next(v, w, acts[0]), acts[1..], sid, if Beats(w, acts[0], sid) then w.now else beat))
  }

  /** Such a session is never evicted. The signs of life are the run's own deliveries and touches. */
  lemma {:induction false} LiveSessionKept(v: Variant, w: World, acts: seq<Action>, sid: nat)
    requires Inv(v, w) && Runs(v, w, acts) && IsMapped(w.reg, sid) && w.reg.store[sid].connected
    requires KeptAlive(v, w, acts, sid, w.reg.store[sid].lastHeartbeat)
    ensures IsMapped(After(v, w, acts).reg, sid) && After(v, w, acts).reg.store[sid].connected
    decreases |acts|
  {
    if acts != [] {
      NextKeepsInv(v, w, acts[0]);
      LeavesMapExactly(v, w, acts[0], sid);
      FlagExactly(v, w, acts[0], sid);
      BeatStep(v, w, acts[0], sid);
      LiveSessionKept(v, Next(v, w, acts[0]), acts[1..], sid);
    }
  }

  lemma RegistryFlag(w: World, a: Action, sid: nat)
    requires Conserved(w.reg) && Stored(w) && OnRegistry(a) && IsMapped(w.reg, sid)
    requires (a.Deliver? ==> a.h < |w.handlers|) && (a.ApiTouch? ==> a.id in w.reg.store)
    ensures sid in RegistryAfter(w, a).store
    ensures RegistryAfter(w, a).store[sid].connected
            <==> w.reg.store[sid].connected && a != ApiMark(w.reg.store[sid].peer) && !Cause(w, a, sid)
  {
    if a.SweepTick? { CleanupConserves(w.reg, w.now, a.maxAge); }
  }

  lemma NextFlag(v: Variant, w: World, a: Action, sid: nat)
    requires Inv(v, w) && Stored(w) && Enabled(v, w, a) && IsMapped(w.reg, sid)
    ensures sid in NextRegistry(w, a).store
    ensures NextRegistry(w, a).store[sid].connected
            <==> w.reg.store[sid].connected && a != ApiMark(w.reg.store[sid].peer) && !Cause(w, a, sid)
  {
    if OnRegistry(a) { RegistryFlag(w, a, sid); }
  }

  /** A mapped session counts as connected until it is marked or leaves the map; nothing connects it again. */
  lemma FlagExactly(v: Variant, w: World, a: Action, sid: nat)
    requires Inv(v, w) && Stored(w) && Enabled(v, w, a) && IsMapped(w.reg, sid)
    ensures sid in Next(v, w, a).reg.store
    ensures Next(v, w, a).reg.store[sid].connected
            <==> w.reg.store[sid].connected && a != ApiMark(w.reg.store[sid].peer) && !Cause(w, a, sid)
  {
    NextRegistryIs(v, w, a);
    NextFlag(v, w, a, sid);
  }

  /** Once marked, a session is out of the map after any run with a sweep in it, whatever the sweep's age limit and
      however often its node still beats. */
  lemma {:induction false} MarkedIsSwept(v: Variant, w: World, acts: seq<Action>, sid: nat, k: nat)
    requires Inv(v, w) && Runs(v, w, acts) && sid in w.reg.store && !w.reg.store[sid].connected
    requires k < |acts| && acts[k].SweepTick?
    ensures sid in After(v, w, acts).reg.store && !IsMapped(After(v, w, acts).reg, sid)
    decreases |acts|
  {
    NextKeepsInv(v, w, acts[0]);
    StaysStored(v, w, acts[0], sid);
    var w1 := Next(v, w, acts[0]);
    if IsMapped(w.reg, sid) { FlagExactly(v, w, acts[0], sid); LeavesMapExactly(v, w, acts[0], sid); }
    if !IsMapped(w.reg, sid) { StaysUnmapped(v, w, acts[0], sid); }
    if IsMapped(w1.reg, sid) {
      MarkedIsSwept(v, w1, acts[1..], sid, k - 1);
    } else {
      UnmappedForever(v, w1, acts[1..], sid);
    }
  }

  // ---- Eviction of idle sessions ----

  /** When a session was last touched or, if that is later, registered: a session made by the caller of the
      legacy entry point may come with an old heartbeat. */
  function LastSeen(reg: Registry<nat>, born: map<nat, Time>, id: nat): Time
    requires id in reg.store
  {
    var beat := reg.store[id].lastHeartbeat;
    if Lookup(born, id, beat) > beat then born[id] else beat
  }

  /** Every mapped session was seen at or after t. */
  ghost predicate SeenSince(w: World, t: Time) {
    t <= w.now && forall id | id in w.reg.store && IsMapped(w.reg, id) :: t <= LastSeen(w.reg, w.born, id)
  }

  lemma NextSeen(v: Variant, w: World, a: Action, id: nat)
    requires Inv(v, w) && Stored(w) && Enabled(v, w, a) && id in NextRegistry(w, a).store
    ensures var seen := LastSeen(NextRegistry(w, a), NextBorn(w, a), id);
            seen >= w.now || (id in w.reg.store && seen == LastSeen(w.reg, w.born, id))
  {
    if id in w.reg.store {
      NextBeat(v, w, a, id);
    } else if OnRegistry(a) {
      RegistryAfterOk(v, w, a);
    }
  }

  lemma SeenStep(v: Variant, w: World, a: Action, t: Time)
    requires Inv(v, w) && Stored(w) && Enabled(v, w, a) && SeenSince(w, t)
    ensures SeenSince(Next(v, w, a), t)
  {
    ClockKept(v, w, a);
    NextRegistryIs(v, w, a);
    var w' := Next(v, w, a);
    forall id | id in w'.reg.store && IsMapped(w'.reg, id) ensures t <= LastSeen(w'.reg, w'.born, id) {
      NextSeen(v, w, a, id);
      if id in w.reg.store && !IsMapped(w.reg, id) { StaysUnmapped(v, w, a, id); }
    }
  }

  lemma ClockKept(v: Variant, w: World, a: Action)
    requires Stored(w) && Enabled(v, w, a)
    ensures Next(v, w, a).now == w.now + if a.Advance? then a.d else 0
  {
  }

  lemma {:induction false} RunSeen(v: Variant, w: World, acts: seq<Action>, t: Time)
    requires Inv(v, w) && Runs(v, w, acts) && SeenSince(w, t)
    ensures SeenSince(After(v, w, acts), t)
    decreases |acts|
  {
    if acts != [] {
      NextKeepsInv(v, w, acts[0]);
      SeenStep(v, w, acts[0], t);
      RunSeen(v, Next(v, w, acts[0]), acts[1..], t);
    }
  }

  lemma SweepSees(v: Variant, w: World, age: Time)
    requires Inv(v, w) && Stored(w) && 0 <= age
    ensures SeenSince(Next(v, w, SweepTick(age)), w.now - age)
  {
    CleanupConserves(w.reg, w.now, age);
  }

  /** After a sweep of age maxAge at time t, and until the next one, whatever happens: a session that is mapped
      at time t' was touched or registered no more than maxAge + (t' - t) ago. With sweeps at most an interval
      apart, an idle session is unmapped by maxAge + interval. */
  lemma IdleSessionEvicted(v: Variant, w: World, age: Time, acts: seq<Action>, sid: nat)
    requires Inv(v, w) && 0 <= age && Runs(v, w, [SweepTick(age)] + acts)
    ensures var w' := After(v, w, [SweepTick(age)] + acts);
            sid in w'.reg.store && IsMapped(w'.reg, sid) ==>
              || w'.now <= w'.reg.store[sid].lastHeartbeat + age + (w'.now - w.now)
              || (sid in w'.born && w'.now <= w'.born[sid] + age + (w'.now - w.now))
  {
    NextKeepsInv(v, w, SweepTick(age));
    SweepSees(v, w, age);
    assert ([SweepTick(age)] + acts)[1..] == acts;
    RunSeen(v, Next(v, w, SweepTick(age)), acts, w.now - age);
  }
}
