/** Every handler, read loop, sweep and API caller racing on one registry: one step per critical section.
    Follows handleConn, readControlLoop, acceptLoop and Stop of pkg/tunnel/tunnel.go. */
module SessionProtocol {
  import opened Common
  import opened SessionSpec

  /** The receive after the select: as shipped it always runs; DrainOnce skips it after the readDone arm. */
  datatype Variant = Shipped | DrainOnce

  /** The arm by which a handler left its select. */
  datatype Exit = ByCancel | ByClose | ByRead

  datatype Phase =
    | Connecting              // before RegisterSession
    | Selecting
    | Closing(exit: Exit)     // about to run cs.Close and session.Close
    | Draining(exit: Exit)    // at the receive from readDone
    | Removing(exit: Exit)    // about to run RemoveIfCurrent
    | Returning               // only deferred calls left
    | Finished                // wg.Done ran

  /** `sent` and `taken` count the sends to and receives from the one-slot channel readDone. */
  datatype Handler = Handler(phase: Phase, sid: Option<nat>, yamuxClosed: bool, reading: bool, sent: nat, taken: nat)

  /** `born` records when each session was registered. */
  datatype World = World(
    now: Time, reg: Registry<nat>, nextSid: nat, born: map<nat, Time>, handlers: seq<Handler>,
    cancelled: bool, accepting: bool, wg: int)

  /** A decoded control message; a heartbeat may come without its payload, which names a node. */
  datatype Message = Heartbeat(nodeID: Option<PeerID>) | Other

  /** Only a heartbeat naming the connection's own peer refreshes the session. */
  predicate Refreshes(msg: Message, peer: PeerID) {
    msg.Heartbeat? && msg.nodeID == Some(peer)
  }

  datatype Action =
    | Accept | AcceptExit | Cancel
    | Abort(h: nat)                    // TLS, yamux, handshake or authorization failure
    | Register(h: nat, peer: PeerID)
    | Leave(h: nat, exit: Exit) | CloseStreams(h: nat) | Drain(h: nat) | Deregister(h: nat) | Finish(h: nat)
    | Deliver(h: nat, msg: Message)    // the read loop consumes a frame
    | ReadFail(h: nat)                 // the read loop sends its error and returns
    | YamuxClose(h: nat)               // the remote side or keepalive closes the yamux session
    | ApiRegister(s: Session)          // either entry point: the legacy one takes any session its caller made
    | ApiRemove(peer: PeerID) | ApiMark(peer: PeerID)
    | ApiTouch(id: nat)                // second half of Heartbeat, outside sm.mu: any session ever looked up
    | SweepTick(maxAge: Time) | Advance(d: nat)

  function Start(now: Time): World {
    World(now, EMPTY, 0, map[], [], false, true, 1)
  }

  /** Closing a session in the registry also closes its yamux session. */
  predicate YamuxClosed(w: World, h: nat)
    requires h < |w.handlers|
  {
    var hd := w.handlers[h];
    hd.yamuxClosed || (hd.sid.Some? && hd.sid.value in w.reg.store && w.reg.store[hd.sid.value].closes > 0)
  }

  predicate Enabled(v: Variant, w: World, a: Action) {
    match a
    case Accept => w.accepting
    case AcceptExit => w.accepting && w.cancelled
    case Cancel => true
    case Abort(h) => h < |w.handlers| && w.handlers[h].phase == Connecting
    case Register(h, _) => h < |w.handlers| && w.handlers[h].phase == Connecting
    case Leave(h, exit) =>
      && h < |w.handlers| && w.handlers[h].phase == Selecting
      && (match exit
          case ByCancel => w.cancelled
          case ByClose => YamuxClosed(w, h)
          case ByRead => w.handlers[h].sent > w.handlers[h].taken)
    case CloseStreams(h) => h < |w.handlers| && w.handlers[h].phase.Closing?
    case Drain(h) => h < |w.handlers| && w.handlers[h].phase.Draining? && CanDrain(v, w.handlers[h])
    case Deregister(h) => h < |w.handlers| && w.handlers[h].phase.Removing? && w.handlers[h].sid.Some?
    case Finish(h) => h < |w.handlers| && w.handlers[h].phase == Returning
    case Deliver(h, _) => h < |w.handlers| && w.handlers[h].reading
    case ReadFail(h) => h < |w.handlers| && w.handlers[h].reading && w.handlers[h].sent == w.handlers[h].taken
    case YamuxClose(h) => h < |w.handlers| && w.handlers[h].sid.Some?
    case ApiRegister(s) => s.closes == 0
    case ApiTouch(id) => id in w.reg.store
    case _ => true
  }

  predicate CanDrain(v: Variant, hd: Handler)
    requires hd.phase.Draining?
  {
    hd.sent > hd.taken || (v == DrainOnce && hd.phase.exit == ByRead)
  }

  function Step(w: World, h: nat, hd: Handler): World
    requires h < |w.handlers|
  {
    w.(handlers := w.handlers[h := hd])
  }

  /** The steps that change one handler's record and nothing else. */
  predicate Local(a: Action) {
    a.Abort? || a.Leave? || a.CloseStreams? || a.Drain? || a.ReadFail? || a.YamuxClose?
  }

  function Moved(v: Variant, hd: Handler, a: Action): Handler
    requires Local(a) && (a.CloseStreams? ==> hd.phase.Closing?) && (a.Drain? ==> hd.phase.Draining?)
  {
    match a
    case Abort(_) => hd.(phase := Returning)
    case Leave(_, exit) => hd.(phase := Closing(exit), taken := if exit == ByRead then hd.taken + 1 else hd.taken)
    case CloseStreams(_) => hd.(phase := Draining(hd.phase.exit), yamuxClosed := true)
    case Drain(_) =>
      var skip := v == DrainOnce && hd.phase.exit == ByRead;
      hd.(phase := Removing(hd.phase.exit), taken := if skip then hd.taken else hd.taken + 1)
    case ReadFail(_) => hd.(reading := false, sent := hd.sent + 1)
    case YamuxClose(_) => hd.(yamuxClosed := true)
  }

  /** The steps that change registered sessions and no handler. */
  predicate OnRegistry(a: Action) {
    a.Deliver? || a.ApiRemove? || a.ApiMark? || a.ApiTouch? || a.SweepTick?
  }

  /** The registry is well formed enough for a step to run; Inv gives this. */
  ghost predicate Stored(w: World) {
    && (forall p | p in w.reg.mapped :: w.reg.mapped[p] in w.reg.store)
    && (forall i | 0 <= i < |w.handlers| && w.handlers[i].sid.Some? :: w.handlers[i].sid.value in w.reg.store)
  }

  ghost function RegistryAfter(w: World, a: Action): Registry<nat>
    requires OnRegistry(a) && Stored(w) && (a.Deliver? ==> a.h < |w.handlers|) && (a.ApiTouch? ==> a.id in w.reg.store)
  {
    match a
    case Deliver(h, msg) =>
      var sid := w.handlers[h].sid;
      if sid.Some? && Refreshes(msg, w.reg.store[sid.value].peer) then Touch(w.reg, sid.value, w.now) else w.reg
    case ApiRemove(peer) => Remove(w.reg, peer)
    case ApiMark(peer) => MarkDisconnected(w.reg, peer)
    case ApiTouch(id) => Touch(w.reg, id, w.now)
    case SweepTick(maxAge) => Cleanup(w.reg, w.now, maxAge)
  }

  /** The sessions after any step. */
  ghost function NextRegistry(w: World, a: Action): Registry<nat>
    requires Stored(w) && (a.Deliver? || a.Deregister? ==> a.h < |w.handlers|)
    requires (a.ApiTouch? ==> a.id in w.reg.store) && (a.Deregister? ==> w.handlers[a.h].sid.Some?)
  {
    if OnRegistry(a) then RegistryAfter(w, a)
    else match a
      case Register(_, peer) => Created(w, NewSession(peer, w.now)).reg
      case ApiRegister(s) => Created(w, s).reg
      case Deregister(h) => Removed(w, h).reg
      case _ => w.reg
  }

  function NextBorn(w: World, a: Action): map<nat, Time> {
    if a.Register? || a.ApiRegister? then w.born[w.nextSid := w.now] else w.born
  }

  /** What a step makes of a handler that is past its handshake. */
  function NextHandler(v: Variant, w: World, a: Action, h: nat): Handler
    requires Enabled(v, w, a) && h < |w.handlers|
  {
    var hd := w.handlers[h];
    if Local(a) && a.h == h then Moved(v, hd, a)
    else if a == Deregister(h) then hd.(phase := Returning)
    else if a == Finish(h) then hd.(phase := Finished)
    else hd
  }

  /** Effect of an enabled action. */
  ghost function Next(v: Variant, w: World, a: Action): World
    requires Enabled(v, w, a) && Stored(w)
  {
    if Local(a) then Step(w, a.h, Moved(v, w.handlers[a.h], a))
    else if OnRegistry(a) then w.(reg := RegistryAfter(w, a))
    else match a
      case Accept => w.(handlers := w.handlers + [Handler(Connecting, None, false, false, 0, 0)], wg := w.wg + 1)
      case AcceptExit => w.(accepting := false, wg := w.wg - 1)
      case Cancel => w.(cancelled := true)
      case Register(h, peer) => Step(Created(w, NewSession(peer, w.now)), h, Handler(Selecting, Some(w.nextSid), false, true, 0, 0))
      case Deregister(h) => Step(Removed(w, h), h, w.handlers[h].(phase := Returning))
      case Finish(h) => Step(w.(wg := w.wg - 1), h, w.handlers[h].(phase := Finished))
      case ApiRegister(s) => Created(w, s)
      case Advance(d) => w.(now := w.now + d)
  }

  lemma NextRegistryIs(v: Variant, w: World, a: Action)
    requires Enabled(v, w, a) && Stored(w)
    ensures Next(v, w, a).reg == NextRegistry(w, a)
    ensures Next(v, w, a).born == NextBorn(w, a)
  {
  }

  lemma NextHandlerIs(v: Variant, w: World, a: Action, h: nat)
    requires Enabled(v, w, a) && Stored(w) && h < |w.handlers| && w.handlers[h].phase != Connecting
    ensures h < |Next(v, w, a).handlers| && Next(v, w, a).handlers[h] == NextHandler(v, w, a, h)
    ensures w.cancelled ==> Next(v, w, a).cancelled
  {
  }

  /** RemoveIfCurrent as the handler calls it, with its own peer and session. */
  function Removed(w: World, h: nat): World
    requires h < |w.handlers| && w.handlers[h].sid.Some? && w.handlers[h].sid.value in w.reg.store
    requires forall p | p in w.reg.mapped :: w.reg.mapped[p] in w.reg.store
  {
    var sid := w.handlers[h].sid.value;
    w.(reg := RemoveIfCurrent(w.reg, w.reg.store[sid].peer, sid))
  }

  function Created(w: World, s: Session): World
    requires s.peer in w.reg.mapped ==> w.reg.mapped[s.peer] in w.reg.store
  {
    w.(reg := Install(w.reg, w.nextSid, s), nextSid := w.nextSid + 1, born := w.born[w.nextSid := w.now])
  }

  // ---- Invariant ----

  function Live(hs: seq<Handler>): nat {
    if hs == [] then 0 else Live(hs[..|hs| - 1]) + if hs[|hs| - 1].phase == Finished then 0 else 1
  }

  predicate HandlerOk(v: Variant, reg: Registry<nat>, hd: Handler) {
    && hd.taken <= hd.sent
    && match hd.sid
       case None => hd.phase in {Connecting, Returning, Finished} && !hd.reading && hd.sent == 0
       case Some(sid) =>
         && sid in reg.store
         && hd.sent == (if hd.reading then 0 else 1)
         && (match hd.phase
             case Connecting => false
             case Selecting => hd.taken == 0
             case Closing(exit) => hd.taken == if exit == ByRead then 1 else 0
             case Draining(exit) => hd.yamuxClosed && hd.taken == if exit == ByRead then 1 else 0
             case Removing(exit) => hd.taken == 1 && (v == Shipped ==> exit != ByRead)
             case _ => hd.taken == 1 && !IsMapped(reg, sid))
  }

  ghost predicate Inv(v: Variant, w: World) {
    && Conserved(w.reg)
    && (forall id | id in w.reg.store :: id < w.nextSid)
    && (forall i | 0 <= i < |w.handlers| :: HandlerOk(v, w.reg, w.handlers[i]))
    && (forall i, j | 0 <= i < j < |w.handlers| && w.handlers[i].sid.Some? ::
          w.handlers[i].sid != w.handlers[j].sid)
    && w.wg == Live(w.handlers) + if w.accepting then 1 else 0
  }

  /** What no step undoes: a stored session keeps its peer, and once unmapped stays unmapped. */
  ghost predicate Evolves(r: Registry<nat>, r': Registry<nat>) {
    forall id | id in r.store ::
      id in r'.store && r'.store[id].peer == r.store[id].peer && (IsMapped(r', id) ==> IsMapped(r, id))
  }

  lemma {:induction false} LiveUpdate(hs: seq<Handler>, h: nat, hd: Handler)
    requires h < |hs|
    ensures Live(hs[h := hd]) == Live(hs) - (if hs[h].phase == Finished then 0 else 1)
                                 + (if hd.phase == Finished then 0 else 1)
  {
    var hs' := hs[h := hd];
    if h < |hs| - 1 {
      LiveUpdate(hs[..|hs| - 1], h, hd);
      assert hs'[..|hs| - 1] == hs[..|hs| - 1][h := hd];
    } else {
      assert hs'[..|hs| - 1] == hs[..|hs| - 1];
    }
  }

  lemma StepKeepsInv(v: Variant, w: World, h: nat, hd: Handler)
    requires Inv(v, w) && h < |w.handlers|
    requires hd.phase == Finished <==> w.handlers[h].phase == Finished
    requires HandlerOk(v, w.reg, hd)
    requires hd.sid == w.handlers[h].sid || forall i | 0 <= i < |w.handlers| && i != h :: w.handlers[i].sid != hd.sid
    ensures Inv(v, Step(w, h, hd))
  {
    LiveUpdate(w.handlers, h, hd);
  }

  lemma RegistryStepKeepsInv(v: Variant, w: World, w': World)
    requires Inv(v, w) && w' == w.(reg := w'.reg, nextSid := w'.nextSid, born := w'.born)
    requires Conserved(w'.reg) && Evolves(w.reg, w'.reg)
    requires forall id | id in w'.reg.store :: id < w'.nextSid
    ensures Inv(v, w')
  {
    forall i | 0 <= i < |w.handlers| ensures HandlerOk(v, w'.reg, w.handlers[i]) {
      assert HandlerOk(v, w.reg, w.handlers[i]);
    }
  }

  lemma CreatedKeepsInv(v: Variant, w: World, s: Session)
    requires Inv(v, w) && s.closes == 0
    ensures Inv(v, Created(w, s))
    ensures w.nextSid in Created(w, s).reg.store
    ensures IsMapped(Created(w, s).reg, w.nextSid)
  {
    InstallConserves(w.reg, w.nextSid, s);
    RegistryStepKeepsInv(v, w, Created(w, s));
  }

  lemma RegisterKeepsInv(v: Variant, w: World, h: nat, peer: PeerID)
    requires Inv(v, w) && Stored(w) && Enabled(v, w, Register(h, peer))
    ensures Inv(v, Next(v, w, Register(h, peer)))
  {
    CreatedKeepsInv(v, w, NewSession(peer, w.now));
    var hd := Handler(Selecting, Some(w.nextSid), false, true, 0, 0);
    forall i | 0 <= i < |w.handlers| ensures w.handlers[i].sid != Some(w.nextSid) {
      assert HandlerOk(v, w.reg, w.handlers[i]);
    }
    StepKeepsInv(v, Created(w, NewSession(peer, w.now)), h, hd);
  }

  lemma InvStored(v: Variant, w: World)
    requires Inv(v, w)
    ensures Stored(w)
  {
    forall i | 0 <= i < |w.handlers| && w.handlers[i].sid.Some?
      ensures w.handlers[i].sid.value in w.reg.store
    {
      assert HandlerOk(v, w.reg, w.handlers[i]);
    }
  }

  lemma RegistryAfterOk(v: Variant, w: World, a: Action)
    requires Inv(v, w) && Stored(w) && Enabled(v, w, a) && OnRegistry(a)
    ensures Conserved(RegistryAfter(w, a)) && Evolves(w.reg, RegistryAfter(w, a))
    ensures RegistryAfter(w, a).store.Keys == w.reg.store.Keys
  {
    match a
    case ApiRemove(peer) => if peer in w.reg.mapped { UnmapConserves(w.reg, peer); }
    case ApiMark(peer) =>
      if peer in w.reg.mapped {
        var id := w.reg.mapped[peer];
        UpdateConserves(w.reg, id, w.reg.store[id].(connected := false));
      }
    case ApiTouch(id) => UpdateConserves(w.reg, id, w.reg.store[id].(lastHeartbeat := w.now));
    case SweepTick(maxAge) => CleanupConserves(w.reg, w.now, maxAge);
    case Deliver(h, msg) =>
      if w.handlers[h].sid.Some? {
        var id := w.handlers[h].sid.value;
        UpdateConserves(w.reg, id, w.reg.store[id].(lastHeartbeat := w.now));
      }
  }

  lemma MovedOk(v: Variant, w: World, a: Action)
    requires Local(a) && Enabled(v, w, a) && HandlerOk(v, w.reg, w.handlers[a.h])
    ensures HandlerOk(v, w.reg, Moved(v, w.handlers[a.h], a))
  {
  }

  lemma RemovedKeepsInv(v: Variant, w: World, h: nat)
    requires Inv(v, w) && Stored(w) && h < |w.handlers| && w.handlers[h].sid.Some?
    ensures Inv(v, Removed(w, h))
    ensures !IsMapped(Removed(w, h).reg, w.handlers[h].sid.value)
  {
    var sid := w.handlers[h].sid.value;
    if IsMapped(w.reg, sid) { UnmapConserves(w.reg, w.reg.store[sid].peer); }
    RegistryStepKeepsInv(v, w, Removed(w, h));
  }

  lemma DeregisterKeepsInv(v: Variant, w: World, h: nat)
    requires Inv(v, w) && Stored(w) && Enabled(v, w, Deregister(h))
    ensures Inv(v, Next(v, w, Deregister(h)))
    ensures !IsMapped(Next(v, w, Deregister(h)).reg, w.handlers[h].sid.value)
  {
    RemovedKeepsInv(v, w, h);
    var hd := w.handlers[h];
    assert HandlerOk(v, Removed(w, h).reg, hd);
    StepKeepsInv(v, Removed(w, h), h, hd.(phase := Returning));
  }

  lemma LocalKeepsInv(v: Variant, w: World, a: Action)
    requires Inv(v, w) && Stored(w) && Enabled(v, w, a) && Local(a)
    ensures Inv(v, Next(v, w, a))
  {
    assert HandlerOk(v, w.reg, w.handlers[a.h]);
    MovedOk(v, w, a);
    StepKeepsInv(v, w, a.h, Moved(v, w.handlers[a.h], a));
  }

  lemma OnRegistryKeepsInv(v: Variant, w: World, a: Action)
    requires Inv(v, w) && Stored(w) && Enabled(v, w, a) && OnRegistry(a)
    ensures Inv(v, Next(v, w, a))
  {
    RegistryAfterOk(v, w, a);
    RegistryStepKeepsInv(v, w, w.(reg := RegistryAfter(w, a)));
  }

  lemma AcceptKeepsInv(v: Variant, w: World)
    requires Inv(v, w) && Stored(w) && w.accepting
    ensures Inv(v, Next(v, w, Accept))
  {
    var hd := Handler(Connecting, None, false, false, 0, 0);
    var w' := Next(v, w, Accept);
    assert w'.handlers == w.handlers + [hd];
    LiveAppend(w.handlers, hd);
    assert HandlerOk(v, w.reg, hd);
    forall i | 0 <= i < |w'.handlers| ensures HandlerOk(v, w'.reg, w'.handlers[i]) {
      assert w'.handlers[i] == if i < |w.handlers| then w.handlers[i] else hd;
    }
  }

  lemma LiveAppend(hs: seq<Handler>, hd: Handler)
    ensures Live(hs + [hd]) == Live(hs) + if hd.phase == Finished then 0 else 1
  {
    assert (hs + [hd])[..|hs|] == hs;
  }

  lemma FinishKeepsInv(v: Variant, w: World, h: nat)
    requires Inv(v, w) && Stored(w) && Enabled(v, w, Finish(h))
    ensures Inv(v, Next(v, w, Finish(h)))
  {
    var hd := w.handlers[h].(phase := Finished);
    assert HandlerOk(v, w.reg, w.handlers[h]);
    assert HandlerOk(v, w.reg, hd);
    LiveUpdate(w.handlers, h, hd);
  }

  /** Every step of every actor keeps the invariant. */
  lemma NextKeepsInv(v: Variant, w: World, a: Action)
    requires Inv(v, w) && Enabled(v, w, a)
    ensures Stored(w) && Inv(v, Next(v, w, a))
  {
    InvStored(v, w);
    if Local(a) {
      LocalKeepsInv(v, w, a);
    } else if OnRegistry(a) {
      OnRegistryKeepsInv(v, w, a);
    } else {
      match a
      case Register(h, peer) => RegisterKeepsInv(v, w, h, peer);
      case ApiRegister(s) => CreatedKeepsInv(v, w, s);
      case Deregister(h) => DeregisterKeepsInv(v, w, h);
      case Accept => AcceptKeepsInv(v, w);
      case Finish(h) => FinishKeepsInv(v, w, h);
      case _ =>
    }
  }
}
