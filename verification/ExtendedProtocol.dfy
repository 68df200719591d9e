/** Concurrent calls of pkg/registry/session_ext.go on one peer. A call takes the lock of the session manager,
    of the method registry and of the breaker map in turn, so other calls come in between. */
module ExtendedProtocol {
  /** What the three tables hold for the peer. */
  datatype Peer = Peer(session: bool, catalogue: bool, breaker: bool)

  /** A call, by the critical section it runs next. */
  datatype Call =
    | RegisterStart | RegisterBreaker
    | RemoveStart | RemoveCatalogue | RemoveBreaker
    | UpdateStart | UpdateStore
    | Done

  datatype World = World(peer: Peer, calls: seq<Call>)

  function Effect(p: Peer, c: Call): Peer {
    match c
    case RegisterStart => p.(session := true)
    case RegisterBreaker => p.(breaker := true) // kept if there is one
    case RemoveStart => p.(session := false)
    case RemoveCatalogue => p.(catalogue := false)
    case RemoveBreaker => p.(breaker := false)
    case UpdateStart => p
    case UpdateStore => p.(catalogue := true)
    case Done => p
  }

  function Then(p: Peer, c: Call): Call {
    match c
    case RegisterStart => RegisterBreaker
    case RegisterBreaker => Done
    case RemoveStart => if p.session then RemoveCatalogue else Done // ErrSessionNotFound
    case RemoveCatalogue => RemoveBreaker
    case RemoveBreaker => Done
    case UpdateStart => if p.session then UpdateStore else Done
    case UpdateStore => Done
    case Done => Done
  }

  predicate Enabled(w: World, i: nat) {
    i < |w.calls| && w.calls[i] != Done
  }

  function Next(w: World, i: nat): World
    requires Enabled(w, i)
  {
    World(Effect(w.peer, w.calls[i]), w.calls[i := Then(w.peer, w.calls[i])])
  }

  /** An interleaving, by the calls that make its steps. */
  predicate Runs(w: World, acts: seq<nat>)
    decreases |acts|
  {
    acts == [] || (Enabled(w, acts[0]) && Runs(Next(w, acts[0]), acts[1..]))
  }

  function After(w: World, acts: seq<nat>): World
    requires Runs(w, acts)
    decreases |acts|
  {
    if acts == [] then w else After(Next(w, acts[0]), acts[1..])
  }

  /** What the calls promise when no other interferes: a breaker for each session, and nothing without one. */
  predicate Consistent(p: Peer) {
    (p.catalogue ==> p.session) && (p.breaker <==> p.session)
  }

  predicate IsStart(c: Call) {
    c == RegisterStart || c == RemoveStart || c == UpdateStart
  }

  predicate Batch(calls: seq<Call>) {
    forall i | 0 <= i < |calls| :: IsStart(calls[i])
  }

  predicate AllDone(calls: seq<Call>) {
    forall i | 0 <= i < |calls| :: calls[i] == Done
  }

  /** However the calls interleave, the peer is consistent once they are through. */
  ghost predicate AlwaysSettles(w: World) {
    forall acts: seq<nat> | Runs(w, acts) && AllDone(After(w, acts).calls) :: Consistent(After(w, acts).peer)
  }

  /** A removal runs beside a registration, or beside an update while there is a session. */
  predicate Racy(w: World) {
    RemoveStart in w.calls && (RegisterStart in w.calls || (UpdateStart in w.calls && w.peer.session))
  }

  // ---- Without a race ----

  predicate OnlyRegistersAndUpdates(w: World) {
    && (forall i | 0 <= i < |w.calls| ::
          w.calls[i] in {RegisterStart, RegisterBreaker, UpdateStart, UpdateStore, Done}
          && (w.calls[i] in {RegisterBreaker, UpdateStore} ==> w.peer.session))
    && (w.peer.catalogue ==> w.peer.session) && (w.peer.breaker ==> w.peer.session)
    && (w.peer.session ==> w.peer.breaker || RegisterBreaker in w.calls)
  }

  predicate OnlyRemoves(w: World) {
    && (forall i | 0 <= i < |w.calls| ::
          w.calls[i] in {RemoveStart, RemoveCatalogue, RemoveBreaker, Done}
          && (w.calls[i] in {RemoveCatalogue, RemoveBreaker} ==> !w.peer.session))
    && (w.peer.session ==> w.peer.breaker)
    && (w.peer.catalogue ==> w.peer.session || RemoveCatalogue in w.calls)
    && (w.peer.breaker ==> w.peer.session || RemoveCatalogue in w.calls || RemoveBreaker in w.calls)
  }

  predicate NothingThere(w: World) {
    && w.peer == Peer(false, false, false)
    && forall i | 0 <= i < |w.calls| :: w.calls[i] in {RemoveStart, UpdateStart, Done}
  }

  predicate Calm(w: World) {
    OnlyRegistersAndUpdates(w) || OnlyRemoves(w) || NothingThere(w)
  }

  lemma InUpdated(calls: seq<Call>, i: nat, c: Call, x: Call)
    requires i < |calls|
    ensures c in calls[i := c]
    ensures x in calls && x != calls[i] ==> x in calls[i := c]
  {
    assert calls[i := c][i] == c;
    if x in calls && x != calls[i] {
      var j :| 0 <= j < |calls| && calls[j] == x;
      assert calls[i := c][j] == x;
    }
  }

  lemma StepKeepsCalm(w: World, i: nat)
    requires Calm(w) && Enabled(w, i)
    ensures Calm(Next(w, i))
  {
    InUpdated(w.calls, i, Then(w.peer, w.calls[i]), RegisterBreaker);
    InUpdated(w.calls, i, Then(w.peer, w.calls[i]), RemoveCatalogue);
    InUpdated(w.calls, i, Then(w.peer, w.calls[i]), RemoveBreaker);
    if OnlyRegistersAndUpdates(w) {
      assert OnlyRegistersAndUpdates(Next(w, i));
    } else if OnlyRemoves(w) {
      assert OnlyRemoves(Next(w, i));
    } else {
      assert NothingThere(Next(w, i));
    }
  }

  lemma {:induction false} RunKeepsCalm(w: World, acts: seq<nat>)
    requires Calm(w) && Runs(w, acts)
    ensures Calm(After(w, acts))
    decreases |acts|
  {
    if acts != [] {
      StepKeepsCalm(w, acts[0]);
      RunKeepsCalm(Next(w, acts[0]), acts[1..]);
    }
  }

  lemma StartsCalm(w: World)
    requires Consistent(w.peer) && Batch(w.calls) && !Racy(w)
    ensures Calm(w)
  {
    if RemoveStart !in w.calls {
      assert OnlyRegistersAndUpdates(w);
    } else if w.peer.session {
      assert OnlyRemoves(w);
    } else {
      assert NothingThere(w);
    }
  }

  // ---- With one ----

  /** A removal gives up session, catalogue and breaker in this order, a registration makes the session before the
      breaker. */
  lemma InOrder(w: World, i: nat)
    requires i < |w.calls|
    ensures w.calls[i] == RemoveStart && w.peer.session ==>
              var w1 := Next(w, i);
              && w1.peer == Peer(false, w.peer.catalogue, w.peer.breaker) && Enabled(w1, i)
              && Next(w1, i).peer == Peer(false, false, w.peer.breaker) && Enabled(Next(w1, i), i)
              && Next(Next(w1, i), i).peer == Peer(false, false, false)
    ensures w.calls[i] == RegisterStart ==>
              var w1 := Next(w, i);
              && w1.peer == Peer(true, w.peer.catalogue, w.peer.breaker) && Enabled(w1, i)
              && Next(w1, i).peer == Peer(true, w.peer.catalogue, true)
  {
  }

  lemma {:induction false} RunsAppend(w: World, xs: seq<nat>, ys: seq<nat>)
    requires Runs(w, xs) && Runs(After(w, xs), ys)
    ensures Runs(w, xs + ys) && After(w, xs + ys) == After(After(w, xs), ys)
    decreases |xs|
  {
    if xs == [] {
      assert xs + ys == ys;
    } else {
      assert (xs + ys)[0] == xs[0] && (xs + ys)[1..] == xs[1..] + ys;
      RunsAppend(Next(w, xs[0]), xs[1..], ys);
    }
  }

  lemma RunsCons(w: World, i: nat, acts: seq<nat>)
    requires Enabled(w, i) && Runs(Next(w, i), acts)
    ensures Runs(w, [i] + acts) && After(w, [i] + acts) == After(Next(w, i), acts)
  {
    assert ([i] + acts)[1..] == acts;
  }

  function Steps(c: Call): nat {
    match c
    case RemoveStart => 3
    case RegisterStart => 2
    case RemoveCatalogue => 2
    case UpdateStart => 2
    case Done => 0
    case _ => 1
  }

  /** What a call makes of the peer when nothing comes in between. */
  function Alone(p: Peer, c: Call): (p': Peer)
    ensures IsStart(c) && Consistent(p) ==> Consistent(p')
    ensures c in {RemoveStart, UpdateStart, Done} && !p.session ==> p' == p
    decreases Steps(c)
  {
    match c
    case Done => p
    case RegisterStart => p.(session := true, breaker := true)
    case RemoveStart => if p.session then Peer(false, false, false) else p
    case UpdateStart => if p.session then p.(catalogue := true) else p
    case _ => Alone(Effect(p, c), Then(p, c))
  }

  lemma {:induction false} RunsAlone(w: World, i: nat) returns (acts: seq<nat>)
    requires i < |w.calls|
    ensures Runs(w, acts) && After(w, acts) == World(Alone(w.peer, w.calls[i]), w.calls[i := Done])
    decreases Steps(w.calls[i])
  {
    if w.calls[i] == Done {
      acts := [];
    } else {
      acts := RunsAlone(Next(w, i), i);
      RunsCons(w, i, acts);
      acts := [i] + acts;
    }
  }

  /** The first n calls but the skipped ones, each left to itself. */
  lemma {:induction false} OthersRun(w: World, skip: set<nat>, n: nat) returns (acts: seq<nat>)
    requires n <= |w.calls| && forall k | 0 <= k < n && k !in skip :: IsStart(w.calls[k]) || w.calls[k] == Done
    ensures Runs(w, acts) && |After(w, acts).calls| == |w.calls|
    ensures forall k | 0 <= k < |w.calls| ::
              After(w, acts).calls[k] == if k < n && k !in skip then Done else w.calls[k]
    ensures Consistent(w.peer) ==> Consistent(After(w, acts).peer)
    ensures !w.peer.session && (forall k | 0 <= k < n && k !in skip :: w.calls[k] != RegisterStart)
            ==> After(w, acts).peer == w.peer
  {
    if n == 0 {
      acts := [];
    } else {
      acts := OthersRun(w, skip, n - 1);
      if n - 1 !in skip {
        var w1 := After(w, acts);
        assert w1.calls[n - 1] == w.calls[n - 1];
        var more := RunsAlone(w1, n - 1);
        RunsAppend(w, acts, more);
        acts := acts + more;
      }
    }
  }

  lemma RunsFive(w: World, a: nat, b: nat, c: nat, d: nat, e: nat)
    requires Enabled(w, a) && Enabled(Next(w, a), b) && Enabled(Next(Next(w, a), b), c)
    requires Enabled(Next(Next(Next(w, a), b), c), d) && Enabled(Next(Next(Next(Next(w, a), b), c), d), e)
    ensures Runs(w, [a, b, c, d, e])
    ensures After(w, [a, b, c, d, e]) == Next(Next(Next(Next(Next(w, a), b), c), d), e)
  {
    var w1 := Next(w, a);
    var w2 := Next(w1, b);
    var w3 := Next(w2, c);
    var w4 := Next(w3, d);
    RunsCons(w4, e, []);
    RunsCons(w3, d, [e]);
    RunsCons(w2, c, [d, e]);
    RunsCons(w1, b, [c, d, e]);
    RunsCons(w, a, [b, c, d, e]);
    assert [e] + [] == [e] && [d] + [e] == [d, e] && [c] + [d, e] == [c, d, e];
    assert [b] + [c, d, e] == [b, c, d, e] && [a] + [b, c, d, e] == [a, b, c, d, e];
  }

  /** A removal around a registration leaves a session without a breaker; a registration around a removal a
      breaker without a session. */
  lemma RegisterRace(w: World, i: nat, j: nat) returns (acts: seq<nat>)
    requires i < |w.calls| && j < |w.calls| && w.calls[i] == RemoveStart && w.calls[j] == RegisterStart
    requires Consistent(w.peer)
    ensures Runs(w, acts) && After(w, acts).calls == w.calls[i := Done][j := Done]
    ensures !Consistent(After(w, acts).peer)
  {
    if w.peer.session {
      RunsFive(w, i, j, j, i, i);
      acts := [i, j, j, i, i];
    } else {
      RunsFive(w, j, i, i, i, j);
      acts := [j, i, i, i, j];
    }
  }

  /** An update around a removal leaves a catalogue without a session. */
  lemma UpdateRace(w: World, i: nat, j: nat) returns (acts: seq<nat>)
    requires i < |w.calls| && j < |w.calls| && w.calls[i] == RemoveStart && w.calls[j] == UpdateStart
    requires w.peer.session
    ensures Runs(w, acts) && After(w, acts).calls == w.calls[i := Done][j := Done]
    ensures !After(w, acts).peer.session && !Consistent(After(w, acts).peer)
  {
    RunsFive(w, j, i, i, i, j);
    acts := [j, i, i, i, j];
  }

  /** Registrations race last, when everybody else is through, so that nothing repairs what they leave. */
  lemma RegisterRaceLast(w: World, i: nat, j: nat) returns (acts: seq<nat>)
    requires Consistent(w.peer) && Batch(w.calls)
    requires i < |w.calls| && j < |w.calls| && w.calls[i] == RemoveStart && w.calls[j] == RegisterStart
    ensures Runs(w, acts) && AllDone(After(w, acts).calls) && !Consistent(After(w, acts).peer)
  {
    acts := OthersRun(w, {i, j}, |w.calls|);
    var more := RegisterRace(After(w, acts), i, j);
    RunsAppend(w, acts, more);
    acts := acts + more;
  }

  /** An update races first, while the session is there; without registrations the rest find none. */
  lemma UpdateRaceFirst(w: World, i: nat, j: nat) returns (acts: seq<nat>)
    requires w.peer.session && Batch(w.calls) && RegisterStart !in w.calls
    requires i < |w.calls| && j < |w.calls| && w.calls[i] == RemoveStart && w.calls[j] == UpdateStart
    ensures Runs(w, acts) && AllDone(After(w, acts).calls) && !Consistent(After(w, acts).peer)
  {
    acts := UpdateRace(w, i, j);
    var more := OthersRun(After(w, acts), {}, |w.calls|);
    RunsAppend(w, acts, more);
    acts := acts + more;
  }

  /** A batch of concurrent calls leaves the peer consistent in every interleaving if and only if no removal
      runs beside a registration, or beside an update while there is a session. */
  lemma SettlesExactly(w: World)
    requires Consistent(w.peer) && Batch(w.calls)
    ensures AlwaysSettles(w) <==> !Racy(w)
  {
    if !Racy(w) {
      forall acts: seq<nat> | Runs(w, acts) && AllDone(After(w, acts).calls) ensures Consistent(After(w, acts).peer) {
        StartsCalm(w);
        RunKeepsCalm(w, acts);
      }
    } else {
      var i: nat :| i < |w.calls| && w.calls[i] == RemoveStart;
      var acts;
      if j: nat :| j < |w.calls| && w.calls[j] == RegisterStart {
        acts := RegisterRaceLast(w, i, j);
      } else {
        var j: nat :| j < |w.calls| && w.calls[j] == UpdateStart;
        acts := UpdateRaceFirst(w, i, j);
      }
      assert !AlwaysSettles(w);
    }
  }
}
