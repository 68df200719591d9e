/** Which handlers reach RemoveIfCurrent: infinite fair schedules of the session protocol. */
module SessionLiveness {
  import opened Common
  import opened SessionSpec
  import opened SessionProtocol
  import opened SessionRuns

  // ---- The shipped code: a handler that left by readDone never gets past the second receive ----

  predicate Stuck(w: World, h: nat) {
    h < |w.handlers| && w.handlers[h].phase in {Closing(ByRead), Draining(ByRead)}
  }

  lemma NextStuck(w: World, a: Action, h: nat)
    requires Inv(Shipped, w) && Enabled(Shipped, w, a) && Stuck(w, h)
    ensures NextHandler(Shipped, w, a, h).phase in {Closing(ByRead), Draining(ByRead)}
  {
    assert HandlerOk(Shipped, w.reg, w.handlers[h]);
  }

  lemma StuckStep(w: World, a: Action, h: nat)
    requires Inv(Shipped, w) && Stored(w) && Enabled(Shipped, w, a) && Stuck(w, h)
    ensures Stuck(Next(Shipped, w, a), h)
  {
    NextStuck(w, a, h);
    NextHandlerIs(Shipped, w, a, h);
  }

  /** In every continuation the handler stays before RemoveIfCurrent and the wait group stays up, so Stop never returns. */
  lemma {:induction false} StuckForever(w: World, acts: seq<Action>, h: nat)
    requires Inv(Shipped, w) && Runs(Shipped, w, acts) && Stuck(w, h)
    ensures Stuck(After(Shipped, w, acts), h) && After(Shipped, w, acts).wg >= 1
    decreases |acts|
  {
    if acts == [] {
      assert HandlerOk(Shipped, w.reg, w.handlers[h]);
      LiveAtLeast(w.handlers, h);
    } else {
      NextKeepsInv(Shipped, w, acts[0]);
      StuckStep(w, acts[0], h);
      StuckForever(Next(Shipped, w, acts[0]), acts[1..], h);
    }
  }

  lemma {:induction false} LiveAtLeast(hs: seq<Handler>, h: nat)
    requires h < |hs| && hs[h].phase != Finished
    ensures Live(hs) >= 1
  {
    if h < |hs| - 1 { LiveAtLeast(hs[..|hs| - 1], h); }
  }

  /** The ordinary end of a connection gets there, at any moment of any run and for any accepted connection:
      the node closes its control stream, the read loop reports it, and the select takes the readDone arm. */
  lemma ReadEndsStuck(w: World, h: nat, peer: PeerID) returns (acts: seq<Action>)
    requires Inv(Shipped, w) && h < |w.handlers| && w.handlers[h].phase == Connecting
    ensures acts == [Register(h, peer), ReadFail(h), Leave(h, ByRead)]
    ensures Runs(Shipped, w, acts) && Stuck(After(Shipped, w, acts), h)
  {
    NextKeepsInv(Shipped, w, Register(h, peer));
    var w1 := Next(Shipped, w, Register(h, peer));
    NextKeepsInv(Shipped, w1, ReadFail(h));
    var w2 := Next(Shipped, w1, ReadFail(h));
    NextKeepsInv(Shipped, w2, Leave(h, ByRead));
    acts := [];
    RunsCons(Shipped, w2, Leave(h, ByRead), acts);
    acts := [Leave(h, ByRead)] + acts;
    RunsCons(Shipped, w1, ReadFail(h), acts);
    acts := [ReadFail(h)] + acts;
    RunsCons(Shipped, w, Register(h, peer), acts);
    acts := [Register(h, peer)] + acts;
  }

  /** So it can happen to the next connection, whatever has gone before. */
  lemma NextConnectionMayStick(w: World, peer: PeerID) returns (acts: seq<Action>)
    requires Inv(Shipped, w) && w.accepting
    ensures Runs(Shipped, w, acts) && Stuck(After(Shipped, w, acts), |w.handlers|)
  {
    NextKeepsInv(Shipped, w, Accept);
    var rest := ReadEndsStuck(Next(Shipped, w, Accept), |w.handlers|, peer);
    RunsCons(Shipped, w, Accept, rest);
    acts := [Accept] + rest;
  }

  lemma RunsCons(v: Variant, w: World, a: Action, acts: seq<Action>)
    requires Inv(v, w) && Stored(w) && Enabled(v, w, a)
    requires Inv(v, Next(v, w, a)) && Runs(v, Next(v, w, a), acts)
    ensures Runs(v, w, [a] + acts)
    ensures After(v, w, [a] + acts) == After(v, Next(v, w, a), acts)
  {
    assert ([a] + acts)[1..] == acts;
  }

  // ---- Fair schedules ----

  /** The world before each step of an infinite schedule. */
  ghost predicate IsTrace(v: Variant, ws: nat -> World, acts: nat -> Action) {
    Inv(v, ws(0)) && forall i: nat :: StepAt(v, ws, acts, i)
  }

  ghost predicate StepAt(v: Variant, ws: nat -> World, acts: nat -> Action, i: nat) {
    Enabled(v, ws(i), acts(i)) && Stored(ws(i)) && ws(i + 1) == Next(v, ws(i), acts(i))
  }

  /** The handler's own steps after registration. */
  predicate Own(a: Action, h: nat) {
    (a.Leave? || a.CloseStreams? || a.Drain? || a.Deregister? || a.Finish?) && a.h == h
  }

  /** One of the handler's own steps is enabled. */
  predicate Ready(v: Variant, w: World, h: nat) {
    h < |w.handlers| &&
    match w.handlers[h].phase
    case Selecting => w.cancelled || YamuxClosed(w, h) || w.handlers[h].sent > w.handlers[h].taken
    case Draining(_) => CanDrain(v, w.handlers[h])
    case Connecting => false
    case Finished => false
    case _ => true
  }

  /** The read loop is up on a closed yamux session, so its next read is bound to fail. */
  predicate ReaderReady(w: World, h: nat) {
    h < |w.handlers| && w.handlers[h].reading && YamuxClosed(w, h)
  }

  ghost predicate MovesAfter(v: Variant, ws: nat -> World, acts: nat -> Action, h: nat, i: nat) {
    exists j: nat :: i <= j && (Own(acts(j), h) || !Ready(v, ws(j), h))
  }

  ghost predicate ReadFailsAfter(ws: nat -> World, acts: nat -> Action, h: nat, i: nat) {
    exists j: nat :: i <= j && (acts(j) == ReadFail(h) || !ReaderReady(ws(j), h))
  }

  /** The scheduler does not starve this handler, and reads on a closed session do not succeed forever. */
  ghost predicate Fair(v: Variant, ws: nat -> World, acts: nat -> Action, h: nat) {
    && (forall i: nat :: MovesAfter(v, ws, acts, h, i))
    && (forall i: nat :: ReadFailsAfter(ws, acts, h, i))
  }

  lemma NextMove(v: Variant, ws: nat -> World, acts: nat -> Action, h: nat, i: nat) returns (j: nat)
    requires Fair(v, ws, acts, h)
    ensures i <= j && (Own(acts(j), h) || !Ready(v, ws(j), h))
  {
    assert MovesAfter(v, ws, acts, h, i);
    j :| i <= j && (Own(acts(j), h) || !Ready(v, ws(j), h));
  }

  lemma NextReadFailure(v: Variant, ws: nat -> World, acts: nat -> Action, h: nat, i: nat) returns (j: nat)
    requires Fair(v, ws, acts, h)
    ensures i <= j && (acts(j) == ReadFail(h) || !ReaderReady(ws(j), h))
  {
    assert ReadFailsAfter(ws, acts, h, i);
    j :| i <= j && (acts(j) == ReadFail(h) || !ReaderReady(ws(j), h));
  }

  function Rank(p: Phase): nat {
    match p
    case Connecting => 6
    case Selecting => 5
    case Closing(_) => 4
    case Draining(_) => 3
    case Removing(_) => 2
    case Returning => 1
    case Finished => 0
  }

  lemma {:induction false} TraceInv(v: Variant, ws: nat -> World, acts: nat -> Action, i: nat)
    requires IsTrace(v, ws, acts)
    ensures Inv(v, ws(i)) && StepAt(v, ws, acts, i)
  {
    assert StepAt(v, ws, acts, i);
    if i > 0 {
      TraceInv(v, ws, acts, i - 1);
      NextKeepsInv(v, ws(i - 1), acts(i - 1));
    }
  }

  /** Readiness is never taken away by anybody else. */
  lemma ReadyPersists(v: Variant, w: World, a: Action, h: nat)
    requires Inv(v, w) && Stored(w) && Enabled(v, w, a) && Ready(v, w, h) && !Own(a, h)
    ensures var w' := Next(v, w, a);
            Ready(v, w', h) && w'.handlers[h].phase == w.handlers[h].phase && w'.handlers[h].sid == w.handlers[h].sid
  {
    assert HandlerOk(v, w.reg, w.handlers[h]);
    HandlerKept(v, w, a, h);
    if YamuxClosed(w, h) { YamuxClosePersists(v, w, a, h); }
  }

  /** Nobody but the handler moves its program counter, and only its read loop sends. */
  lemma HandlerKept(v: Variant, w: World, a: Action, h: nat)
    requires Stored(w) && Enabled(v, w, a)
    requires h < |w.handlers| && w.handlers[h].phase != Connecting && HandlerOk(v, w.reg, w.handlers[h])
    ensures var w' := Next(v, w, a);
            && h < |w'.handlers| && w'.handlers[h].sid == w.handlers[h].sid
            && (w.cancelled ==> w'.cancelled)
            && (w.handlers[h].yamuxClosed ==> w'.handlers[h].yamuxClosed)
            && (!Own(a, h) ==> w'.handlers[h].phase == w.handlers[h].phase && w'.handlers[h].taken == w.handlers[h].taken
                               && w'.handlers[h].sent >= w.handlers[h].sent)
            && (a != ReadFail(h) ==> w'.handlers[h].reading == w.handlers[h].reading && w'.handlers[h].sent == w.handlers[h].sent)
  {
    NextHandlerIs(v, w, a, h);
  }

  lemma YamuxClosePersists(v: Variant, w: World, a: Action, h: nat)
    requires Inv(v, w) && Stored(w) && Enabled(v, w, a) && h < |w.handlers| && w.handlers[h].phase != Connecting
    requires YamuxClosed(w, h)
    ensures h < |Next(v, w, a).handlers| && YamuxClosed(Next(v, w, a), h)
  {
    assert HandlerOk(v, w.reg, w.handlers[h]);
    HandlerKept(v, w, a, h);
    if !w.handlers[h].yamuxClosed { ClosePersists(v, w, a, w.handlers[h].sid.value); }
  }

  lemma ClosePersists(v: Variant, w: World, a: Action, sid: nat)
    requires Inv(v, w) && Stored(w) && Enabled(v, w, a) && sid in w.reg.store
    ensures sid in Next(v, w, a).reg.store && (w.reg.store[sid].closes > 0 ==> Next(v, w, a).reg.store[sid].closes > 0)
  {
    NextKeepsInv(v, w, a);
    StaysStored(v, w, a, sid);
    assert Accounted(w.reg, sid);
    if w.reg.store[sid].closes > 0 {
      StaysUnmapped(v, w, a, sid);
      assert Accounted(Next(v, w, a).reg, sid);
    }
  }

  /** A handler's own step moves it to a later phase; only the select chooses the exit. */
  lemma OwnStepAdvances(v: Variant, w: World, a: Action, h: nat)
    requires Inv(v, w) && Stored(w) && Enabled(v, w, a) && Own(a, h)
    ensures var w' := Next(v, w, a);
            && h < |w.handlers| == |w'.handlers|
            && Rank(w'.handlers[h].phase) + 1 == Rank(w.handlers[h].phase)
            && w'.handlers[h].sid == w.handlers[h].sid
            && (w.handlers[h].phase.Closing? ==> w'.handlers[h].phase == Draining(w.handlers[h].phase.exit))
  {
  }

  /** From a ready state, the own step that fairness promises is taken from the same phase. */
  lemma {:induction false} OwnStepTaken(v: Variant, ws: nat -> World, acts: nat -> Action, h: nat, i: nat, j: nat)
    returns (k: nat)
    requires IsTrace(v, ws, acts) && Ready(v, ws(i), h)
    requires i <= j && (Own(acts(j), h) || !Ready(v, ws(j), h))
    ensures i <= k && Own(acts(k), h) && h < |ws(k).handlers|
    ensures ws(k).handlers[h].phase == ws(i).handlers[h].phase && ws(k).handlers[h].sid == ws(i).handlers[h].sid
    decreases j - i
  {
    TraceInv(v, ws, acts, i);
    if Own(acts(i), h) {
      k := i;
    } else {
      ReadyPersists(v, ws(i), acts(i), h);
      k := OwnStepTaken(v, ws, acts, h, i + 1, j);
    }
  }

  lemma WaitingPersists(v: Variant, w: World, a: Action, h: nat)
    requires Inv(v, w) && Stored(w) && Enabled(v, w, a)
    requires h < |w.handlers| && w.handlers[h].phase.Draining? && !CanDrain(v, w.handlers[h]) && w.handlers[h].reading
    ensures var w' := Next(v, w, a);
            && h < |w'.handlers| && w'.handlers[h].phase == w.handlers[h].phase && w'.handlers[h].sid == w.handlers[h].sid
            && (if a == ReadFail(h) then CanDrain(v, w'.handlers[h]) else w'.handlers[h].reading && !CanDrain(v, w'.handlers[h]))
  {
    assert HandlerOk(v, w.reg, w.handlers[h]);
    HandlerKept(v, w, a, h);
  }

  /** A handler at the drain whose read loop is still up gets the value once the read fails. */
  lemma {:induction false} ReaderReports(v: Variant, ws: nat -> World, acts: nat -> Action, h: nat, i: nat, j: nat)
    returns (k: nat)
    requires IsTrace(v, ws, acts) && h < |ws(i).handlers|
    requires ws(i).handlers[h].phase.Draining? && !CanDrain(v, ws(i).handlers[h]) && ws(i).handlers[h].reading
    requires i <= j && (acts(j) == ReadFail(h) || !ReaderReady(ws(j), h))
    ensures i <= k && h < |ws(k).handlers| && Ready(v, ws(k), h)
    ensures ws(k).handlers[h].phase == ws(i).handlers[h].phase && ws(k).handlers[h].sid == ws(i).handlers[h].sid
    decreases j - i
  {
    TraceInv(v, ws, acts, i);
    assert HandlerOk(v, ws(i).reg, ws(i).handlers[h]);
    WaitingPersists(v, ws(i), acts(i), h);
    if acts(i) == ReadFail(h) {
      k := i + 1;
    } else {
      k := ReaderReports(v, ws, acts, h, i + 1, j);
    }
  }

  /** Past the select by an arm whose drain can still be served. */
  predicate WillClear(v: Variant, p: Phase) {
    match p
    case Connecting => false
    case Selecting => v == DrainOnce
    case Closing(exit) => v == DrainOnce || exit != ByRead
    case Draining(exit) => v == DrainOnce || exit != ByRead
    case _ => true
  }

  /** Every such handler runs RemoveIfCurrent and finishes in every fair schedule. */
  lemma {:induction false} HandlerFinishes(v: Variant, ws: nat -> World, acts: nat -> Action, h: nat, i: nat)
    returns (k: nat)
    requires IsTrace(v, ws, acts) && Fair(v, ws, acts, h)
    requires h < |ws(i).handlers| && WillClear(v, ws(i).handlers[h].phase)
    requires ws(i).handlers[h].phase == Selecting ==> Ready(v, ws(i), h)
    ensures i <= k && h < |ws(k).handlers| && ws(k).handlers[h].phase == Finished
    ensures ws(k).handlers[h].sid == ws(i).handlers[h].sid
    decreases Rank(ws(i).handlers[h].phase)
  {
    var hd := ws(i).handlers[h];
    if hd.phase == Finished {
      return i;
    }
    var r := BecomesReady(v, ws, acts, h, i);
    var j := NextMove(v, ws, acts, h, r);
    var m := OwnStepTaken(v, ws, acts, h, r, j);
    StepClears(v, ws, acts, h, m);
    k := HandlerFinishes(v, ws, acts, h, m + 1);
  }

  /** A handler that is not finished is ready, or waits for its read loop, which fairness makes report. */
  lemma BecomesReady(v: Variant, ws: nat -> World, acts: nat -> Action, h: nat, i: nat) returns (r: nat)
    requires IsTrace(v, ws, acts) && Fair(v, ws, acts, h)
    requires h < |ws(i).handlers| && WillClear(v, ws(i).handlers[h].phase) && ws(i).handlers[h].phase != Finished
    requires ws(i).handlers[h].phase == Selecting ==> Ready(v, ws(i), h)
    ensures i <= r && Ready(v, ws(r), h)
    ensures ws(r).handlers[h].phase == ws(i).handlers[h].phase && ws(r).handlers[h].sid == ws(i).handlers[h].sid
  {
    r := i;
    if !Ready(v, ws(i), h) {
      TraceInv(v, ws, acts, i);
      assert HandlerOk(v, ws(i).reg, ws(i).handlers[h]);
      var j := NextReadFailure(v, ws, acts, h, i);
      r := ReaderReports(v, ws, acts, h, i, j);
    }
  }

  lemma StepClears(v: Variant, ws: nat -> World, acts: nat -> Action, h: nat, m: nat)
    requires IsTrace(v, ws, acts) && Own(acts(m), h)
    requires h < |ws(m).handlers| && WillClear(v, ws(m).handlers[h].phase)
    ensures h < |ws(m + 1).handlers| && WillClear(v, ws(m + 1).handlers[h].phase)
    ensures Rank(ws(m + 1).handlers[h].phase) < Rank(ws(m).handlers[h].phase)
    ensures ws(m + 1).handlers[h].phase != Selecting
    ensures ws(m + 1).handlers[h].sid == ws(m).handlers[h].sid
  {
    TraceInv(v, ws, acts, m);
    OwnStepAdvances(v, ws(m), acts(m), h);
  }

  /** With a drain that runs only when the select has not received, every registered handler told to
      leave (server context cancelled, yamux session closed, or control stream ended) deregisters: it
      finishes, and its session is unmapped with its channel closed exactly once. */
  lemma DrainOnceDeregisters(ws: nat -> World, acts: nat -> Action, h: nat, i: nat)
    requires IsTrace(DrainOnce, ws, acts) && Fair(DrainOnce, ws, acts, h)
    requires h < |ws(i).handlers| && ws(i).handlers[h].phase == Selecting && Ready(DrainOnce, ws(i), h)
    ensures exists k: nat :: i <= k && Deregistered(ws(k), h)
  {
    TraceInv(DrainOnce, ws, acts, i);
    assert HandlerOk(DrainOnce, ws(i).reg, ws(i).handlers[h]);
    var k := HandlerFinishes(DrainOnce, ws, acts, h, i);
    TraceInv(DrainOnce, ws, acts, k);
    assert HandlerOk(DrainOnce, ws(k).reg, ws(k).handlers[h]);
    assert Accounted(ws(k).reg, ws(k).handlers[h].sid.value);
    assert Deregistered(ws(k), h);
  }

  predicate Deregistered(w: World, h: nat) {
    && h < |w.handlers| && w.handlers[h].phase == Finished && w.handlers[h].sid.Some?
    && var sid := w.handlers[h].sid.value;
       sid in w.reg.store && !IsMapped(w.reg, sid) && w.reg.store[sid].closes == 1
  }

  lemma {:induction false} StuckOnTrace(ws: nat -> World, acts: nat -> Action, h: nat, i: nat, k: nat)
    requires IsTrace(Shipped, ws, acts) && Stuck(ws(i), h) && i <= k
    ensures Stuck(ws(k), h)
    decreases k
  {
    if i < k {
      StuckOnTrace(ws, acts, h, i, k - 1);
      TraceInv(Shipped, ws, acts, k - 1);
      StuckStep(ws(k - 1), acts(k - 1), h);
    }
  }

  /** As shipped: in a fair schedule a handler that has left its select deregisters if and only if it did
      not leave by the readDone arm. */
  lemma ShippedDeregistersExactly(ws: nat -> World, acts: nat -> Action, h: nat, i: nat)
    requires IsTrace(Shipped, ws, acts) && Fair(Shipped, ws, acts, h)
    requires h < |ws(i).handlers| && ws(i).handlers[h].phase.Closing?
    ensures (exists k: nat :: i <= k && Deregistered(ws(k), h)) <==> ws(i).handlers[h].phase.exit != ByRead
  {
    TraceInv(Shipped, ws, acts, i);
    assert HandlerOk(Shipped, ws(i).reg, ws(i).handlers[h]);
    if ws(i).handlers[h].phase.exit != ByRead {
      var k := HandlerFinishes(Shipped, ws, acts, h, i);
      TraceInv(Shipped, ws, acts, k);
      assert HandlerOk(Shipped, ws(k).reg, ws(k).handlers[h]);
      assert Accounted(ws(k).reg, ws(k).handlers[h].sid.value);
      assert Deregistered(ws(k), h);
    } else {
      forall k: nat | i <= k ensures !Deregistered(ws(k), h) {
        StuckOnTrace(ws, acts, h, i, k);
      }
    }
  }

  // ---- When Stop returns ----

  /** The scheduler is fair to every handler there will ever be. */
  ghost predicate FairToAll(v: Variant, ws: nat -> World, acts: nat -> Action) {
    forall h: nat :: Fair(v, ws, acts, h)
  }

  /** Stop has cancelled the context and the accept loop is gone: only handlers keep the wait group up. */
  predicate Stopping(w: World) {
    w.cancelled && !w.accepting
  }

  /** The wait of Stop ends. */
  ghost predicate Returns(ws: nat -> World, i: nat) {
    exists k: nat :: i <= k && ws(k).wg == 0
  }

  predicate FinishedAt(w: World, h: nat) {
    h < |w.handlers| && w.handlers[h].phase == Finished
  }

  ghost predicate Finishes(ws: nat -> World, h: nat, i: nat) {
    exists k: nat :: i <= k && FinishedAt(ws(k), h)
  }

  lemma StoppingStep(v: Variant, w: World, a: Action)
    requires Stored(w) && Enabled(v, w, a) && Stopping(w)
    ensures Stopping(Next(v, w, a)) && |Next(v, w, a).handlers| == |w.handlers|
  {
  }

  lemma {:induction false} StoppingOnTrace(v: Variant, ws: nat -> World, acts: nat -> Action, i: nat, k: nat)
    requires IsTrace(v, ws, acts) && Stopping(ws(i)) && i <= k
    ensures Stopping(ws(k)) && |ws(k).handlers| == |ws(i).handlers|
    decreases k
  {
    if i < k {
      StoppingOnTrace(v, ws, acts, i, k - 1);
      TraceInv(v, ws, acts, k - 1);
      StoppingStep(v, ws(k - 1), acts(k - 1));
    }
  }

  lemma {:induction false} FinishedOnTrace(v: Variant, ws: nat -> World, acts: nat -> Action, h: nat, i: nat, k: nat)
    requires IsTrace(v, ws, acts) && FinishedAt(ws(i), h) && i <= k
    ensures FinishedAt(ws(k), h)
    decreases k
  {
    if i < k {
      FinishedOnTrace(v, ws, acts, h, i, k - 1);
      TraceInv(v, ws, acts, k - 1);
      assert HandlerOk(v, ws(k - 1).reg, ws(k - 1).handlers[h]);
      FinishedStays(v, ws(k - 1), acts(k - 1), h);
    }
  }

  lemma FinishedStays(v: Variant, w: World, a: Action, h: nat)
    requires Stored(w) && Enabled(v, w, a) && FinishedAt(w, h) && HandlerOk(v, w.reg, w.handlers[h])
    ensures FinishedAt(Next(v, w, a), h)
  {
    HandlerKept(v, w, a, h);
  }

  /** If each of the first n handlers finishes at some time, there is a time when all of them have. */
  lemma {:induction false} AllFinish(v: Variant, ws: nat -> World, acts: nat -> Action, i: nat, n: nat) returns (k: nat)
    requires IsTrace(v, ws, acts) && forall h: nat | h < n :: Finishes(ws, h, i)
    ensures i <= k && forall h: nat | h < n :: FinishedAt(ws(k), h)
  {
    if n == 0 {
      k := i;
    } else {
      var j := AllFinish(v, ws, acts, i, n - 1);
      assert Finishes(ws, n - 1, i);
      var m: nat :| i <= m && FinishedAt(ws(m), n - 1);
      k := if j < m then m else j;
      FinishedOnTrace(v, ws, acts, n - 1, m, k);
      forall h: nat | h < n - 1 ensures FinishedAt(ws(k), h) {
        FinishedOnTrace(v, ws, acts, h, j, k);
      }
    }
  }

  lemma {:induction false} LiveZero(hs: seq<Handler>)
    requires forall h | 0 <= h < |hs| :: hs[h].phase == Finished
    ensures Live(hs) == 0
  {
    if hs != [] { LiveZero(hs[..|hs| - 1]); }
  }

  lemma NoneLive(w: World)
    requires forall h: nat | h < |w.handlers| :: FinishedAt(w, h)
    ensures Live(w.handlers) == 0
  {
    forall h | 0 <= h < |w.handlers| ensures w.handlers[h].phase == Finished {
      assert FinishedAt(w, h);
    }
    LiveZero(w.handlers);
  }

  lemma ZeroMeansFinished(v: Variant, w: World, h: nat)
    requires Inv(v, w) && w.wg == 0 && h < |w.handlers|
    ensures FinishedAt(w, h)
  {
    if w.handlers[h].phase != Finished { LiveAtLeast(w.handlers, h); }
  }

  /** Once Stop waits, its wait ends if and only if every handler finishes; no fairness is needed for that. */
  lemma ReturnsExactly(v: Variant, ws: nat -> World, acts: nat -> Action, i: nat)
    requires IsTrace(v, ws, acts) && Stopping(ws(i))
    ensures Returns(ws, i) <==> forall h: nat | h < |ws(i).handlers| :: Finishes(ws, h, i)
  {
    if Returns(ws, i) {
      var k: nat :| i <= k && ws(k).wg == 0;
      StoppingOnTrace(v, ws, acts, i, k);
      TraceInv(v, ws, acts, k);
      forall h: nat | h < |ws(i).handlers| ensures Finishes(ws, h, i) {
        ZeroMeansFinished(v, ws(k), h);
      }
    } else if forall h: nat | h < |ws(i).handlers| :: Finishes(ws, h, i) {
      var k := AllFinish(v, ws, acts, i, |ws(i).handlers|);
      StoppingOnTrace(v, ws, acts, i, k);
      TraceInv(v, ws, acts, k);
      NoneLive(ws(k));
    }
  }

  predicate PastHandshake(w: World, h: nat) {
    h < |w.handlers| && w.handlers[h].phase != Connecting
  }

  /** The connection gets past its network handshake: it registers or aborts. */
  ghost predicate LeavesHandshake(ws: nat -> World, h: nat, i: nat) {
    exists k: nat :: i <= k && PastHandshake(ws(k), h)
  }

  /** No handler takes the readDone arm, now or later. */
  ghost predicate NeverStuck(ws: nat -> World, i: nat) {
    forall k: nat, h: nat | i <= k :: !Stuck(ws(k), h)
  }

  /** A handler that can clear its drain, and is told to leave if it still selects, finishes. */
  lemma ClearFinishes(v: Variant, ws: nat -> World, acts: nat -> Action, h: nat, i: nat, k: nat)
    requires IsTrace(v, ws, acts) && Fair(v, ws, acts, h) && i <= k
    requires h < |ws(k).handlers| && WillClear(v, ws(k).handlers[h].phase)
    requires ws(k).handlers[h].phase == Selecting ==> Ready(v, ws(k), h)
    ensures Finishes(ws, h, i)
  {
    var m := HandlerFinishes(v, ws, acts, h, k);
    assert i <= m && FinishedAt(ws(m), h);
  }

  /** A cancelled handler leaves its select, by one arm or another. */
  lemma LeavesSelect(v: Variant, ws: nat -> World, acts: nat -> Action, h: nat, i: nat) returns (k: nat)
    requires IsTrace(v, ws, acts) && Fair(v, ws, acts, h) && ws(i).cancelled
    requires h < |ws(i).handlers| && ws(i).handlers[h].phase == Selecting
    ensures i <= k && h < |ws(k).handlers| && ws(k).handlers[h].phase.Closing?
  {
    var j := NextMove(v, ws, acts, h, i);
    var m := OwnStepTaken(v, ws, acts, h, i, j);
    TraceInv(v, ws, acts, m);
    OwnStepAdvances(v, ws(m), acts(m), h);
    k := m + 1;
  }

  lemma ShippedFinishes(ws: nat -> World, acts: nat -> Action, h: nat, i: nat, k: nat)
    requires IsTrace(Shipped, ws, acts) && Fair(Shipped, ws, acts, h) && NeverStuck(ws, i) && i <= k && ws(k).cancelled
    requires PastHandshake(ws(k), h)
    ensures Finishes(ws, h, i)
  {
    assert !Stuck(ws(k), h);
    if ws(k).handlers[h].phase == Selecting {
      var m := LeavesSelect(Shipped, ws, acts, h, k);
      assert !Stuck(ws(m), h);
      ClearFinishes(Shipped, ws, acts, h, i, m);
    } else {
      ClearFinishes(Shipped, ws, acts, h, i, k);
    }
  }

  lemma StuckNeverFinishes(ws: nat -> World, acts: nat -> Action, h: nat, i: nat, k: nat)
    requires IsTrace(Shipped, ws, acts) && Stuck(ws(k), h) && i <= k
    ensures !Finishes(ws, h, i)
  {
    if Finishes(ws, h, i) {
      var m: nat :| i <= m && FinishedAt(ws(m), h);
      var last := if m < k then k else m;
      FinishedOnTrace(Shipped, ws, acts, h, m, last);
      StuckOnTrace(ws, acts, h, k, last);
      assert false;
    }
  }

  /** As shipped: in a fair schedule Stop returns if and only if every connection gets past its handshake
      and no handler ever leaves its select by the readDone arm. */
  lemma StopReturnsExactly(ws: nat -> World, acts: nat -> Action, i: nat)
    requires IsTrace(Shipped, ws, acts) && FairToAll(Shipped, ws, acts) && Stopping(ws(i))
    ensures Returns(ws, i) <==>
              NeverStuck(ws, i) && forall h: nat | h < |ws(i).handlers| :: LeavesHandshake(ws, h, i)
  {
    ReturnsExactly(Shipped, ws, acts, i);
    if Returns(ws, i) {
      forall k: nat, h: nat | i <= k ensures !Stuck(ws(k), h) {
        StoppingOnTrace(Shipped, ws, acts, i, k);
        if Stuck(ws(k), h) { StuckNeverFinishes(ws, acts, h, i, k); }
      }
      forall h: nat | h < |ws(i).handlers| ensures LeavesHandshake(ws, h, i) {
        FinishingLeavesHandshake(ws, h, i);
      }
    } else if NeverStuck(ws, i) && forall h: nat | h < |ws(i).handlers| :: LeavesHandshake(ws, h, i) {
      forall h: nat | h < |ws(i).handlers| ensures Finishes(ws, h, i) {
        assert LeavesHandshake(ws, h, i);
        var k: nat :| i <= k && PastHandshake(ws(k), h);
        StoppingOnTrace(Shipped, ws, acts, i, k);
        ShippedFinishes(ws, acts, h, i, k);
      }
    }
  }

  lemma FinishingLeavesHandshake(ws: nat -> World, h: nat, i: nat)
    requires Finishes(ws, h, i)
    ensures LeavesHandshake(ws, h, i)
  {
    var k: nat :| i <= k && FinishedAt(ws(k), h);
    assert PastHandshake(ws(k), h);
  }

  /** Once every handler has left its select, that can be read off the state: Stop returns if and only if
      none of them is stuck. */
  lemma StopReturnsPastSelect(ws: nat -> World, acts: nat -> Action, i: nat)
    requires IsTrace(Shipped, ws, acts) && FairToAll(Shipped, ws, acts) && Stopping(ws(i))
    requires forall h: nat | h < |ws(i).handlers| :: ws(i).handlers[h].phase !in {Connecting, Selecting}
    ensures Returns(ws, i) <==> forall h: nat | h < |ws(i).handlers| :: !Stuck(ws(i), h)
  {
    ReturnsExactly(Shipped, ws, acts, i);
    forall h: nat | h < |ws(i).handlers| ensures Finishes(ws, h, i) <==> !Stuck(ws(i), h) {
      if Stuck(ws(i), h) {
        StuckNeverFinishes(ws, acts, h, i, i);
      } else {
        ClearFinishes(Shipped, ws, acts, h, i, i);
      }
    }
  }

  /** With a drain that runs only when the select has not received, Stop returns in every fair schedule in
      which every connection gets past its handshake, and in no other. */
  lemma DrainOnceStopReturnsExactly(ws: nat -> World, acts: nat -> Action, i: nat)
    requires IsTrace(DrainOnce, ws, acts) && FairToAll(DrainOnce, ws, acts) && Stopping(ws(i))
    ensures Returns(ws, i) <==> forall h: nat | h < |ws(i).handlers| :: LeavesHandshake(ws, h, i)
  {
    ReturnsExactly(DrainOnce, ws, acts, i);
    forall h: nat | h < |ws(i).handlers| ensures Finishes(ws, h, i) <==> LeavesHandshake(ws, h, i) {
      if LeavesHandshake(ws, h, i) {
        var k: nat :| i <= k && PastHandshake(ws(k), h);
        StoppingOnTrace(DrainOnce, ws, acts, i, k);
        ClearFinishes(DrainOnce, ws, acts, h, i, k);
      } else if Finishes(ws, h, i) {
        FinishingLeavesHandshake(ws, h, i);
      }
    }
  }

  // ---- Handlers leave for a reason, and are told when there is one ----

  /** The handler serves its connection: nothing it waits for has happened. */
  predicate Served(w: World, h: nat, sid: nat) {
    && h < |w.handlers| && w.handlers[h].phase == Selecting && w.handlers[h].sid == Some(sid)
    && w.handlers[h].reading && !w.handlers[h].yamuxClosed && !w.cancelled && IsMapped(w.reg, sid)
  }

  /** What ends that: the server context, the yamux session, or the control stream. */
  predicate Ends(a: Action, h: nat) {
    a == Cancel || a == YamuxClose(h) || a == ReadFail(h)
  }

  lemma CancelledBy(v: Variant, w: World, a: Action)
    requires Stored(w) && Enabled(v, w, a)
    ensures Next(v, w, a).cancelled <==> w.cancelled || a == Cancel
    ensures Next(v, w, a).accepting <==> w.accepting && a != AcceptExit
  {
  }

  lemma ServedHandler(v: Variant, w: World, a: Action, h: nat, sid: nat)
    requires Inv(v, w) && Enabled(v, w, a) && Served(w, h, sid) && !Ends(a, h)
    ensures var hd := NextHandler(v, w, a, h);
            hd.phase == Selecting && hd.sid == Some(sid) && hd.reading && !hd.yamuxClosed
  {
    assert HandlerOk(v, w.reg, w.handlers[h]);
    assert Accounted(w.reg, sid);
  }

  lemma ServedStep(v: Variant, w: World, a: Action, h: nat, sid: nat)
    requires Inv(v, w) && Stored(w) && Enabled(v, w, a) && Served(w, h, sid) && !Ends(a, h) && !Cause(w, a, sid)
    ensures Served(Next(v, w, a), h, sid)
  {
    ServedHandler(v, w, a, h, sid);
    NextHandlerIs(v, w, a, h);
    CancelledBy(v, w, a);
    LeavesMapExactly(v, w, a, sid);
  }

  /** A connection that registers is served from then on, under the peer it named. */
  lemma RegisteredIsServed(v: Variant, w: World, h: nat, peer: PeerID)
    requires Inv(v, w) && Stored(w) && Enabled(v, w, Register(h, peer)) && !w.cancelled
    ensures var w' := Next(v, w, Register(h, peer));
            Served(w', h, w.nextSid) && w'.reg.store[w.nextSid] == Session(peer, true, w.now, 0)
  {
    CreatedKeepsInv(v, w, NewSession(peer, w.now));
    assert HandlerOk(v, w.reg, w.handlers[h]);
  }

  /** In every run in which none of these happens and nobody takes the session out of the map, the connection is
      still served. */
  lemma {:induction false} StaysServed(v: Variant, w: World, acts: seq<Action>, h: nat, sid: nat)
    requires Inv(v, w) && Runs(v, w, acts) && Served(w, h, sid)
    requires (forall i | 0 <= i < |acts| :: !Ends(acts[i], h)) && !Provoked(v, w, acts, sid)
    ensures Served(After(v, w, acts), h, sid)
    decreases |acts|
  {
    if acts != [] {
      NextKeepsInv(v, w, acts[0]);
      StaysStored(v, w, acts[0], sid);
      ServedStep(v, w, acts[0], h, sid);
      StaysServed(v, Next(v, w, acts[0]), acts[1..], h, sid);
    }
  }

  /** And each of the reasons lets it go: cancellation, a session taken out of the map, a read loop that failed. */
  lemma ToldToLeave(v: Variant, w: World, h: nat, sid: nat)
    requires Inv(v, w) && h < |w.handlers| && w.handlers[h].phase == Selecting && w.handlers[h].sid == Some(sid)
    ensures w.cancelled <==> Enabled(v, w, Leave(h, ByCancel))
    ensures w.handlers[h].yamuxClosed || !IsMapped(w.reg, sid) <==> Enabled(v, w, Leave(h, ByClose))
    ensures !w.handlers[h].reading <==> Enabled(v, w, Leave(h, ByRead))
  {
    assert HandlerOk(v, w.reg, w.handlers[h]);
    assert Accounted(w.reg, sid);
  }

  /** With the conditional drain a handler whose session was replaced, removed or swept goes through with its
      own deregistration in every fair schedule. */
  lemma ReplacedHandlerDeregisters(ws: nat -> World, acts: nat -> Action, h: nat, i: nat, sid: nat)
    requires IsTrace(DrainOnce, ws, acts) && Fair(DrainOnce, ws, acts, h)
    requires h < |ws(i).handlers| && ws(i).handlers[h].phase == Selecting && ws(i).handlers[h].sid == Some(sid)
    requires !IsMapped(ws(i).reg, sid)
    ensures exists k: nat :: i <= k && Deregistered(ws(k), h)
  {
    TraceInv(DrainOnce, ws, acts, i);
    ToldToLeave(DrainOnce, ws(i), h, sid);
    DrainOnceDeregisters(ws, acts, h, i);
  }

  /** The read loop takes every message until its read fails, whatever becomes of the handler and the session. */
  lemma {:induction false} ReadsUntilFailure(v: Variant, w: World, acts: seq<Action>, h: nat, msg: Message)
    requires Inv(v, w) && Runs(v, w, acts) && h < |w.handlers| && w.handlers[h].sid.Some?
    requires forall i | 0 <= i < |acts| :: acts[i] != ReadFail(h)
    ensures Enabled(v, After(v, w, acts), Deliver(h, msg)) <==> w.handlers[h].reading
    decreases |acts|
  {
    if acts != [] {
      assert HandlerOk(v, w.reg, w.handlers[h]);
      NextKeepsInv(v, w, acts[0]);
      HandlerKept(v, w, acts[0], h);
      ReadsUntilFailure(v, Next(v, w, acts[0]), acts[1..], h, msg);
    }
  }

  /** The accept loop runs until the server is cancelled. */
  lemma {:induction false} AcceptsUntilCancelled(v: Variant, w: World, acts: seq<Action>)
    requires Inv(v, w) && Runs(v, w, acts) && (w.accepting || w.cancelled)
    ensures After(v, w, acts).accepting || After(v, w, acts).cancelled
    decreases |acts|
  {
    if acts != [] {
      NextKeepsInv(v, w, acts[0]);
      CancelledBy(v, w, acts[0]);
      AcceptsUntilCancelled(v, Next(v, w, acts[0]), acts[1..]);
    }
  }
}
