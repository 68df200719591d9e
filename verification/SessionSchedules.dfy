/** Fair schedules from any state: which worlds bound Stop to return, let it return, or keep it from returning. */
module SessionSchedules {
  import opened Common
  import opened SessionSpec
  import opened SessionProtocol
  import opened SessionRuns
  import opened SessionLiveness

  ghost predicate Quiet(v: Variant, w: World) {
    forall h: nat :: !Ready(v, w, h) && !ReaderReady(w, h)
  }

  /** A finite run continued by nothing but the clock standing still. */
  function ScheduleAt(acts: seq<Action>, i: nat): Action {
    if i < |acts| then acts[i] else Advance(0)
  }

  ghost function WorldAt(v: Variant, w: World, acts: seq<Action>, i: nat): World
    requires Inv(v, w) && Runs(v, w, acts)
    decreases |acts|
  {
    if i == 0 || acts == [] then w else NextKeepsInv(v, w, acts[0]); WorldAt(v, Next(v, w, acts[0]), acts[1..], i - 1)
  }

  lemma StandsStill(v: Variant, w: World)
    requires Inv(v, w)
    ensures Stored(w) && Enabled(v, w, Advance(0)) && Next(v, w, Advance(0)) == w
  {
    InvStored(v, w);
  }

  lemma {:induction false} WorldAtStep(v: Variant, w: World, acts: seq<Action>, i: nat)
    requires Inv(v, w) && Runs(v, w, acts)
    ensures var w1, a := WorldAt(v, w, acts, i), ScheduleAt(acts, i);
            Stored(w1) && Enabled(v, w1, a) && WorldAt(v, w, acts, i + 1) == Next(v, w1, a)
    ensures i >= |acts| ==> WorldAt(v, w, acts, i) == After(v, w, acts)
    decreases |acts|
  {
    if acts == [] {
      StandsStill(v, w);
    } else {
      NextKeepsInv(v, w, acts[0]);
      if i > 0 {
        WorldAtStep(v, Next(v, w, acts[0]), acts[1..], i - 1);
        assert ScheduleAt(acts[1..], i - 1) == ScheduleAt(acts, i);
      }
    }
  }

  /** A finite run that ends with nobody ready to move is the start of a fair schedule. */
  lemma QuietRunExtends(v: Variant, w: World, acts: seq<Action>) returns (ws: nat -> World, sched: nat -> Action)
    requires Inv(v, w) && Runs(v, w, acts) && Quiet(v, After(v, w, acts))
    ensures IsTrace(v, ws, sched) && FairToAll(v, ws, sched) && ws(0) == w
    ensures forall i | 0 <= i < |acts| :: sched(i) == acts[i]
    ensures forall i: nat | i >= |acts| :: ws(i) == After(v, w, acts)
  {
    ws := (i: nat) => WorldAt(v, w, acts, i);
    sched := (i: nat) => ScheduleAt(acts, i);
    forall i: nat ensures StepAt(v, ws, sched, i) {
      WorldAtStep(v, w, acts, i);
    }
    forall i: nat | i >= |acts| ensures ws(i) == After(v, w, acts) {
      WorldAtStep(v, w, acts, i);
    }
    forall h: nat, i: nat ensures MovesAfter(v, ws, sched, h, i) && ReadFailsAfter(ws, sched, h, i) {
      var j := i + |acts|;
      assert !Ready(v, ws(j), h) && !ReaderReady(ws(j), h);
    }
  }

  lemma ConsAppend<T>(xs: seq<T>, ys: seq<T>)
    requires xs != []
    ensures [xs[0]] + (xs[1..] + ys) == xs + ys
  {
  }

  lemma {:induction false} RunsAppend(v: Variant, w: World, xs: seq<Action>, ys: seq<Action>)
    requires Inv(v, w) && Runs(v, w, xs) && Inv(v, After(v, w, xs)) && Runs(v, After(v, w, xs), ys)
    ensures Runs(v, w, xs + ys) && After(v, w, xs + ys) == After(v, After(v, w, xs), ys)
    decreases |xs|
  {
    if xs == [] {
      assert xs + ys == ys;
    } else {
      NextKeepsInv(v, w, xs[0]);
      RunsAppend(v, Next(v, w, xs[0]), xs[1..], ys);
      RunsCons(v, w, xs[0], xs[1..] + ys);
      ConsAppend(xs, ys);
    }
  }

  // ---- Every state can come to rest ----

  /** Handler h, or its read loop, has a step to make; a handshake counts if it is to be given up. */
  predicate Busy(v: Variant, w: World, h: nat, aborting: bool) {
    Ready(v, w, h) || ReaderReady(w, h) || (aborting && h < |w.handlers| && w.handlers[h].phase == Connecting)
  }

  /** A step of a busy handler or its read loop; a cancelled select takes the cancel arm. */
  function Pick(v: Variant, w: World, h: nat): Action
    requires h < |w.handlers|
  {
    match w.handlers[h].phase
    case Connecting => Abort(h)
    case Selecting =>
      if w.cancelled then Leave(h, ByCancel)
      else if w.handlers[h].sent > w.handlers[h].taken then Leave(h, ByRead)
      else Leave(h, ByClose)
    case Closing(_) => CloseStreams(h)
    case Draining(_) => if CanDrain(v, w.handlers[h]) then Drain(h) else ReadFail(h)
    case Removing(_) => Deregister(h)
    case Returning => Finish(h)
    case Finished => ReadFail(h)
  }

  predicate OfHandler(a: Action, h: nat) {
    a == Abort(h) || a == ReadFail(h) || Own(a, h)
  }

  lemma PickEnabled(v: Variant, w: World, h: nat, aborting: bool)
    requires Inv(v, w) && Busy(v, w, h, aborting)
    ensures Enabled(v, w, Pick(v, w, h)) && OfHandler(Pick(v, w, h), h)
  {
    assert HandlerOk(v, w.reg, w.handlers[h]);
  }

  lemma OneMoves(v: Variant, w: World, a: Action, h: nat)
    requires Stored(w) && Enabled(v, w, a) && OfHandler(a, h)
    ensures var w' := Next(v, w, a);
            && h < |w.handlers| && w'.handlers == w.handlers[h := NextHandler(v, w, a, h)]
            && w'.cancelled == w.cancelled && w'.accepting == w.accepting
  {
  }

  function Load(hd: Handler): nat {
    2 * Rank(hd.phase) + if hd.reading then 1 else 0
  }

  function Work(hs: seq<Handler>): nat {
    if hs == [] then 0 else Work(hs[..|hs| - 1]) + Load(hs[|hs| - 1])
  }

  lemma {:induction false} WorkUpdate(hs: seq<Handler>, h: nat, hd: Handler)
    requires h < |hs|
    ensures Work(hs[h := hd]) == Work(hs) - Load(hs[h]) + Load(hd)
  {
    var hs' := hs[h := hd];
    if h < |hs| - 1 {
      WorkUpdate(hs[..|hs| - 1], h, hd);
      assert hs'[..|hs| - 1] == hs[..|hs| - 1][h := hd];
    } else {
      assert hs'[..|hs| - 1] == hs[..|hs| - 1];
    }
  }

  /** The picked step is work done. Of a shipped handler it changes nothing about being stuck, if cancelled. */
  lemma PickedHandler(v: Variant, w: World, h: nat, aborting: bool)
    requires Inv(v, w) && Busy(v, w, h, aborting) && Enabled(v, w, Pick(v, w, h))
    ensures var hd := NextHandler(v, w, Pick(v, w, h), h);
            && Load(hd) < Load(w.handlers[h])
            && hd.phase != Connecting && (w.handlers[h].phase == Connecting ==> aborting)
            && (v == Shipped && w.cancelled ==> (StuckIn(hd.phase) <==> StuckIn(w.handlers[h].phase)))
  {
    assert HandlerOk(v, w.reg, w.handlers[h]);
  }

  predicate StuckIn(p: Phase) {
    p in {Closing(ByRead), Draining(ByRead)}
  }

  /** From w to w' only handlers already past their handshake moved on, or handshakes were given up. */
  ghost predicate Keeps(v: Variant, w: World, w': World, aborting: bool) {
    && |w'.handlers| == |w.handlers| && w'.cancelled == w.cancelled && w'.accepting == w.accepting
    && forall h | 0 <= h < |w.handlers| :: KeepsOne(v, w, w.handlers[h].phase, w'.handlers[h].phase, aborting)
  }

  predicate KeepsOne(v: Variant, w: World, p: Phase, p': Phase, aborting: bool) {
    && (p' == Connecting ==> p == Connecting)
    && (p == Connecting && !aborting ==> p' == Connecting)
    && (v == Shipped && w.cancelled ==> (StuckIn(p') <==> StuckIn(p)))
  }

  lemma PickKeeps(v: Variant, w: World, h: nat, aborting: bool)
    requires Inv(v, w) && Stored(w) && Busy(v, w, h, aborting) && Enabled(v, w, Pick(v, w, h)) && OfHandler(Pick(v, w, h), h)
    ensures Keeps(v, w, Next(v, w, Pick(v, w, h)), aborting)
    ensures Work(Next(v, w, Pick(v, w, h)).handlers) < Work(w.handlers)
  {
    OneMoves(v, w, Pick(v, w, h), h);
    PickedHandler(v, w, h, aborting);
    WorkUpdate(w.handlers, h, NextHandler(v, w, Pick(v, w, h), h));
  }

  lemma KeepsOn(v: Variant, w: World, w1: World, w2: World, aborting: bool)
    requires Keeps(v, w, w1, aborting) && Keeps(v, w1, w2, aborting)
    ensures Keeps(v, w, w2, aborting)
  {
    forall h | 0 <= h < |w.handlers| ensures KeepsOne(v, w, w.handlers[h].phase, w2.handlers[h].phase, aborting) {
      assert KeepsOne(v, w, w.handlers[h].phase, w1.handlers[h].phase, aborting);
      assert KeepsOne(v, w1, w1.handlers[h].phase, w2.handlers[h].phase, aborting);
    }
  }

  ghost predicate Resting(v: Variant, w: World, aborting: bool) {
    forall h: nat :: !Busy(v, w, h, aborting)
  }

  /** Letting busy handlers and read loops make their steps, one after the other, comes to an end. */
  lemma {:induction false} ComesToRest(v: Variant, w: World, aborting: bool) returns (acts: seq<Action>)
    requires Inv(v, w)
    ensures Runs(v, w, acts) && Inv(v, After(v, w, acts))
    ensures Resting(v, After(v, w, acts), aborting) && Keeps(v, w, After(v, w, acts), aborting)
    decreases Work(w.handlers)
  {
    if Resting(v, w, aborting) {
      acts := [];
    } else {
      var h: nat :| Busy(v, w, h, aborting);
      PickEnabled(v, w, h, aborting);
      var a := Pick(v, w, h);
      NextKeepsInv(v, w, a);
      PickKeeps(v, w, h, aborting);
      var rest := ComesToRest(v, Next(v, w, a), aborting);
      RunsCons(v, w, a, rest);
      KeepsOn(v, w, Next(v, w, a), After(v, Next(v, w, a), rest), aborting);
      acts := [a] + rest;
    }
  }

  /** So every finite run is the start of a fair schedule, one in which everybody has come to rest. */
  lemma EveryRunExtends(v: Variant, w: World, acts: seq<Action>, aborting: bool)
    returns (ws: nat -> World, sched: nat -> Action, i: nat)
    requires Inv(v, w) && Runs(v, w, acts)
    ensures IsTrace(v, ws, sched) && FairToAll(v, ws, sched) && ws(0) == w
    ensures forall j | 0 <= j < |acts| :: sched(j) == acts[j]
    ensures |acts| <= i && Resting(v, ws(i), aborting) && Keeps(v, After(v, w, acts), ws(i), aborting)
    ensures forall k: nat | k >= i :: ws(k) == ws(i)
  {
    RunKeepsInv(v, w, acts);
    var more := ComesToRest(v, After(v, w, acts), aborting);
    RunsAppend(v, w, acts, more);
    i := |acts + more|;
    forall h: nat ensures !Ready(v, After(v, w, acts + more), h) && !ReaderReady(After(v, w, acts + more), h) {
      assert !Busy(v, After(v, w, acts + more), h, aborting);
    }
    ws, sched := QuietRunExtends(v, w, acts + more);
  }

  // ---- What a state says about Stop ----

  /** Some fair schedule from here lets Stop return; every one does. */
  ghost predicate MayReturn(v: Variant, w: World) {
    exists ws: nat -> World, acts: nat -> Action ::
      IsTrace(v, ws, acts) && FairToAll(v, ws, acts) && ws(0) == w && Returns(ws, 0)
  }

  ghost predicate MustReturn(v: Variant, w: World) {
    forall ws: nat -> World, acts: nat -> Action ::
      IsTrace(v, ws, acts) && FairToAll(v, ws, acts) && ws(0) == w ==> Returns(ws, 0)
  }

  /** At rest a handler of a stopping server has finished, is stuck, or is still in its handshake. */
  lemma RestMeans(v: Variant, w: World, h: nat, aborting: bool)
    requires Inv(v, w) && Stopping(w) && h < |w.handlers| && Resting(v, w, aborting)
    ensures w.handlers[h].phase == Finished
            || (v == Shipped && Stuck(w, h)) || (!aborting && w.handlers[h].phase == Connecting)
  {
    assert HandlerOk(v, w.reg, w.handlers[h]);
    assert !Busy(v, w, h, aborting);
  }

  /** A run that leaves the first handler of a stopping server stuck or in its handshake may hang there. */
  lemma HangsFrom(v: Variant, w: World, acts: seq<Action>) returns (ws: nat -> World, sched: nat -> Action, i: nat)
    requires Inv(v, w) && Runs(v, w, acts)
    requires Stopping(After(v, w, acts)) && Hopeless(v, After(v, w, acts), 0)
    ensures IsTrace(v, ws, sched) && FairToAll(v, ws, sched) && ws(0) == w
    ensures Stopping(ws(i)) && |ws(i).handlers| == |After(v, w, acts).handlers| && !Returns(ws, i)
  {
    ws, sched, i := EveryRunExtends(v, w, acts, false);
    HopelessKept(v, After(v, w, acts), ws(i), 0);
    if Returns(ws, i) {
      var k: nat :| i <= k && ws(k).wg == 0;
      assert ws(k) == ws(i);
      TraceInv(v, ws, sched, k);
      ZeroMeansFinished(v, ws(k), 0);
    }
  }

  /** A handler that nothing but the end of its handshake could still bring to finish. */
  predicate Hopeless(v: Variant, w: World, h: nat) {
    h < |w.handlers| && (w.handlers[h].phase == Connecting || (v == Shipped && StuckIn(w.handlers[h].phase)))
  }

  lemma HopelessKept(v: Variant, w: World, w': World, h: nat)
    requires Keeps(v, w, w', false) && Stopping(w) && Hopeless(v, w, h)
    ensures Hopeless(v, w', h) && !FinishedAt(w', h)
  {
    assert KeepsOne(v, w, w.handlers[h].phase, w'.handlers[h].phase, false);
  }

  /** Some run from w ends in a world where a handler is stuck or in its handshake: Stop need not return. */
  lemma NeedNotReturn(v: Variant, w: World, acts: seq<Action>, h: nat)
    returns (ws: nat -> World, sched: nat -> Action)
    requires Inv(v, w) && Stopping(w) && Runs(v, w, acts)
    requires Stopping(After(v, w, acts)) && Hopeless(v, After(v, w, acts), h)
    ensures IsTrace(v, ws, sched) && FairToAll(v, ws, sched) && ws(0) == w && !Returns(ws, 0)
  {
    var i;
    ws, sched, i := EveryRunExtends(v, w, acts, false);
    HopelessKept(v, After(v, w, acts), ws(i), h);
    NotFinishedAtRest(v, ws, sched, h, i);
    StoppingOnTrace(v, ws, sched, 0, i);
    ReturnsExactly(v, ws, sched, 0);
  }

  lemma NotFinishedAtRest(v: Variant, ws: nat -> World, sched: nat -> Action, h: nat, i: nat)
    requires IsTrace(v, ws, sched) && !FinishedAt(ws(i), h)
    requires forall k: nat | k >= i :: ws(k) == ws(i)
    ensures !Finishes(ws, h, 0)
  {
    if Finishes(ws, h, 0) {
      var k: nat :| 0 <= k && FinishedAt(ws(k), h);
      if k < i { FinishedOnTrace(v, ws, sched, h, k, i); }
      assert false;
    }
  }

  /** As shipped, Stop can still return if and only if no handler is stuck. */
  lemma MayReturnExactly(w: World)
    requires Inv(Shipped, w) && Stopping(w)
    ensures MayReturn(Shipped, w) <==> forall h: nat | h < |w.handlers| :: !Stuck(w, h)
  {
    if forall h: nat | h < |w.handlers| :: !Stuck(w, h) {
      var ws, acts, i := GivesUpAndReturns(Shipped, w, []);
      assert Returns(ws, 0);
    } else {
      var h: nat :| h < |w.handlers| && Stuck(w, h);
      forall ws: nat -> World, acts: nat -> Action
        | IsTrace(Shipped, ws, acts) && FairToAll(Shipped, ws, acts) && ws(0) == w
        ensures !Returns(ws, 0)
      {
        ReturnsExactly(Shipped, ws, acts, 0);
        StuckNeverFinishes(ws, acts, h, 0, 0);
      }
    }
  }

  /** With handshakes given up and no handler stuck, everybody finishes. */
  lemma GivesUpAndReturns(v: Variant, w: World, acts: seq<Action>)
    returns (ws: nat -> World, sched: nat -> Action, i: nat)
    requires Inv(v, w) && Runs(v, w, acts) && Stopping(After(v, w, acts))
    requires v == Shipped ==> forall h: nat | h < |After(v, w, acts).handlers| :: !Stuck(After(v, w, acts), h)
    ensures IsTrace(v, ws, sched) && FairToAll(v, ws, sched) && ws(0) == w
    ensures Stopping(ws(i)) && |ws(i).handlers| == |After(v, w, acts).handlers| && ws(i).wg == 0
  {
    var w1 := After(v, w, acts);
    ws, sched, i := EveryRunExtends(v, w, acts, true);
    TraceInv(v, ws, sched, i);
    forall h: nat | h < |ws(i).handlers| ensures FinishedAt(ws(i), h) {
      assert v == Shipped ==> !Stuck(w1, h);
      RestMeans(v, ws(i), h, true);
      assert KeepsOne(v, w1, w1.handlers[h].phase, ws(i).handlers[h].phase, true);
    }
    NoneLive(ws(i));
  }

  /** A selecting handler may take the readDone arm, cancelled or not, once its read loop has failed. */
  lemma LeavesByRead(w: World, h: nat) returns (acts: seq<Action>)
    requires Inv(Shipped, w) && Stopping(w) && h < |w.handlers| && w.handlers[h].phase == Selecting
    ensures Runs(Shipped, w, acts)
    ensures Stopping(After(Shipped, w, acts)) && Stuck(After(Shipped, w, acts), h)
    ensures |After(Shipped, w, acts).handlers| == |w.handlers|
  {
    assert HandlerOk(Shipped, w.reg, w.handlers[h]);
    acts := [];
    var w1 := w;
    if w.handlers[h].reading {
      NextKeepsInv(Shipped, w, ReadFail(h));
      OneMoves(Shipped, w, ReadFail(h), h);
      w1 := Next(Shipped, w, ReadFail(h));
    }
    LeavesNow(w1, h);
    acts := [Leave(h, ByRead)];
    if w.handlers[h].reading {
      RunsCons(Shipped, w, ReadFail(h), acts);
      acts := [ReadFail(h)] + acts;
    }
  }

  lemma LeavesNow(w: World, h: nat)
    requires Inv(Shipped, w) && Stopping(w) && h < |w.handlers|
    requires w.handlers[h].phase == Selecting && w.handlers[h].sent > w.handlers[h].taken
    ensures Runs(Shipped, w, [Leave(h, ByRead)])
    ensures Stopping(After(Shipped, w, [Leave(h, ByRead)])) && Stuck(After(Shipped, w, [Leave(h, ByRead)]), h)
    ensures |After(Shipped, w, [Leave(h, ByRead)]).handlers| == |w.handlers|
  {
    NextKeepsInv(Shipped, w, Leave(h, ByRead));
    OneMoves(Shipped, w, Leave(h, ByRead), h);
    RunsCons(Shipped, w, Leave(h, ByRead), []);
    assert [Leave(h, ByRead)] + [] == [Leave(h, ByRead)];
  }

  /** And it is bound to return if and only if every handler is past its select and none is stuck. */
  lemma MustReturnExactly(w: World)
    requires Inv(Shipped, w) && Stopping(w)
    ensures MustReturn(Shipped, w) <==>
              forall h: nat | h < |w.handlers| :: w.handlers[h].phase !in {Connecting, Selecting} && !Stuck(w, h)
  {
    if h: nat :| h < |w.handlers| && (w.handlers[h].phase in {Connecting, Selecting} || Stuck(w, h)) {
      var acts := [];
      if w.handlers[h].phase == Selecting { acts := LeavesByRead(w, h); }
      var ws, sched := NeedNotReturn(Shipped, w, acts, h);
      assert !MustReturn(Shipped, w);
    } else {
      forall ws: nat -> World, acts: nat -> Action
        | IsTrace(Shipped, ws, acts) && FairToAll(Shipped, ws, acts) && ws(0) == w
        ensures Returns(ws, 0)
      {
        StopReturnsPastSelect(ws, acts, 0);
      }
    }
  }

  /** With the conditional drain Stop can always still return, and is bound to if and only if every handler is
      past its handshake. */
  lemma DrainOnceMustReturnExactly(w: World)
    requires Inv(DrainOnce, w) && Stopping(w)
    ensures MayReturn(DrainOnce, w)
    ensures MustReturn(DrainOnce, w) <==> forall h: nat | h < |w.handlers| :: w.handlers[h].phase != Connecting
  {
    var ws, acts, i := GivesUpAndReturns(DrainOnce, w, []);
    assert Returns(ws, 0);
    if h: nat :| h < |w.handlers| && w.handlers[h].phase == Connecting {
      var ws, sched := NeedNotReturn(DrainOnce, w, [], h);
      assert !MustReturn(DrainOnce, w);
    } else {
      forall ws: nat -> World, acts: nat -> Action
        | IsTrace(DrainOnce, ws, acts) && FairToAll(DrainOnce, ws, acts) && ws(0) == w
        ensures Returns(ws, 0)
      {
        forall h: nat | h < |w.handlers| ensures LeavesHandshake(ws, h, 0) {
          assert PastHandshake(ws(0), h);
        }
        DrainOnceStopReturnsExactly(ws, acts, 0);
      }
    }
  }

  // ---- From start-up ----

  lemma RunsTwo(v: Variant, w: World, a: Action, b: Action)
    requires Inv(v, w) && Stored(w) && Enabled(v, w, a) && Inv(v, Next(v, w, a))
    requires Stored(Next(v, w, a)) && Enabled(v, Next(v, w, a), b) && Inv(v, Next(v, Next(v, w, a), b))
    ensures Runs(v, w, [a, b]) && After(v, w, [a, b]) == Next(v, Next(v, w, a), b)
  {
    RunsCons(v, Next(v, w, a), b, []);
    RunsCons(v, w, a, [b]);
    assert [a, b] == [a] + [b] && [b] == [b] + [];
  }

  lemma StopBegins(v: Variant, w: World)
    requires Inv(v, w) && w.accepting
    ensures Runs(v, w, [Cancel, AcceptExit])
    ensures var w' := After(v, w, [Cancel, AcceptExit]); Inv(v, w') && Stopping(w') && w'.handlers == w.handlers
  {
    NextKeepsInv(v, w, Cancel);
    NextKeepsInv(v, Next(v, w, Cancel), AcceptExit);
    RunsTwo(v, w, Cancel, AcceptExit);
  }

  lemma OneConnects(v: Variant, now: Time, peer: PeerID)
    ensures Runs(v, Start(now), [Accept, Register(0, peer)])
    ensures var w := After(v, Start(now), [Accept, Register(0, peer)]);
            Inv(v, w) && w.accepting && |w.handlers| == 1 && w.handlers[0].phase == Selecting
  {
    Accepts(v, Start(now));
    Registers(v, Next(v, Start(now), Accept), peer);
    RunsTwo(v, Start(now), Accept, Register(0, peer));
  }

  /** One connection is there, in this phase. */
  predicate Only(w: World, phase: Phase) {
    |w.handlers| == 1 && w.handlers[0].phase == phase
  }

  lemma Accepts(v: Variant, w: World)
    requires Inv(v, w) && w.accepting && w.handlers == []
    ensures Inv(v, Next(v, w, Accept)) && Next(v, w, Accept).accepting && Only(Next(v, w, Accept), Connecting)
  {
    NextKeepsInv(v, w, Accept);
  }

  lemma Registers(v: Variant, w: World, peer: PeerID)
    requires Inv(v, w) && Stored(w) && Only(w, Connecting)
    ensures var w' := Next(v, w, Register(0, peer));
            Inv(v, w') && w'.accepting == w.accepting && Only(w', Selecting)
  {
    NextKeepsInv(v, w, Register(0, peer));
  }

  /** A run from start-up that serves one connection and then calls Stop. */
  lemma ServesThenStops(v: Variant, now: Time, peer: PeerID) returns (acts: seq<Action>)
    ensures Runs(v, Start(now), acts)
    ensures var w := After(v, Start(now), acts); Inv(v, w) && Stopping(w) && Only(w, Selecting)
  {
    OneConnects(v, now, peer);
    acts := [Accept, Register(0, peer)];
    StopBegins(v, After(v, Start(now), acts));
    RunsAppend(v, Start(now), acts, [Cancel, AcceptExit]);
    acts := acts + [Cancel, AcceptExit];
  }

  /** Some fair schedule from start-up registers a connection and lets Stop return, shipped or not. */
  lemma StopMayReturn(v: Variant, now: Time, peer: PeerID) returns (ws: nat -> World, sched: nat -> Action, i: nat)
    ensures IsTrace(v, ws, sched) && FairToAll(v, ws, sched) && ws(0) == Start(now)
    ensures Stopping(ws(i)) && |ws(i).handlers| == 1 && Returns(ws, i)
  {
    var acts := ServesThenStops(v, now, peer);
    ws, sched, i := GivesUpAndReturns(v, Start(now), acts);
  }

  /** And some fair schedule from start-up of the shipped code never does: one connection whose node closes its
      control stream. */
  lemma StopMayHang(now: Time, peer: PeerID) returns (ws: nat -> World, sched: nat -> Action, i: nat)
    ensures IsTrace(Shipped, ws, sched) && FairToAll(Shipped, ws, sched) && ws(0) == Start(now)
    ensures Stopping(ws(i)) && |ws(i).handlers| == 1 && !Returns(ws, i)
  {
    var acts := ServesThenStops(Shipped, now, peer);
    var w := After(Shipped, Start(now), acts);
    var more := LeavesByRead(w, 0);
    RunsAppend(Shipped, Start(now), acts, more);
    ws, sched, i := HangsFrom(Shipped, Start(now), acts + more);
  }

  /** Or, in either variant, one connection whose network handshake never ends. */
  lemma StopMayHangInHandshake(v: Variant, now: Time) returns (ws: nat -> World, sched: nat -> Action, i: nat)
    ensures IsTrace(v, ws, sched) && FairToAll(v, ws, sched) && ws(0) == Start(now)
    ensures Stopping(ws(i)) && |ws(i).handlers| == 1 && !Returns(ws, i)
  {
    Accepts(v, Start(now));
    RunsCons(v, Start(now), Accept, []);
    assert [Accept] + [] == [Accept];
    var w := After(v, Start(now), [Accept]);
    assert Only(w, Connecting);
    StopBegins(v, w);
    RunsAppend(v, Start(now), [Accept], [Cancel, AcceptExit]);
    assert Only(After(v, w, [Cancel, AcceptExit]), Connecting);
    ws, sched, i := HangsFrom(v, Start(now), [Accept] + [Cancel, AcceptExit]);
  }
}
