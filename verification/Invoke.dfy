/** Request routing of pkg/server/invoke.go: one call by itself, and any number of calls interleaved. */
module Invoke {
  import opened Common
  import opened RateLimit
  import opened Acl
  import opened Sessions
  import SessionSpec

  datatype Outcome =
    | InvalidArgument | PermissionDenied | ResourceExhausted | NotFound | Unavailable
    | Routed(success: bool)

  /** Gateway.Invoke of pkg/reverse/gateway.go: a failed dial or call is put into the response, the error is nil. */
  method GatewayInvoke(dialFails: bool, callFails: bool) returns (success: bool, err: bool)
    ensures !err && success == (!dialFails && !callFails)
  {
    if dialFails {
      return false, false;
    }
    if callFails {
      return false, false;
    }
    success, err := true, false;
  }

  class InvokeProxy {
    const sessionManager: SessionManager
    const acl: StaticACL
    const limiter: ConcurrencyLimiter

    constructor (sessionManager: SessionManager, acl: StaticACL, limiter: ConcurrencyLimiter)
      ensures this.sessionManager == sessionManager && this.acl == acl && this.limiter == limiter
    {
      this.sessionManager, this.acl, this.limiter := sessionManager, acl, limiter;
    }

    /** The first failing check decides; every permit taken is given back; the heartbeat is touched by
        every call that reached the gateway, whether the dial and the call succeeded or not. */
    method Invoke(peerID: string, methodName: string, dialFails: bool, callFails: bool, now: SessionSpec.Time)
      returns (outcome: Outcome)
      requires sessionManager.Valid() && limiter.Valid()
      modifies limiter, sessionManager.created
      ensures sessionManager.Valid() && limiter.Valid()
      ensures outcome ==
        if peerID == "" || methodName == "" then InvalidArgument
        else if !old(Allowed(acl.rules, peerID, methodName)) then PermissionDenied
        else if !old(Permits(limiter.current, Key(peerID, methodName), limiter.maxConcurrent)) then ResourceExhausted
        else if peerID !in sessionManager.sessions then NotFound
        else Routed(!dialFails && !callFails)
      ensures forall key :: Lookup(limiter.current, key, 0) == Lookup(old(limiter.current), key, 0)
      ensures sessionManager.Abs() ==
        if outcome.Routed? && peerID in sessionManager.sessions
        then SessionSpec.Touch(old(sessionManager.Abs()), sessionManager.sessions[peerID], now)
        else old(sessionManager.Abs())
    {
      if peerID == "" {
        return InvalidArgument;
      }
      if methodName == "" {
        return InvalidArgument;
      }
      var allowed := acl.Check(peerID, methodName);
      if !allowed {
        return PermissionDenied;
      }
      var ok := limiter.Allow(peerID, methodName);
      if !ok {
        return ResourceExhausted;
      }
      outcome := Route(peerID, dialFails, callFails, now);
      limiter.Release(peerID, methodName); // deferred
    }

    /** From the lookup on, while the permit is held. */
    method Route(peerID: string, dialFails: bool, callFails: bool, now: SessionSpec.Time) returns (outcome: Outcome)
      requires sessionManager.Valid()
      modifies sessionManager.created
      ensures sessionManager.Valid()
      ensures outcome == if peerID !in sessionManager.sessions then NotFound else Routed(!dialFails && !callFails)
      ensures sessionManager.Abs() ==
        if peerID in sessionManager.sessions
        then SessionSpec.Touch(old(sessionManager.Abs()), sessionManager.sessions[peerID], now)
        else old(sessionManager.Abs())
    {
      var state := sessionManager.Get(peerID);
      if state == null {
        return NotFound;
      }
      var success, err := GatewayInvoke(dialFails, callFails);
      if err {
        return Unavailable;
      }
      var _ := sessionManager.Heartbeat(peerID, now);
      outcome := Routed(success);
    }
  }
}

/** Any number of Invoke calls sharing one ConcurrencyLimiter, each step of each call atomic. */
module InvokeProtocol {
  import opened Common
  import opened RateLimit
  import opened Invoke

  datatype Phase =
    | Validating | CheckingAcl | Acquiring
    | LookingUp | Calling | Beating         // between Allow and the deferred Release
    | Releasing(result: Outcome)
    | Done(result: Outcome)

  /** `acquired` and `released` count the call's successful Allow and its Release. */
  datatype Call = Call(peerID: string, methodName: string, phase: Phase, acquired: nat, released: nat)

  datatype World = World(max: int, current: map<string, int>, calls: seq<Call>)

  /** `answer` is what the consulted component says: ACL allows, peer is online, gateway succeeds. */
  datatype Action = Arrive(peerID: string, methodName: string) | Move(call: nat, answer: bool)

  predicate Holds(c: Call) {
    c.phase.LookingUp? || c.phase.Calling? || c.phase.Beating? || c.phase.Releasing?
  }

  function KeyOf(c: Call): string {
    Key(c.peerID, c.methodName)
  }

  predicate Enabled(w: World, a: Action) {
    match a
    case Arrive(_, _) => true
    case Move(i, _) => i < |w.calls| && !w.calls[i].phase.Done?
  }

  function To(w: World, i: nat, phase: Phase): World
    requires i < |w.calls|
  {
    w.(calls := w.calls[i := w.calls[i].(phase := phase)])
  }

  function Next(w: World, a: Action): World
    requires Enabled(w, a)
  {
    match a
    case Arrive(peerID, methodName) => w.(calls := w.calls + [Call(peerID, methodName, Validating, 0, 0)])
    case Move(i, answer) =>
      var c := w.calls[i];
      match c.phase
      case Validating => To(w, i, if c.peerID == "" || c.methodName == "" then Done(InvalidArgument) else CheckingAcl)
      case CheckingAcl => To(w, i, if answer then Acquiring else Done(PermissionDenied))
      case Acquiring =>
        if Permits(w.current, KeyOf(c), w.max)
        then w.(current := Acquired(w.current, KeyOf(c)), calls := w.calls[i := c.(phase := LookingUp, acquired := c.acquired + 1)])
        else To(w, i, Done(ResourceExhausted))
      case LookingUp => To(w, i, if answer then Calling else Releasing(NotFound))
      case Calling => To(w, i, if answer then Beating else Releasing(Unavailable))
      case Beating => To(w, i, Releasing(Routed(answer)))
      case Releasing(result) =>
        w.(current := Released(w.current, KeyOf(c)),
           calls := w.calls[i := c.(phase := Done(result), released := c.released + 1)])
  }

  function Holders(calls: seq<Call>, key: string): nat {
    if calls == [] then 0
    else
      var c := calls[|calls| - 1];
      Holders(calls[..|calls| - 1], key) + if Holds(c) && KeyOf(c) == key then 1 else 0
  }

  /** A permit is taken before the lookup, at most once, and given back exactly once, on every exit after it. */
  predicate CallOk(c: Call) {
    match c.phase
    case Done(result) =>
      && c.acquired == c.released
      && c.acquired == if result.NotFound? || result.Unavailable? || result.Routed? then 1 else 0
    case Releasing(result) =>
      c.released == 0 && c.acquired == 1 && (result.NotFound? || result.Unavailable? || result.Routed?)
    case _ => c.released == 0 && c.acquired == if Holds(c) then 1 else 0
  }

  /** The limiter's count for a key is the number of calls in flight that hold a permit for it. */
  ghost predicate Inv(w: World) {
    && (forall key :: Lookup(w.current, key, 0) == Holders(w.calls, key))
    && (forall key :: Lookup(w.current, key, 0) <= if w.max > 0 then w.max else 0)
    && (forall i | 0 <= i < |w.calls| :: CallOk(w.calls[i]))
  }

  lemma {:induction false} HoldersUpdate(calls: seq<Call>, i: nat, c: Call, key: string)
    requires i < |calls|
    ensures Holders(calls[i := c], key)
            == Holders(calls, key) - (if Holds(calls[i]) && KeyOf(calls[i]) == key then 1 else 0)
               + (if Holds(c) && KeyOf(c) == key then 1 else 0)
  {
    var n := |calls| - 1;
    if i < n {
      HoldersUpdate(calls[..n], i, c, key);
      assert calls[i := c][..n] == calls[..n][i := c];
    } else {
      assert calls[i := c][..n] == calls[..n];
    }
  }

  lemma MovedCallOk(w: World, i: nat, answer: bool)
    requires Enabled(w, Move(i, answer)) && CallOk(w.calls[i])
    ensures var w' := Next(w, Move(i, answer));
            && w'.max == w.max && w'.calls == w.calls[i := w'.calls[i]] && CallOk(w'.calls[i])
            && KeyOf(w'.calls[i]) == KeyOf(w.calls[i])
            && (Holds(w'.calls[i]) == Holds(w.calls[i]) ==> w'.current == w.current)
            && (Holds(w'.calls[i]) && !Holds(w.calls[i]) ==>
                  Permits(w.current, KeyOf(w.calls[i]), w.max) && w'.current == Acquired(w.current, KeyOf(w.calls[i])))
            && (!Holds(w'.calls[i]) && Holds(w.calls[i]) ==> w'.current == Released(w.current, KeyOf(w.calls[i])))
  {
  }

  lemma MoveKeepsInv(w: World, i: nat, answer: bool)
    requires Inv(w) && Enabled(w, Move(i, answer))
    ensures Inv(Next(w, Move(i, answer)))
  {
    assert CallOk(w.calls[i]);
    MovedCallOk(w, i, answer);
    var w' := Next(w, Move(i, answer));
    forall key
      ensures Lookup(w'.current, key, 0) == Holders(w'.calls, key)
      ensures Lookup(w'.current, key, 0) <= if w.max > 0 then w.max else 0
    {
      HoldersUpdate(w.calls, i, w'.calls[i], key);
      assert Lookup(w.current, key, 0) == Holders(w.calls, key);
    }
  }

  /** The clamp at zero never fires: a call about to release finds its permit counted. */
  lemma ClampNeverFires(w: World, i: nat)
    requires Inv(w) && i < |w.calls| && w.calls[i].phase.Releasing?
    ensures Lookup(w.current, KeyOf(w.calls[i]), 0) > 0
  {
    var c := w.calls[i];
    HoldersUpdate(w.calls, i, c.(phase := Validating), KeyOf(c));
    assert Lookup(w.current, KeyOf(c), 0) == Holders(w.calls, KeyOf(c));
  }

  /** A call that asks for a permit gets it, and goes on, if and only if fewer than max calls in flight hold one
      for its key; otherwise it ends there. */
  lemma AcquiresExactly(w: World, i: nat, answer: bool)
    requires Inv(w) && i < |w.calls| && w.calls[i].phase == Acquiring
    ensures var phase := Next(w, Move(i, answer)).calls[i].phase;
            phase == if Holders(w.calls, KeyOf(w.calls[i])) < w.max then LookingUp else Done(ResourceExhausted)
  {
    assert Lookup(w.current, KeyOf(w.calls[i]), 0) == Holders(w.calls, KeyOf(w.calls[i]));
  }

  // ---- One call by itself ----

  /** What the consulted components answer a call in this phase; the gateway never returns an error. */
  predicate Says(phase: Phase, allowed: bool, online: bool, success: bool) {
    match phase
    case CheckingAcl => allowed
    case LookingUp => online
    case Beating => success
    case _ => true
  }

  function StepsLeft(phase: Phase): nat {
    match phase
    case Validating => 7
    case CheckingAcl => 6
    case Acquiring => 5
    case LookingUp => 4
    case Calling => 3
    case Beating => 2
    case Releasing(_) => 1
    case Done(_) => 0
  }

  /** The world once a call has run to its end with no other call in between. */
  function Solo(w: World, i: nat, allowed: bool, online: bool, success: bool): World
    requires i < |w.calls|
    decreases StepsLeft(w.calls[i].phase)
  {
    if w.calls[i].phase.Done? then w
    else Solo(Next(w, Move(i, Says(w.calls[i].phase, allowed, online, success))), i, allowed, online, success)
  }

  /** How a call will end from the phase it is in. */
  function Verdict(w: World, i: nat, allowed: bool, online: bool, success: bool): Outcome
    requires i < |w.calls|
  {
    var c := w.calls[i];
    var routed := if online then Routed(success) else NotFound;
    var acquired := if Holders(w.calls, KeyOf(c)) < w.max then routed else ResourceExhausted;
    match c.phase
    case Validating =>
      if c.peerID == "" || c.methodName == "" then InvalidArgument else if allowed then acquired else PermissionDenied
    case CheckingAcl => if allowed then acquired else PermissionDenied
    case Acquiring => acquired
    case LookingUp => routed
    case Calling => Routed(success)
    case Beating => Routed(success)
    case Releasing(result) => result
    case Done(result) => result
  }

  /** Before it asks for its permit a call changes no count. */
  lemma VerdictBefore(w: World, i: nat, allowed: bool, online: bool, success: bool)
    requires Inv(w) && i < |w.calls| && (w.calls[i].phase == Validating || w.calls[i].phase == CheckingAcl)
    ensures var w' := Next(w, Move(i, Says(w.calls[i].phase, allowed, online, success)));
            i < |w'.calls| && Verdict(w', i, allowed, online, success) == Verdict(w, i, allowed, online, success)
  {
    var w' := Next(w, Move(i, Says(w.calls[i].phase, allowed, online, success)));
    HoldersUpdate(w.calls, i, w'.calls[i], KeyOf(w.calls[i]));
    assert w'.calls == w.calls[i := w'.calls[i]] && KeyOf(w'.calls[i]) == KeyOf(w.calls[i]) && w'.max == w.max;
    assert Holders(w'.calls, KeyOf(w'.calls[i])) == Holders(w.calls, KeyOf(w.calls[i]));
  }

  lemma VerdictAfter(w: World, i: nat, allowed: bool, online: bool, success: bool)
    requires Inv(w) && Enabled(w, Move(i, true)) && w.calls[i].phase != Validating && w.calls[i].phase != CheckingAcl
    ensures var w' := Next(w, Move(i, Says(w.calls[i].phase, allowed, online, success)));
            i < |w'.calls| && Verdict(w', i, allowed, online, success) == Verdict(w, i, allowed, online, success)
  {
    if w.calls[i].phase == Acquiring { AcquiresExactly(w, i, true); }
  }

  lemma {:induction false} SoloVerdict(w: World, i: nat, allowed: bool, online: bool, success: bool)
    requires Inv(w) && i < |w.calls|
    ensures var w' := Solo(w, i, allowed, online, success);
            i < |w'.calls| && w'.calls[i].phase == Done(Verdict(w, i, allowed, online, success))
    decreases StepsLeft(w.calls[i].phase)
  {
    if !w.calls[i].phase.Done? {
      var a := Move(i, Says(w.calls[i].phase, allowed, online, success));
      MoveKeepsInv(w, i, a.answer);
      if w.calls[i].phase == Validating || w.calls[i].phase == CheckingAcl {
        VerdictBefore(w, i, allowed, online, success);
      } else {
        VerdictAfter(w, i, allowed, online, success);
      }
      SoloVerdict(Next(w, a), i, allowed, online, success);
    }
  }

  /** A call run alone ends as one run of the whole call does: the first failing check decides. */
  lemma SoloOutcome(w: World, i: nat, allowed: bool, online: bool, success: bool)
    requires Inv(w) && i < |w.calls| && w.calls[i].phase == Validating
    ensures var c, w' := w.calls[i], Solo(w, i, allowed, online, success);
            i < |w'.calls| && w'.calls[i].phase == Done(
              if c.peerID == "" || c.methodName == "" then InvalidArgument
              else if !allowed then PermissionDenied
              else if Holders(w.calls, KeyOf(c)) >= w.max then ResourceExhausted
              else if !online then NotFound
              else Routed(success))
  {
    SoloVerdict(w, i, allowed, online, success);
  }

  lemma NextKeepsInv(w: World, a: Action)
    requires Inv(w) && Enabled(w, a)
    ensures Inv(Next(w, a))
  {
    match a
    case Move(i, answer) => MoveKeepsInv(w, i, answer);
    case Arrive(_, _) => assert Next(w, a).calls[..|w.calls|] == w.calls;
  }

  predicate Runs(w: World, acts: seq<Action>)
    decreases |acts|
  {
    acts == [] || (Enabled(w, acts[0]) && Runs(Next(w, acts[0]), acts[1..]))
  }

  function After(w: World, acts: seq<Action>): World
    requires Runs(w, acts)
    decreases |acts|
  {
    if acts == [] then w else After(Next(w, acts[0]), acts[1..])
  }

  lemma {:induction false} RunKeepsInv(w: World, acts: seq<Action>)
    requires Inv(w) && Runs(w, acts)
    ensures Inv(After(w, acts))
    decreases |acts|
  {
    if acts != [] {
      NextKeepsInv(w, acts[0]);
      RunKeepsInv(Next(w, acts[0]), acts[1..]);
    }
  }

  /** In every run from an unused limiter the counts are exact and within the limit, and each finished
      call has given back exactly what it took. */
  lemma PermitsAccounted(max: int, acts: seq<Action>)
    requires Runs(World(max, map[], []), acts)
    ensures var w := After(World(max, map[], []), acts);
            && (forall key :: Lookup(w.current, key, 0) == Holders(w.calls, key))
            && (forall key :: 0 <= Lookup(w.current, key, 0) <= if w.max > 0 then w.max else 0)
            && (forall i | 0 <= i < |w.calls| && w.calls[i].phase.Done? :: w.calls[i].released == w.calls[i].acquired <= 1)
  {
    RunKeepsInv(World(max, map[], []), acts);
    var w := After(World(max, map[], []), acts);
    forall i | 0 <= i < |w.calls| && w.calls[i].phase.Done? ensures w.calls[i].released == w.calls[i].acquired <= 1 {
      assert CallOk(w.calls[i]);
    }
  }

  predicate AllDone(calls: seq<Call>) {
    forall i | 0 <= i < |calls| :: calls[i].phase.Done?
  }

  lemma {:induction false} DoneHoldsNothing(calls: seq<Call>, key: string)
    requires AllDone(calls)
    ensures Holders(calls, key) == 0
  {
    if calls != [] { DoneHoldsNothing(calls[..|calls| - 1], key); }
  }

  /** Whenever, in a run from an unused limiter, every call so far is done, the limiter counts no permit
      on any key. */
  lemma QuietLimiterIsEmpty(max: int, acts: seq<Action>, key: string)
    requires Runs(World(max, map[], []), acts) && AllDone(After(World(max, map[], []), acts).calls)
    ensures Lookup(After(World(max, map[], []), acts).current, key, 0) == 0
  {
    PermitsAccounted(max, acts);
    DoneHoldsNothing(After(World(max, map[], []), acts).calls, key);
  }
}
