/** String handles of cmd/meshlib/main.go: ids for C allocations whose addresses the allocator reuses. */
module StringTable {
  import opened Common

  const UINT64: nat := 0x1_0000_0000_0000_0000

  /** A pointer other than NULL. */
  type Addr = a: nat | 0 < a < UINT64 witness 1

  /** The globals nextStrID and liveStrs. */
  datatype Table = Table(next: nat, live: map<nat, Addr>)

  function Published(t: Table, cs: Addr): Table {
    var id := (t.next + 1) % UINT64;
    Table(id, t.live[id := cs])
  }

  function Unlinked(t: Table, id: nat): Table {
    t.(live := t.live - {id})
  }

  /** What mesh_str_data gives for a handle: its pointer, or NULL. */
  function Resolve(t: Table, id: nat): Option<Addr> {
    if id in t.live then Some(t.live[id]) else None
  }

  /** Each method is one run under stringsMu. */
  class Strings {
    var nextStrID: nat
    var liveStrs: map<nat, Addr>

    ghost function Abs(): Table
      reads this
    {
      Table(nextStrID, liveStrs)
    }

    constructor ()
      ensures Abs() == Table(0, map[])
    {
      nextStrID, liveStrs := 0, map[];
    }

    method Register(cs: Addr) returns (id: nat)
      modifies this
      ensures Abs() == Published(old(Abs()), cs) && id == nextStrID
    {
      nextStrID := (nextStrID + 1) % UINT64;
      liveStrs := liveStrs[nextStrID := cs];
      id := nextStrID;
    }

    method Data(strHandle: nat) returns (out: Option<Addr>)
      ensures out == Resolve(Abs(), strHandle)
    {
      out := if strHandle in liveStrs then Some(liveStrs[strHandle]) else None;
    }

    /** Returns the allocation for the caller to free after unlocking. */
    method Unlink(strHandle: nat) returns (cs: Option<Addr>)
      modifies this
      ensures cs == if strHandle in old(liveStrs) then Some(old(liveStrs)[strHandle]) else None
      ensures Abs() == Unlinked(old(Abs()), strHandle)
    {
      cs := if strHandle in liveStrs then Some(liveStrs[strHandle]) else None;
      liveStrs := liveStrs - {strHandle};
    }
  }

  // ---- Any number of threads, with an allocator free to reissue freed addresses ----

  /** `heap` maps each allocated address to the number of its allocation; `pending` holds what a thread has
      allocated and not yet published, `doomed` what it has unlinked and not yet freed. */
  datatype World = World(
    table: Table, heap: map<Addr, nat>, born: nat, freed: seq<nat>,
    pending: map<nat, Addr>, doomed: map<nat, Addr>,
    registered: nat, released: set<nat>, corrupt: bool)

  datatype Action =
    | Alloc(thread: nat, addr: Addr) // C.CString, before the lock
    | Publish(thread: nat)
    | Read(id: nat)
    | Release(thread: nat, id: nat)
    | Free(thread: nat)              // C.free, after the lock

  const START := World(Table(0, map[]), map[], 0, [], map[], map[], 0, {}, false)

  predicate Enabled(w: World, a: Action) {
    match a
    case Alloc(t, addr) => t !in w.pending && t !in w.doomed && addr !in w.heap
    case Publish(t) => t in w.pending
    case Read(_) => true
    case Release(t, _) => t !in w.pending && t !in w.doomed
    case Free(t) => t in w.doomed
  }

  function Next(w: World, a: Action): World
    requires Enabled(w, a)
  {
    match a
    case Alloc(t, addr) => w.(heap := w.heap[addr := w.born], born := w.born + 1, pending := w.pending[t := addr])
    case Publish(t) =>
      w.(table := Published(w.table, w.pending[t]), pending := w.pending - {t}, registered := w.registered + 1)
    case Read(_) => w
    case Release(t, id) =>
      if id in w.table.live
      then w.(table := Unlinked(w.table, id), doomed := w.doomed[t := w.table.live[id]], released := w.released + {id})
      else w.(table := Unlinked(w.table, id))
    case Free(t) =>
      var addr := w.doomed[t];
      if addr in w.heap
      then w.(heap := w.heap - {addr}, freed := w.freed + [w.heap[addr]], doomed := w.doomed - {t})
      else w.(doomed := w.doomed - {t}, corrupt := true)
  }

  predicate Injective(m: map<nat, nat>) {
    forall a, b | a in m && b in m && a != b :: m[a] != m[b]
  }

  predicate Apart(m: map<nat, Addr>, n: map<nat, Addr>) {
    forall a, b | a in m && b in n :: m[a] != n[b]
  }

  predicate Allocated(m: map<nat, Addr>, heap: map<Addr, nat>) {
    forall a | a in m :: m[a] in heap
  }

  /** Every address in flight or in the table is allocated and has one owner; every allocation number is
      current or freed once. */
  ghost predicate MemorySafe(w: World) {
    && !w.corrupt
    && Allocated(w.pending, w.heap) && Allocated(w.table.live, w.heap) && Allocated(w.doomed, w.heap)
    && Injective(w.pending) && Injective(w.table.live) && Injective(w.doomed)
    && Apart(w.pending, w.table.live) && Apart(w.pending, w.doomed) && Apart(w.table.live, w.doomed)
    && (forall a | a in w.heap :: w.heap[a] < w.born)
    && Injective(w.heap)
    && (forall i | 0 <= i < |w.freed| :: w.freed[i] < w.born && w.freed[i] !in w.heap.Values)
    && (forall i, j | 0 <= i < j < |w.freed| :: w.freed[i] != w.freed[j])
  }

  /** No step frees an address twice or under a live handle, wrapped counter or not. */
  lemma NextMemorySafe(w: World, a: Action)
    requires MemorySafe(w) && Enabled(w, a)
    ensures MemorySafe(Next(w, a))
  {
    match a
    case Alloc(t, addr) => FreshAllocation(w, t, addr);
    case Publish(t) => PublishSafe(w, t);
    case Read(_) =>
    case Release(t, id) => ReleaseSafe(w, t, id);
    case Free(t) => FreeOnce(w, t);
  }

  lemma PublishSafe(w: World, t: nat)
    requires MemorySafe(w) && Enabled(w, Publish(t))
    ensures MemorySafe(Next(w, Publish(t)))
  {
  }

  lemma ReleaseSafe(w: World, t: nat, id: nat)
    requires MemorySafe(w) && Enabled(w, Release(t, id))
    ensures MemorySafe(Next(w, Release(t, id)))
  {
  }

  lemma FreshAllocation(w: World, t: nat, addr: Addr)
    requires MemorySafe(w) && Enabled(w, Alloc(t, addr))
    ensures MemorySafe(Next(w, Alloc(t, addr)))
  {
    var w' := Next(w, Alloc(t, addr));
    forall i | 0 <= i < |w'.freed| ensures w'.freed[i] !in w'.heap.Values {
      assert w.freed[i] < w.born && w.freed[i] !in w.heap.Values;
    }
  }

  lemma FreeOnce(w: World, t: nat)
    requires MemorySafe(w) && Enabled(w, Free(t))
    ensures w.doomed[t] in w.heap
    ensures MemorySafe(Next(w, Free(t)))
  {
    var w' := Next(w, Free(t));
    var addr := w.doomed[t];
    assert addr in w.heap;
    assert w.heap[addr] in w.heap.Values;
    forall i | 0 <= i < |w'.freed|
      ensures w'.freed[i] < w'.born && w'.freed[i] !in w'.heap.Values
    {
      assert forall a | a in w'.heap :: w'.heap[a] in w.heap.Values;
    }
  }

  /** Ids are issued once: an id resolves exactly from its registration to its release. Holds as long as
      the 64-bit counter has not wrapped. */
  ghost predicate IdsUnique(w: World) {
    && w.table.next == w.registered
    && (forall id :: id in w.table.live <==> 1 <= id <= w.registered && id !in w.released)
    && (forall id | id in w.released :: 1 <= id <= w.registered)
  }

  /** Nothing allocated is without an owner. */
  ghost predicate NoLeak(w: World) {
    forall addr | addr in w.heap :: Owned(w, addr)
  }

  predicate OwnedBy(m: map<nat, Addr>, k: nat, addr: Addr) {
    k in m && m[k] == addr
  }

  ghost predicate Owned(w: World, addr: Addr) {
    || (exists t :: OwnedBy(w.pending, t, addr))
    || (exists id :: OwnedBy(w.table.live, id, addr))
    || (exists t :: OwnedBy(w.doomed, t, addr))
  }

  lemma NextIdsUnique(w: World, a: Action)
    requires IdsUnique(w) && Enabled(w, a) && Next(w, a).registered < UINT64
    ensures IdsUnique(Next(w, a))
  {
  }

  lemma NextNoLeak(w: World, a: Action)
    requires IdsUnique(w) && NoLeak(w) && Enabled(w, a) && Next(w, a).registered < UINT64
    ensures NoLeak(Next(w, a))
  {
    var w' := Next(w, a);
    forall addr | addr in w'.heap ensures Owned(w', addr) {
      if addr !in w.heap {
        assert OwnedBy(w'.pending, a.thread, addr);
      } else {
        assert Owned(w, addr);
        if t :| OwnedBy(w.pending, t, addr) {
          PendingOwnerKept(w, a, addr, t);
        } else if id :| OwnedBy(w.table.live, id, addr) {
          assert if a.Release? && a.id == id then OwnedBy(w'.doomed, a.thread, addr) else OwnedBy(w'.table.live, id, addr);
        } else {
          var t :| OwnedBy(w.doomed, t, addr);
          assert OwnedBy(w'.doomed, t, addr);
        }
      }
    }
  }

  lemma PendingOwnerKept(w: World, a: Action, addr: Addr, t: nat)
    requires Enabled(w, a) && OwnedBy(w.pending, t, addr)
    ensures Owned(Next(w, a), addr)
  {
    var w' := Next(w, a);
    assert if a == Publish(t) then OwnedBy(w'.table.live, w'.table.next, addr) else OwnedBy(w'.pending, t, addr);
  }

  predicate Runs(w: World, acts: seq<Action>)
    decreases |acts|
  {
    acts == [] || (Enabled(w, acts[0]) && Runs(Next(w, acts[0]), acts[1..]))
  }

  function After(w: World, acts: seq<Action>): World
    requires Runs(w, acts)
    decreases |acts|
  {
    if acts == [] then w else After(Next(w, acts[0]), acts[1..])
  }

  lemma {:induction false} RunMemorySafe(w: World, acts: seq<Action>)
    requires MemorySafe(w) && Runs(w, acts)
    ensures MemorySafe(After(w, acts))
    decreases |acts|
  {
    if acts != [] {
      NextMemorySafe(w, acts[0]);
      RunMemorySafe(Next(w, acts[0]), acts[1..]);
    }
  }

  lemma {:induction false} RegisteredGrows(w: World, acts: seq<Action>)
    requires Runs(w, acts)
    ensures w.registered <= After(w, acts).registered
    decreases |acts|
  {
    if acts != [] { RegisteredGrows(Next(w, acts[0]), acts[1..]); }
  }

  lemma {:induction false} RunIdsUnique(w: World, acts: seq<Action>)
    requires IdsUnique(w) && NoLeak(w) && Runs(w, acts) && After(w, acts).registered < UINT64
    ensures IdsUnique(After(w, acts)) && NoLeak(After(w, acts)) && w.released <= After(w, acts).released
    decreases |acts|
  {
    if acts != [] {
      RegisteredGrows(Next(w, acts[0]), acts[1..]);
      NextIdsUnique(w, acts[0]);
      NextNoLeak(w, acts[0]);
      RunIdsUnique(Next(w, acts[0]), acts[1..]);
    }
  }

  /** From start-up, in every interleaving: no address is freed unallocated, no allocation twice, and what a
      live handle points to is allocated, unfreed and shared with no other handle. */
  lemma HandlesAreSafe(acts: seq<Action>)
    requires Runs(START, acts)
    ensures var w := After(START, acts);
            && !w.corrupt
            && (forall i, j | 0 <= i < j < |w.freed| :: w.freed[i] != w.freed[j])
            && (forall id | id in w.table.live ::
                  w.table.live[id] in w.heap && w.heap[w.table.live[id]] !in w.freed)
            && Injective(w.table.live)
  {
    RunMemorySafe(START, acts);
    var w := After(START, acts);
    forall id | id in w.table.live ensures w.heap[w.table.live[id]] !in w.freed {
      assert w.heap[w.table.live[id]] in w.heap.Values;
    }
  }

  /** A handle resolves if and only if it was issued and not yet released, in every run of fewer than 2^64
      registrations. */
  lemma ResolvesExactly(acts: seq<Action>, id: nat)
    requires Runs(START, acts) && After(START, acts).registered < UINT64
    ensures var w := After(START, acts);
            && (Resolve(w.table, id).Some? <==> 1 <= id <= w.registered && id !in w.released)
            && (Resolve(w.table, id).Some? ==> Resolve(w.table, id).value in w.heap)
  {
    RunIdsUnique(START, acts);
    HandlesAreSafe(acts);
  }

  /** A released id never resolves again, 0 is never a handle, and nothing leaks, in every run of fewer
      than 2^64 registrations. */
  lemma ReleasedIdsStayDead(acts: seq<Action>, more: seq<Action>)
    requires Runs(START, acts) && Runs(After(START, acts), more)
    requires After(After(START, acts), more).registered < UINT64
    ensures var w, w' := After(START, acts), After(After(START, acts), more);
            && (forall id | id in w.released :: id !in w'.table.live)
            && 0 !in w'.table.live
            && NoLeak(w')
  {
    RegisteredGrows(After(START, acts), more);
    RunIdsUnique(START, acts);
    RunIdsUnique(After(START, acts), more);
  }

  /** Releasing an id twice, or one never issued, changes nothing. */
  lemma StaleReleaseIsNoOp(w: World, thread: nat, id: nat)
    requires IdsUnique(w) && Enabled(w, Release(thread, id)) && (id in w.released || id > w.registered)
    ensures Next(w, Release(thread, id)) == w
  {
    assert w.table.live - {id} == w.table.live;
  }

  lemma BorrowStep(w: World, a: Action, id: nat)
    requires MemorySafe(w) && IdsUnique(w) && Enabled(w, a) && Next(w, a).registered < UINT64
    requires id in w.table.live && (a.Release? ==> a.id != id)
    ensures var w' := Next(w, a);
            && id in w'.table.live && w'.table.live[id] == w.table.live[id]
            && w.table.live[id] in w'.heap && w'.heap[w.table.live[id]] == w.heap[w.table.live[id]]
  {
  }

  /** A borrowed pointer stays good until its own handle is released, whatever else happens. */
  lemma {:induction false} BorrowStaysValid(w: World, acts: seq<Action>, id: nat)
    requires MemorySafe(w) && IdsUnique(w) && Runs(w, acts) && After(w, acts).registered < UINT64
    requires id in w.table.live
    requires forall i | 0 <= i < |acts| && acts[i].Release? :: acts[i].id != id
    ensures var w' := After(w, acts);
            && id in w'.table.live && w'.table.live[id] == w.table.live[id]
            && w.table.live[id] in w'.heap && w'.heap[w.table.live[id]] == w.heap[w.table.live[id]]
    decreases |acts|
  {
    if acts != [] {
      RegisteredGrows(Next(w, acts[0]), acts[1..]);
      NextMemorySafe(w, acts[0]);
      NextIdsUnique(w, acts[0]);
      BorrowStep(w, acts[0], id);
      BorrowStaysValid(Next(w, acts[0]), acts[1..], id);
    }
  }

  // ---- The counter over runs of any length ----

  lemma {:induction false} RunCounter(w: World, acts: seq<Action>)
    requires Runs(w, acts) && w.table.next == w.registered % UINT64
    ensures After(w, acts).table.next == After(w, acts).registered % UINT64
    decreases |acts|
  {
    if acts != [] { RunCounter(Next(w, acts[0]), acts[1..]); }
  }

  /** Over every run, however long: the handle a registration issues is 0, the failure value, if and only if
      it is a 2^64-th one, and it is greater than the handle issued before it if and only if it is not. */
  lemma CounterExactly(acts: seq<Action>, thread: nat)
    requires Runs(START, acts) && Enabled(After(START, acts), Publish(thread))
    ensures var w := After(START, acts);
            var issued := Next(w, Publish(thread)).table.next;
            && issued in Next(w, Publish(thread)).table.live
            && issued == (w.registered + 1) % 18_446_744_073_709_551_616
            && (issued == 0 <==> (w.registered + 1) % 18_446_744_073_709_551_616 == 0)
            && (issued > w.table.next <==> (w.registered + 1) % 18_446_744_073_709_551_616 != 0)
  {
    RunCounter(START, acts);
  }

  lemma {:induction false} RunsOneMore(w: World, acts: seq<Action>, a: Action)
    requires Runs(w, acts) && Enabled(After(w, acts), a)
    ensures Runs(w, acts + [a]) && After(w, acts + [a]) == Next(After(w, acts), a)
    decreases |acts|
  {
    if acts == [] {
      assert (acts + [a])[0] == a && (acts + [a])[1..] == [];
      assert Runs(Next(w, a), []) && After(Next(w, a), []) == Next(w, a);
    } else {
      RunsOneMore(Next(w, acts[0]), acts[1..], a);
      assert (acts + [a])[0] == acts[0] && (acts + [a])[1..] == acts[1..] + [a];
    }
  }

  /** One thread registering and releasing one string over and over, at one address, gets the counter to any
      value, with nothing live or allocated in between. */
  lemma {:induction false} CounterReaches(n: nat) returns (acts: seq<Action>)
    requires n < UINT64
    ensures Runs(START, acts)
    ensures var w := After(START, acts);
            w.table == Table(n, map[]) && w.registered == n && w.heap == map[] && w.pending == map[] && w.doomed == map[]
  {
    if n == 0 {
      acts := [];
    } else {
      acts := CounterReaches(n - 1);
      var w := After(START, acts);
      RunsOneMore(START, acts, Alloc(0, 1));
      acts := acts + [Alloc(0, 1)];
      RunsOneMore(START, acts, Publish(0));
      acts := acts + [Publish(0)];
      RunsOneMore(START, acts, Release(0, n));
      acts := acts + [Release(0, n)];
      RunsOneMore(START, acts, Free(0));
      acts := acts + [Free(0)];
      CycleLeavesNothing(w, n);
    }
  }

  lemma CycleLeavesNothing(w: World, n: nat)
    requires 0 < n < UINT64 && w.table == Table(n - 1, map[]) && w.registered == n - 1
    requires w.heap == map[] && w.pending == map[] && w.doomed == map[]
    ensures Enabled(w, Alloc(0, 1)) && Enabled(Next(w, Alloc(0, 1)), Publish(0))
    ensures var w2 := Next(Next(w, Alloc(0, 1)), Publish(0));
            Enabled(w2, Release(0, n)) && Enabled(Next(w2, Release(0, n)), Free(0))
    ensures var w4 := Next(Next(Next(Next(w, Alloc(0, 1)), Publish(0)), Release(0, n)), Free(0));
            w4.table == Table(n, map[]) && w4.registered == n && w4.heap == map[] && w4.pending == map[] && w4.doomed == map[]
  {
  }

  /** So some run ends in a registration that issues 0, with no more than one string alive at any time. */
  lemma ZeroIsIssued() returns (acts: seq<Action>)
    ensures Runs(START, acts) && Enabled(After(START, acts), Publish(0))
    ensures Next(After(START, acts), Publish(0)).table.next == 0
    ensures After(START, acts).table.live == map[] && |After(START, acts).heap| == 1
  {
    var front := CounterReaches(UINT64 - 1);
    RunsOneMore(START, front, Alloc(0, 1));
    acts := front + [Alloc(0, 1)];
    CounterExactly(acts, 0);
  }
}
