/** The reverse index of pkg/registry/method_registry.go on values, against the history of updates. */
module MethodIndex {
  import opened Common
  import Wildcard

  type PeerID = string

  datatype MethodDescriptor = MethodDescriptor(name: string, description: string)

  type Index = map<string, seq<PeerID>>

  datatype Registry = Registry(catalogs: map<PeerID, seq<MethodDescriptor>>, index: Index)

  datatype Event = Updated(peer: PeerID, methods: seq<MethodDescriptor>) | Removed(peer: PeerID)

  predicate HasName(methods: seq<MethodDescriptor>, name: string) {
    exists i | 0 <= i < |methods| :: methods[i].name == name
  }

  function RemoveFirst(peers: seq<PeerID>, p: PeerID): seq<PeerID> {
    if peers == [] then []
    else if peers[0] == p then peers[1..]
    else [peers[0]] + RemoveFirst(peers[1..], p)
  }

  function AddPeer(ix: Index, name: string, p: PeerID): Index {
    if p in Lookup(ix, name, []) then ix else ix[name := Lookup(ix, name, []) + [p]]
  }

  function DropPeer(ix: Index, name: string, p: PeerID): Index {
    var rest := RemoveFirst(Lookup(ix, name, []), p);
    if rest == [] then ix - {name} else ix[name := rest]
  }

  function AddAll(ix: Index, methods: seq<MethodDescriptor>, p: PeerID): Index {
    if methods == [] then ix
    else AddPeer(AddAll(ix, methods[..|methods| - 1], p), methods[|methods| - 1].name, p)
  }

  function DropAll(ix: Index, methods: seq<MethodDescriptor>, p: PeerID): Index {
    if methods == [] then ix
    else DropPeer(DropAll(ix, methods[..|methods| - 1], p), methods[|methods| - 1].name, p)
  }

  function Without(r: Registry, p: PeerID): Index {
    if p in r.catalogs then DropAll(r.index, r.catalogs[p], p) else r.index
  }

  function After(r: Registry, e: Event): Registry {
    match e
    case Updated(p, methods) => Registry(r.catalogs[p := methods], AddAll(Without(r, p), methods, p))
    case Removed(p) => Registry(r.catalogs - {p}, Without(r, p))
  }

  function Replay(history: seq<Event>): Registry {
    if history == [] then Registry(map[], map[])
    else After(Replay(history[..|history| - 1]), history[|history| - 1])
  }

  lemma ReplayAppend(history: seq<Event>, e: Event)
    ensures Replay(history + [e]) == After(Replay(history), e)
  {
    assert (history + [e])[..|history|] == history;
  }

  // ---- What the index should hold, read off the history alone ----

  /** Position of the last event about a peer, -1 if there is none. */
  function Latest(history: seq<Event>, p: PeerID): int {
    if history == [] then -1
    else if history[|history| - 1].peer == p then |history| - 1
    else Latest(history[..|history| - 1], p)
  }

  /** The peer's last event is an update that lists the method. */
  predicate Offers(history: seq<Event>, p: PeerID, name: string) {
    var k := Latest(history, p);
    0 <= k < |history| && history[k].Updated? && HasName(history[k].methods, name)
  }

  /** The peers offering the method, each once, least recently updated first. */
  ghost predicate IsRecencyScan(history: seq<Event>, name: string, peers: seq<PeerID>) {
    && (forall p :: p in peers <==> Offers(history, p, name))
    && Ascending(history, peers)
  }

  ghost predicate IndexOk(history: seq<Event>, r: Registry) {
    && (forall name :: IsRecencyScan(history, name, Lookup(r.index, name, [])))
    && (forall name | name in r.index :: r.index[name] != [])
    && (forall p :: p in r.catalogs <==> (Latest(history, p) >= 0 && Listed(history, p)))
    && (forall p | p in r.catalogs :: r.catalogs[p] == CatalogOf(history, p))
  }

  predicate Listed(history: seq<Event>, p: PeerID) {
    var k := Latest(history, p);
    0 <= k < |history| && history[k].Updated?
  }

  function CatalogOf(history: seq<Event>, p: PeerID): seq<MethodDescriptor> {
    var k := Latest(history, p);
    if 0 <= k < |history| && history[k].Updated? then history[k].methods else []
  }

  predicate NoDuplicates(peers: seq<PeerID>) {
    forall i, j | 0 <= i < j < |peers| :: peers[i] != peers[j]
  }

  ghost predicate Tidy(ix: Index) {
    forall name | name in ix :: ix[name] != [] && NoDuplicates(ix[name])
  }

  // ---- The operations, entry by entry ----

  lemma {:induction false} RemoveFirstMeans(peers: seq<PeerID>, p: PeerID)
    requires NoDuplicates(peers)
    ensures NoDuplicates(RemoveFirst(peers, p))
    ensures forall q :: q in RemoveFirst(peers, p) <==> q in peers && q != p
  {
    if peers != [] {
      HeadAndTail(peers);
      if peers[0] != p {
        RemoveFirstMeans(peers[1..], p);
        HeadAndTail(RemoveFirst(peers, p));
        assert RemoveFirst(peers, p)[1..] == RemoveFirst(peers[1..], p);
      }
    }
  }

  lemma HeadAndTail(peers: seq<PeerID>)
    requires peers != []
    ensures forall q :: q in peers <==> q == peers[0] || q in peers[1..]
    ensures NoDuplicates(peers) <==> peers[0] !in peers[1..] && NoDuplicates(peers[1..])
  {
    assert peers == [peers[0]] + peers[1..];
    if peers[0] !in peers[1..] && NoDuplicates(peers[1..]) {
      forall i, j | 0 <= i < j < |peers| ensures peers[i] != peers[j] {
        assert peers[j] == peers[1..][j - 1];
        if i > 0 { assert peers[i] == peers[1..][i - 1]; }
      }
    }
  }

  lemma {:induction false} RemoveAbsent(peers: seq<PeerID>, p: PeerID)
    requires p !in peers
    ensures RemoveFirst(peers, p) == peers && RemoveFirst(peers + [p], p) == peers
  {
    if peers != [] {
      RemoveAbsent(peers[1..], p);
      assert (peers + [p])[1..] == peers[1..] + [p];
    }
  }

  lemma {:induction false} RemoveFirstAt(peers: seq<PeerID>, p: PeerID, i: nat)
    requires i < |peers| && peers[i] == p && p !in peers[..i]
    ensures RemoveFirst(peers, p) == peers[..i] + peers[i + 1..]
  {
    if i > 0 {
      assert peers[0] in peers[..i];
      assert peers[..i] == [peers[0]] + peers[1..][..i - 1];
      RemoveFirstAt(peers[1..], p, i - 1);
    }
  }

  lemma HasNameSplits(methods: seq<MethodDescriptor>, name: string)
    requires methods != []
    ensures HasName(methods, name) <==>
              HasName(methods[..|methods| - 1], name) || methods[|methods| - 1].name == name
  {
    var front := methods[..|methods| - 1];
    if i :| 0 <= i < |methods| && methods[i].name == name {
      if i < |front| { assert front[i].name == name; }
    }
  }

  /** Adding a catalogue appends the peer once to the entry of each of its names, however often a name repeats. */
  lemma {:induction false} AddAllEntry(ix: Index, methods: seq<MethodDescriptor>, p: PeerID, name: string)
    requires Tidy(ix)
    ensures Tidy(AddAll(ix, methods, p))
    ensures Lookup(AddAll(ix, methods, p), name, [])
            == Lookup(ix, name, []) + if HasName(methods, name) && p !in Lookup(ix, name, []) then [p] else []
  {
    if methods != [] {
      AddAllEntry(ix, methods[..|methods| - 1], p, name);
      HasNameSplits(methods, name);
    }
  }

  /** Dropping a catalogue removes the peer from the entry of each of its names and keeps no empty entry. */
  lemma {:induction false} DropAllEntry(ix: Index, methods: seq<MethodDescriptor>, p: PeerID, name: string)
    requires Tidy(ix)
    ensures Tidy(DropAll(ix, methods, p))
    ensures Lookup(DropAll(ix, methods, p), name, [])
            == if HasName(methods, name) then RemoveFirst(Lookup(ix, name, []), p) else Lookup(ix, name, [])
  {
    if methods != [] {
      var ix' := DropAll(ix, methods[..|methods| - 1], p);
      var dropped := methods[|methods| - 1].name;
      DropAllEntry(ix, methods[..|methods| - 1], p, name);
      HasNameSplits(methods, name);
      RemoveFirstMeans(Lookup(ix', dropped, []), p);
      RemoveFirstMeans(Lookup(ix, name, []), p);
      if dropped == name { RemoveAbsent(RemoveFirst(Lookup(ix, name, []), p), p); }
    }
  }

  lemma OkIsTidy(history: seq<Event>, r: Registry)
    requires IndexOk(history, r)
    ensures Tidy(r.index)
  {
    forall name | name in r.index ensures NoDuplicates(r.index[name]) {
      assert IsRecencyScan(history, name, Lookup(r.index, name, []));
    }
  }

  /** The entry without the peer, whether or not the peer had a catalogue. */
  lemma WithoutEntry(history: seq<Event>, r: Registry, p: PeerID, name: string)
    requires IndexOk(history, r)
    ensures Tidy(Without(r, p))
    ensures Lookup(Without(r, p), name, []) == RemoveFirst(Lookup(r.index, name, []), p)
    ensures p !in Lookup(Without(r, p), name, [])
    ensures forall q :: q in Lookup(Without(r, p), name, []) <==> q in Lookup(r.index, name, []) && q != p
  {
    OkIsTidy(history, r);
    var entry := Lookup(r.index, name, []);
    assert IsRecencyScan(history, name, entry);
    RemoveFirstMeans(entry, p);
    assert p in entry <==> Offers(history, p, name);
    if p in r.catalogs {
      DropAllEntry(r.index, r.catalogs[p], p, name);
      assert r.catalogs[p] == CatalogOf(history, p);
    }
    if p !in entry { RemoveAbsent(entry, p); }
  }

  lemma LatestAppend(history: seq<Event>, e: Event, p: PeerID)
    ensures Latest(history + [e], p) == if e.peer == p then |history| else Latest(history, p)
    ensures -1 <= Latest(history, p) < |history|
    ensures p != e.peer ==> (Listed(history + [e], p) <==> Listed(history, p))
    ensures p != e.peer ==> CatalogOf(history + [e], p) == CatalogOf(history, p)
  {
    assert (history + [e])[..|history|] == history;
    LatestBound(history, p);
  }

  lemma {:induction false} LatestBound(history: seq<Event>, p: PeerID)
    ensures -1 <= Latest(history, p) < |history|
  {
    if history != [] { LatestBound(history[..|history| - 1], p); }
  }

  lemma OffersAppend(history: seq<Event>, e: Event, p: PeerID, name: string)
    ensures Offers(history + [e], p, name) <==>
              if e.peer == p then e.Updated? && HasName(e.methods, name) else Offers(history, p, name)
  {
    LatestAppend(history, e, p);
  }

  lemma EntryStep(history: seq<Event>, r: Registry, e: Event, name: string)
    requires IndexOk(history, r)
    ensures IsRecencyScan(history + [e], name, Lookup(After(r, e).index, name, []))
  {
    var p := e.peer;
    var entry := Lookup(r.index, name, []);
    var rest := Lookup(Without(r, p), name, []);
    var added := if e.Updated? && HasName(e.methods, name) then [p] else [];
    var entry' := Lookup(After(r, e).index, name, []);
    assert IsRecencyScan(history, name, entry);
    WithoutEntry(history, r, p, name);
    if e.Updated? { AddAllEntry(Without(r, p), e.methods, p, name); }
    assert entry' == rest + added;
    forall q ensures q in entry' <==> Offers(history + [e], q, name) {
      OffersAppend(history, e, q, name);
    }
    OrderKept(history, entry, p);
    forall i, j | 0 <= i < j < |entry'|
      ensures Latest(history + [e], entry'[i]) < Latest(history + [e], entry'[j])
    {
      LatestAppend(history, e, entry'[i]);
      LatestAppend(history, e, entry'[j]);
      assert entry'[i] == rest[i] && rest[i] in rest;
      if j < |rest| { assert entry'[j] == rest[j] && rest[j] in rest; }
    }
  }

  predicate Ascending(history: seq<Event>, peers: seq<PeerID>) {
    forall i, j | 0 <= i < j < |peers| :: Latest(history, peers[i]) < Latest(history, peers[j])
  }

  lemma {:induction false} RemoveFirstSubset(peers: seq<PeerID>, p: PeerID)
    ensures forall q | q in RemoveFirst(peers, p) :: q in peers
  {
    if peers != [] && peers[0] != p {
      RemoveFirstSubset(peers[1..], p);
    }
  }

  lemma AscendingCons(history: seq<Event>, head: PeerID, tail: seq<PeerID>)
    requires Ascending(history, tail) && forall q | q in tail :: Latest(history, head) < Latest(history, q)
    ensures Ascending(history, [head] + tail)
  {
  }

  /** Removing a peer keeps the order of the others. */
  lemma {:induction false} OrderKept(history: seq<Event>, entry: seq<PeerID>, p: PeerID)
    requires Ascending(history, entry)
    ensures Ascending(history, RemoveFirst(entry, p))
  {
    if entry != [] && entry[0] != p {
      OrderKept(history, entry[1..], p);
      RemoveFirstSubset(entry[1..], p);
      AscendingCons(history, entry[0], RemoveFirst(entry[1..], p));
    }
  }

  lemma AfterOk(history: seq<Event>, r: Registry, e: Event)
    requires IndexOk(history, r)
    ensures IndexOk(history + [e], After(r, e))
  {
    var r' := After(r, e);
    forall name ensures IsRecencyScan(history + [e], name, Lookup(r'.index, name, [])) {
      EntryStep(history, r, e, name);
    }
    WithoutEntry(history, r, e.peer, "");
    if e.Updated? { AddAllEntry(Without(r, e.peer), e.methods, e.peer, ""); }
    forall p
      ensures p in r'.catalogs <==> (Latest(history + [e], p) >= 0 && Listed(history + [e], p))
      ensures p in r'.catalogs ==> r'.catalogs[p] == CatalogOf(history + [e], p)
    {
      LatestAppend(history, e, p);
    }
  }

  /** After any history of updates and removals, the index entry of every method is exactly the recency
      scan of that history, and no method without peers has an entry. */
  lemma {:induction false} IndexIsRecencyScan(history: seq<Event>)
    ensures IndexOk(history, Replay(history))
  {
    if history != [] {
      var front := history[..|history| - 1];
      IndexIsRecencyScan(front);
      AfterOk(front, Replay(front), history[|history| - 1]);
      assert history == front + [history[|history| - 1]];
    }
  }

  /** The scan leaves no freedom: one list per history and method. */
  lemma ScanIsUnique(history: seq<Event>, name: string, xs: seq<PeerID>, ys: seq<PeerID>)
    requires IsRecencyScan(history, name, xs) && IsRecencyScan(history, name, ys)
    ensures xs == ys
  {
    assert forall p :: p in xs <==> p in ys;
    SortedUnique(history, xs, ys);
  }

  lemma SomeMember(xs: seq<PeerID>, ys: seq<PeerID>)
    requires ys != [] && forall p :: p in xs <==> p in ys
    ensures xs != []
  {
    assert ys[0] in xs;
  }

  lemma {:induction false} SortedUnique(history: seq<Event>, xs: seq<PeerID>, ys: seq<PeerID>)
    requires forall p :: p in xs <==> p in ys
    requires Ascending(history, xs) && Ascending(history, ys)
    ensures xs == ys
  {
    if xs == [] {
      if ys != [] { SomeMember(xs, ys); }
    } else {
      var n, m := |xs| - 1, |ys| - 1;
      assert xs[n] in ys && ys[m] in xs;
      var i :| 0 <= i < |ys| && ys[i] == xs[n];
      var j :| 0 <= j < |xs| && xs[j] == ys[m];
      assert xs[n] == ys[m];
      forall p ensures p in xs[..n] <==> p in ys[..m] {
        if p in xs[..n] { assert p in xs && p in ys; }
        if p in ys[..m] { assert p in ys && p in xs; }
      }
      SortedUnique(history, xs[..n], ys[..m]);
      assert xs == xs[..n] + [xs[n]] && ys == ys[..m] + [ys[m]];
    }
  }

  /** An update leaves no trace a removal would not erase: not in the catalogues, not in the index. */
  lemma UpdateThenRemove(history: seq<Event>, p: PeerID, methods: seq<MethodDescriptor>)
    ensures After(After(Replay(history), Updated(p, methods)), Removed(p)) == After(Replay(history), Removed(p))
  {
    var r := Replay(history);
    IndexIsRecencyScan(history);
    var u := After(r, Updated(p, methods));
    AfterOk(history, r, Updated(p, methods));
    var history' := history + [Updated(p, methods)];
    WithoutEntry(history, r, p, "");
    WithoutEntry(history', u, p, "");
    forall name ensures Lookup(Without(u, p), name, []) == Lookup(Without(r, p), name, []) {
      var rest := Lookup(Without(r, p), name, []);
      WithoutEntry(history, r, p, name);
      AddAllEntry(Without(r, p), methods, p, name);
      WithoutEntry(history', u, p, name);
      RemoveAbsent(rest, p);
      assert rest + [] == rest;
    }
    SameEntries(Without(u, p), Without(r, p));
    assert u.catalogs - {p} == r.catalogs - {p};
  }

  lemma SameEntries(a: Index, b: Index)
    requires Tidy(a) && Tidy(b) && forall name :: Lookup(a, name, []) == Lookup(b, name, [])
    ensures a == b
  {
    forall name ensures name in a <==> name in b {
      assert Lookup(a, name, []) == Lookup(b, name, []);
    }
    forall name | name in a ensures a[name] == b[name] {
      assert Lookup(a, name, []) == Lookup(b, name, []);
    }
  }

  // ---- Search ----

  /** The catalogue entries matching a pattern, in order. */
  function Matching(methods: seq<MethodDescriptor>, pattern: string): seq<MethodDescriptor> {
    if methods == [] then []
    else
      var last := methods[|methods| - 1];
      Matching(methods[..|methods| - 1], pattern) + if Wildcard.Matches(last.name, pattern) then [last] else []
  }

  /** The positions below n of the entries that match. */
  function Hits(methods: seq<MethodDescriptor>, pattern: string, n: nat): set<nat>
    requires n <= |methods|
  {
    set i: nat | i < n && Wildcard.Matches(methods[i].name, pattern)
  }

  lemma HitsNext(methods: seq<MethodDescriptor>, pattern: string, n: nat)
    requires n < |methods|
    ensures |Hits(methods, pattern, n + 1)|
            == |Hits(methods, pattern, n)| + if Wildcard.Matches(methods[n].name, pattern) then 1 else 0
  {
    if Wildcard.Matches(methods[n].name, pattern) {
      assert Hits(methods, pattern, n + 1) == Hits(methods, pattern, n) + {n};
    } else {
      assert Hits(methods, pattern, n + 1) == Hits(methods, pattern, n);
    }
  }

  /** A search keeps every matching entry once, in the order of the catalogue, and nothing else. */
  lemma {:induction false} MatchingExactly(methods: seq<MethodDescriptor>, pattern: string)
    ensures |Matching(methods, pattern)| == |Hits(methods, pattern, |methods|)|
    ensures forall i | 0 <= i < |methods| && Wildcard.Matches(methods[i].name, pattern) ::
              |Hits(methods, pattern, i)| < |Matching(methods, pattern)|
              && Matching(methods, pattern)[|Hits(methods, pattern, i)|] == methods[i]
  {
    if methods != [] {
      var n := |methods| - 1;
      var front := methods[..n];
      MatchingExactly(front, pattern);
      HitsNext(methods, pattern, n);
      forall i: nat | i <= n ensures Hits(front, pattern, i) == Hits(methods, pattern, i) {}
    }
  }

  lemma {:induction false} MatchingLiteral(methods: seq<MethodDescriptor>, name: string)
    requires Wildcard.STAR !in name
    ensures Matching(methods, name) != [] <==> HasName(methods, name)
  {
    if methods != [] {
      MatchingLiteral(methods[..|methods| - 1], name);
      HasNameSplits(methods, name);
    }
  }

  /** A search without wildcards finds the peers the index lists, and no others. */
  lemma SearchAgreesWithIndex(history: seq<Event>, name: string)
    requires Wildcard.STAR !in name
    ensures var r := Replay(history);
            forall p :: (p in r.catalogs && Matching(r.catalogs[p], name) != []) <==> p in Lookup(r.index, name, [])
  {
    var r := Replay(history);
    IndexIsRecencyScan(history);
    assert IsRecencyScan(history, name, Lookup(r.index, name, []));
    forall p
      ensures (p in r.catalogs && Matching(r.catalogs[p], name) != []) <==> p in Lookup(r.index, name, [])
    {
      if p in r.catalogs { MatchingLiteral(r.catalogs[p], name); }
      assert p in Lookup(r.index, name, []) <==> Offers(history, p, name);
    }
  }
}

/** The MethodRegistry of pkg/registry/method_registry.go; each method is one run under mr.mu. */
module Methods {
  import opened Common
  import opened MethodIndex
  import Wildcard

  class MethodRegistry {
    var peerMethods: map<PeerID, seq<MethodDescriptor>>
    var methodPeers: map<string, seq<PeerID>>
    ghost var history: seq<Event>

    ghost predicate Valid()
      reads this
    {
      MethodIndex.Registry(peerMethods, methodPeers) == Replay(history)
    }

    constructor ()
      ensures Valid() && history == []
    {
      peerMethods, methodPeers, history := map[], map[], [];
    }

    method AddToIndex(methodName: string, peerID: PeerID)
      modifies this`methodPeers
      ensures methodPeers == AddPeer(old(methodPeers), methodName, peerID)
    {
      var peers := Lookup(methodPeers, methodName, []);
      for i := 0 to |peers|
        invariant peerID !in peers[..i]
      {
        if peers[i] == peerID {
          return;
        }
      }
      assert peers[..|peers|] == peers;
      methodPeers := methodPeers[methodName := peers + [peerID]];
    }

    method RemoveFromIndex(methodName: string, peerID: PeerID)
      modifies this`methodPeers
      ensures methodPeers == DropPeer(old(methodPeers), methodName, peerID)
    {
      var peers := Lookup(methodPeers, methodName, []);
      var i := 0;
      while i < |peers| && peers[i] != peerID
        invariant 0 <= i <= |peers|
        invariant peerID !in peers[..i]
      {
        i := i + 1;
      }
      if i < |peers| {
        RemoveFirstAt(peers, peerID, i);
        methodPeers := methodPeers[methodName := peers[..i] + peers[i + 1..]];
      } else {
        assert peers[..i] == peers;
        RemoveAbsent(peers, peerID);
      }
      if |Lookup(methodPeers, methodName, [])| == 0 {
        methodPeers := methodPeers - {methodName};
      }
    }

    /** Takes a peer's present catalogue out of the index. */
    method Unindex(peerID: PeerID)
      modifies this`methodPeers
      ensures methodPeers == Without(MethodIndex.Registry(old(peerMethods), old(methodPeers)), peerID)
    {
      if peerID in peerMethods {
        var methods := peerMethods[peerID];
        for i := 0 to |methods|
          invariant methodPeers == DropAll(old(methodPeers), methods[..i], peerID)
        {
          RemoveFromIndex(methods[i].name, peerID);
          assert methods[..i + 1][..i] == methods[..i];
        }
        assert methods[..|methods|] == methods;
      }
    }

    method UpdateMethods(peerID: PeerID, methods: seq<MethodDescriptor>)
      requires Valid()
      modifies this
      ensures Valid() && history == old(history) + [Updated(peerID, methods)]
    {
      Unindex(peerID);
      ghost var bare := methodPeers;
      peerMethods := peerMethods[peerID := methods];
      for i := 0 to |methods|
        invariant peerMethods == old(peerMethods)[peerID := methods] && history == old(history)
        invariant methodPeers == AddAll(bare, methods[..i], peerID)
      {
        AddToIndex(methods[i].name, peerID);
        assert methods[..i + 1][..i] == methods[..i];
      }
      assert methods[..|methods|] == methods;
      ReplayAppend(history, Updated(peerID, methods));
      history := history + [Updated(peerID, methods)];
    }

    method RemovePeer(peerID: PeerID)
      requires Valid()
      modifies this
      ensures Valid() && history == old(history) + [Removed(peerID)]
    {
      if peerID in peerMethods {
        Unindex(peerID);
        peerMethods := peerMethods - {peerID};
      } else {
        assert peerMethods - {peerID} == peerMethods;
      }
      ReplayAppend(history, Removed(peerID));
      history := history + [Removed(peerID)];
    }

    method GetPeerMethods(peerID: PeerID) returns (methods: Option<seq<MethodDescriptor>>)
      requires Valid()
      ensures methods == if Listed(history, peerID) then Some(CatalogOf(history, peerID)) else None
    {
      IndexIsRecencyScan(history);
      LatestBound(history, peerID);
      methods := if peerID in peerMethods then Some(peerMethods[peerID]) else None;
    }

    /** The first descriptor of that name in the peer's last update. */
    method GetMethod(peerID: PeerID, methodName: string) returns (found: Option<MethodDescriptor>)
      requires Valid()
      ensures found.Some? <==> Offers(history, peerID, methodName)
      ensures found.Some? ==>
                exists k | 0 <= k < |CatalogOf(history, peerID)| ::
                  && CatalogOf(history, peerID)[k] == found.value && found.value.name == methodName
                  && !HasName(CatalogOf(history, peerID)[..k], methodName)
    {
      var methods := GetPeerMethods(peerID);
      if methods.None? {
        return None;
      }
      for i := 0 to |methods.value|
        invariant !HasName(methods.value[..i], methodName)
      {
        if methods.value[i].name == methodName {
          return Some(methods.value[i]);
        }
        HasNameSplits(methods.value[..i + 1], methodName);
        assert methods.value[..i + 1][..i] == methods.value[..i];
      }
      assert methods.value[..|methods.value|] == methods.value;
      found := None;
    }

    method FindPeersWithMethod(methodName: string) returns (peers: seq<PeerID>)
      requires Valid()
      ensures IsRecencyScan(history, methodName, peers)
      ensures peers == Lookup(methodPeers, methodName, [])
    {
      IndexIsRecencyScan(history);
      peers := Lookup(methodPeers, methodName, []);
      assert IsRecencyScan(history, methodName, Lookup(Replay(history).index, methodName, []));
    }

    /** Ranges over the catalogues in arbitrary order. */
    method FindMethods(pattern: string) returns (result: map<PeerID, seq<MethodDescriptor>>)
      ensures result == map p | p in peerMethods && Matching(peerMethods[p], pattern) != [] :: Matching(peerMethods[p], pattern)
    {
      result := map[];
      var todo := peerMethods.Keys;
      while todo != {}
        invariant todo <= peerMethods.Keys
        invariant result == map p | p in peerMethods && p !in todo && Matching(peerMethods[p], pattern) != [] ::
                              Matching(peerMethods[p], pattern)
        decreases todo
      {
        var peerID :| peerID in todo;
        var methods := peerMethods[peerID];
        var matched := [];
        for i := 0 to |methods|
          invariant matched == Matching(methods[..i], pattern)
        {
          assert methods[..i + 1][..i] == methods[..i];
          if Wildcard.Matches(methods[i].name, pattern) {
            matched := matched + [methods[i]];
          }
        }
        assert methods[..|methods|] == methods;
        if |matched| > 0 {
          result := result[peerID := matched];
        }
        todo := todo - {peerID};
      }
    }
  }
}
