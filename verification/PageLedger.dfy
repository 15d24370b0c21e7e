/**
 The state of one query's page session and what every step of it keeps.

 A page is pending (its prefetch is in flight), ready (its prefetch arrived), demanded (a demand read
 is in flight), owned (read by this session, cache off), cached, or none of these.
 */
module PageLedger {
  import opened Sealing
  import opened TopK
  import opened PageCache
  import opened PageReader

  datatype Stats = Stats(submitted: nat, readyHit: nat, pendingHit: nat, dropped: nat, lateHit: nat)

  /**
   `token_to_page_`, `pending_pages_`, `ready_prefetch_pages_`, `owned_pages_`, `materialized_pages_`,
   `local_nodes_`, `completed_prefetch_pages_`, `pending_hit_pages_`, `pinned_pages_`, the
   demand reads in flight by token and as a set of pages, and the prefetch counters.
   */
  datatype SessionState = SessionState(
    tokens: map<nat, nat>, pending: set<nat>, ready: map<nat, Page>, owned: map<nat, Page>,
    materialized: set<nat>, nodes: map<nat, Node>, completed: set<nat>, hit: set<nat>, pinned: set<nat>,
    demand: map<nat, nat>, demanded: set<nat>, stats: Stats)

  const NewSession := SessionState(
    map[], {}, map[], map[], {}, map[], {}, {}, {}, map[], {}, Stats(0, 0, 0, 0, 0))

  /** A packed index: its pages, the page of each node, and the graph the pages hold. */
  datatype Index = Index(disk: seq<Page>, pageOf: seq<nat>, graph: seq<Node>) {
    ghost predicate WellFormed() {
      && |pageOf| == |graph|
      && (forall id | 0 <= id < |pageOf| :: pageOf[id] < |disk| && OnPage(disk[pageOf[id]].nodes, id))
      && (forall p | 0 <= p < |disk| :: disk[p].id == p && Faithful(disk[p].nodes, graph))
    }
  }

  ghost predicate OnPage(ns: seq<Node>, id: nat) {
    exists i | 0 <= i < |ns| :: ns[i].id == id
  }

  ghost predicate Faithful(ns: seq<Node>, graph: seq<Node>) {
    forall i | 0 <= i < |ns| :: ns[i].id < |graph| && ns[i] == graph[ns[i].id]
  }

  /**
   What is fixed for the session: the index, whether the cache is on, the prefetch budget, and the
   reader and cache it found: reads already in flight, pages already read, pins already held.
   */
  datatype Frame = Frame(
    index: Index, cacheOn: bool, budget: nat, stale: nat, before: seq<nat>, pins: map<nat, nat>)

  // ---- The invariant, part by part ----

  /** Tokens stand for different pages, and there are as many tokens as pages. */
  ghost predicate OneToOne(m: map<nat, nat>, pages: set<nat>) {
    && |m| == |pages|
    && (forall t {:trigger Point(t)} | Point(t) && t in m :: m[t] in pages)
    && (forall t, u {:trigger Point(t), Point(u)} | Point(t) && Point(u) && t in m && u in m && t != u :: m[t] != m[u])
  }

  lemma OneToOneAdd(m: map<nat, nat>, pages: set<nat>, t: nat, p: nat)
    requires OneToOne(m, pages) && t !in m && p !in pages
    ensures OneToOne(m[t := p], pages + {p})
  {
    PutSize(m, t, p);
  }

  lemma OneToOneDrop(m: map<nat, nat>, pages: set<nat>, t: nat)
    requires OneToOne(m, pages) && t in m
    ensures OneToOne(m - {t}, pages - {m[t]}) && m[t] in pages
  {
    DropSize(m, t);
    assert Point(t);
  }

  /** Pages that are on their way or waiting to be used. */
  function Coming(s: SessionState): set<nat> {
    s.pending + s.ready.Keys
  }

  /** Every page has one role: pending, ready, or already there. */
  ghost predicate Placed(s: SessionState, cached: set<nat>) {
    && s.completed == s.ready.Keys
    && (forall p {:trigger Point(p)} | Point(p) && p in s.pending :: p !in s.ready)
    && (forall p {:trigger Point(p)} | Point(p) && (p in s.pending || p in s.ready) ::
          p !in s.materialized && p !in cached && p !in s.demanded)
    && (forall p {:trigger Point(p)} | Point(p) && p in s.hit :: p in s.pending || p in s.ready)
  }

  /** Every prefetched page is accounted for; none arrived late. */
  ghost predicate Balanced(s: SessionState, budget: nat) {
    && |s.pending| + |s.ready| <= budget
    && s.stats.submitted + |s.hit|
       == s.stats.readyHit + s.stats.pendingHit + s.stats.dropped + |s.pending| + |s.ready|
    && s.stats.lateHit == 0
  }

  /** The session's reads are in flight; all others are left over from earlier queries. */
  ghost predicate InFlight(tokens: map<nat, nat>, demand: map<nat, nat>, v: View, stale: nat) {
    && |v.flying| <= stale + |tokens| + |demand|
    && (forall t {:trigger Point(t)} | Point(t) && t in tokens :: t in v.flying && v.flying[t] == tokens[t] && t !in demand)
    && (forall t {:trigger Point(t)} | Point(t) && t in demand :: t in v.flying && v.flying[t] == demand[t])
    && (forall t {:trigger Point(t)} | Point(t) && t in v.flying :: t < v.next)
  }

  /** Every page the session read, with the cache off. */
  ghost function Known(s: SessionState): set<nat> {
    s.pending + s.ready.Keys + s.owned.Keys + s.demanded
  }

  /** With the cache off, no page has been read twice; owned pages are exactly the materialized ones. */
  ghost predicate ReadOnce(s: SessionState, v: View, f: Frame) {
    if f.cacheOn then
      s.owned == map[]
    else
      && s.owned.Keys == s.materialized
      && (forall p {:trigger Point(p)} | Point(p) && p in s.owned :: p !in s.demanded)
      && multiset(v.issued) == multiset(f.before) + multiset(Known(s))
  }

  ghost predicate FromDisk(pages: map<nat, Page>, disk: seq<Page>) {
    forall p {:trigger Point(p)} | Point(p) && p in pages :: p < |disk| && pages[p] == disk[p]
  }

  ghost predicate CacheFromDisk(entries: map<nat, Entry>, disk: seq<Page>) {
    forall p {:trigger Point(p)} | Point(p) && p in entries :: p < |disk| && entries[p].page == disk[p]
  }

  /** Local nodes are graph nodes, and every node of a materialized page is local. */
  ghost predicate NodesMatch(nodes: map<nat, Node>, materialized: set<nat>, index: Index) {
    && (forall id {:trigger Point(id)} | Point(id) && id in nodes :: id < |index.graph| && nodes[id] == index.graph[id])
    && (forall id {:trigger Point(id)} | Point(id) && 0 <= id < |index.pageOf| && index.pageOf[id] in materialized ::
          id in nodes)
  }

  ghost predicate Contents(s: SessionState, entries: map<nat, Entry>, index: Index) {
    && FromDisk(s.ready, index.disk)
    && FromDisk(s.owned, index.disk)
    && CacheFromDisk(entries, index.disk)
    && NodesMatch(s.nodes, s.materialized, index)
  }

  function PinsBefore(pins: map<nat, nat>, p: nat): nat {
    if p in pins then pins[p] else 0
  }

  /** Each page this session pinned holds exactly one pin more than before the session. */
  ghost predicate PinsMatch(pinned: set<nat>, entries: map<nat, Entry>, pins: map<nat, nat>) {
    && pinned <= entries.Keys
    && (forall p {:trigger Point(p)} | Point(p) && p in pins && pins[p] > 0 :: p in entries)
    && (forall p {:trigger Point(p)} | Point(p) && p in entries ::
          entries[p].pins == PinsBefore(pins, p) + if p in pinned then 1 else 0)
  }

  ghost predicate Inv(s: SessionState, v: View, entries: map<nat, Entry>, f: Frame) {
    && OneToOne(s.tokens, s.pending)
    && OneToOne(s.demand, s.demanded)
    && Placed(s, entries.Keys)
    && Balanced(s, f.budget)
    && InFlight(s.tokens, s.demand, v, f.stale)
    && ReadOnce(s, v, f)
    && Contents(s, entries, f.index)
    && PinsMatch(s.pinned, entries, f.pins)
    && (f.cacheOn || entries == map[])
  }

  // ---- A read comes back ----

  /** `consume_prefetch_completion` with `keep_ready`; `cached` are the pages in the cache. */
  function Consume(s: SessionState, c: CompletedRead, cached: set<nat>, budget: nat): SessionState {
    if c.token !in s.tokens then
      s
    else
      var p := s.tokens[c.token];
      var t := s.(tokens := s.tokens - {c.token}, pending := s.pending - {p});
      if p in t.materialized || p in t.owned || p in t.ready || p in cached then
        t.(stats := t.stats.(lateHit := t.stats.lateHit + 1, dropped := t.stats.dropped + 1))
      else if |t.ready| < budget then
        Arrived(s, c.token, p, c.data)
      else
        t.(stats := t.stats.(dropped := t.stats.dropped + 1))
  }

  /** A prefetched page moves from pending to ready. */
  function Arrived(s: SessionState, t: nat, p: nat, data: Page): SessionState {
    s.(tokens := s.tokens - {t}, pending := s.pending - {p}, completed := s.completed + {p}, ready := s.ready[p := data])
  }

  /** A prefetched page always becomes ready: the late-hit and ready-full branches cannot be taken. */
  lemma ConsumeIsReady(s: SessionState, v: View, entries: map<nat, Entry>, f: Frame, c: CompletedRead)
    requires Inv(s, v, entries, f) && c.token in s.tokens
    ensures s.tokens[c.token] in s.pending
    ensures Consume(s, c, entries.Keys, f.budget) == Arrived(s, c.token, s.tokens[c.token], c.data)
  {
    var p := s.tokens[c.token];
    assert Point(c.token) && Point(p);
    assert p !in s.owned;
    assert |s.pending| > 0;
  }

  lemma ArrivedPlaced(s: SessionState, cached: set<nat>, t: nat, p: nat, data: Page)
    requires Placed(s, cached) && p in s.pending
    ensures Placed(Arrived(s, t, p, data), cached)
  {
    assert s.ready[p := data].Keys == s.ready.Keys + {p};
    assert Coming(Arrived(s, t, p, data)) == Coming(s);
  }

  lemma ArrivedBalanced(s: SessionState, budget: nat, t: nat, p: nat, data: Page)
    requires Balanced(s, budget) && p in s.pending && p !in s.ready
    ensures Balanced(Arrived(s, t, p, data), budget)
  {
    PutSize(s.ready, p, data);
    assert s.pending == (s.pending - {p}) + {p};
  }

  lemma ArrivedReadOnce(s: SessionState, v: View, f: Frame, t: nat, p: nat, data: Page)
    requires ReadOnce(s, v, f) && p in s.pending
    ensures ReadOnce(Arrived(s, t, p, data), v.(flying := v.flying - {t}), f)
  {
    assert s.ready[p := data].Keys == s.ready.Keys + {p};
    assert Known(Arrived(s, t, p, data)) == Known(s);
  }

  lemma FlightDropToken(tokens: map<nat, nat>, demand: map<nat, nat>, v: View, stale: nat, t: nat)
    requires InFlight(tokens, demand, v, stale) && t in tokens
    ensures InFlight(tokens - {t}, demand, v.(flying := v.flying - {t}), stale)
  {
    assert Point(t);
    DropSize(tokens, t);
    DropSize(v.flying, t);
  }

  lemma FlightDropOther(tokens: map<nat, nat>, demand: map<nat, nat>, v: View, stale: nat, t: nat)
    requires InFlight(tokens, demand, v, stale) && t in v.flying && t !in tokens && t !in demand
    ensures InFlight(tokens, demand, v.(flying := v.flying - {t}), stale)
  {
    DropSize(v.flying, t);
  }

  lemma FlightDropDemand(tokens: map<nat, nat>, demand: map<nat, nat>, v: View, stale: nat, t: nat)
    requires InFlight(tokens, demand, v, stale) && t in demand
    ensures InFlight(tokens, demand - {t}, v.(flying := v.flying - {t}), stale)
  {
    assert Point(t);
    DropSize(demand, t);
    DropSize(v.flying, t);
  }

  lemma ArrivedContents(s: SessionState, entries: map<nat, Entry>, index: Index, t: nat, p: nat, data: Page)
    requires Contents(s, entries, index) && p < |index.disk| && data == index.disk[p]
    ensures Contents(Arrived(s, t, p, data), entries, index)
  {
  }

  /** Reaping any read that is not a demand read keeps the session consistent. */
  lemma ConsumeKeeps(s: SessionState, v: View, entries: map<nat, Entry>, f: Frame, c: CompletedRead)
    requires Inv(s, v, entries, f) && c.token in v.flying && c.token !in s.demand
    requires v.flying[c.token] < |f.index.disk| && c.data == f.index.disk[v.flying[c.token]]
    ensures Inv(Consume(s, c, entries.Keys, f.budget), v.(flying := v.flying - {c.token}), entries, f)
  {
    if c.token in s.tokens {
      var p := s.tokens[c.token];
      ConsumeIsReady(s, v, entries, f, c);
      assert p == v.flying[c.token] by { assert Point(c.token); }
      OneToOneDrop(s.tokens, s.pending, c.token);
      ArrivedPlaced(s, entries.Keys, c.token, p, c.data);
      ArrivedBalanced(s, f.budget, c.token, p, c.data);
      FlightDropToken(s.tokens, s.demand, v, f.stale, c.token);
      ArrivedReadOnce(s, v, f, c.token, p, c.data);
      ArrivedContents(s, entries, f.index, c.token, p, c.data);
    } else {
      FlightDropOther(s.tokens, s.demand, v, f.stale, c.token);
    }
  }

  // ---- A read is started ----

  /** One prefetch read, registered under its token. */
  function Registered(s: SessionState, t: nat, p: nat): SessionState {
    s.(tokens := s.tokens[t := p], pending := s.pending + {p}, stats := s.stats.(submitted := s.stats.submitted + 1))
  }

  lemma FlightAddToken(tokens: map<nat, nat>, demand: map<nat, nat>, v: View, stale: nat, p: nat)
    requires InFlight(tokens, demand, v, stale)
    ensures InFlight(tokens[v.next := p], demand, Issue(v, p), stale)
    ensures v.next !in tokens && v.next !in demand
  {
    assert Point(v.next);
    PutSize(tokens, v.next, p);
    PutSize(v.flying, v.next, p);
  }

  lemma FlightAddDemand(tokens: map<nat, nat>, demand: map<nat, nat>, v: View, stale: nat, p: nat)
    requires InFlight(tokens, demand, v, stale)
    ensures InFlight(tokens, demand[v.next := p], Issue(v, p), stale)
    ensures v.next !in tokens && v.next !in demand
  {
    assert Point(v.next);
    PutSize(demand, v.next, p);
    PutSize(v.flying, v.next, p);
  }

  lemma KnownGrows(v: View, f: Frame, p: nat, known: set<nat>, next: set<nat>)
    requires multiset(v.issued) == multiset(f.before) + multiset(known)
    requires p !in known && next == known + {p}
    ensures multiset(Issue(v, p).issued) == multiset(f.before) + multiset(next)
  {
  }

  lemma RegisteredReadOnce(s: SessionState, v: View, f: Frame, t: nat, p: nat)
    requires ReadOnce(s, v, f) && p !in Coming(s) && p !in s.materialized && p !in s.demanded
    ensures ReadOnce(Registered(s, t, p), Issue(v, p), f)
  {
    if !f.cacheOn {
      assert Known(Registered(s, t, p)) == Known(s) + {p};
      KnownGrows(v, f, p, Known(s), Known(s) + {p});
    }
  }

  /** Submitting a page that is nowhere yet, within the budget. */
  lemma RegisteredKeeps(s: SessionState, v: View, entries: map<nat, Entry>, f: Frame, p: nat)
    requires Inv(s, v, entries, f) && |s.pending| + |s.ready| < f.budget
    requires p !in Coming(s) && p !in s.materialized && p !in entries && p !in s.demanded
    ensures Inv(Registered(s, v.next, p), Issue(v, p), entries, f)
  {
    FlightAddToken(s.tokens, s.demand, v, f.stale, p);
    OneToOneAdd(s.tokens, s.pending, v.next, p);
    RegisteredReadOnce(s, v, f, v.next, p);
    RegisteredPlaced(s, entries.Keys, v.next, p);
    assert |s.pending + {p}| == |s.pending| + 1;
  }

  lemma RegisteredPlaced(s: SessionState, cached: set<nat>, t: nat, p: nat)
    requires Placed(s, cached) && p !in Coming(s) && p !in s.materialized && p !in cached && p !in s.demanded
    ensures Placed(Registered(s, t, p), cached)
  {
    assert Coming(Registered(s, t, p)) == Coming(s) + {p};
  }

  /** One demand read in flight. */
  function Demanded(s: SessionState, t: nat, p: nat): SessionState {
    s.(demand := s.demand[t := p], demanded := s.demanded + {p})
  }

  lemma DemandedReadOnce(s: SessionState, v: View, f: Frame, t: nat, p: nat)
    requires ReadOnce(s, v, f) && p !in Coming(s) && p !in s.owned && p !in s.demanded
    ensures ReadOnce(Demanded(s, t, p), Issue(v, p), f)
  {
    if !f.cacheOn {
      assert Known(Demanded(s, t, p)) == Known(s) + {p};
      KnownGrows(v, f, p, Known(s), Known(s) + {p});
    }
  }

  lemma DemandedKeeps(s: SessionState, v: View, entries: map<nat, Entry>, f: Frame, p: nat)
    requires Inv(s, v, entries, f) && p !in Coming(s) && p !in s.owned && p !in s.demanded
    ensures Inv(Demanded(s, v.next, p), Issue(v, p), entries, f)
  {
    FlightAddDemand(s.tokens, s.demand, v, f.stale, p);
    OneToOneAdd(s.demand, s.demanded, v.next, p);
    DemandedReadOnce(s, v, f, v.next, p);
  }

  // ---- A page is used ----

  /** The loop of `materialize_page`: a node already known is not replaced. */
  function AddNodes(nodes: map<nat, Node>, ns: seq<Node>): map<nat, Node> {
    if ns == [] then
      nodes
    else
      var rest := AddNodes(nodes, ns[..|ns| - 1]);
      var n := ns[|ns| - 1];
      if n.id in rest then rest else rest[n.id := n]
  }

  lemma AddNodesStep(nodes: map<nat, Node>, ns: seq<Node>, i: nat)
    requires i < |ns|
    ensures var rest := AddNodes(nodes, ns[..i]);
            AddNodes(nodes, ns[..i + 1]) == if ns[i].id in rest then rest else rest[ns[i].id := ns[i]]
  {
    assert ns[..i + 1][..i] == ns[..i];
  }

  lemma {:induction false} AddNodesHas(nodes: map<nat, Node>, ns: seq<Node>, id: nat)
    ensures id in AddNodes(nodes, ns) <==> id in nodes || OnPage(ns, id)
  {
    if ns != [] {
      var rest := ns[..|ns| - 1];
      AddNodesHas(nodes, rest, id);
      OnPageStep(ns, id);
    }
  }

  lemma OnPageStep(ns: seq<Node>, id: nat)
    requires ns != []
    ensures OnPage(ns, id) <==> OnPage(ns[..|ns| - 1], id) || ns[|ns| - 1].id == id
  {
    if OnPage(ns, id) {
      var i :| 0 <= i < |ns| && ns[i].id == id;
      assert i < |ns| - 1 ==> ns[..|ns| - 1][i].id == id;
    }
    if OnPage(ns[..|ns| - 1], id) {
      var i :| 0 <= i < |ns| - 1 && ns[..|ns| - 1][i].id == id;
      assert ns[i].id == id;
    }
  }

  ghost predicate FromGraph(nodes: map<nat, Node>, graph: seq<Node>) {
    forall id {:trigger Point(id)} | Point(id) && id in nodes :: id < |graph| && nodes[id] == graph[id]
  }

  lemma {:induction false} AddNodesFromGraph(nodes: map<nat, Node>, ns: seq<Node>, graph: seq<Node>)
    requires FromGraph(nodes, graph) && Faithful(ns, graph)
    ensures FromGraph(AddNodes(nodes, ns), graph)
  {
    if ns != [] {
      var rest := ns[..|ns| - 1];
      assert Faithful(rest, graph);
      AddNodesFromGraph(nodes, rest, graph);
    }
  }

  lemma AddNodesMatch(nodes: map<nat, Node>, materialized: set<nat>, index: Index, p: nat)
    requires index.WellFormed() && NodesMatch(nodes, materialized, index) && p < |index.disk|
    ensures NodesMatch(AddNodes(nodes, index.disk[p].nodes), materialized + {p}, index)
  {
    var ns := index.disk[p].nodes;
    var next := AddNodes(nodes, ns);
    AddNodesFromGraph(nodes, ns, index.graph);
    forall id | Point(id) && 0 <= id < |index.pageOf| && index.pageOf[id] in materialized + {p}
      ensures id in next
    {
      AddNodesHas(nodes, ns, id);
    }
  }

  /** `materialize_page`. */
  function Materialized(s: SessionState, page: Page): SessionState {
    if page.id in s.materialized then
      s
    else
      s.(materialized := s.materialized + {page.id}, nodes := AddNodes(s.nodes, page.nodes))
  }

  lemma MaterializedContents(s: SessionState, entries: map<nat, Entry>, index: Index, p: nat)
    requires index.WellFormed() && Contents(s, entries, index) && p < |index.disk|
    ensures Contents(Materialized(s, index.disk[p]), entries, index) && index.disk[p].id == p
  {
    AddNodesMatch(s.nodes, s.materialized, index, p);
  }

  lemma MaterializedKeeps(s: SessionState, v: View, entries: map<nat, Entry>, f: Frame, p: nat)
    requires Inv(s, v, entries, f) && f.index.WellFormed() && p < |f.index.disk| && p !in Coming(s)
    requires f.cacheOn || p in s.owned
    ensures Inv(Materialized(s, f.index.disk[p]), v, entries, f)
  {
    MaterializedContents(s, entries, f.index, p);
  }

  /** `take_ready_prefetch_page`: the page leaves the ready set and its hit is counted once. */
  function Taken(s: SessionState, p: nat): SessionState {
    var first := if p in s.hit then 0 else 1;
    s.(ready := s.ready - {p}, completed := s.completed - {p}, hit := s.hit - {p},
       stats := s.stats.(readyHit := s.stats.readyHit + first))
  }

  lemma TakenPlaced(s: SessionState, cached: set<nat>, p: nat)
    requires Placed(s, cached) && p in s.ready
    ensures Placed(Taken(s, p), cached) && p !in Coming(Taken(s, p))
  {
    assert (s.ready - {p}).Keys == s.ready.Keys - {p};
    assert Point(p);
  }

  lemma TakenBalanced(s: SessionState, budget: nat, p: nat)
    requires Balanced(s, budget) && p in s.ready
    ensures Balanced(Taken(s, p), budget)
  {
    DropSize(s.ready, p);
    if p in s.hit {
      assert s.hit == (s.hit - {p}) + {p};
    } else {
      assert s.hit - {p} == s.hit;
    }
  }

  /** With the cache on the page then goes to the cache. */
  lemma TakenKeeps(s: SessionState, v: View, entries: map<nat, Entry>, f: Frame, p: nat)
    requires Inv(s, v, entries, f) && p in s.ready && f.cacheOn
    ensures Inv(Taken(s, p), v, entries, f) && p !in Coming(Taken(s, p)) && p < |f.index.disk|
    ensures Taken(s, p).stats == if p in s.hit then s.stats else s.stats.(readyHit := s.stats.readyHit + 1)
  {
    assert Point(p);
    TakenPlaced(s, entries.Keys, p);
    TakenBalanced(s, f.budget, p);
  }

  /** With the cache off the session keeps the page itself. */
  function Owned(s: SessionState, page: Page): SessionState {
    Materialized(s.(owned := s.owned[page.id := page]), page)
  }

  lemma OwnedContents(s: SessionState, entries: map<nat, Entry>, index: Index, p: nat)
    requires index.WellFormed() && Contents(s, entries, index) && p < |index.disk|
    ensures Contents(Owned(s, index.disk[p]), entries, index)
  {
    MaterializedContents(s.(owned := s.owned[p := index.disk[p]]), entries, index, p);
  }

  lemma TakenOwnedReadOnce(s: SessionState, v: View, f: Frame, p: nat, page: Page)
    requires ReadOnce(s, v, f) && p in s.ready && !f.cacheOn && page.id == p && p !in s.demanded
    ensures ReadOnce(Owned(Taken(s, p), page), v, f)
  {
    var next := Owned(Taken(s, p), page);
    assert next.owned.Keys == s.owned.Keys + {p};
    assert Known(next) == Known(s);
  }

  lemma TakenOwnedKeeps(s: SessionState, v: View, entries: map<nat, Entry>, f: Frame, p: nat)
    requires Inv(s, v, entries, f) && f.index.WellFormed() && p in s.ready && !f.cacheOn
    ensures p < |f.index.disk| && Inv(Owned(Taken(s, p), f.index.disk[p]), v, entries, f)
  {
    assert Point(p);
    var page := f.index.disk[p];
    TakenPlaced(s, entries.Keys, p);
    TakenBalanced(s, f.budget, p);
    assert p in Coming(s);
    TakenOwnedReadOnce(s, v, f, p, page);
    assert Contents(Taken(s, p), entries, f.index);
    OwnedContents(Taken(s, p), entries, f.index, p);
  }

  /** A demand read came back. */
  function Answered(s: SessionState, t: nat): SessionState
    requires t in s.demand
  {
    s.(demand := s.demand - {t}, demanded := s.demanded - {s.demand[t]})
  }

  lemma AnsweredKeeps(s: SessionState, v: View, entries: map<nat, Entry>, f: Frame, t: nat)
    requires Inv(s, v, entries, f) && t in s.demand && f.cacheOn
    ensures Inv(Answered(s, t), v.(flying := v.flying - {t}), entries, f) && s.demand[t] !in Coming(s)
  {
    OneToOneDrop(s.demand, s.demanded, t);
    FlightDropDemand(s.tokens, s.demand, v, f.stale, t);
    assert Point(s.demand[t]);
  }

  lemma AnsweredOwnedReadOnce(s: SessionState, v: View, f: Frame, t: nat, page: Page)
    requires ReadOnce(s, v, f) && t in s.demand && !f.cacheOn && s.demand[t] in s.demanded
    requires page.id == s.demand[t] && page.id !in Coming(s)
    ensures ReadOnce(Owned(Answered(s, t), page), v.(flying := v.flying - {t}), f)
  {
    var next := Owned(Answered(s, t), page);
    assert next.owned.Keys == s.owned.Keys + {page.id};
    assert Known(next) == Known(s);
  }

  lemma AnsweredOwnedKeeps(s: SessionState, v: View, entries: map<nat, Entry>, f: Frame, t: nat)
    requires Inv(s, v, entries, f) && f.index.WellFormed() && t in s.demand && !f.cacheOn
    requires s.demand[t] < |f.index.disk|
    ensures Inv(Owned(Answered(s, t), f.index.disk[s.demand[t]]), v.(flying := v.flying - {t}), entries, f)
  {
    var p := s.demand[t];
    var page := f.index.disk[p];
    OneToOneDrop(s.demand, s.demanded, t);
    FlightDropDemand(s.tokens, s.demand, v, f.stale, t);
    assert Point(s.demand[t]);
    assert page.id == p;
    AnsweredOwnedReadOnce(s, v, f, t, page);
    assert Contents(Answered(s, t), entries, f.index);
    OwnedContents(Answered(s, t), entries, f.index, p);
  }

  /** A request found its page pending. */
  function PendingHit(s: SessionState, p: nat): SessionState {
    s.(hit := s.hit + {p}, stats := s.stats.(pendingHit := s.stats.pendingHit + 1))
  }

  lemma PendingHitKeeps(s: SessionState, v: View, entries: map<nat, Entry>, f: Frame, p: nat)
    requires Inv(s, v, entries, f) && p in s.pending && p !in s.hit
    ensures Inv(PendingHit(s, p), v, entries, f) && p in PendingHit(s, p).hit
    ensures PendingHit(s, p).stats == s.stats.(pendingHit := s.stats.pendingHit + 1)
  {
  }

  // ---- The cache changes ----

  lemma LookupKeeps(s: SessionState, v: View, entries: map<nat, Entry>, next: map<nat, Entry>, f: Frame)
    requires Inv(s, v, entries, f) && SamePagesAndPins(entries, next)
    ensures Inv(s, v, next, f)
  {
  }

  /** What the cache promises about storing page `p`. */
  ghost predicate StoredInto(entries: map<nat, Entry>, next: map<nat, Entry>, page: Page) {
    && (forall n | n in next && n != page.id :: n in entries && next[n] == entries[n])
    && (forall n | n in entries && n !in next :: entries[n].pins == 0)
    && (page.id in next ==>
          && next[page.id].page == page
          && next[page.id].pins == if page.id in entries then entries[page.id].pins else 0)
  }

  lemma StoredKeeps(s: SessionState, v: View, entries: map<nat, Entry>, next: map<nat, Entry>, f: Frame, p: nat)
    requires Inv(s, v, entries, f) && f.cacheOn && f.index.WellFormed() && p < |f.index.disk|
    requires StoredInto(entries, next, f.index.disk[p]) && p !in Coming(s)
    ensures Inv(s, v, next, f)
  {
    assert f.index.disk[p].id == p;
    forall n | n in s.pinned
      ensures n in next
    {
      assert Point(n);
    }
  }

  lemma PinnedKeeps(s: SessionState, v: View, entries: map<nat, Entry>, f: Frame, p: nat)
    requires Inv(s, v, entries, f) && p in entries && p !in s.pinned
    ensures Inv(s.(pinned := s.pinned + {p}), v, PinsPlus(entries, p), f)
  {
    assert PinsPlus(entries, p).Keys == entries.Keys;
    assert Point(p);
  }

  // ---- Batches ----

  /** `first`, `first + 1`, ... stand for the pages in order (the demand loop over `submitted`). */
  function DemandAll(s: SessionState, first: nat, ps: seq<nat>): SessionState {
    if ps == [] then s
    else Demanded(DemandAll(s, first, ps[..|ps| - 1]), first + |ps| - 1, ps[|ps| - 1])
  }

  /** The loop of `flush_prefetch_requests`. */
  function RegisterAll(s: SessionState, first: nat, ps: seq<nat>): SessionState {
    if ps == [] then s
    else Registered(RegisterAll(s, first, ps[..|ps| - 1]), first + |ps| - 1, ps[|ps| - 1])
  }

  lemma BatchStep(s: SessionState, first: nat, ps: seq<nat>, i: nat)
    requires i < |ps|
    ensures DemandAll(s, first, ps[..i + 1]) == Demanded(DemandAll(s, first, ps[..i]), first + i, ps[i])
    ensures RegisterAll(s, first, ps[..i + 1]) == Registered(RegisterAll(s, first, ps[..i]), first + i, ps[i])
  {
    assert ps[..i + 1][..i] == ps[..i];
  }

  lemma BatchLast(s: SessionState, v: View, ps: seq<nat>)
    requires ps != []
    ensures var rest, p := ps[..|ps| - 1], ps[|ps| - 1];
            && Started(v, ps) == Issue(Started(v, rest), p)
            && DemandAll(s, v.next, ps) == Demanded(DemandAll(s, v.next, rest), Started(v, rest).next, p)
            && RegisterAll(s, v.next, ps) == Registered(RegisterAll(s, v.next, rest), Started(v, rest).next, p)
  {
    StartedNext(v, ps[..|ps| - 1]);
  }

  lemma {:induction false} DemandAllShape(s: SessionState, first: nat, ps: seq<nat>)
    ensures var t := DemandAll(s, first, ps);
            t == s.(demand := t.demand, demanded := s.demanded + Elements(ps)) && (ps != [] ==> t.demand != map[])
  {
    if ps == [] {
      assert s.demanded + Elements(ps) == s.demanded;
    } else {
      var rest, p := ps[..|ps| - 1], ps[|ps| - 1];
      DemandAllShape(s, first, rest);
      ElementsStep(ps);
      assert first + |ps| - 1 in DemandAll(s, first, ps).demand;
      assert s.demanded + Elements(ps) == (s.demanded + Elements(rest)) + {p};
    }
  }

  lemma ElementsStep(ps: seq<nat>)
    requires ps != []
    ensures Elements(ps) == Elements(ps[..|ps| - 1]) + {ps[|ps| - 1]}
  {
    assert ps == ps[..|ps| - 1] + [ps[|ps| - 1]];
  }

  lemma {:induction false} RegisterAllShape(s: SessionState, first: nat, ps: seq<nat>)
    ensures var t := RegisterAll(s, first, ps);
            t == s.(tokens := t.tokens, pending := s.pending + Elements(ps),
                    stats := s.stats.(submitted := s.stats.submitted + |ps|))
  {
    if ps == [] {
      assert s.pending + Elements(ps) == s.pending;
    } else {
      var rest, p := ps[..|ps| - 1], ps[|ps| - 1];
      RegisterAllShape(s, first, rest);
      ElementsStep(ps);
      assert s.pending + Elements(ps) == (s.pending + Elements(rest)) + {p};
    }
  }

  /** Pages that no read of the session knows yet, each once. */
  ghost predicate Unread(s: SessionState, ps: seq<nat>) {
    Distinct(ps) && forall p | p in ps :: p !in Coming(s) && p !in s.owned && p !in s.demanded
  }

  lemma UnreadStep(s: SessionState, ps: seq<nat>)
    requires Unread(s, ps) && ps != []
    ensures Unread(s, ps[..|ps| - 1])
    ensures var p := ps[|ps| - 1];
            p !in Elements(ps[..|ps| - 1]) && p !in Coming(s) && p !in s.owned && p !in s.demanded
  {
    assert forall p | p in ps[..|ps| - 1] :: p in ps;
    assert ps[|ps| - 1] in ps;
  }

  lemma {:induction false} DemandAllKeeps(s: SessionState, v: View, entries: map<nat, Entry>, f: Frame, ps: seq<nat>)
    requires Inv(s, v, entries, f) && Unread(s, ps)
    ensures Inv(DemandAll(s, v.next, ps), Started(v, ps), entries, f)
  {
    if ps != [] {
      var rest, p := ps[..|ps| - 1], ps[|ps| - 1];
      assert Unread(s, rest) by { UnreadStep(s, ps); }
      DemandAllKeeps(s, v, entries, f, rest);
      var a, w := DemandAll(s, v.next, rest), Started(v, rest);
      assert p !in Coming(a) && p !in a.owned && p !in a.demanded by {
        UnreadStep(s, ps);
        DemandAllShape(s, v.next, rest);
      }
      DemandedKeeps(a, w, entries, f, p);
      BatchLast(s, v, ps);
    }
  }

  ghost predicate Unseen(s: SessionState, cached: set<nat>, ps: seq<nat>) {
    Distinct(ps) && forall p | p in ps :: p !in Coming(s) && p !in s.materialized && p !in cached && p !in s.demanded
  }

  lemma UnseenStep(s: SessionState, cached: set<nat>, ps: seq<nat>)
    requires Unseen(s, cached, ps) && ps != []
    ensures Unseen(s, cached, ps[..|ps| - 1])
    ensures var p := ps[|ps| - 1];
            p !in Elements(ps[..|ps| - 1]) && p !in Coming(s) && p !in s.materialized && p !in cached && p !in s.demanded
  {
    assert forall p | p in ps[..|ps| - 1] :: p in ps;
    assert ps[|ps| - 1] in ps;
  }

  lemma {:induction false} RegisterAllKeeps(s: SessionState, v: View, entries: map<nat, Entry>, f: Frame, ps: seq<nat>)
    requires Inv(s, v, entries, f) && Unseen(s, entries.Keys, ps)
    requires |s.pending| + |s.ready| + |ps| <= f.budget
    ensures Inv(RegisterAll(s, v.next, ps), Started(v, ps), entries, f)
    ensures |RegisterAll(s, v.next, ps).pending| == |s.pending| + |ps|
  {
    if ps != [] {
      var rest, p := ps[..|ps| - 1], ps[|ps| - 1];
      assert Unseen(s, entries.Keys, rest) by { UnseenStep(s, entries.Keys, ps); }
      RegisterAllKeeps(s, v, entries, f, rest);
      var a, w := RegisterAll(s, v.next, rest), Started(v, rest);
      assert a.ready == s.ready && p !in Coming(a) && p !in a.materialized && p !in entries && p !in a.demanded by {
        UnseenStep(s, entries.Keys, ps);
        RegisterAllShape(s, v.next, rest);
      }
      RegisteredKeeps(a, w, entries, f, p);
      assert |Registered(a, w.next, p).pending| == |s.pending| + |ps| by {
        assert p !in a.pending;
        assert |a.pending + {p}| == |a.pending| + 1;
      }
      BatchLast(s, v, ps);
    }
  }

  // ---- Reads without io_uring ----

  lemma DirectOwnedKeeps(s: SessionState, v: View, entries: map<nat, Entry>, f: Frame, p: nat)
    requires Inv(s, v, entries, f) && f.index.WellFormed() && !f.cacheOn && p < |f.index.disk|
    requires p !in Coming(s) && p !in s.owned && p !in s.demanded
    ensures Inv(Owned(s, f.index.disk[p]), v.(issued := v.issued + [p]), entries, f)
  {
    var page := f.index.disk[p];
    assert page.id == p;
    OwnedContents(s, entries, f.index, p);
    DirectReadOnce(s, v, f, page);
  }

  lemma DirectKeeps(s: SessionState, v: View, entries: map<nat, Entry>, f: Frame, p: nat)
    requires Inv(s, v, entries, f) && f.cacheOn
    ensures Inv(s, v.(issued := v.issued + [p]), entries, f)
  {
  }

  lemma DirectReadOnce(s: SessionState, v: View, f: Frame, page: Page)
    requires ReadOnce(s, v, f) && !f.cacheOn
    requires page.id !in Coming(s) && page.id !in s.owned && page.id !in s.demanded
    ensures ReadOnce(Owned(s, page), v.(issued := v.issued + [page.id]), f)
  {
    var next := Owned(s, page);
    assert next.owned.Keys == s.owned.Keys + {page.id};
    assert Known(next) == Known(s) + {page.id};
    KnownGrows(v, f, page.id, Known(s), Known(next));
  }

  // ---- The end of a query ----

  /** `finish_query`: whatever was prefetched and never used is dropped. */
  function Dropped(s: SessionState): SessionState {
    s.(tokens := map[], pending := {}, ready := map[], completed := {}, hit := {},
       stats := s.stats.(dropped := s.stats.dropped + |s.pending| + |s.ready|))
  }

  /** Every submitted prefetch was a ready hit, a pending hit or dropped. */
  lemma DroppedBalances(s: SessionState, v: View, entries: map<nat, Entry>, f: Frame)
    requires Inv(s, v, entries, f) && s.hit == {}
    ensures var t := Dropped(s).stats; t.submitted == t.readyHit + t.pendingHit + t.dropped && t.lateHit == 0
    ensures Dropped(s).stats == s.stats.(dropped := s.stats.dropped + |s.pending| + |s.ready|)
  {
  }

  /** With the cache off, a session reads no page twice. */
  lemma NoPageReadTwice(s: SessionState, v: View, entries: map<nat, Entry>, f: Frame, p: nat)
    requires Inv(s, v, entries, f) && !f.cacheOn
    ensures multiset(v.issued)[p] <= multiset(f.before)[p] + 1
  {
  }

  /** Reads in flight never exceed leftovers, budget and demand reads together. */
  lemma FlightBound(s: SessionState, v: View, entries: map<nat, Entry>, f: Frame)
    requires Inv(s, v, entries, f)
    ensures |v.flying| <= f.stale + f.budget + |s.demand|
  {
  }

  /** Every pending page has a token. */
  lemma {:induction false} PendingHasToken(m: map<nat, nat>, pages: set<nat>, p: nat) returns (t: nat)
    requires OneToOne(m, pages) && p in pages
    ensures t in m && m[t] == p
    decreases |m|
  {
    var u :| u in m;
    if m[u] == p {
      return u;
    }
    OneToOneDrop(m, pages, u);
    t := PendingHasToken(m - {u}, pages - {m[u]}, p);
  }
}
