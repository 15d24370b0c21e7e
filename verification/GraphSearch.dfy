/**
 Search on the packed index. Nodes and vectors come from the page session only; the result is the beam
 search over the decoded graph whatever the cache holds, whatever is prefetched, and in whatever order
 reads come back.
 */
module GraphSearch {
  import opened Sealing
  import opened TopK
  import opened PageCache
  import opened PageReader
  import opened PageLedger
  import opened PageSession
  import opened BeamSearch
  import opened BeamProofs

  /** The neighbours that are new, marked as visited one by one. */
  method MarkNew(plan: Plan, ids: seq<nat>, visited: set<nat>) returns (added: seq<nat>, seen: set<nat>)
    ensures added == plan.Unvisited(ids, visited) && seen == visited + Elements(added)
  {
    added, seen := [], visited;
    for i := 0 to |ids|
      invariant added == plan.Unvisited(ids[..i], visited) && seen == visited + Elements(added)
    {
      assert ids[..i + 1][..i] == ids[..i];
      assert ids[i] in Elements(added) <==> ids[i] in added;
      if ids[i] < plan.count && ids[i] !in seen {
        assert Elements(added + [ids[i]]) == Elements(added) + {ids[i]};
        added := added + [ids[i]];
        seen := seen + {ids[i]};
      }
    }
    assert ids[..|ids|] == ids;
  }

  method PushResults(plan: Plan, b: Beam, rs: seq<SearchResult>) returns (c: Beam)
    ensures c == plan.PushAll(b, rs)
  {
    c := b;
    for i := 0 to |rs|
      invariant c == plan.PushAll(b, rs[..i])
    {
      assert rs[..i + 1][..i] == rs[..i];
      c := plan.Push(c, rs[i]);
    }
    assert rs[..|rs|] == rs;
  }

  method AbsorbLists(plan: Plan, b: Beam, lists: seq<seq<SearchResult>>) returns (c: Beam)
    ensures c == plan.Absorb(b, lists)
  {
    c := b;
    for i := 0 to |lists|
      invariant c == plan.Absorb(b, lists[..i])
    {
      assert lists[..i + 1][..i] == lists[..i];
      c := PushResults(plan, c, lists[i]);
      c := plan.UpdateStop(c);
    }
    assert lists[..|lists|] == lists;
  }

  /** `initialize_search_state`. */
  method Initialize(plan: Plan, entries: seq<nat>) returns (b: Beam)
    ensures b == plan.Init(entries)
  {
    var accepted, seen := MarkNew(plan, entries, {});
    assert {} + Elements(accepted) == Elements(accepted);
    b := PushResults(plan, Beam(seen, [], [], [], [], 0, Infinite), plan.Ranked(accepted));
  }

  /** `select_candidate_batch`: pops candidates until the limit or a stop. */
  method SelectBatch(plan: Plan, b: Beam) returns (window: seq<SearchResult>)
    ensures var k := plan.BatchSize(b, plan.BatchLimit(b)); window == b.candidates[..k]
  {
    window := [];
    var limit := plan.BatchLimit(b);
    var rest := b;
    while |window| < limit && rest.candidates != [] && !plan.Stops(rest)
      invariant |window| <= limit && |window| <= |b.candidates|
      invariant window == b.candidates[..|window|] && rest == b.(candidates := b.candidates[|window|..])
      invariant plan.BatchSize(b, limit) == |window| + plan.BatchSize(rest, limit - |window|)
    {
      window := window + [rest.candidates[0]];
      rest := rest.(candidates := rest.candidates[1..]);
    }
  }

  /** The pages of a list of nodes. */
  method PagesOf(session: QueryPageSession, rs: seq<SearchResult>) returns (pages: seq<nat>)
    requires session.Idle() && forall r | r in rs :: r.id < |session.index.pageOf|
    ensures AllBelow(pages, |session.index.disk|)
  {
    pages := [];
    for i := 0 to |rs|
      invariant AllBelow(pages, |session.index.disk|)
    {
      assert rs[i] in rs;
      session.LocalNodes(rs[i].id);
      pages := pages + [session.index.pageOf[rs[i].id]];
    }
  }

  /** The first loop of `expand_candidate_batch`: each node is loaded, its page pinned, its new neighbours ranked. */
  method VisitBatch(session: QueryPageSession, ghost q: Query, plan: Plan, visited: set<nat>, batch: seq<SearchResult>)
    returns (ok: bool, seen: set<nat>, lists: seq<seq<SearchResult>>)
    requires session.Idle() && q.graph == session.index.graph && q.plan == plan
    requires forall r | r in batch :: r.id < |session.index.graph|
    modifies session, session.reader, session.cache
    ensures if ok then session.Idle() else session.Refused()
    ensures ok ==> q.VisitAll(visited, batch) == (seen, lists)
  {
    ok, seen, lists := true, visited, [];
    for i := 0 to |batch|
      invariant session.Idle()
      invariant q.VisitAll(visited, batch[..i]) == (seen, lists)
    {
      assert batch[..i + 1][..i] == batch[..i];
      assert batch[i] in batch;
      var ranked;
      ok, seen, ranked := VisitNode(session, q, plan, seen, batch[i].id);
      if !ok {
        return;
      }
      lists := lists + [ranked];
    }
    assert batch[..|batch|] == batch;
  }

  method VisitNode(session: QueryPageSession, ghost q: Query, plan: Plan, visited: set<nat>, id: nat)
    returns (ok: bool, seen: set<nat>, ranked: seq<SearchResult>)
    requires session.Idle() && q.graph == session.index.graph && q.plan == plan && id < |session.index.graph|
    modifies session, session.reader, session.cache
    ensures if ok then session.Idle() else session.Refused()
    ensures ok ==> q.Visit(visited, id) == (seen, ranked)
  {
    seen, ranked := visited, [];
    session.LocalNodes(id);
    var node;
    ok, node := session.GetNode(id);
    if !ok {
      return;
    }
    var pinned := session.PinPage(session.index.pageOf[id]);
    var added;
    added, seen := MarkNew(plan, node.neighbors, visited);
    ranked := plan.Ranked(added);
  }

  /** One round: load the batch's pages, expand it, and prefetch whatever the policy picks. */
  method ExpandBatch(session: QueryPageSession, ghost q: Query, plan: Plan, b: Beam, batch: seq<SearchResult>)
    returns (ok: bool, c: Beam)
    requires session.Idle() && q.graph == session.index.graph && q.plan == plan && plan.config.topK > 0
    requires plan.count == |session.index.graph|
    requires Fine(q, b) && batch <= b.candidates
    modifies session, session.reader, session.cache
    ensures if ok then session.Idle() else session.Refused()
    ensures ok ==> c == q.Expand(b, |batch|)
  {
    c := b;
    BatchInRange(q, b, batch);
    session.LocalNodes(0);
    var pages := PagesOf(session, batch);
    ok := session.EnsureLoaded(pages);
    if !ok {
      return;
    }
    var seen, lists;
    ok, seen, lists := VisitBatch(session, q, plan, b.visited, batch);
    if !ok {
      return;
    }
    var prefetch: seq<nat> :| true;
    ok := session.SubmitPlan(prefetch);
    c := AbsorbLists(plan, plan.TakeBatch(b, |batch|).(visited := seen), lists);
    assert b.candidates[..|batch|] == batch;
  }

  lemma BatchInRange(q: Query, b: Beam, batch: seq<SearchResult>)
    requires Fine(q, b) && batch <= b.candidates
    ensures forall r | r in batch :: r.id < q.plan.count
  {
    assert Unsealed(SearchGood);
    forall r | r in batch
      ensures r.id < q.plan.count
    {
      CandidateVisited(q, b, r);
    }
  }

  /** The rerank loop of `finalize_topk`: exact distances come from the stored vectors. */
  method Rerank(session: QueryPageSession, ghost q: Query, plan: Plan, best: seq<SearchResult>)
    returns (ok: bool, topk: seq<SearchResult>)
    requires session.Idle() && q.graph == session.index.graph && q.plan == plan
    requires forall r | r in best :: r.id < |session.index.graph|
    modifies session, session.reader, session.cache
    ensures if ok then session.Idle() else session.Refused()
    ensures ok ==> topk == q.Rerank(best)
  {
    ok, topk := true, best;
    if plan.config.rerankTopK > 0 {
      var prefetch: seq<nat> :| true;
      ok := session.SubmitPlan(prefetch);
      if !ok {
        return;
      }
      topk := [];
      for i := 0 to |best|
        invariant session.Idle() && |topk| == i
        invariant forall j | 0 <= j < i :: topk[j] == q.Exactly(best[j])
      {
        assert best[i] in best;
        var distance;
        ok, distance := ExactDistance(session, plan, best[i].id);
        if !ok {
          return;
        }
        topk := topk + [SearchResult(best[i].id, distance)];
      }
      assert topk == seq(|best|, i requires 0 <= i < |best| => q.Exactly(best[i]));
      topk := Sort(topk);
    }
  }

  method ExactDistance(session: QueryPageSession, plan: Plan, id: nat) returns (ok: bool, distance: real)
    requires session.Idle() && id < |session.index.graph|
    modifies session, session.reader, session.cache
    ensures if ok then session.Idle() else session.Refused()
    ensures ok ==> distance == plan.exact(session.index.graph[id].vector)
  {
    session.LocalNodes(id);
    distance := 0.0;
    var page;
    ok, page := session.GetOrLoadPage(session.index.pageOf[id]);
    if ok {
      var node := FindNode(session, page, id);
      distance := plan.exact(node.vector);
    }
  }

  /** `find_node` on a loaded page. */
  method FindNode(session: QueryPageSession, page: Page, id: nat) returns (node: Node)
    requires session.Idle() && id < |session.index.pageOf| && session.index.pageOf[id] < |session.index.disk|
    requires page == session.index.disk[session.index.pageOf[id]]
    ensures id < |session.index.graph| && node == session.index.graph[id]
  {
    session.PageHolds(id);
    var i := 0;
    while page.nodes[i].id != id
      invariant i < |page.nodes| && forall j | 0 <= j < i :: page.nodes[j].id != id
      decreases |page.nodes| - i
    {
      i := i + 1;
    }
    node := page.nodes[i];
  }

  /**
   `search_one`. The result is a function of the graph, the query and the configuration alone: cache
   policy and contents, io_uring or not, prefetch policy and completion order do not appear in it. A search
   fails only on a bad configuration, or when the reads that earlier queries left in flight, the budget and
   the reserve do not fit the ring together.
   */
  method SearchOne(
      index: Index, reader: AsyncPageReader, cache: PackedPageCache, io: IoStatus, prefetch: PrefetchConfig,
      plan: Plan, entries: seq<nat>)
    returns (ok: bool, topk: seq<SearchResult>, stats: Stats)
    requires reader.Valid() && cache.Valid() && index.WellFormed() && plan.count == |index.graph|
    requires reader.disk == index.disk && reader.async == io.async && reader.depth == io.depth && io.depth > 0
    requires CacheFromDisk(cache.s.entries, index.disk)
    modifies reader, cache
    ensures ok ==> plan.config.Runs()
    ensures plan.config.Runs() && HasRoom(old(reader.view), io, prefetch) ==> ok
    ensures ok ==> topk == Query(index.graph, plan).Search(entries)
    ensures reader.Valid() && cache.Valid() && CacheFromDisk(cache.s.entries, index.disk)
    ensures ok ==> stats.submitted == stats.readyHit + stats.pendingHit + stats.dropped && stats.lateHit == 0
    ensures forall p | p in cache.s.entries ::
              cache.s.entries[p].pins == if p in old(cache.s).entries then old(cache.s).entries[p].pins else 0
    ensures ok && !cache.setup.Enabled() ==>
              forall p :: multiset(reader.view.issued)[p] <= multiset(old(reader.view).issued)[p] + 1
    ensures ok ==> |reader.view.flying| <= |old(reader.view).flying| + PrefetchBudget(io, prefetch)
  {
    ok := plan.config.Runs();
    topk, stats := [], Stats(0, 0, 0, 0, 0);
    if !ok {
      return;
    }
    var session := new QueryPageSession(index, reader, cache, io, prefetch);
    ghost var q := Query(index.graph, plan);
    ok, topk := SearchWith(session, q, plan, entries);
    if ok {
      session.FinishQuery();
      stats := session.s.stats;
    } else {
      session.Abandon();
    }
  }

  /** The rounds, then `finalize_topk` up to the end of the session. */
  method SearchWith(session: QueryPageSession, ghost q: Query, plan: Plan, entries: seq<nat>)
    returns (ok: bool, topk: seq<SearchResult>)
    requires session.Idle() && q.graph == session.index.graph && q.plan == plan && plan.config.topK > 0
    requires plan.count == |session.index.graph|
    modifies session, session.reader, session.cache
    ensures if ok then session.Idle() else session.Refused()
    ensures ok ==> topk == q.Search(entries)
  {
    topk := [];
    var b;
    ok, b := RunRounds(session, q, plan, entries);
    if ok {
      BestInRange(q, b);
      ok, topk := Rerank(session, q, plan, b.best);
      topk := Take(topk, plan.EffectiveK());
    }
  }

  /** Reads left in flight, the budget and the reserve fit the ring together. */
  ghost predicate HasRoom(v: View, io: IoStatus, prefetch: PrefetchConfig) {
    io.async ==> |v.flying| + PrefetchBudget(io, prefetch) + DemandReserve(io) <= io.depth
  }

  lemma BestInRange(q: Query, b: Beam)
    requires Fine(q, b)
    ensures forall r | r in b.best :: r.id < q.plan.count
  {
    assert Unsealed(SearchGood);
    forall r | r in b.best
      ensures r.id < q.plan.count
    {
      assert r in Sort(b.found);
      assert r in multiset(Sort(b.found));
      assert r in b.found;
    }
  }

  lemma RoundStep(q: Query, b: Beam, end: Beam)
    requires Fine(q, b) && q.plan.config.topK > 0 && b.candidates != [] && |b.expanded| < q.plan.config.searchWidth
    requires Leads(q, b, end)
    ensures var k := q.plan.BatchSize(b, q.plan.BatchLimit(b));
            if k == 0 then b == end
            else Leads(q, q.Expand(b, k), end) && Fine(q, q.Expand(b, k))
                 && |q.Expand(b, k).expanded| == |b.expanded| + k
  {
    assert Unsealed(RoundsLead) && Unsealed(SearchGood);
    var k := q.plan.BatchSize(b, q.plan.BatchLimit(b));
    ExpandGood(q, b, k);
    q.ExpandGrows(b, k);
  }

  /** The main loop of `search_one`. */
  method RunRounds(session: QueryPageSession, ghost q: Query, plan: Plan, entries: seq<nat>)
    returns (ok: bool, b: Beam)
    requires session.Idle() && q.graph == session.index.graph && q.plan == plan && plan.config.topK > 0
    requires plan.count == |session.index.graph|
    modifies session, session.reader, session.cache
    ensures if ok then session.Idle() else session.Refused()
    ensures ok ==> b == q.Rounds(plan.Init(entries)) && Fine(q, b)
  {
    ok := true;
    b := Initialize(plan, entries);
    InitGood(q, entries);
    var going := true;
    ghost var end := q.Rounds(b);
    while going && b.candidates != [] && |b.expanded| < plan.config.searchWidth
      invariant session.Idle() && Fine(q, b) && Leads(q, b, end) && (!going ==> b == end)
      decreases going, plan.config.searchWidth - |b.expanded|
    {
      ok, going, b := OneRound(session, q, plan, b, end);
      if !ok {
        return;
      }
    }
    LeadsHere(q, b, end);
  }

  /** The rounds from `b` on end in `end`. */
  ghost predicate Leads(q: Query, b: Beam, end: Beam) {
    forall name {:trigger Unsealed(name)} | Unsealed(name) && name == RoundsLead :: q.Rounds(b) == end
  }

  lemma LeadsHere(q: Query, b: Beam, end: Beam)
    requires Leads(q, b, end) && (b.candidates == [] || |b.expanded| >= q.plan.config.searchWidth || b == end)
    ensures b == end
  {
    assert Unsealed(RoundsLead);
  }

  /** One pass of the loop; `going` is false when the batch was empty. */
  method OneRound(session: QueryPageSession, ghost q: Query, plan: Plan, b: Beam, ghost end: Beam)
    returns (ok: bool, going: bool, c: Beam)
    requires session.Idle() && q.graph == session.index.graph && q.plan == plan && plan.config.topK > 0
    requires plan.count == |session.index.graph|
    requires Fine(q, b) && Leads(q, b, end) && b.candidates != [] && |b.expanded| < plan.config.searchWidth
    modifies session, session.reader, session.cache
    ensures if ok then session.Idle() && Fine(q, c) && Leads(q, c, end) else session.Refused()
    ensures ok ==> if going then |c.expanded| > |b.expanded| else c == end
  {
    session.DrainReady();
    var batch := SelectBatch(plan, b);
    RoundStep(q, b, end);
    ok, going, c := true, batch != [], b;
    if going {
      ok, c := ExpandBatch(session, q, plan, b, batch);
    }
  }
}
