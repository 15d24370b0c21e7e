/** What every round of the beam search keeps, and what the search returns. */
module BeamProofs {
  import opened Sealing
  import opened TopK
  import opened PageCache
  import opened BeamSearch

  ghost function Ids(rs: seq<SearchResult>): set<nat> {
    set r | r in rs :: r.id
  }

  ghost predicate Genuine(q: Query, rs: seq<SearchResult>) {
    forall r | r in rs :: r.id < q.plan.count && r == q.plan.Result(r.id)
  }

  /** `all` lists the visited nodes, each once, with its estimated distance. */
  ghost predicate Lists(q: Query, all: seq<SearchResult>, visited: set<nat>) {
    Ids(all) == visited && |all| == |visited| && Genuine(q, all)
  }

  // ---- Lists of results ----

  lemma IdsConcat(a: seq<SearchResult>, b: seq<SearchResult>)
    ensures Ids(a + b) == Ids(a) + Ids(b)
  {
    forall id | id in Ids(a) + Ids(b)
      ensures id in Ids(a + b)
    {
      if id in Ids(a) {
        var r :| r in a && r.id == id;
        assert r in a + b;
      } else {
        var r :| r in b && r.id == id;
        assert r in a + b;
      }
    }
  }

  lemma {:induction false} IdsSize(rs: seq<SearchResult>)
    ensures |Ids(rs)| <= |rs|
  {
    if rs != [] {
      var rest, r := rs[..|rs| - 1], rs[|rs| - 1];
      IdsSize(rest);
      assert rs == rest + [r];
      IdsConcat(rest, [r]);
      assert Ids([r]) == {r.id} by { assert r in [r]; }
    }
  }

  /** As many ids as results: no id occurs twice. */
  lemma {:induction false} IdsDistinct(rs: seq<SearchResult>, i: nat, j: nat)
    requires |Ids(rs)| == |rs| && i < j < |rs|
    ensures rs[i].id != rs[j].id
  {
    var rest, r := rs[..|rs| - 1], rs[|rs| - 1];
    assert rs == rest + [r];
    IdsConcat(rest, [r]);
    assert Ids([r]) == {r.id} by { assert r in [r]; }
    IdsSize(rest);
    if j < |rs| - 1 {
      IdsDistinct(rest, i, j);
    } else {
      assert rest[i] in rest && rest[i].id in Ids(rest);
    }
  }

  lemma IdsOfMultiset(a: seq<SearchResult>, b: seq<SearchResult>)
    requires multiset(a) == multiset(b)
    ensures Ids(a) == Ids(b)
  {
    forall r: SearchResult
      ensures r in a <==> r in b
    {
      assert r in multiset(a) <==> r in multiset(b);
    }
  }

  lemma GenuineOfMultiset(q: Query, a: seq<SearchResult>, b: seq<SearchResult>)
    requires multiset(a) == multiset(b) && Genuine(q, a)
    ensures Genuine(q, b)
  {
    forall r | r in b
      ensures r in a
    {
      assert r in multiset(b);
      assert r in multiset(a);
    }
  }

  // ---- New neighbours ----

  lemma {:induction false} UnvisitedFacts(q: Query, ids: seq<nat>, visited: set<nat>)
    ensures var added := q.plan.Unvisited(ids, visited);
            && Distinct(added)
            && (forall id | id in added :: id in ids && id < q.plan.count && id !in visited)
            && (forall id | id in ids && id < q.plan.count :: id in visited || id in added)
  {
    if ids != [] {
      var rest := ids[..|ids| - 1];
      UnvisitedFacts(q, rest, visited);
      assert ids == rest + [ids[|ids| - 1]];
    }
  }

  lemma RankedFacts(q: Query, ids: seq<nat>)
    requires Distinct(ids) && forall id | id in ids :: id < q.plan.count
    ensures Lists(q, q.plan.Ranked(ids), Elements(ids))
  {
    var rs := seq(|ids|, i requires 0 <= i < |ids| => q.plan.Result(ids[i]));
    assert multiset(q.plan.Ranked(ids)) == multiset(rs);
    forall id | id in ids
      ensures id in Ids(rs)
    {
      var i :| 0 <= i < |ids| && ids[i] == id;
      assert rs[i] in rs;
    }
    forall r | r in rs
      ensures r.id in ids && r == q.plan.Result(r.id)
    {
      var i :| 0 <= i < |rs| && rs[i] == r;
      assert ids[i] == r.id;
    }
    IdsOfMultiset(rs, q.plan.Ranked(ids));
    GenuineOfMultiset(q, rs, q.plan.Ranked(ids));
    assert Ids(rs) == Elements(ids);
    DistinctSetSize(ids);
  }

  lemma ListsConcat(q: Query, a: seq<SearchResult>, b: seq<SearchResult>, va: set<nat>, vb: set<nat>)
    requires Lists(q, a, va) && Lists(q, b, vb) && va !! vb
    ensures Lists(q, a + b, va + vb)
  {
    IdsConcat(a, b);
    assert forall r | r in a + b :: r in a || r in b;
  }

  lemma FlatAppend(lists: seq<seq<SearchResult>>, rs: seq<SearchResult>)
    ensures Flatten(lists + [rs]) == Flatten(lists) + rs
  {
    assert (lists + [rs])[..|lists|] == lists;
  }

  /** Visiting a batch lists exactly the nodes it marks. */
  lemma {:induction false} VisitAllLists(q: Query, all: seq<SearchResult>, visited: set<nat>, batch: seq<SearchResult>)
    requires Lists(q, all, visited)
    ensures var (seen, lists) := q.VisitAll(visited, batch);
            Lists(q, all + Flatten(lists), seen) && visited <= seen
  {
    if batch == [] {
      assert all + [] == all;
    } else {
      var rest := batch[..|batch| - 1];
      VisitAllLists(q, all, visited, rest);
      var (seen, lists) := q.VisitAll(visited, rest);
      var (next, ranked) := q.Visit(seen, batch[|batch| - 1].id);
      VisitLists(q, all + Flatten(lists), seen, batch[|batch| - 1].id);
      VisitAllStep(q, visited, batch);
      ConcatFlat(all, lists, ranked);
    }
  }

  lemma VisitAllStep(q: Query, visited: set<nat>, batch: seq<SearchResult>)
    requires batch != []
    ensures var (seen, lists) := q.VisitAll(visited, batch[..|batch| - 1]);
            var (next, ranked) := q.Visit(seen, batch[|batch| - 1].id);
            var (last, full) := q.VisitAll(visited, batch);
            last == next && full == lists + [ranked]
  {
  }

  lemma ConcatFlat(all: seq<SearchResult>, lists: seq<seq<SearchResult>>, ranked: seq<SearchResult>)
    ensures all + Flatten(lists + [ranked]) == all + Flatten(lists) + ranked
  {
    FlatAppend(lists, ranked);
    assert all + (Flatten(lists) + ranked) == all + Flatten(lists) + ranked;
  }

  lemma VisitLists(q: Query, all: seq<SearchResult>, visited: set<nat>, id: nat)
    requires Lists(q, all, visited)
    ensures var (seen, ranked) := q.Visit(visited, id);
            Lists(q, all + ranked, seen) && visited <= seen
  {
    var added := q.plan.Unvisited(q.Neighbors(id), visited);
    UnvisitedFacts(q, q.Neighbors(id), visited);
    RankedFacts(q, added);
    ListsConcat(q, all, q.plan.Ranked(added), visited, Elements(added));
  }

  // ---- The invariant ----

  /** Found nodes are waiting or expanded; `best` is the top-k of all of them. */
  ghost predicate Kept(q: Query, b: Beam) {
    && Sorted(b.candidates)
    && multiset(b.found) == multiset(b.candidates) + multiset(b.expanded)
    && b.best == Best(b.found, q.plan.Capacity())
  }

  lemma PushKept(q: Query, b: Beam, r: SearchResult)
    requires Kept(q, b) && q.plan.Capacity() > 0
    ensures Kept(q, q.plan.Push(b, r))
  {
    InsertSorted(b.candidates, r);
    BoundedPushIsBest(b.found, q.plan.Capacity(), r);
  }

  lemma ConcatLast(a: seq<SearchResult>, rs: seq<SearchResult>)
    requires rs != []
    ensures a + rs[..|rs| - 1] + [rs[|rs| - 1]] == a + rs
  {
  }

  lemma PushAllStep(q: Query, b: Beam, rs: seq<SearchResult>)
    requires rs != []
    ensures q.plan.PushAll(b, rs) == q.plan.Push(q.plan.PushAll(b, rs[..|rs| - 1]), rs[|rs| - 1])
  {
  }

  lemma {:induction false} PushAllKept(q: Query, b: Beam, rs: seq<SearchResult>)
    requires Kept(q, b) && (rs != [] ==> q.plan.Capacity() > 0)
    ensures Kept(q, q.plan.PushAll(b, rs))
  {
    if rs != [] {
      PushAllKept(q, b, rs[..|rs| - 1]);
      PushAllStep(q, b, rs);
      PushKept(q, q.plan.PushAll(b, rs[..|rs| - 1]), rs[|rs| - 1]);
    }
  }

  lemma {:induction false} PushAllShape(q: Query, b: Beam, rs: seq<SearchResult>)
    ensures var c := q.plan.PushAll(b, rs);
            c.found == b.found + rs && c.expanded == b.expanded && c.visited == b.visited
  {
    if rs == [] {
      assert b.found + rs == b.found;
    } else {
      PushAllShape(q, b, rs[..|rs| - 1]);
      PushAllStep(q, b, rs);
      ConcatLast(b.found, rs);
    }
  }

  lemma AbsorbStep(q: Query, b: Beam, lists: seq<seq<SearchResult>>)
    requires lists != []
    ensures q.plan.Absorb(b, lists) == q.plan.UpdateStop(q.plan.PushAll(q.plan.Absorb(b, lists[..|lists| - 1]), lists[|lists| - 1]))
  {
  }

  lemma UpdateStopShape(q: Query, b: Beam)
    ensures var c := q.plan.UpdateStop(b);
            c.found == b.found && c.expanded == b.expanded && c.visited == b.visited
  {
  }

  lemma UpdateStopKept(q: Query, b: Beam)
    requires Kept(q, b)
    ensures Kept(q, q.plan.UpdateStop(b))
  {
  }

  lemma {:induction false} AbsorbKept(q: Query, b: Beam, lists: seq<seq<SearchResult>>)
    requires Kept(q, b) && (Flatten(lists) != [] ==> q.plan.Capacity() > 0)
    ensures Kept(q, q.plan.Absorb(b, lists))
  {
    if lists != [] {
      var rest, rs := lists[..|lists| - 1], lists[|lists| - 1];
      assert Flatten(lists) == Flatten(rest) + rs;
      AbsorbKept(q, b, rest);
      AbsorbStep(q, b, lists);
      PushAllKept(q, q.plan.Absorb(b, rest), rs);
      UpdateStopKept(q, q.plan.PushAll(q.plan.Absorb(b, rest), rs));
    }
  }

  lemma {:induction false} AbsorbShape(q: Query, b: Beam, lists: seq<seq<SearchResult>>)
    ensures var c := q.plan.Absorb(b, lists);
            c.found == b.found + Flatten(lists) && c.expanded == b.expanded && c.visited == b.visited
  {
    if lists == [] {
      assert b.found + [] == b.found;
    } else {
      var rest, rs := lists[..|lists| - 1], lists[|lists| - 1];
      AbsorbShape(q, b, rest);
      AbsorbStep(q, b, lists);
      PushAllShape(q, q.plan.Absorb(b, rest), rs);
      UpdateStopShape(q, q.plan.PushAll(q.plan.Absorb(b, rest), rs));
      ConcatAssoc(b.found, Flatten(rest), rs);
    }
  }

  lemma TakeBatchKept(q: Query, b: Beam, k: nat)
    requires Kept(q, b) && k <= |b.candidates|
    ensures Kept(q, q.plan.TakeBatch(b, k))
  {
    assert b.candidates == b.candidates[..k] + b.candidates[k..];
  }

  /** Every neighbour of these nodes is visited. */
  ghost predicate Covered(q: Query, nodes: seq<SearchResult>, visited: set<nat>) {
    forall e, n | e in nodes && n in q.Neighbors(e.id) && n < q.plan.count :: n in visited
  }

  ghost predicate Good(q: Query, b: Beam) {
    && Kept(q, b)
    && Lists(q, b.found, b.visited)
    && Covered(q, b.expanded, b.visited)
  }

  lemma NonEmptyGraph(q: Query, all: seq<SearchResult>, visited: set<nat>)
    requires Lists(q, all, visited) && all != [] && q.plan.config.topK > 0
    ensures q.plan.Capacity() > 0
  {
    assert all[0] in all;
  }

  lemma {:induction false} VisitAllCovers(q: Query, visited: set<nat>, batch: seq<SearchResult>)
    ensures var (seen, lists) := q.VisitAll(visited, batch);
            Covered(q, batch, seen) && visited <= seen
  {
    if batch != [] {
      var rest, last := batch[..|batch| - 1], batch[|batch| - 1];
      VisitAllCovers(q, visited, rest);
      var (seen, lists) := q.VisitAll(visited, rest);
      UnvisitedFacts(q, q.Neighbors(last.id), seen);
      var added := q.plan.Unvisited(q.Neighbors(last.id), seen);
      assert batch == rest + [last];
      assert forall e | e in batch :: e in rest || e == last;
      assert forall n | n in added :: n in Elements(added);
    }
  }

  /** A round expands its batch and keeps the invariant. */
  lemma ExpandGood(q: Query, b: Beam, k: nat)
    requires Good(q, b) && k <= |b.candidates| && q.plan.config.topK > 0
    ensures Good(q, q.Expand(b, k))
  {
    var batch := b.candidates[..k];
    var (seen, lists) := q.VisitAll(b.visited, batch);
    VisitAllLists(q, b.found, b.visited, batch);
    if Flatten(lists) != [] {
      NonEmptyGraph(q, b.found + Flatten(lists), seen);
    }
    TakeBatchKept(q, b, k);
    var taken := q.plan.TakeBatch(b, k).(visited := seen);
    AbsorbKept(q, taken, lists);
    AbsorbShape(q, taken, lists);
    VisitAllCovers(q, b.visited, batch);
    assert forall e | e in b.expanded + batch :: e in b.expanded || e in batch;
  }

  lemma InitGood(q: Query, entries: seq<nat>)
    requires q.plan.config.topK > 0
    ensures Good(q, q.plan.Init(entries)) && q.plan.Init(entries).expanded == []
  {
    var added := q.plan.Unvisited(entries, {});
    UnvisitedFacts(q, entries, {});
    RankedFacts(q, added);
    var ranked := q.plan.Ranked(added);
    if ranked != [] {
      NonEmptyGraph(q, ranked, Elements(added));
    }
    var start := Beam(Elements(added), [], [], [], [], 0, Infinite);
    StartKept(q, Elements(added));
    PushAllKept(q, start, ranked);
    PushAllShape(q, start, ranked);
    assert [] + ranked == ranked;
  }

  lemma StartKept(q: Query, seen: set<nat>)
    ensures Kept(q, Beam(seen, [], [], [], [], 0, Infinite))
  {
  }

  lemma {:induction false} RoundsGood(q: Query, b: Beam)
    requires Good(q, b) && q.plan.config.topK > 0 && |b.expanded| <= q.plan.config.searchWidth
    ensures Good(q, q.Rounds(b)) && |q.Rounds(b).expanded| <= q.plan.config.searchWidth
    decreases q.plan.config.searchWidth - |b.expanded|
  {
    if b.candidates != [] && |b.expanded| < q.plan.config.searchWidth {
      var k := q.plan.BatchSize(b, q.plan.BatchLimit(b));
      if k > 0 {
        ExpandGood(q, b, k);
        q.ExpandGrows(b, k);
        RoundsGood(q, q.Expand(b, k));
      }
    }
  }

  // ---- What the search returns ----

  lemma SortDistinctIds(rs: seq<SearchResult>)
    requires |Ids(rs)| == |rs|
    ensures DistinctIds(Sort(rs)) && |Ids(Sort(rs))| == |rs|
  {
    var t := Sort(rs);
    IdsOfMultiset(rs, t);
    assert |t| == |multiset(t)| == |multiset(rs)|;
    forall i, j | 0 <= i < j < |t|
      ensures t[i].id != t[j].id
    {
      IdsDistinct(t, i, j);
    }
  }

  lemma DistinctIdsSize(rs: seq<SearchResult>)
    requires DistinctIds(rs)
    ensures |Ids(rs)| == |rs|
  {
    var ids := IdsOf(rs);
    DistinctSetSize(ids);
    forall id
      ensures id in Elements(ids) <==> id in Ids(rs)
    {
      if id in Elements(ids) {
        var i :| 0 <= i < |ids| && ids[i] == id;
        assert rs[i] in rs;
      }
      if id in Ids(rs) {
        var i :| 0 <= i < |rs| && rs[i].id == id;
        assert ids[i] == id;
      }
    }
    assert Elements(ids) == Ids(rs);
  }

  lemma RerankDistinctIds(q: Query, best: seq<SearchResult>)
    requires DistinctIds(best)
    ensures DistinctIds(q.Rerank(best))
  {
    if q.plan.config.rerankTopK > 0 {
      var exact := seq(|best|, i requires 0 <= i < |best| => q.Exactly(best[i]));
      assert DistinctIds(exact);
      DistinctIdsSize(exact);
      SortDistinctIds(exact);
    }
  }

  lemma BestDistinctIds(rs: seq<SearchResult>, k: nat)
    requires |Ids(rs)| == |rs|
    ensures DistinctIds(Best(rs, k))
  {
    SortDistinctIds(rs);
  }

  /** No node is returned twice, with reranking or without. */
  lemma ResultIdsDistinct(q: Query, entries: seq<nat>)
    requires q.plan.config.topK > 0
    ensures DistinctIds(q.Search(entries))
  {
    SearchInvariant(q, entries);
    var b := q.Rounds(q.plan.Init(entries));
    BestDistinctIds(b.found, q.plan.Capacity());
    RerankDistinctIds(q, b.best);
  }

  /** Every node is expanded at most once. */
  lemma ExpandedOnce(q: Query, b: Beam, i: nat, j: nat)
    requires Good(q, b) && i < j < |b.expanded|
    ensures b.expanded[i].id != b.expanded[j].id
  {
    var both := b.expanded + b.candidates;
    assert multiset(both) == multiset(b.found);
    IdsOfMultiset(both, b.found);
    assert |both| == |multiset(both)| == |multiset(b.found)| == |b.found|;
    IdsDistinct(both, i, j);
  }

  /** The search ends with the invariant: at most `search_width` expansions, none repeated, exact top-k of what it saw. */
  lemma SearchInvariant(q: Query, entries: seq<nat>)
    requires q.plan.config.topK > 0
    ensures var b := q.Rounds(q.plan.Init(entries));
            && |b.expanded| <= q.plan.config.searchWidth
            && (forall i, j | 0 <= i < j < |b.expanded| :: b.expanded[i].id != b.expanded[j].id)
            && b.best == Best(b.found, q.plan.Capacity())
            && Lists(q, b.found, b.visited)
  {
    InitGood(q, entries);
    RoundsGood(q, q.plan.Init(entries));
    var b := q.Rounds(q.plan.Init(entries));
    forall i, j | 0 <= i < j < |b.expanded|
      ensures b.expanded[i].id != b.expanded[j].id
    {
      ExpandedOnce(q, b, i, j);
    }
  }

  /** A set of nodes that contains the neighbours of its members. */
  ghost predicate Closed(q: Query, nodes: set<nat>) {
    forall e, n | e in nodes && n in q.Neighbors(e) && n < q.plan.count :: n in nodes
  }

  ghost predicate HasEntries(q: Query, entries: seq<nat>, nodes: set<nat>) {
    forall e | e in entries && e < q.plan.count :: e in nodes
  }

  lemma {:induction false} VisitAllWithin(q: Query, visited: set<nat>, batch: seq<SearchResult>, nodes: set<nat>)
    requires visited <= nodes && Closed(q, nodes) && forall r | r in batch :: r.id in nodes
    ensures q.VisitAll(visited, batch).0 <= nodes
  {
    if batch != [] {
      var rest, last := batch[..|batch| - 1], batch[|batch| - 1];
      assert forall r | r in rest :: r in batch;
      assert last in batch;
      VisitAllWithin(q, visited, rest, nodes);
      UnvisitedFacts(q, q.Neighbors(last.id), q.VisitAll(visited, rest).0);
      VisitAllStep(q, visited, batch);
    }
  }

  lemma {:induction false} RoundsWithin(q: Query, b: Beam, nodes: set<nat>)
    requires Good(q, b) && q.plan.config.topK > 0 && |b.expanded| <= q.plan.config.searchWidth
    requires b.visited <= nodes && Closed(q, nodes)
    ensures b.visited <= q.Rounds(b).visited <= nodes
    decreases q.plan.config.searchWidth - |b.expanded|
  {
    if b.candidates != [] && |b.expanded| < q.plan.config.searchWidth {
      var k := q.plan.BatchSize(b, q.plan.BatchLimit(b));
      if k > 0 {
        ExpandWithin(q, b, k, nodes);
        ExpandGood(q, b, k);
        q.ExpandGrows(b, k);
        RoundsWithin(q, q.Expand(b, k), nodes);
      }
    }
  }

  lemma ExpandWithin(q: Query, b: Beam, k: nat, nodes: set<nat>)
    requires Good(q, b) && k <= |b.candidates| && b.visited <= nodes && Closed(q, nodes)
    ensures b.visited <= q.Expand(b, k).visited <= nodes
  {
    var batch := b.candidates[..k];
    forall r | r in batch
      ensures r.id in nodes
    {
      CandidateVisited(q, b, r);
    }
    VisitAllWithin(q, b.visited, batch, nodes);
    VisitAllCovers(q, b.visited, batch);
    var (seen, lists) := q.VisitAll(b.visited, batch);
    AbsorbShape(q, q.plan.TakeBatch(b, k).(visited := seen), lists);
  }

  lemma CandidateVisited(q: Query, b: Beam, r: SearchResult)
    requires Good(q, b) && r in b.candidates
    ensures r.id in b.visited
  {
    assert r in multiset(b.candidates);
    assert r in multiset(b.found);
    assert r in b.found;
  }

  /** With no early stop a batch is empty only when there is nothing left to take. */
  lemma NoStopTakes(q: Query, b: Beam)
    requires !q.plan.config.earlyStop && !q.plan.config.adaptiveStop && b.candidates != [] && |b.expanded| < q.plan.config.searchWidth
    ensures q.plan.BatchSize(b, q.plan.BatchLimit(b)) > 0
  {
  }

  lemma NextRound(q: Query, b: Beam) returns (k: nat)
    requires Good(q, b) && q.plan.config.topK > 0 && b.candidates != [] && |b.expanded| < q.plan.config.searchWidth
    requires q.plan.BatchSize(b, q.plan.BatchLimit(b)) > 0
    ensures k == q.plan.BatchSize(b, q.plan.BatchLimit(b)) <= |b.candidates|
    ensures Good(q, q.Expand(b, k)) && q.Rounds(b) == q.Rounds(q.Expand(b, k))
    ensures |b.expanded| < |q.Expand(b, k).expanded| <= q.plan.config.searchWidth
  {
    k := q.plan.BatchSize(b, q.plan.BatchLimit(b));
    ExpandGood(q, b, k);
    q.ExpandGrows(b, k);
  }

  lemma {:induction false} RoundsExhaust(q: Query, b: Beam)
    requires Good(q, b) && q.plan.config.topK > 0 && |b.expanded| <= q.plan.config.searchWidth
    requires !q.plan.config.earlyStop && !q.plan.config.adaptiveStop && q.plan.config.searchWidth >= q.plan.count
    ensures q.Rounds(b).candidates == []
    decreases q.plan.config.searchWidth - |b.expanded|
  {
    if b.candidates != [] {
      if |b.expanded| < q.plan.config.searchWidth {
        NoStopTakes(q, b);
        var k := NextRound(q, b);
        RoundsExhaust(q, q.Expand(b, k));
      } else {
        FoundFits(q, b);
        assert false;
      }
    }
  }

  lemma FoundFits(q: Query, b: Beam)
    requires Good(q, b)
    ensures |b.candidates| + |b.expanded| <= q.plan.count
  {
    BelowSize(q.plan.count);
    SubsetSize(b.visited, Below(q.plan.count));
    assert |b.found| == |multiset(b.found)| == |b.candidates| + |b.expanded|;
  }

  /**
   A search with no early stop and room for every node visits exactly what is reachable from its
   entries: the least closed set that contains them.
   */
  lemma ExhaustiveSearch(q: Query, entries: seq<nat>, nodes: set<nat>)
    requires q.plan.config.topK > 0 && !q.plan.config.earlyStop && !q.plan.config.adaptiveStop
    requires q.plan.config.searchWidth >= q.plan.count
    ensures var visited := q.Rounds(q.plan.Init(entries)).visited;
            && HasEntries(q, entries, visited) && Closed(q, visited)
            && (HasEntries(q, entries, nodes) && Closed(q, nodes) ==> visited <= nodes)
  {
    InitGood(q, entries);
    var start := q.plan.Init(entries);
    RoundsGood(q, start);
    RoundsExhaust(q, start);
    var b := q.Rounds(start);
    EntriesVisited(q, entries);
    RoundsWithin(q, start, Below(q.plan.count));
    assert Closed(q, b.visited) by {
      forall e, n | e in b.visited && n in q.Neighbors(e) && n < q.plan.count
        ensures n in b.visited
      {
        VisitedIsExpanded(q, b, e);
      }
    }
    if HasEntries(q, entries, nodes) && Closed(q, nodes) {
      RoundsWithin(q, start, nodes);
    }
  }

  lemma VisitedIsExpanded(q: Query, b: Beam, id: nat)
    requires Good(q, b) && b.candidates == [] && id in b.visited
    ensures exists e :: e in b.expanded && e.id == id
  {
    var r :| r in b.found && r.id == id;
    assert r in multiset(b.found);
    assert r in multiset(b.expanded);
    assert r in b.expanded;
  }

  lemma EntriesVisited(q: Query, entries: seq<nat>)
    ensures HasEntries(q, entries, q.plan.Init(entries).visited)
    ensures forall id | id in q.plan.Init(entries).visited :: id in entries && id < q.plan.count
  {
    var added := q.plan.Unvisited(entries, {});
    UnvisitedFacts(q, entries, {});
    PushAllShape(q, Beam(Elements(added), [], [], [], [], 0, Infinite), q.plan.Ranked(added));
  }

  /** The visited nodes, measured exactly. */
  ghost function Measured(q: Query, rs: seq<SearchResult>): seq<SearchResult> {
    if rs == [] then [] else Measured(q, rs[..|rs| - 1]) + [q.Exactly(rs[|rs| - 1])]
  }

  lemma {:induction false} MeasuredAt(q: Query, rs: seq<SearchResult>)
    ensures |Measured(q, rs)| == |rs|
    ensures Measured(q, rs) == seq(|rs|, i requires 0 <= i < |rs| => q.Exactly(rs[i]))
  {
    if rs != [] {
      MeasuredAt(q, rs[..|rs| - 1]);
    }
  }

  /** Measuring does not care about order. */
  lemma {:induction false} MeasuredInsert(q: Query, s: seq<SearchResult>, x: SearchResult)
    ensures multiset(Measured(q, Insert(s, x))) == multiset(Measured(q, s)) + multiset{q.Exactly(x)}
  {
    if s == [] || Less(x, s[0]) {
      MeasuredFront(q, x, s);
    } else {
      MeasuredInsert(q, s[1..], x);
      MeasuredFront(q, s[0], Insert(s[1..], x));
      MeasuredFront(q, s[0], s[1..]);
      assert s == [s[0]] + s[1..];
    }
  }

  lemma {:induction false} MeasuredFront(q: Query, x: SearchResult, s: seq<SearchResult>)
    ensures Measured(q, [x] + s) == [q.Exactly(x)] + Measured(q, s)
  {
    if s == [] {
      assert ([x] + s)[..0] == [];
      assert [x] + s == [x];
    } else {
      var rest := s[..|s| - 1];
      MeasuredFront(q, x, rest);
      assert ([x] + s)[..|s|] == [x] + rest;
    }
  }

  lemma {:induction false} MeasuredSort(q: Query, s: seq<SearchResult>)
    ensures multiset(Measured(q, Sort(s))) == multiset(Measured(q, s))
  {
    if s != [] {
      MeasuredSort(q, s[..|s| - 1]);
      MeasuredInsert(q, Sort(s[..|s| - 1]), s[|s| - 1]);
    }
  }

  /**
   With reranking of as many results as there are nodes, the search returns the exact top-k of the
   nodes it visited.
   */
  lemma RerankIsExact(q: Query, entries: seq<nat>)
    requires q.plan.config.topK > 0 && q.plan.config.rerankTopK >= q.plan.count > 0
    ensures q.Search(entries) == Best(Measured(q, q.Rounds(q.plan.Init(entries)).found), q.plan.EffectiveK())
  {
    SearchInvariant(q, entries);
    var b := q.Rounds(q.plan.Init(entries));
    assert |b.found| <= q.plan.count by {
      BelowSize(q.plan.count);
      SubsetSize(b.visited, Below(q.plan.count));
    }
    assert b.best == Sort(b.found);
    MeasuredAt(q, b.best);
    MeasuredSort(q, b.found);
    BestOfMultiset(Measured(q, b.best), Measured(q, b.found), q.plan.EffectiveK());
  }

  /** Without reranking it returns the top-k of the nodes it visited by estimated distance. */
  lemma PlainIsEstimated(q: Query, entries: seq<nat>)
    requires q.plan.config.topK > 0 && q.plan.config.rerankTopK == 0
    ensures q.Search(entries) == Best(q.Rounds(q.plan.Init(entries)).found, q.plan.EffectiveK())
  {
    SearchInvariant(q, entries);
  }

  // ---- The answer and the rounds in the configuration's own numbers ----

  function AtMost(a: nat, b: nat): nat {
    if a <= b then a else b
  }

  /** How many results are kept for the final choice. */
  function Wide(c: SearchConfig, count: nat): nat {
    AtMost(if c.topK < c.rerankTopK then c.rerankTopK else c.topK, count)
  }

  /** Distinct ids make distinct results. */
  lemma BestOfDistinct(rs: seq<SearchResult>, k: nat)
    requires |Ids(rs)| == |rs|
    ensures IsBest(Best(rs, k), Elements(rs), k)
  {
    forall i, j | 0 <= i < j < |rs|
      ensures rs[i] != rs[j]
    {
      IdsDistinct(rs, i, j);
    }
    BestIsBest(rs, k);
  }

  /** Every visited node with its estimated distance, each once. */
  ghost function Estimates(q: Query, visited: set<nat>): set<SearchResult> {
    set id | id in visited :: SearchResult(id, q.plan.adc(id))
  }

  /** The nodes of a list with the exact distances of their stored vectors. */
  ghost function Measures(q: Query, rs: seq<SearchResult>): set<SearchResult>
    requires forall r | r in rs :: r.id < |q.graph|
  {
    set r | r in rs :: SearchResult(r.id, q.plan.exact(q.graph[r.id].vector))
  }

  lemma FoundEstimates(q: Query, all: seq<SearchResult>, visited: set<nat>)
    requires Lists(q, all, visited)
    ensures Elements(all) == Estimates(q, visited)
  {
    forall x | x in Estimates(q, visited)
      ensures x in Elements(all)
    {
      assert x.id in Ids(all);
      var r :| r in all && r.id == x.id;
    }
  }

  /**
   What a search returns. Without reranking: the `topK` visited nodes nearest by estimated distance. With
   reranking: of the `max(topK, rerankTopK)` visited nodes nearest by estimated distance (`near`), the `topK`
   nearest by the exact distance of their stored vectors, with these distances. No more than there are nodes,
   in either case.
   */
  lemma ResultIs(q: Query, entries: seq<nat>) returns (near: seq<SearchResult>)
    requires q.plan.config.topK > 0 && q.plan.count == |q.graph|
    ensures var c := q.plan.config;
            var visited := q.Rounds(q.plan.Init(entries)).visited;
            && IsBest(near, Estimates(q, visited), Wide(c, q.plan.count))
            && (forall r | r in near :: r.id < |q.graph|)
            && IsBest(q.Search(entries),
                      if c.rerankTopK == 0 then Elements(near) else Measures(q, near), AtMost(c.topK, q.plan.count))
  {
    SearchInvariant(q, entries);
    var b := q.Rounds(q.plan.Init(entries));
    near := b.best;
    BestOfDistinct(b.found, q.plan.Capacity());
    FoundEstimates(q, b.found, b.visited);
    forall r | r in near
      ensures r.id < |q.graph|
    {
      assert r in Elements(b.found) && r in b.found;
    }
    BestDistinctIds(b.found, q.plan.Capacity());
    RerankedIs(q, near);
    if q.plan.config.rerankTopK == 0 {
      SortOfSorted(near);
    }
  }

  lemma SortOfSorted(rs: seq<SearchResult>)
    requires forall i, j | 0 <= i < j < |rs| :: Less(rs[i], rs[j])
    ensures Sort(rs) == rs
  {
    SortSorted(rs);
    SortedUnique(rs, Sort(rs));
  }

  lemma RerankedIs(q: Query, near: seq<SearchResult>)
    requires DistinctIds(near) && q.plan.count == |q.graph| && forall r | r in near :: r.id < |q.graph|
    requires forall i, j | 0 <= i < j < |near| :: Less(near[i], near[j])
    ensures IsBest(Take(q.Rerank(near), q.plan.EffectiveK()),
                   if q.plan.config.rerankTopK == 0 then Elements(near) else Measures(q, near),
                   AtMost(q.plan.config.topK, q.plan.count))
  {
    var k := q.plan.EffectiveK();
    if q.plan.config.rerankTopK == 0 {
      SortOfSorted(near);
      DistinctIdsSize(near);
      BestOfDistinct(near, k);
    } else {
      var exact := seq(|near|, i requires 0 <= i < |near| => q.Exactly(near[i]));
      assert DistinctIds(exact);
      DistinctIdsSize(exact);
      BestOfDistinct(exact, k);
      ExactMeasures(q, near, exact);
    }
  }

  lemma ExactMeasures(q: Query, near: seq<SearchResult>, exact: seq<SearchResult>)
    requires forall r | r in near :: r.id < |q.graph|
    requires |exact| == |near| && forall i | 0 <= i < |near| :: exact[i] == q.Exactly(near[i])
    ensures Elements(exact) == Measures(q, near)
  {
    forall x | x in Measures(q, near)
      ensures x in Elements(exact)
    {
      var r :| r in near && x == SearchResult(r.id, q.plan.exact(q.graph[r.id].vector));
      var i :| 0 <= i < |near| && near[i] == r;
      assert exact[i] == x;
    }
  }

  /** The beam width asked for, or all that may be expanded. */
  function BatchWidth(c: SearchConfig): nat {
    if c.beamWidth == 0 then c.searchWidth else AtMost(c.beamWidth, c.searchWidth)
  }

  /**
   Where a search may end early. Adaptive: enough nodes were expanded, and too many in a row without improvement.
   Early: enough nodes were expanded, enough results are there, and the nearest waiting node is farther than all of
   them, by estimated distance.
   */
  ghost predicate MayStop(q: Query, b: Beam, waiting: seq<SearchResult>) {
    forall name {:trigger Unsealed(name)} | Unsealed(name) && name == StopAllowed ::
      var c := q.plan.config;
      || (c.adaptiveStop && |b.expanded| >= c.minExpansions && b.stagnant >= c.patience)
      || (c.earlyStop && |b.expanded| >= c.earlyStopMin && |b.visited| >= Wide(c, q.plan.count)
          && waiting != [] && BeyondBest(Estimates(q, b.visited), Wide(c, q.plan.count), waiting[0].distance))
  }

  /** The distance is larger than that of all `k` best of the pool. */
  ghost predicate BeyondBest(pool: set<SearchResult>, k: nat, d: real) {
    exists near: seq<SearchResult> :: IsBest(near, pool, k) && near != [] && d > near[|near| - 1].distance
  }

  /** A neighbour of one of these nodes. */
  ghost predicate NextTo(q: Query, batch: seq<SearchResult>, n: nat) {
    n < q.plan.count && exists e :: e in batch && e.id < |q.graph| && n in q.graph[e.id].neighbors
  }

  /** Waiting nodes are sorted, and are the visited ones that were not expanded. */
  ghost predicate WaitingIs(q: Query, b: Beam) {
    && (forall i, j | 0 <= i < j < |b.candidates| :: Less(b.candidates[i], b.candidates[j]))
    && Elements(b.candidates) + Elements(b.expanded) == Estimates(q, b.visited)
    && |b.candidates| + |b.expanded| == |b.visited|
  }

  /**
   One round: the nearest waiting nodes are expanded, nearest first, and exactly their neighbours become visited. As
   many as the beam and the search width allow, unless none waits any more or the search may end.
   */
  ghost predicate RoundFrom(q: Query, b: Beam, c: Beam) {
    var width, k := BatchWidth(q.plan.config), |c.expanded| - |b.expanded|;
    && 0 < k <= |b.candidates| && k <= width
    && c.expanded == b.expanded + b.candidates[..k] && |c.expanded| <= q.plan.config.searchWidth
    && (k == width || |c.expanded| == q.plan.config.searchWidth || k == |b.candidates|
        || MayStop(q, b, b.candidates[k..]))
    && (forall i | 0 <= i < k :: !MayStop(q, b, b.candidates[i..]))
    && (forall n :: n in c.visited <==> n in b.visited || NextTo(q, b.candidates[..k], n))
  }

  lemma StopsIs(q: Query, b: Beam, waiting: seq<SearchResult>)
    requires Fine(q, b) && q.plan.config.topK > 0
    ensures q.plan.Stops(b.(candidates := waiting)) <==> MayStop(q, b, waiting)
  {
    assert Unsealed(StopAllowed);
    BestIs(q, b);
    if waiting != [] {
      FarthestIs(b.best, Estimates(q, b.visited), q.plan.Capacity(), waiting[0].distance);
    }
  }

  lemma BestIs(q: Query, b: Beam)
    requires Fine(q, b)
    ensures q.plan.Capacity() == Wide(q.plan.config, q.plan.count)
    ensures IsBest(b.best, Estimates(q, b.visited), q.plan.Capacity())
    ensures |b.best| >= q.plan.Capacity() <==> |b.visited| >= q.plan.Capacity()
  {
    assert Unsealed(SearchGood);
    BestOfDistinct(b.found, q.plan.Capacity());
    FoundEstimates(q, b.found, b.visited);
  }

  lemma FarthestIs(best: seq<SearchResult>, pool: set<SearchResult>, k: nat, d: real)
    requires IsBest(best, pool, k)
    ensures BeyondBest(pool, k, d) <==> best != [] && d > best[|best| - 1].distance
  {
    forall near | IsBest(near, pool, k)
      ensures near == best
    {
      IsBestUnique(near, best, pool, k);
    }
  }

  lemma GoodWaiting(q: Query, b: Beam)
    requires Good(q, b)
    ensures WaitingIs(q, b)
  {
    FoundEstimates(q, b.found, b.visited);
    var both := b.candidates + b.expanded;
    assert multiset(both) == multiset(b.found);
    forall x
      ensures x in Elements(b.candidates) + Elements(b.expanded) <==> x in Elements(b.found)
    {
      assert x in multiset(both) <==> x in multiset(b.found);
    }
    assert |both| == |multiset(both)| == |multiset(b.found)| == |b.found|;
    IdsOfMultiset(both, b.found);
    forall i, j | 0 <= i < j < |b.candidates|
      ensures Less(b.candidates[i], b.candidates[j])
    {
      IdsDistinct(both, i, j);
      assert Leq(b.candidates[i], b.candidates[j]);
    }
  }

  lemma {:induction false} VisitedNext(q: Query, visited: set<nat>, batch: seq<SearchResult>)
    ensures forall n :: n in q.VisitAll(visited, batch).0 <==> n in visited || NextTo(q, batch, n)
  {
    if batch != [] {
      var rest, last := batch[..|batch| - 1], batch[|batch| - 1];
      VisitedNext(q, visited, rest);
      VisitAllStep(q, visited, batch);
      VisitedOne(q, q.VisitAll(visited, rest).0, last.id);
      assert batch == rest + [last];
      forall n
        ensures n in q.VisitAll(visited, batch).0 <==> n in visited || NextTo(q, batch, n)
      {
        NextToStep(q, rest, last, n);
      }
    }
  }

  lemma VisitedOne(q: Query, seen: set<nat>, id: nat)
    ensures forall n :: n in q.Visit(seen, id).0 <==> n in seen || (n < q.plan.count && n in q.Neighbors(id))
  {
    UnvisitedFacts(q, q.Neighbors(id), seen);
    var added := q.plan.Unvisited(q.Neighbors(id), seen);
    assert forall n :: n in Elements(added) <==> n in added;
  }

  lemma NextToStep(q: Query, rest: seq<SearchResult>, last: SearchResult, n: nat)
    ensures NextTo(q, rest + [last], n) <==> NextTo(q, rest, n) || (n < q.plan.count && n in q.Neighbors(last.id))
  {
    assert forall e :: e in rest + [last] <==> e in rest || e == last;
  }

  lemma {:induction false} BatchSizeIs(q: Query, b: Beam, waiting: seq<SearchResult>, limit: nat)
    requires Fine(q, b) && q.plan.config.topK > 0
    ensures var k := q.plan.BatchSize(b.(candidates := waiting), limit);
            && (forall i | 0 <= i < k :: !MayStop(q, b, waiting[i..]))
            && (k == limit || k == |waiting| || MayStop(q, b, waiting[k..]))
    decreases limit
  {
    StopsIs(q, b, waiting);
    assert waiting[0..] == waiting;
    if limit > 0 && waiting != [] && !MayStop(q, b, waiting) {
      BatchSizeIs(q, b, waiting[1..], limit - 1);
      var k := q.plan.BatchSize(b.(candidates := waiting[1..]), limit - 1);
      assert b.(candidates := waiting).(candidates := waiting[1..]) == b.(candidates := waiting[1..]);
      LaterWaiting(q, b, waiting, k);
    }
  }

  lemma LaterWaiting(q: Query, b: Beam, waiting: seq<SearchResult>, k: nat)
    requires 1 + k <= |waiting| && !MayStop(q, b, waiting[0..])
    requires forall i | 0 <= i < k :: !MayStop(q, b, waiting[1..][i..])
    ensures waiting[1..][k..] == waiting[k + 1..]
    ensures forall i | 0 <= i < k + 1 :: !MayStop(q, b, waiting[i..])
  {
    forall i | 0 <= i < k + 1
      ensures !MayStop(q, b, waiting[i..])
    {
      if i > 0 {
        assert waiting[1..][i - 1..] == waiting[i..];
      }
    }
  }

  /** The search invariant, for proofs that only pass it on. */
  ghost predicate Fine(q: Query, b: Beam) {
    forall name {:trigger Unsealed(name)} | Unsealed(name) && name == SearchGood :: Good(q, b)
  }

  lemma RoundIs(q: Query, b: Beam)
    requires Fine(q, b) && q.plan.config.topK > 0 && |b.expanded| < q.plan.config.searchWidth
    requires b.candidates != []
    ensures var k := q.plan.BatchSize(b, q.plan.BatchLimit(b));
            if k == 0 then MayStop(q, b, b.candidates)
            else RoundFrom(q, b, q.Expand(b, k)) && Fine(q, q.Expand(b, k)) && |q.Expand(b, k).expanded| == |b.expanded| + k
  {
    var k := q.plan.BatchSize(b, q.plan.BatchLimit(b));
    RoundSize(q, b, k);
    if k > 0 {
      assert Unsealed(SearchGood);
      ExpandGood(q, b, k);
      q.ExpandGrows(b, k);
      RoundVisits(q, b, k);
      RoundMade(q, b, q.Expand(b, k), k);
    }
  }

  lemma RoundMade(q: Query, b: Beam, c: Beam, k: nat)
    requires 0 < k <= |b.candidates| && k <= BatchWidth(q.plan.config)
    requires c.expanded == b.expanded + b.candidates[..k] && |c.expanded| <= q.plan.config.searchWidth
    requires k == BatchWidth(q.plan.config) || |c.expanded| == q.plan.config.searchWidth || k == |b.candidates|
             || MayStop(q, b, b.candidates[k..])
    requires forall i | 0 <= i < k :: !MayStop(q, b, b.candidates[i..])
    requires forall n :: n in c.visited <==> n in b.visited || NextTo(q, b.candidates[..k], n)
    ensures RoundFrom(q, b, c)
  {
  }

  lemma RoundSize(q: Query, b: Beam, k: nat)
    requires Fine(q, b) && q.plan.config.topK > 0 && |b.expanded| < q.plan.config.searchWidth
    requires k == q.plan.BatchSize(b, q.plan.BatchLimit(b))
    ensures k <= BatchWidth(q.plan.config) && |b.expanded| + k <= q.plan.config.searchWidth
    ensures forall i | 0 <= i < k :: !MayStop(q, b, b.candidates[i..])
    ensures k == BatchWidth(q.plan.config) || |b.expanded| + k == q.plan.config.searchWidth || k == |b.candidates|
            || MayStop(q, b, b.candidates[k..])
    ensures b.candidates[0..] == b.candidates
  {
    assert Unsealed(SearchGood);
    BatchSizeIs(q, b, b.candidates, q.plan.BatchLimit(b));
    assert b.(candidates := b.candidates) == b;
  }

  lemma RoundVisits(q: Query, b: Beam, k: nat)
    requires k <= |b.candidates|
    ensures forall n :: n in q.Expand(b, k).visited <==> n in b.visited || NextTo(q, b.candidates[..k], n)
  {
    VisitedNext(q, b.visited, b.candidates[..k]);
    var (seen, lists) := q.VisitAll(b.visited, b.candidates[..k]);
    AbsorbShape(q, q.plan.TakeBatch(b, k).(visited := seen), lists);
  }

  /** The states of a search after each round. */
  ghost predicate IsTrace(q: Query, trace: seq<Beam>) {
    && (forall b | b in trace :: WaitingIs(q, b))
    && forall i {:trigger trace[i]} | 0 <= i < |trace| - 1 :: RoundFrom(q, trace[i], trace[i + 1])
  }

  /** The rounds of a search, from the entries on: it goes on while a node waits and may be expanded. */
  lemma SearchTrace(q: Query, entries: seq<nat>) returns (trace: seq<Beam>)
    requires q.plan.config.topK > 0
    ensures trace != [] && IsTrace(q, trace) && trace[0].expanded == []
    ensures forall n :: n in trace[0].visited <==> n in entries && n < q.plan.count
    ensures var b := trace[|trace| - 1];
            && b == q.Rounds(q.plan.Init(entries))
            && (b.candidates == [] || |b.expanded| == q.plan.config.searchWidth || MayStop(q, b, b.candidates))
  {
    var b := q.plan.Init(entries);
    InitGood(q, entries);
    UnvisitedFacts(q, entries, {});
    PushAllShape(q, Beam(Elements(q.plan.Unvisited(entries, {})), [], [], [], [], 0, Infinite),
                 q.plan.Ranked(q.plan.Unvisited(entries, {})));
    trace := TraceFrom(q, b);
  }

  lemma FineWaiting(q: Query, b: Beam)
    requires Fine(q, b)
    ensures WaitingIs(q, b)
  {
    assert Unsealed(SearchGood);
    GoodWaiting(q, b);
  }

  lemma {:induction false} TraceFrom(q: Query, b: Beam) returns (trace: seq<Beam>)
    requires Fine(q, b) && q.plan.config.topK > 0 && |b.expanded| <= q.plan.config.searchWidth
    ensures trace != [] && trace[0] == b && IsTrace(q, trace)
    ensures var e := trace[|trace| - 1];
            && e == q.Rounds(b)
            && (e.candidates == [] || |e.expanded| == q.plan.config.searchWidth || MayStop(q, e, e.candidates))
    decreases q.plan.config.searchWidth - |b.expanded|
  {
    FineWaiting(q, b);
    trace := [b];
    if b.candidates != [] && |b.expanded| < q.plan.config.searchWidth {
      var k := q.plan.BatchSize(b, q.plan.BatchLimit(b));
      RoundIs(q, b);
      if k > 0 {
        var rest := TraceFrom(q, q.Expand(b, k));
        trace := Longer(q, b, q.Expand(b, k), rest);
      }
    }
  }

  lemma Longer(q: Query, b: Beam, c: Beam, rest: seq<Beam>) returns (trace: seq<Beam>)
    requires WaitingIs(q, b) && RoundFrom(q, b, c) && rest != [] && rest[0] == c && IsTrace(q, rest)
    ensures trace == [b] + rest && IsTrace(q, trace)
  {
    trace := [b] + rest;
    forall i | 0 <= i < |trace| - 1
      ensures RoundFrom(q, trace[i], trace[i + 1])
    {
      if i > 0 {
        assert trace[i] == rest[i - 1] && trace[i + 1] == rest[i];
      } else {
        assert trace[1] == rest[0];
      }
    }
  }

  function Size(d: real): real {
    if d < -1.0 then -d else if d > 1.0 then d else 1.0
  }

  /**
   The adaptive count after one more expanded node: it starts again if the farthest kept result came nearer by more
   than the configured part of its distance, and otherwise grows by one. It does not move before enough results are
   kept, and the first time they are counts as an improvement.
   */
  lemma StagnantIs(q: Query, b: Beam)
    ensures var c, d := q.plan.config, q.plan.UpdateStop(b);
            if !c.adaptiveStop || |b.best| < Wide(c, q.plan.count) || b.best == [] then
              d == b
            else
              var farthest := b.best[|b.best| - 1].distance;
              && d == b.(stagnant := d.stagnant, worst := Finite(farthest))
              && (d.stagnant == 0 || d.stagnant == b.stagnant + 1)
              && (d.stagnant == 0 <==>
                  b.worst.Infinite? || b.worst.distance - farthest > c.eps * Size(b.worst.distance))
  {
    if b.worst.Finite? && b.best != [] {
      var w, f := b.worst.distance, b.best[|b.best| - 1].distance;
      Divided(w - f, q.plan.Scale(w), q.plan.config.eps);
    }
  }

  lemma Divided(x: real, y: real, e: real)
    requires y >= 1.0
    ensures x / y > e <==> x > e * y
  {
    var z := x / y;
    assert x == z * y;
    if z > e {
      assert (z - e) * y > 0.0;
    } else {
      assert (e - z) * y >= 0.0;
    }
  }
}
