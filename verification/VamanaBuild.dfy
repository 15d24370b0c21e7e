/** The Vamana builder: the adjacency lists it edits in place and what every step keeps of them. */
module VamanaBuild {
  import opened Bytes
  import opened TopK
  import opened PageCache
  import opened BeamProofs
  import opened Vamana

  datatype VamanaConfig = VamanaConfig(
    maxDegree: nat, searchWidth: nat, alpha: real, addReverse: bool, deleted: set<nat>)

  /** A construction search: everything pushed, in order; what was expanded; what waits, nearest first. */
  datatype Scan = Scan(all: seq<SearchResult>, explored: seq<SearchResult>, frontier: seq<SearchResult>)

  /** The fixed inputs of a build. */
  datatype Space = Space(n: nat, d: Metric, config: VamanaConfig) {
    /** `is_deleted`: with no deletions at all nothing is checked, not even the range. */
    predicate IsDeleted(id: nat) {
      config.deleted != {} && (id >= n || id in config.deleted)
    }

    predicate Live(id: nat) {
      id < n && id !in config.deleted
    }

    function EffectiveDegree(): nat {
      if n == 0 then 0 else if config.maxDegree < n - 1 then config.maxDegree else n - 1
    }

    /** A well-formed adjacency list of `v`. */
    ghost predicate ListOk(list: seq<nat>, v: nat) {
      && |list| <= config.maxDegree
      && Distinct(list)
      && (forall x | x in list :: Live(x) && x != v)
      && (v in config.deleted ==> list == [])
    }

    /** What every step of the build keeps. */
    ghost predicate GraphOk(graph: seq<seq<nat>>) {
      |graph| == n && forall v | 0 <= v < n :: ListOk(graph[v], v)
    }

    // ---- Construction search ----

    ghost predicate ScanOk(s: Scan, node: nat) {
      && multiset(s.all) == multiset(s.explored) + multiset(s.frontier)
      && |Ids(s.all)| == |s.all|
      && (forall r | r in s.all :: Live(r.id) && r.id != node && r.distance == d(node, r.id))
      && Sorted(s.frontier)
    }

    lemma PushOk(s: Scan, node: nat, id: nat)
      requires ScanOk(s, node) && Live(id) && id != node && id !in Ids(s.all)
      ensures var r := SearchResult(id, d(node, id));
              var t := s.(all := s.all + [r], frontier := Insert(s.frontier, r));
              ScanOk(t, node) && Ids(t.all) == Ids(s.all) + {id}
    {
      var r := SearchResult(id, d(node, id));
      IdsConcat(s.all, [r]);
      assert Ids([r]) == {id} by { assert r in [r]; }
      InsertSorted(s.frontier, r);
    }

    lemma PopOk(s: Scan, node: nat)
      requires ScanOk(s, node) && s.frontier != []
      ensures ScanOk(s.(explored := s.explored + [s.frontier[0]], frontier := s.frontier[1..]), node)
      ensures Live(s.frontier[0].id)
    {
      assert s.frontier == [s.frontier[0]] + s.frontier[1..];
      assert s.frontier[0] in multiset(s.all);
      assert s.frontier[0] in s.all;
    }

    /** Expanded nodes are distinct live nodes other than `node`. */
    lemma ExploredFacts(s: Scan, node: nat)
      requires ScanOk(s, node)
      ensures Distinct(IdsOf(Sort(s.explored))) && |IdsOf(Sort(s.explored))| == |s.explored|
      ensures forall x | x in IdsOf(Sort(s.explored)) :: Live(x) && x != node
      ensures NearestFirst(node, IdsOf(Sort(s.explored)))
    {
      var out := Sort(s.explored);
      SortSorted(s.explored);
      var both := out + s.frontier;
      assert multiset(both) == multiset(s.all);
      IdsOfMultiset(both, s.all);
      assert |both| == |multiset(both)| == |multiset(s.all)| == |s.all|;
      forall i, j | 0 <= i < j < |out|
        ensures out[i].id != out[j].id
      {
        IdsDistinct(both, i, j);
        assert both[i] == out[i] && both[j] == out[j];
      }
      forall i | 0 <= i < |out|
        ensures Live(out[i].id) && out[i].id != node && out[i].distance == d(node, out[i].id)
      {
        assert both[i] == out[i];
        assert out[i] in multiset(both);
        assert out[i] in s.all;
      }
    }

    /** Ids in order of distance from `node`, then id. */
    ghost predicate NearestFirst(node: nat, ids: seq<nat>) {
      forall i, j | 0 <= i < j < |ids| ::
        Less(SearchResult(ids[i], d(node, ids[i])), SearchResult(ids[j], d(node, ids[j])))
    }

    lemma FirstExplored(s: Scan)
      requires s.explored != []
      ensures s.explored[0].id in IdsOf(Sort(s.explored))
    {
      assert s.explored[0] in multiset(Sort(s.explored));
      var i :| 0 <= i < |s.explored| && Sort(s.explored)[i] == s.explored[0];
      assert IdsOf(Sort(s.explored))[i] == s.explored[0].id;
    }

    /** Pushed nodes are expanded once the frontier is empty. */
    lemma AllExplored(s: Scan, node: nat, x: nat)
      requires ScanOk(s, node) && s.frontier == [] && x in Ids(s.all)
      ensures x in IdsOf(Sort(s.explored))
    {
      var r :| r in s.all && r.id == x;
      assert r in multiset(s.all);
      assert r in multiset(Sort(s.explored));
      var i :| 0 <= i < |Sort(s.explored)| && Sort(s.explored)[i] == r;
      assert IdsOf(Sort(s.explored))[i] == x;
    }

    /** Every usable neighbour of these nodes was pushed. */
    ghost predicate Closed(graph: seq<seq<nat>>, nodes: seq<SearchResult>, pushed: set<nat>, node: nat)
      requires |graph| == n
    {
      forall e, x | e in nodes && e.id < n && x in graph[e.id] && Live(x) && x != node :: x in pushed
    }

    /** A set that contains the usable neighbours of its members. */
    ghost predicate ClosedList(graph: seq<seq<nat>>, ids: seq<nat>, node: nat)
      requires |graph| == n
    {
      forall e, x | e in ids && e < n && x in graph[e] && Live(x) && x != node :: x in ids
    }

    lemma ClosedExplored(graph: seq<seq<nat>>, s: Scan, node: nat)
      requires |graph| == n && ScanOk(s, node) && s.frontier == [] && Closed(graph, s.explored, Ids(s.all), node)
      ensures ClosedList(graph, IdsOf(Sort(s.explored)), node)
    {
      var ids := IdsOf(Sort(s.explored));
      forall e, x | e in ids && e < n && x in graph[e] && Live(x) && x != node
        ensures x in ids
      {
        var i :| 0 <= i < |ids| && ids[i] == e;
        var r := Sort(s.explored)[i];
        assert r in multiset(Sort(s.explored));
        assert r in s.explored;
        AllExplored(s, node, x);
      }
    }

    // ---- Best-first order ----

    /** The search has seen `x` once it expanded these nodes: the start, or a usable neighbour of one of them. */
    ghost predicate Seen(graph: seq<seq<nat>>, node: nat, start: nat, expanded: seq<nat>, x: nat) {
      x == start || (Live(x) && x != node && exists e :: e in expanded && e < |graph| && x in graph[e])
    }

    /** The next node to expand: seen, not expanded, and nearest of these. */
    ghost predicate NextBest(graph: seq<seq<nat>>, node: nat, start: nat, expanded: seq<nat>, x: nat) {
      && Seen(graph, node, start, expanded, x) && x !in expanded
      && forall y | Seen(graph, node, start, expanded, y) && y !in expanded && y != x :: Nearer(d, node, x, y)
    }

    /** Nodes in the order a best-first search expands them. */
    ghost predicate BestFirst(graph: seq<seq<nat>>, node: nat, start: nat, order: seq<nat>) {
      forall k | 0 <= k < |order| :: NextBest(graph, node, start, order[..k], order[k])
    }

    /** Everything seen was expanded. */
    ghost predicate Exhausted(graph: seq<seq<nat>>, node: nat, start: nat, order: seq<nat>) {
      forall x | Seen(graph, node, start, order, x) :: x in order
    }

    /** The pushed nodes are the seen ones. */
    ghost predicate PushedSeen(graph: seq<seq<nat>>, s: Scan, node: nat, start: nat) {
      forall x :: x in Ids(s.all) <==> Seen(graph, node, start, IdsOf(s.explored), x)
    }

    lemma FirstIsBest(graph: seq<seq<nat>>, s: Scan, node: nat, start: nat)
      requires ScanOk(s, node) && PushedSeen(graph, s, node, start) && s.frontier != []
      ensures NextBest(graph, node, start, IdsOf(s.explored), s.frontier[0].id)
    {
      var order, x := IdsOf(s.explored), s.frontier[0].id;
      FrontierIds(s, node);
      assert s.frontier[0] in s.frontier;
      forall y | Seen(graph, node, start, order, y) && y !in order && y != x
        ensures Nearer(d, node, x, y)
      {
        assert y in Ids(s.all);
        var r :| r in s.frontier && r.id == y;
        assert Leq(s.frontier[0], r);
        assert s.frontier[0].distance == d(node, x) && r.distance == d(node, y);
      }
    }

    /** Pushed nodes wait or were expanded, not both. */
    lemma FrontierIds(s: Scan, node: nat)
      requires ScanOk(s, node)
      ensures forall r | r in s.frontier :: r.id in Ids(s.all) && r.id !in IdsOf(s.explored) && r.distance == d(node, r.id)
      ensures forall x | x in Ids(s.all) && x !in IdsOf(s.explored) :: exists r :: r in s.frontier && r.id == x
    {
      var both, order := s.explored + s.frontier, IdsOf(s.explored);
      assert multiset(both) == multiset(s.all);
      IdsOfMultiset(both, s.all);
      assert |both| == |multiset(both)| == |multiset(s.all)| == |s.all|;
      forall r | r in s.frontier
        ensures r.id in Ids(s.all) && r.id !in order && r.distance == d(node, r.id)
      {
        var j :| 0 <= j < |s.frontier| && s.frontier[j] == r;
        assert both[|s.explored| + j] == r && r in multiset(both);
        forall i | 0 <= i < |order|
          ensures order[i] != r.id
        {
          IdsDistinct(both, i, |s.explored| + j);
        }
        assert r in s.all;
      }
      forall x | x in Ids(s.all) && x !in order
        ensures exists r :: r in s.frontier && r.id == x
      {
        var r :| r in s.all && r.id == x;
        assert r in multiset(both);
        forall i | 0 <= i < |s.explored|
          ensures s.explored[i] != r
        {
          assert order[i] in order;
        }
        assert r in s.frontier;
      }
    }

    lemma OrderGrows(graph: seq<seq<nat>>, node: nat, start: nat, order: seq<nat>, x: nat)
      requires BestFirst(graph, node, start, order) && NextBest(graph, node, start, order, x)
      ensures BestFirst(graph, node, start, order + [x])
    {
      var next := order + [x];
      forall k | 0 <= k < |next|
        ensures NextBest(graph, node, start, next[..k], next[k])
      {
        assert next[..k] == order[..k];
        if k == |order| { assert order[..k] == order; }
      }
    }

    // ---- Insertion ----

    ghost function UsableOf(candidates: seq<nat>, node: nat): set<nat> {
      set x | x in candidates && Live(x) && x != node
    }

    /** The list is the robust prune of these candidates, to the degree or one less than there are nodes. */
    ghost predicate PrunedTo(list: seq<nat>, node: nat, candidates: seq<nat>)
      requires n > 0
    {
      var degree := if config.maxDegree <= n - 1 then config.maxDegree else n - 1;
      IsPruned(d, config.alpha * config.alpha, node, UsableOf(candidates, node), degree, list)
    }

    /** What an edge back to `source` makes of the target's list. */
    ghost predicate Linked(before: seq<nat>, after: seq<nat>, source: nat, target: nat)
      requires n > 0
    {
      if !Live(source) || !Live(target) || source == target || source in before then
        after == before
      else if |before| < config.maxDegree then
        after == before + [source]
      else
        PrunedTo(after, target, before + [source])
    }

    /**
     One insertion: the node gets the robust prune of the candidates and its old list, each node of the new list is
     linked back if that is asked for, and nothing else changes.
     */
    ghost predicate Inserted(before: seq<seq<nat>>, after: seq<seq<nat>>, node: nat, candidates: seq<nat>) {
      && |before| == |after| == n && node < n
      && if !Live(node) then
           after == before[node := []]
         else
           && PrunedTo(after[node], node, candidates + before[node])
           && forall t | 0 <= t < n && t != node ::
                if config.addReverse && t in after[node] then Linked(before[t], after[t], node, t) else after[t] == before[t]
    }

    // ---- Lists ----

    lemma AppendOk(list: seq<nat>, v: nat, x: nat)
      requires ListOk(list, v) && |list| < config.maxDegree && x !in list && Live(x) && x != v && Live(v)
      ensures ListOk(list + [x], v)
    {
    }

    lemma UpdateOk(graph: seq<seq<nat>>, v: nat, list: seq<nat>)
      requires GraphOk(graph) && v < n && ListOk(list, v)
      ensures GraphOk(graph[v := list])
    {
    }
  }

  class VamanaBuilder {
    const space: Space
    /** The distance of each node from the centroid of the live ones. */
    const toCentroid: nat -> real
    /** `visited_epoch` and `current_epoch`: a node is visited when its mark is the current epoch. */
    var marks: array<nat>
    var epoch: nat

    ghost predicate Valid()
      reads this, marks
    {
      epoch < U32 && forall i | 0 <= i < marks.Length :: marks[i] <= epoch
    }

    /** A non-positive degree or width, or alpha below one, is refused. */
    constructor (space: Space, toCentroid: nat -> real)
      requires space.config.maxDegree > 0 && space.config.searchWidth > 0 && space.config.alpha >= 1.0
      ensures Valid() && fresh(marks) && this.space == space && this.toCentroid == toCentroid
    {
      this.space, this.toCentroid := space, toCentroid;
      marks := new nat[0];
      epoch := 0;
    }

    /** `find_medoid`: the live node nearest to the centroid, the smallest id among equals. */
    method FindMedoid() returns (ok: bool, best: nat)
      ensures ok <==> exists i :: space.Live(i)
      ensures ok ==> space.Live(best)
      ensures ok ==> forall i | space.Live(i) && i != best ::
                Less(SearchResult(best, toCentroid(best)), SearchResult(i, toCentroid(i)))
    {
      ok, best := false, 0;
      for i := 0 to space.n
        invariant ok <==> exists k :: 0 <= k < i && space.Live(k)
        invariant ok ==> best < i && space.Live(best)
        invariant ok ==> forall k | 0 <= k < i && space.Live(k) && k != best ::
                    Less(SearchResult(best, toCentroid(best)), SearchResult(k, toCentroid(k)))
      {
        if !space.IsDeleted(i) {
          assert space.Live(i);
          if !ok || toCentroid(i) < toCentroid(best) {
            ok, best := true, i;
          }
        }
      }
    }

    /** Marks and pushed nodes agree. */
    ghost predicate Marked(s: Scan)
      reads this, marks
    {
      && Valid() && marks.Length >= space.n
      && forall i | 0 <= i < space.n :: marks[i] == epoch <==> i in Ids(s.all)
    }

    /** A new epoch forgets all marks; the counter restarts before it can wrap. */
    method BeginEpoch()
      requires Valid()
      modifies this, marks
      ensures Marked(Scan([], [], [])) && (marks == old(marks) || fresh(marks))
    {
      if marks.Length < space.n {
        marks := new nat[space.n](_ => 0);
      }
      if epoch == U32 - 1 {
        forall i | 0 <= i < marks.Length {
          marks[i] := 0;
        }
        epoch := 0;
      }
      epoch := epoch + 1;
    }

    /** The `push` of the construction search. */
    method Push(s: Scan, node: nat, id: nat) returns (t: Scan)
      requires Marked(s) && space.ScanOk(s, node)
      modifies marks
      ensures Marked(t) && space.ScanOk(t, node)
      ensures t.explored == s.explored && Ids(s.all) <= Ids(t.all)
      ensures space.Live(id) && id != node ==> id in Ids(t.all) && (id !in Ids(s.all) ==> t.frontier != [])
      ensures s.all == [] && s.frontier == [] ==>
                if space.Live(id) && id != node then t.all == t.frontier && |t.frontier| == 1 && t.frontier[0].id == id
                else t == s
      ensures forall x | x in Ids(t.all) :: x in Ids(s.all) || (x == id && space.Live(id) && id != node)
    {
      t := s;
      if id >= space.n || id == node || space.IsDeleted(id) || marks[id] == epoch {
        return;
      }
      space.PushOk(s, node, id);
      marks[id] := epoch;
      var r := SearchResult(id, space.d(node, id));
      t := s.(all := s.all + [r], frontier := Insert(s.frontier, r));
    }

    method PushNeighbors(s: Scan, node: nat, list: seq<nat>) returns (t: Scan)
      requires Marked(s) && space.ScanOk(s, node)
      modifies marks
      ensures Marked(t) && space.ScanOk(t, node)
      ensures t.explored == s.explored && Ids(s.all) <= Ids(t.all)
      ensures forall x | x in list && space.Live(x) && x != node :: x in Ids(t.all)
      ensures forall x | x in Ids(t.all) :: x in Ids(s.all) || (x in list && space.Live(x) && x != node)
    {
      t := s;
      for i := 0 to |list|
        invariant Marked(t) && space.ScanOk(t, node)
        invariant t.explored == s.explored && Ids(s.all) <= Ids(t.all)
        invariant forall k | 0 <= k < i && space.Live(list[k]) && list[k] != node :: list[k] in Ids(t.all)
        invariant forall x | x in Ids(t.all) :: x in Ids(s.all) || (x in list && space.Live(x) && x != node)
      {
        t := Push(t, node, list[i]);
      }
    }

    /** The live node nearest to the centroid. */
    ghost predicate IsMedoid(m: nat) {
      && space.Live(m)
      && forall i | space.Live(i) && i != m :: Less(SearchResult(m, toCentroid(m)), SearchResult(i, toCentroid(i)))
    }

    /** Where a search for `node` starts: at the entry, or the medoid if the entry is no live node, or else at the first other live node. */
    ghost predicate StartIs(node: nat, entry: nat, start: nat) {
      exists from :: FromIs(entry, from) && StartAt(node, from, start)
    }

    ghost predicate FromIs(entry: nat, from: nat) {
      if space.Live(entry) then from == entry else IsMedoid(from)
    }

    ghost predicate StartAt(node: nat, from: nat, start: nat) {
      if from != node then start == from
      else space.Live(start) && start != node && forall y | 0 <= y < start :: !space.Live(y) || y == node
    }

    /**
     The result of a construction search: the expanded nodes of a best-first search, as many as the width allows or
     all it can see, in order of distance.
     */
    ghost predicate Found(graph: seq<seq<nat>>, node: nat, entry: nat, ids: seq<nat>) {
      && space.NearestFirst(node, ids)
      && if !Accompanied(node) then ids == []
         else exists start, order :: StartIs(node, entry, start) && FoundIn(graph, node, start, order, ids)
    }

    ghost predicate FoundIn(graph: seq<seq<nat>>, node: nat, start: nat, order: seq<nat>, ids: seq<nat>) {
      && space.BestFirst(graph, node, start, order) && |ids| == |order| && Elements(order) == Elements(ids)
      && |order| <= space.config.searchWidth
      && (|order| == space.config.searchWidth || space.Exhausted(graph, node, start, order))
    }

    /** The entry of a construction search: the given one, the medoid, or the first usable node. */
    method StartScan(node: nat, entry: nat) returns (ok: bool, s: Scan)
      requires Valid()
      modifies this, marks
      ensures Valid() && (marks == old(marks) || fresh(marks))
      ensures !ok ==> forall i :: !space.Live(i)
      ensures ok ==> Marked(s) && space.ScanOk(s, node) && s.explored == []
      ensures ok && Accompanied(node) ==> s.frontier != []
      ensures ok && s.frontier == [] ==> s.all == [] && !Accompanied(node)
      ensures ok && s.frontier != [] ==> s.all == s.frontier && |s.frontier| == 1 && StartIs(node, entry, s.frontier[0].id)
    {
      var from := entry;
      ok, s := true, Scan([], [], []);
      if entry >= space.n || space.IsDeleted(entry) {
        ok, from := FindMedoid();
        if !ok {
          return;
        }
      }
      assert FromIs(entry, from);
      s := StartFrom(node, from);
    }

    /** The first pushes: the given node, or the first usable one. */
    method StartFrom(node: nat, from: nat) returns (s: Scan)
      requires Valid() && space.Live(from)
      modifies this, marks
      ensures Marked(s) && space.ScanOk(s, node) && s.explored == [] && (marks == old(marks) || fresh(marks))
      ensures s.frontier == [] ==> s.all == [] && !Accompanied(node)
      ensures s.frontier != [] ==> s.all == s.frontier && |s.frontier| == 1 && StartAt(node, from, s.frontier[0].id)
    {
      s := Scan([], [], []);
      BeginEpoch();
      assert space.ScanOk(s, node);
      s := Push(s, node, from);
      var i := 0;
      while s.frontier == [] && i < space.n
        invariant 0 <= i <= space.n
        invariant Marked(s) && space.ScanOk(s, node) && s.explored == [] && (marks == old(marks) || fresh(marks))
        invariant s.frontier == [] ==> from == node && s.all == [] && forall x | 0 <= x < i :: !space.Live(x) || x == node
        invariant s.frontier != [] ==> s.all == s.frontier && |s.frontier| == 1 && StartAt(node, from, s.frontier[0].id)
      {
        s := Push(s, node, i);
        i := i + 1;
      }
    }

    /**
     `search_for_construction`: distinct live nodes other than `node`, at most `search_width`. If it
     stopped early there was nothing more to reach: the result contains the neighbours of its members.
     */
    method SearchForConstruction(graph: array<seq<nat>>, node: nat, entry: nat) returns (ok: bool, ids: seq<nat>)
      requires Valid() && graph.Length == space.n
      modifies this, marks
      ensures Valid() && (marks == old(marks) || fresh(marks))
      ensures !ok ==> forall i :: !space.Live(i)
      ensures ok ==> Distinct(ids) && |ids| <= space.config.searchWidth
      ensures ok ==> forall x | x in ids :: space.Live(x) && x != node
      ensures ok && |ids| < space.config.searchWidth ==> space.ClosedList(graph[..], ids, node)
      ensures ok ==> Found(graph[..], node, entry, ids)
      ensures ok && space.config.searchWidth > 0 && Accompanied(node) ==> ids != []
      ensures ok && space.config.searchWidth > 0 && space.Live(entry) && entry != node ==> entry in ids
    {
      ids := [];
      var s;
      ok, s := StartScan(node, entry);
      if !ok {
        return;
      }
      ghost var first := s;
      ghost var start := if s.frontier == [] then 0 else s.frontier[0].id;
      FirstSeen(graph[..], s, node, start);
      while s.frontier != [] && |s.explored| < space.config.searchWidth
        invariant Marked(s) && space.ScanOk(s, node) && |s.explored| <= space.config.searchWidth
        invariant if s.explored == [] then s == first else first.frontier != [] && s.explored[0] == first.frontier[0]
        invariant first.frontier != [] ==> space.PushedSeen(graph[..], s, node, start)
        invariant first.frontier != [] ==> space.BestFirst(graph[..], node, start, IdsOf(s.explored))
        invariant space.Closed(graph[..], s.explored, Ids(s.all), node)
        invariant marks == old(marks) || fresh(marks)
        decreases space.config.searchWidth - |s.explored|
      {
        s := ExpandFirst(graph, s, node, start);
      }
      if first.frontier != [] {
        AllFound(graph[..], s, node, entry, start);
      }
      space.ExploredFacts(s, node);
      if |s.explored| < space.config.searchWidth {
        space.ClosedExplored(graph[..], s, node);
      }
      ids := IdsOf(Sort(s.explored));
      if s.explored != [] {
        space.FirstExplored(s);
      }
    }

    lemma FirstSeen(graph: seq<seq<nat>>, s: Scan, node: nat, start: nat)
      requires s.explored == [] && (s.frontier != [] ==> s.all == s.frontier && |s.frontier| == 1 && s.frontier[0].id == start)
      ensures s.frontier != [] ==> space.PushedSeen(graph, s, node, start)
      ensures space.BestFirst(graph, node, start, IdsOf(s.explored))
    {
      if s.frontier != [] {
        assert s.all == [s.all[0]];
        assert Ids(s.all) == {start} by { assert s.all[0] in s.all; }
      }
    }

    lemma AllFound(graph: seq<seq<nat>>, s: Scan, node: nat, entry: nat, start: nat)
      requires |graph| == space.n && space.ScanOk(s, node) && StartIs(node, entry, start)
      requires space.PushedSeen(graph, s, node, start) && space.BestFirst(graph, node, start, IdsOf(s.explored))
      requires |s.explored| <= space.config.searchWidth && (s.frontier == [] || |s.explored| == space.config.searchWidth)
      ensures Found(graph, node, entry, IdsOf(Sort(s.explored)))
    {
      var order, ids := IdsOf(s.explored), IdsOf(Sort(s.explored));
      space.ExploredFacts(s, node);
      SortedIds(s.explored);
      if s.frontier == [] {
        space.FrontierIds(s, node);
      }
      assert FoundIn(graph, node, start, order, ids);
      StartAccompanies(node, entry, start);
    }

    /** Sorting does not change which ids there are. */
    lemma SortedIds(rs: seq<SearchResult>)
      ensures |IdsOf(Sort(rs))| == |IdsOf(rs)| && Elements(IdsOf(Sort(rs))) == Elements(IdsOf(rs))
    {
      assert |Sort(rs)| == |multiset(Sort(rs))| == |multiset(rs)| == |rs|;
      IdsWithin(rs, Sort(rs));
      IdsWithin(Sort(rs), rs);
    }

    lemma IdsWithin(a: seq<SearchResult>, b: seq<SearchResult>)
      requires multiset(a) == multiset(b)
      ensures Elements(IdsOf(a)) <= Elements(IdsOf(b))
    {
      forall x | x in IdsOf(a)
        ensures x in IdsOf(b)
      {
        var i :| 0 <= i < |a| && IdsOf(a)[i] == x;
        assert a[i] in multiset(b);
        var j :| 0 <= j < |b| && b[j] == a[i];
        assert IdsOf(b)[j] == x;
      }
    }

    lemma StartAccompanies(node: nat, entry: nat, start: nat)
      requires StartIs(node, entry, start)
      ensures Accompanied(node)
    {
      assert space.Live(start) && start != node;
    }

    /** The builder's step of the search: the nearest waiting node is expanded. */
    method ExpandFirst(graph: array<seq<nat>>, s: Scan, node: nat, ghost start: nat) returns (t: Scan)
      requires graph.Length == space.n && Marked(s) && space.ScanOk(s, node) && s.frontier != []
      requires space.Closed(graph[..], s.explored, Ids(s.all), node)
      requires space.PushedSeen(graph[..], s, node, start) && space.BestFirst(graph[..], node, start, IdsOf(s.explored))
      modifies marks
      ensures Marked(t) && space.ScanOk(t, node) && t.explored == s.explored + [s.frontier[0]]
      ensures space.Closed(graph[..], t.explored, Ids(t.all), node)
      ensures space.PushedSeen(graph[..], t, node, start) && space.BestFirst(graph[..], node, start, IdsOf(t.explored))
    {
      var current := s.frontier[0];
      space.PopOk(s, node);
      space.FirstIsBest(graph[..], s, node, start);
      space.OrderGrows(graph[..], node, start, IdsOf(s.explored), current.id);
      t := s.(explored := s.explored + [current], frontier := s.frontier[1..]);
      t := PushNeighbors(t, node, graph[current.id]);
      assert forall e | e in t.explored :: e in s.explored || e == current;
      assert IdsOf(t.explored) == IdsOf(s.explored) + [current.id];
      PushedAll(graph[..], s, t, node, start, current.id);
    }

    lemma PushedAll(graph: seq<seq<nat>>, s: Scan, t: Scan, node: nat, start: nat, id: nat)
      requires id < |graph| && space.PushedSeen(graph, s, node, start)
      requires IdsOf(t.explored) == IdsOf(s.explored) + [id] && Ids(s.all) <= Ids(t.all)
      requires forall x | x in graph[id] && space.Live(x) && x != node :: x in Ids(t.all)
      requires forall x | x in Ids(t.all) :: x in Ids(s.all) || (x in graph[id] && space.Live(x) && x != node)
      ensures space.PushedSeen(graph, t, node, start)
    {
      var before, after := IdsOf(s.explored), IdsOf(t.explored);
      assert forall e :: e in after <==> e in before || e == id;
    }

    /** `unique_ids`. */
    method UniqueIds(ids: seq<nat>, excluded: nat) returns (out: seq<nat>)
      ensures Distinct(out)
      ensures forall x :: x in out <==> x in ids && x != excluded && !space.IsDeleted(x)
    {
      out := [];
      for i := 0 to |ids|
        invariant Distinct(out)
        invariant forall x :: x in out <==> x in ids[..i] && x != excluded && !space.IsDeleted(x)
      {
        assert ids[..i + 1] == ids[..i] + [ids[i]];
        if ids[i] != excluded && !space.IsDeleted(ids[i]) && ids[i] !in out {
          out := out + [ids[i]];
        }
      }
      assert ids[..|ids|] == ids;
    }

    /**
     `robust_prune`: a well-formed list of candidates. If it has room left, every usable candidate is in
     it or is dominated by a member that is no farther.
     */
    method RobustPrune(node: nat, candidates: seq<nat>) returns (out: seq<nat>)
      requires node < space.n && forall x | x in candidates :: x < space.n
      ensures space.ListOk(out, node) && |out| <= space.EffectiveDegree()
      ensures forall x | x in out :: x in candidates
      ensures if space.Live(node) then space.PrunedTo(out, node, candidates) else out == []
      ensures space.Live(node) && |out| < space.EffectiveDegree() ==>
                forall c | c in candidates && c != node && space.Live(c) ::
                  c in out || CoveredNode(space.d, space.config.alpha * space.config.alpha, node, out, c)
      ensures space.Live(node) && space.EffectiveDegree() > 0 ==>
                forall c | c in candidates && c != node && space.Live(c) ::
                  out != [] && space.d(node, out[0]) <= space.d(node, c)
    {
      out := [];
      if space.IsDeleted(node) || space.EffectiveDegree() == 0 {
        return;
      }
      var unique := UniqueIds(candidates, node);
      var alphaSq := space.config.alpha * space.config.alpha;
      var picks := PickLoop(space.d, alphaSq, Pool(space.d, node, unique), space.EffectiveDegree());
      out := IdsOf(picks);
      PrunedFacts(space.d, alphaSq, node, unique, space.EffectiveDegree());
      PrunedIs(space.d, alphaSq, node, unique, space.EffectiveDegree());
      assert Elements(unique) == space.UsableOf(candidates, node);
      forall c | c in candidates && c != node && space.Live(c)
        ensures out != [] && space.d(node, out[0]) <= space.d(node, c)
      {
        PrunedFirst(space.d, alphaSq, node, unique, space.EffectiveDegree(), c);
      }
      if |out| < space.EffectiveDegree() {
        forall c | c in candidates && c != node && space.Live(c)
          ensures c in out || CoveredNode(space.d, alphaSq, node, out, c)
        {
          PrunedCoverage(space.d, alphaSq, node, unique, space.EffectiveDegree(), c);
        }
      }
    }

    /**
     `add_reverse_edge`: only the target's list changes, and never to an empty one. The source is linked
     from the target, unless the target's list is full or one of its members covers the source.
     */
    method AddReverseEdge(graph: array<seq<nat>>, source: nat, target: nat)
      requires space.GraphOk(graph[..])
      modifies graph
      ensures space.GraphOk(graph[..])
      ensures forall v | 0 <= v < space.n && v != target :: graph[v] == old(graph[v])
      ensures target < space.n ==> forall x | x in graph[target] :: x in old(graph[target]) || x == source
      ensures target < space.n && old(graph[target]) != [] ==> graph[target] != []
      ensures space.Live(source) && space.Live(target) && source != target ==> Backlink(graph[target], target, source)
      ensures target < space.n ==> space.Linked(old(graph[target]), graph[target], source, target)
    {
      if target >= graph.Length || source >= graph.Length || source == target {
        return;
      }
      if space.IsDeleted(source) || space.IsDeleted(target) || source in graph[target] {
        return;
      }
      ghost var before := graph[..];
      var list;
      if |graph[target]| < space.config.maxDegree {
        space.AppendOk(graph[target], target, source);
        list := graph[target] + [source];
      } else {
        ListInRange(before, target);
        list := RobustPrune(target, graph[target] + [source]);
        assert source in graph[target] + [source];
      }
      space.UpdateOk(before, target, list);
      graph[target] := list;
      assert graph[..] == before[target := list];
    }

    /** `source` is in the target's list, or that list is full, or a member of it covers `source`. */
    ghost predicate Backlink(list: seq<nat>, target: nat, source: nat) {
      || source in list
      || |list| >= space.EffectiveDegree()
      || CoveredNode(space.d, space.config.alpha * space.config.alpha, target, list, source)
    }

    lemma ListInRange(graph: seq<seq<nat>>, v: nat)
      requires space.GraphOk(graph) && v < space.n
      ensures forall x | x in graph[v] :: x < space.n
    {
      assert space.ListOk(graph[v], v);
    }

    /**
     `insert`: one node is searched for, pruned and linked back; the graph stays well-formed. A live node
     that is not alone gets neighbours, each of them links back or has no need to, and no list becomes empty.
     */
    method InsertNode(graph: array<seq<nat>>, node: nat, entry: nat) returns (ok: bool, ghost candidates: seq<nat>)
      requires Valid() && space.GraphOk(graph[..]) && space.config.maxDegree > 0 && space.config.searchWidth > 0
      modifies this, marks, graph
      ensures Valid() && (marks == old(marks) || fresh(marks)) && space.GraphOk(graph[..])
      ensures ok <==> node < space.n
      ensures if ok then space.Inserted(old(graph[..]), graph[..], node, candidates) else graph[..] == old(graph[..])
      ensures space.Live(node) ==> Found(old(graph[..]), node, entry, candidates)
      ensures space.Live(node) && Accompanied(node) ==> graph[node] != []
      ensures forall v | 0 <= v < space.n && v != node && old(graph[v]) != [] :: graph[v] != []
      ensures space.Live(node) && space.config.addReverse ==>
                forall t | t in graph[node] :: t < space.n && Backlink(graph[t], t, node)
    {
      ok, candidates := node < space.n, [];
      if !ok {
        return;
      }
      ghost var before := graph[..];
      if space.IsDeleted(node) {
        space.UpdateOk(before, node, []);
        graph[node] := [];
        assert graph[..] == before[node := []];
        return;
      }
      var found, ids := SearchForConstruction(graph, node, entry);
      candidates := ids;
      assert space.Live(node);
      ListInRange(graph[..], node);
      var pool := ids + graph[node];
      if ids != [] {
        assert ids[0] in ids && ids[0] in pool;
      }
      Relink(graph, node, pool);
      if space.config.addReverse {
        AddReverseEdges(graph, node, graph[node]);
      }
    }

    /** The pruned list replaces the node's list; it starts with the nearest usable candidate. */
    method Relink(graph: array<seq<nat>>, node: nat, candidates: seq<nat>)
      requires space.GraphOk(graph[..]) && space.Live(node) && forall x | x in candidates :: x < space.n
      requires space.config.maxDegree > 0
      modifies graph
      ensures space.GraphOk(graph[..]) && forall v | 0 <= v < space.n && v != node :: graph[v] == old(graph[v])
      ensures space.PrunedTo(graph[node], node, candidates)
      ensures forall c | c in candidates && space.Live(c) && c != node ::
                graph[node] != [] && space.d(node, graph[node][0]) <= space.d(node, c)
    {
      var unique := UniqueIds(candidates, node);
      assert space.UsableOf(unique, node) == space.UsableOf(candidates, node);
      var list := RobustPrune(node, unique);
      ghost var before := graph[..];
      space.UpdateOk(before, node, list);
      graph[node] := list;
      assert graph[..] == before[node := list];
    }

    method AddReverseEdges(graph: array<seq<nat>>, node: nat, neighbors: seq<nat>)
      requires space.GraphOk(graph[..]) && space.Live(node) && neighbors == graph[node]
      modifies graph
      ensures space.GraphOk(graph[..]) && graph[node] == neighbors
      ensures forall v | 0 <= v < space.n && old(graph[v]) != [] :: graph[v] != []
      ensures forall t | t in neighbors :: t < space.n && Backlink(graph[t], t, node)
      ensures forall t | 0 <= t < space.n && t != node ::
                if t in neighbors then space.Linked(old(graph[t]), graph[t], node, t) else graph[t] == old(graph[t])
    {
      ghost var before := graph[..];
      assert space.ListOk(before[node], node);
      for i := 0 to |neighbors|
        invariant space.GraphOk(graph[..]) && graph[node] == neighbors
        invariant forall v | 0 <= v < space.n && before[v] != [] :: graph[v] != []
        invariant forall t | t in neighbors[..i] :: t < space.n && Backlink(graph[t], t, node)
        invariant forall t | 0 <= t < space.n && t != node ::
                    if t in neighbors[..i] then space.Linked(before[t], graph[t], node, t) else graph[t] == before[t]
      {
        assert neighbors[i] in neighbors && neighbors[i] !in neighbors[..i];
        assert neighbors[..i + 1] == neighbors[..i] + [neighbors[i]];
        AddReverseEdge(graph, node, neighbors[i]);
      }
      assert neighbors[..|neighbors|] == neighbors;
    }

    /** `initial_graph`: ring neighbours and arbitrary further nodes (`extra`), cut to the degree. */
    method InitialGraph(extra: nat -> seq<nat>) returns (graph: array<seq<nat>>)
      ensures fresh(graph) && InitialOk(graph[..])
    {
      graph := new seq<nat>[space.n](_ => []);
      assert space.GraphOk(graph[..]);
      if space.n <= 1 {
        return;
      }
      for i := 0 to space.n
        invariant space.GraphOk(graph[..])
        invariant forall k | 0 <= k < i && space.Live(k) && |graph[k]| < space.config.maxDegree ::
                    RingLinked(graph[k], k, space.EffectiveDegree())
      {
        if !space.IsDeleted(i) {
          var list := InitialList(i, extra);
          ghost var before := graph[..];
          space.UpdateOk(before, i, list);
          graph[i] := list;
          assert graph[..] == before[i := list];
        }
      }
    }

    /** A well-formed graph whose live nodes are linked to their ring neighbours as far as the lists are not full. */
    ghost predicate InitialOk(graph: seq<seq<nat>>) {
      && space.GraphOk(graph)
      && forall i | 0 <= i < space.n && space.n > 1 && space.Live(i) && |graph[i]| < space.config.maxDegree ::
           RingLinked(graph[i], i, space.EffectiveDegree())
    }

    ghost predicate StepsOk(steps: seq<seq<seq<nat>>>, order: seq<nat>, entry: nat) {
      |steps| == |order| + 1 && forall i | 0 <= i < |order| :: StepOk(steps[i], steps[i + 1], order[i], entry)
    }

    lemma StepsGrow(steps: seq<seq<seq<nat>>>, order: seq<nat>, i: nat, entry: nat, next: seq<seq<nat>>)
      requires i < |order| && StepsOk(steps, order[..i], entry) && StepOk(steps[i], next, order[i], entry)
      ensures StepsOk(steps + [next], order[..i + 1], entry)
    {
      var more := steps + [next];
      forall k | 0 <= k < i + 1
        ensures StepOk(more[k], more[k + 1], order[k], entry)
      {
        if k < i {
          assert more[k] == steps[k] && more[k + 1] == steps[k + 1] && order[..i][k] == order[k];
        }
      }
    }

    /** One insertion of a build. */
    method InsertNext(graph: array<seq<nat>>, node: nat, entry: nat)
      requires Valid() && space.GraphOk(graph[..]) && space.config.maxDegree > 0 && space.config.searchWidth > 0
      modifies this, marks, graph
      ensures Valid() && (marks == old(marks) || fresh(marks)) && space.GraphOk(graph[..])
      ensures StepOk(old(graph[..]), graph[..], node, entry)
      ensures space.Live(node) && Accompanied(node) ==> graph[node] != []
      ensures forall v | 0 <= v < space.n && v != node && old(graph[v]) != [] :: graph[v] != []
    {
      ghost var candidates;
      var inserted;
      inserted, candidates := InsertNode(graph, node, entry);
    }

    /** One step of a build. */
    ghost predicate StepOk(before: seq<seq<nat>>, after: seq<seq<nat>>, node: nat, entry: nat) {
      if node >= space.n then
        after == before
      else
        exists candidates :: space.Inserted(before, after, node, candidates)
                             && (space.Live(node) ==> Found(before, node, entry, candidates))
    }

    function Ahead(i: nat, offset: nat): nat
      requires space.n > 0
    {
      (i + offset) % space.n
    }

    function Behind(i: nat, offset: nat): nat
      requires space.n > 0 && offset <= space.n
    {
      (i + space.n - offset) % space.n
    }

    /** The live ring neighbours of `i` up to distance `k`, on both sides, are in the list. */
    ghost predicate RingLinked(list: seq<nat>, i: nat, k: nat)
      requires 0 < space.n && k <= space.n
    {
      forall o | 1 <= o <= k ::
        && (space.Live(Ahead(i, o)) && Ahead(i, o) != i ==> Ahead(i, o) in list)
        && (space.Live(Behind(i, o)) && Behind(i, o) != i ==> Behind(i, o) in list)
    }

    method InitialList(i: nat, extra: nat -> seq<nat>) returns (list: seq<nat>)
      requires i < space.n && space.n > 1 && !space.IsDeleted(i)
      ensures space.ListOk(list, i)
      ensures |list| < space.config.maxDegree ==> RingLinked(list, i, space.EffectiveDegree())
    {
      var candidates: seq<nat> := [];
      for offset := 1 to space.EffectiveDegree() + 1
        invariant forall x | x in candidates :: x < space.n
        invariant RingLinked(candidates, i, offset - 1)
      {
        candidates := candidates + [Ahead(i, offset), Behind(i, offset)];
      }
      ghost var ring := candidates;
      var more := extra(i);
      for r := 0 to |more|
        invariant forall x | x in candidates :: x < space.n
        invariant forall x | x in ring :: x in candidates
      {
        candidates := candidates + [more[r] % space.n];
      }
      var unique := UniqueIds(candidates, i);
      list := Take(unique, space.config.maxDegree);
      assert forall x | x in list :: x in unique;
    }

    /**
     `build`: for any insertion order, a graph in which every list is within the degree, in range, free of
     duplicates and self-loops, and touches no deleted node; every live node that was inserted has a neighbour
     unless it is the only live one. It fails only when no node is live. `steps` are the graphs after each
     insertion: every node of the order is searched for from the medoid and inserted.
     */
    method Build(order: seq<nat>, extra: nat -> seq<nat>)
      returns (ok: bool, medoid: nat, graph: array<seq<nat>>, ghost steps: seq<seq<seq<nat>>>)
      requires Valid() && space.config.maxDegree > 0 && space.config.searchWidth > 0
      modifies this, marks
      ensures Valid() && (ok <==> exists i :: space.Live(i))
      ensures fresh(graph) && (ok ==> IsMedoid(medoid) && space.GraphOk(graph[..]))
      ensures ok ==> |steps| == |order| + 1 && InitialOk(steps[0]) && steps[|order|] == graph[..]
      ensures ok ==> StepsOk(steps, order, medoid)
      ensures ok ==> forall v | v in order && space.Live(v) && Accompanied(v) :: graph[v] != []
    {
      graph, steps := new seq<nat>[0], [];
      ok, medoid := FindMedoid();
      if !ok {
        return;
      }
      graph := InitialGraph(extra);
      steps := [graph[..]];
      for i := 0 to |order|
        invariant |steps| == i + 1 && InitialOk(steps[0]) && steps[i] == graph[..]
        invariant StepsOk(steps, order[..i], medoid)
        invariant Valid() && space.GraphOk(graph[..]) && fresh(graph) && (marks == old(marks) || fresh(marks))
        invariant forall v | v in order[..i] && space.Live(v) && Accompanied(v) :: graph[v] != []
      {
        assert order[..i + 1] == order[..i] + [order[i]];
        InsertNext(graph, order[i], medoid);
        StepsGrow(steps, order, i, medoid, graph[..]);
        steps := steps + [graph[..]];
      }
      assert order[..|order|] == order;
    }

    /** There is another live node. */
    ghost predicate Accompanied(v: nat) {
      exists x :: space.Live(x) && x != v
    }
  }
}
