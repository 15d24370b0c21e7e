/** Node order, directory and pages of the packed index. */
module PackedLayout {
  import opened Sealing
  import opened Division
  import opened Bytes
  import opened TopK
  import opened PageCache
  import opened PageLedger
  import opened PageCodec

  /** An order of all `n` nodes: every node exactly once. */
  ghost predicate IsOrder(order: seq<nat>, n: nat) {
    |order| == n && Distinct(order) && Elements(order) == Below(n)
  }

  // ---- Breadth-first order ----

  /** `seen` marks exactly the nodes that were queued, each once. */
  ghost predicate Marks(seen: seq<bool>, queued: seq<nat>) {
    && Distinct(queued)
    && (forall i | i in queued :: i < |seen|)
    && (forall i | 0 <= i < |seen| :: seen[i] <==> i in queued)
  }

  lemma MarksAdd(seen: seq<bool>, queued: seq<nat>, i: nat)
    requires Marks(seen, queued) && i < |seen| && !seen[i]
    ensures Marks(seen[i := true], queued + [i])
  {
  }

  lemma MarksSize(seen: seq<bool>, queued: seq<nat>)
    requires Marks(seen, queued)
    ensures |queued| <= |seen|
    ensures (forall i | 0 <= i < |seen| :: seen[i]) ==> IsOrder(queued, |seen|)
  {
    DistinctSetSize(queued);
    BelowSize(|seen|);
    SubsetSize(Elements(queued), Below(|seen|));
    if forall i | 0 <= i < |seen| :: seen[i] {
      assert Elements(queued) == Below(|seen|);
    }
  }

  /**
   How the nodes in `all` were found, with those before `done` expanded. `parent[k]` is the position of the
   node that found `all[k]`, or -1 for a start. A start is the smallest node not found before it, and no
   earlier node leads to it; any other node was found by the first node that leads to it; nodes are in the
   order of their parents, and those of one parent in the order of its list.
   */
  ghost predicate Discovery(graph: seq<seq<nat>>, all: seq<nat>, parent: seq<int>, done: nat) {
    && |parent| == |all| && done <= |all|
    && (forall x | x in all :: x < |graph|)
    && (forall k | 0 <= k < |all| :: if parent[k] < 0 then IsStart(graph, all, k, done) else IsFound(graph, all, parent[k], k))
    && (forall j, k | 0 <= j < k < |all| && parent[j] >= 0 && parent[k] >= 0 :: parent[j] <= parent[k])
    && (forall j, k | 0 <= j < k < |all| && parent[j] == parent[k] >= 0 :: NamesFirst(graph, all, parent[j], all[j], all[k]))
    && (forall k | 0 <= k < |all| :: parent[k] <= done)
    && AllFound(graph, all, done)
  }

  ghost predicate IsStart(graph: seq<seq<nat>>, all: seq<nat>, k: nat, done: nat)
    requires k < |all|
  {
    && k <= done
    && (forall x: nat | x < all[k] :: x in all[..k])
    && (forall i | 0 <= i < k && all[i] < |graph| :: all[k] !in graph[all[i]])
  }

  ghost predicate IsFound(graph: seq<seq<nat>>, all: seq<nat>, p: nat, k: nat)
    requires k < |all|
  {
    && p < k && all[p] < |graph| && all[k] in graph[all[p]]
    && (forall i | 0 <= i < p && all[i] < |graph| :: all[k] !in graph[all[i]])
  }

  /** The list of `all[p]` names `a` before it first names `b`. */
  ghost predicate NamesFirst(graph: seq<seq<nat>>, all: seq<nat>, p: nat, a: nat, b: nat) {
    p < |all| && all[p] < |graph| && exists i | 0 <= i < |graph[all[p]]| :: graph[all[p]][i] == a && b !in graph[all[p]][..i + 1]
  }

  /** The neighbours of the expanded nodes have all been found. */
  ghost predicate AllFound(graph: seq<seq<nat>>, all: seq<nat>, done: nat) {
    forall i, x | 0 <= i < done && i < |all| && all[i] < |graph| && x in graph[all[i]] && x < |graph| :: x in all
  }

  /** `Discovery` between two expansions. */
  ghost predicate Discovered(graph: seq<seq<nat>>, all: seq<nat>, parent: seq<int>, done: nat) {
    forall name {:trigger Unsealed(name)} | Unsealed(name) && name == OrderFound ::
      Discovery(graph, all, parent, done) && forall j | 0 <= j < |parent| :: parent[j] < done
  }

  /** `Discovery` while the list of `all[c]` has been read up to `k`. */
  ghost predicate Expanding(graph: seq<seq<nat>>, all: seq<nat>, parent: seq<int>, c: nat, k: nat) {
    forall name {:trigger Unsealed(name)} | Unsealed(name) && name == OrderFound ::
      && Discovery(graph, all, parent, c) && c < |all| && all[c] < |graph| && k <= |graph[all[c]]|
      && (forall x | x in graph[all[c]][..k] && x < |graph| :: x in all)
      && (forall j | 0 <= j < |all| && parent[j] == c :: all[j] in graph[all[c]][..k])
  }

  lemma NewStart(graph: seq<seq<nat>>, all: seq<nat>, parent: seq<int>, x: nat)
    requires Discovered(graph, all, parent, |all|) && x < |graph| && x !in all
    requires forall y: nat | y < x :: y in all
    ensures Discovered(graph, all + [x], parent + [-1], |all|)
  {
    assert Unsealed(OrderFound);
    StartKeeps(graph, all, parent, x);
  }

  lemma StartKeeps(graph: seq<seq<nat>>, all: seq<nat>, parent: seq<int>, x: nat)
    requires Discovery(graph, all, parent, |all|) && x < |graph| && x !in all
    requires forall y: nat | y < x :: y in all
    ensures Discovery(graph, all + [x], parent + [-1], |all|)
  {
    var next := all + [x];
    assert next[..|all|] == all;
    assert forall i | 0 <= i < |all| :: next[i] == all[i] && next[..i] == all[..i];
    KeepsKinds(graph, all, parent, |all|, x, -1);
    KeepsNames(graph, all, parent, |all|, x, -1);
  }

  /** Earlier entries keep their kind when a node is appended. */
  lemma KeepsKinds(graph: seq<seq<nat>>, all: seq<nat>, parent: seq<int>, done: nat, x: nat, p: int)
    requires Discovery(graph, all, parent, done)
    ensures forall k | 0 <= k < |all| ::
              if (parent + [p])[k] < 0 then IsStart(graph, all + [x], k, done)
              else IsFound(graph, all + [x], (parent + [p])[k], k)
  {
    forall k | 0 <= k < |all|
      ensures if (parent + [p])[k] < 0 then IsStart(graph, all + [x], k, done)
              else IsFound(graph, all + [x], (parent + [p])[k], k)
    {
      assert (all + [x])[..k] == all[..k];
    }
  }

  lemma KeepsNames(graph: seq<seq<nat>>, all: seq<nat>, parent: seq<int>, done: nat, x: nat, p: int)
    requires Discovery(graph, all, parent, done)
    ensures forall j, k | 0 <= j < k < |all| && parent[j] == parent[k] >= 0 ::
              NamesFirst(graph, all + [x], parent[j], all[j], all[k])
  {
    forall j, k | 0 <= j < k < |all| && parent[j] == parent[k] >= 0
      ensures NamesFirst(graph, all + [x], parent[j], all[j], all[k])
    {
      assert NamesFirst(graph, all, parent[j], all[j], all[k]);
    }
  }

  lemma BeginList(graph: seq<seq<nat>>, all: seq<nat>, parent: seq<int>, c: nat)
    requires Discovered(graph, all, parent, c) && c < |all|
    ensures Expanding(graph, all, parent, c, 0)
  {
    assert Unsealed(OrderFound);
    assert all[c] in all;
  }

  /** The next neighbour of the node being expanded is new. */
  lemma NewFound(graph: seq<seq<nat>>, all: seq<nat>, parent: seq<int>, c: nat, k: nat, x: nat)
    requires Expanding(graph, all, parent, c, k) && c < |all| && all[c] < |graph| && k < |graph[all[c]]|
    requires x == graph[all[c]][k] && x < |graph| && x !in all
    ensures Expanding(graph, all + [x], parent + [c], c, k + 1)
  {
    assert Unsealed(OrderFound);
    FoundKeeps(graph, all, parent, c, k, x);
    var list, next := graph[all[c]], all + [x];
    assert list[..k + 1] == list[..k] + [x];
  }

  lemma FoundKeeps(graph: seq<seq<nat>>, all: seq<nat>, parent: seq<int>, c: nat, i: nat, x: nat)
    requires Discovery(graph, all, parent, c) && c < |all| && all[c] < |graph|
    requires i < |graph[all[c]]| && x == graph[all[c]][i] && x < |graph| && x !in all
    requires forall j | 0 <= j < |all| && parent[j] == c :: all[j] in graph[all[c]][..i]
    requires forall y | y in graph[all[c]][..i] && y < |graph| :: y in all
    ensures Discovery(graph, all + [x], parent + [c], c)
  {
    var next := all + [x];
    KeepsKinds(graph, all, parent, c, x, c);
    KeepsNames(graph, all, parent, c, x, c);
    assert IsFound(graph, next, c, |all|);
    forall j | 0 <= j < |all| && parent[j] == c
      ensures NamesFirst(graph, next, c, all[j], x)
    {
      var list := graph[all[c]];
      var m :| 0 <= m < i && list[m] == all[j];
      assert list[m] == all[j] && x !in list[..m + 1];
    }
  }

  lemma OldFound(graph: seq<seq<nat>>, all: seq<nat>, parent: seq<int>, c: nat, k: nat)
    requires Expanding(graph, all, parent, c, k) && c < |all| && all[c] < |graph| && k < |graph[all[c]]|
    requires graph[all[c]][k] < |graph| ==> graph[all[c]][k] in all
    ensures Expanding(graph, all, parent, c, k + 1)
  {
    assert Unsealed(OrderFound);
    var list := graph[all[c]];
    assert list[..k + 1] == list[..k] + [list[k]];
  }

  lemma EndList(graph: seq<seq<nat>>, all: seq<nat>, parent: seq<int>, c: nat)
    requires c < |all| && all[c] < |graph| && Expanding(graph, all, parent, c, |graph[all[c]]|)
    ensures Discovered(graph, all, parent, c + 1)
  {
    assert Unsealed(OrderFound);
    assert graph[all[c]][..|graph[all[c]]|] == graph[all[c]];
  }

  /** `bfs_order`: a permutation of all nodes in breadth-first order, for every graph. */
  method BfsOrder(graph: seq<seq<nat>>) returns (order: seq<nat>, ghost parent: seq<int>)
    ensures IsOrder(order, |graph|) && Discovery(graph, order, parent, |graph|)
  {
    var seen := new bool[|graph|](_ => false);
    order, parent := [], [];
    for start := 0 to |graph|
      invariant Marks(seen[..], order) && forall i | 0 <= i < start :: seen[..][i]
      invariant Discovered(graph, order, parent, |order|)
    {
      if !seen[start] {
        order, parent := BfsFrom(graph, seen, order, parent, start);
      }
    }
    MarksSize(seen[..], order);
    assert Unsealed(OrderFound);
  }

  /** Marks a node that is about to be appended. */
  method Mark(seen: array<bool>, id: nat, ghost queued: seq<nat>)
    requires Marks(seen[..], queued) && id < seen.Length && !seen[id]
    modifies seen
    ensures Marks(seen[..], queued + [id]) && seen[..] == old(seen[..])[id := true]
  {
    MarksAdd(seen[..], queued, id);
    seen[id] := true;
  }

  /** One component: everything that gets queued is eventually output. */
  method BfsFrom(graph: seq<seq<nat>>, seen: array<bool>, before: seq<nat>, ghost found: seq<int>, start: nat)
    returns (order: seq<nat>, ghost parent: seq<int>)
    requires seen.Length == |graph| && Marks(seen[..], before) && start < |graph| && !seen[start]
    requires Discovered(graph, before, found, |before|) && forall i | 0 <= i < start :: seen[..][i]
    modifies seen
    ensures Marks(seen[..], order) && seen[start] && Discovered(graph, order, parent, |order|)
    ensures forall i | 0 <= i < |graph| && old(seen[..])[i] :: seen[..][i]
  {
    ghost var was := seen[..];
    assert forall y: nat | y < start :: was[y] && y in before;
    NewStart(graph, before, found, start);
    order, parent := before, found + [-1];
    Mark(seen, start, before);
    var queue := [start];
    while queue != []
      invariant Marks(seen[..], order + queue) && seen[start]
      invariant Discovered(graph, order + queue, parent, |order|)
      invariant forall i | 0 <= i < |graph| && was[i] :: seen[..][i]
      decreases |graph| - |order|
    {
      MarksSize(seen[..], order + queue);
      var current := queue[0];
      assert current in order + queue;
      MoveFirst(order, queue);
      order, queue := order + [current], queue[1..];
      queue, parent := QueueNeighbors(graph, current, seen, order, queue, parent);
    }
    assert order + queue == order;
  }

  lemma MoveFirst(order: seq<nat>, queue: seq<nat>)
    requires queue != []
    ensures order + queue == order + [queue[0]] + queue[1..]
  {
  }

  /** Queues what the last node of `order` leads to and is not marked. */
  method QueueNeighbors(graph: seq<seq<nat>>, current: nat, seen: array<bool>, ghost order: seq<nat>, queue: seq<nat>, ghost found: seq<int>)
    returns (next: seq<nat>, ghost parent: seq<int>)
    requires seen.Length == |graph| && Marks(seen[..], order + queue) && current < |graph|
    requires order != [] && order[|order| - 1] == current && Discovered(graph, order + queue, found, |order| - 1)
    modifies seen
    ensures Marks(seen[..], order + next) && Discovered(graph, order + next, parent, |order|)
    ensures forall i | 0 <= i < seen.Length && old(seen[..])[i] :: seen[..][i]
  {
    next, parent := queue, found;
    var neighbors := graph[current];
    ghost var was, c := seen[..], |order| - 1;
    BeginList(graph, order + next, parent, c);
    for k := 0 to |neighbors|
      invariant Marks(seen[..], order + next) && Expanding(graph, order + next, parent, c, k)
      invariant forall i | 0 <= i < seen.Length && was[i] :: seen[..][i]
    {
      var n := neighbors[k];
      ghost var all := order + next;
      assert all[c] == current;
      if n < seen.Length && !seen[n] {
        NewFound(graph, all, parent, c, k, n);
        Mark(seen, n, all);
        next, parent := next + [n], parent + [c];
        assert order + next == all + [n];
      } else {
        OldFound(graph, all, parent, c, k);
      }
    }
    assert (order + next)[c] == current;
    EndList(graph, order + next, parent, c);
  }

  // ---- Co-access order ----

  /** `score_for_page`: any estimate of how well a node goes with the nodes already on its page. */
  type PageScore = (nat, seq<nat>) -> real

  datatype Pick = NoPick | Picked(id: nat, score: real)

  /** A neighbour of a node on the page that is not among the nodes placed `before`. */
  ghost predicate Offered(graph: seq<seq<nat>>, before: seq<nat>, page: seq<nat>, n: nat) {
    n < |graph| && n !in before && exists p :: p in page && p < |graph| && n in graph[p]
  }

  /**
   How `order[k]` was chosen when `order[start..k]` was its page so far: the neighbour of the page with the
   highest score, the smaller of two equals, or the smallest node left when no neighbour scores above -1.
   */
  ghost predicate Chosen(graph: seq<seq<nat>>, score: PageScore, order: seq<nat>, start: nat, k: nat)
    requires start <= k < |order|
  {
    var x, before, page := order[k], order[..k], order[start..k];
    if exists n: nat :: Offered(graph, before, page, n) && score(n, page) > -1.0
    then Offered(graph, before, page, x)
         && forall n: nat | Offered(graph, before, page, n) && n != x ::
              score(n, page) < score(x, page) || (score(n, page) == score(x, page) && x < n)
    else x < |graph| && x !in before && forall y: nat | y < x :: y in before
  }

  /** The position at which the page of position `k` starts; a page takes at least one node. */
  function PageStart(k: nat, perPage: nat): (start: nat)
    ensures start <= k && (perPage == 0 ==> start == k)
    ensures perPage > 0 ==> start % perPage == 0 && k < start + perPage
  {
    if perPage == 0 then k
    else
      DivUnique(k - k % perPage, perPage, k / perPage, 0);
      k - k % perPage
  }

  ghost predicate AllChosen(graph: seq<seq<nat>>, perPage: nat, score: PageScore, order: seq<nat>) {
    forall k | 0 <= k < |order| :: Chosen(graph, score, order, PageStart(k, perPage), k)
  }

  lemma ChosenNext(graph: seq<seq<nat>>, perPage: nat, score: PageScore, order: seq<nat>, x: nat)
    requires AllChosen(graph, perPage, score, order)
    requires Chosen(graph, score, order + [x], PageStart(|order|, perPage), |order|)
    ensures AllChosen(graph, perPage, score, order + [x])
  {
    forall k | 0 <= k < |order|
      ensures Chosen(graph, score, order + [x], PageStart(k, perPage), k)
    {
      var start := PageStart(k, perPage);
      assert Chosen(graph, score, order, start, k);
      assert (order + [x])[..k] == order[..k] && (order + [x])[start..k] == order[start..k];
    }
  }

  /** The best neighbour of the page's nodes that is not placed. */
  method BestNeighbor(
      graph: seq<seq<nat>>, placed: seq<bool>, page: seq<nat>, score: PageScore, ghost before: seq<nat>)
    returns (best: Pick)
    requires |placed| == |graph| && Marks(placed, before) && forall p | p in page :: p < |graph|
    ensures best.Picked? ==> Offered(graph, before, page, best.id) && best.score == score(best.id, page) && best.score > -1.0
    ensures forall n | Offered(graph, before, page, n) :: Beats(best, n, score(n, page))
  {
    best := NoPick;
    for i := 0 to |page|
      invariant best.Picked? ==> Offered(graph, before, page, best.id) && best.score == score(best.id, page) && best.score > -1.0
      invariant forall n | Offered(graph, before, page[..i], n) :: Beats(best, n, score(n, page))
    {
      assert page[i] in page;
      assert page[..i + 1] == page[..i] + [page[i]];
      var list := graph[page[i]];
      for k := 0 to |list|
        invariant best.Picked? ==> Offered(graph, before, page, best.id) && best.score == score(best.id, page) && best.score > -1.0
        invariant forall n | Offered(graph, before, page[..i], n) :: Beats(best, n, score(n, page))
        invariant forall j | 0 <= j < k && list[j] < |placed| && !placed[list[j]] :: Beats(best, list[j], score(list[j], page))
      {
        var n := list[k];
        if n < |placed| && !placed[n] {
          assert Offered(graph, before, page, n);
          best := Better(best, Picked(n, score(n, page)));
        }
      }
    }
    assert page[..|page|] == page;
  }

  /** `n` is too bad to be picked, or the pick is at least as good: higher score, then smaller id. */
  predicate Beats(best: Pick, n: nat, score: real) {
    score <= -1.0 || (best.Picked? && (score < best.score || (score == best.score && best.id <= n)))
  }

  function Better(a: Pick, b: Pick): (r: Pick)
    ensures r == a || r == b
  {
    if b.NoPick? || b.score <= -1.0 then a
    else if a.NoPick? || b.score > a.score || (b.score == a.score && b.id < a.id) then b
    else a
  }

  /** `take_next_unplaced`: the first unplaced node at or after the cursor. */
  method NextUnplaced(placed: seq<bool>, from: nat) returns (next: nat)
    requires from <= |placed| && forall i | 0 <= i < from :: placed[i]
    ensures from <= next <= |placed| && forall i | 0 <= i < next :: placed[i]
    ensures next < |placed| ==> !placed[next]
  {
    next := from;
    while next < |placed| && placed[next]
      invariant from <= next <= |placed| && forall i | 0 <= i < next :: placed[i]
    {
      next := next + 1;
    }
  }

  /** `coaccess_order`: a permutation of all nodes, each chosen for its page, for every graph, page size and score. */
  method CoaccessOrder(graph: seq<seq<nat>>, nodesPerPage: nat, score: PageScore) returns (order: seq<nat>)
    ensures IsOrder(order, |graph|) && AllChosen(graph, nodesPerPage, score, order)
  {
    var placed := new bool[|graph|](_ => false);
    order := [];
    var next: nat := 0;
    var going := true;
    while |order| < |graph| && going
      invariant Marks(placed[..], order) && next <= |graph| && forall i | 0 <= i < next :: placed[..][i]
      invariant AllChosen(graph, nodesPerPage, score, order)
      invariant !going ==> next == |graph|
      invariant |order| < |graph| ==> PageStart(|order|, nodesPerPage) == |order|
      decreases |graph| - |order|, going
    {
      next := NextUnplaced(placed[..], next);
      if next == |graph| {
        going := false;
      } else {
        order, next := FillPage(graph, nodesPerPage, score, placed, order, next);
      }
    }
    if going {
      FullOrder(placed[..], order);
    } else {
      MarksSize(placed[..], order);
    }
  }

  lemma FullOrder(seen: seq<bool>, queued: seq<nat>)
    requires Marks(seen, queued) && |queued| >= |seen|
    ensures IsOrder(queued, |seen|)
  {
    MarksSize(seen, queued);
    DistinctSetSize(queued);
    BelowSize(|seen|);
    SubsetOfSameSize(Elements(queued), Below(|seen|));
  }

  /** The next node for the page `order[start..]`, if any is left. */
  method NextOnPage(
      graph: seq<seq<nat>>, perPage: nat, score: PageScore, placed: seq<bool>, page: seq<nat>, from: nat,
      ghost order: seq<nat>, ghost start: nat)
    returns (id: nat, next: nat)
    requires |placed| == |graph| && Marks(placed, order) && start <= |order| && order[start..] == page
    requires AllChosen(graph, perPage, score, order) && PageStart(start, perPage) == start && |page| < perPage
    requires from <= |graph| && forall i | 0 <= i < from :: placed[i]
    ensures next <= |graph| && forall i | 0 <= i < next :: placed[i]
    ensures next < |graph| ==> id < |graph| && !placed[id] && AllChosen(graph, perPage, score, order + [id])
    ensures |order| < |graph| ==> next < |graph|
  {
    forall p | p in page
      ensures p < |graph|
    {
      assert p in order;
    }
    var best := BestNeighbor(graph, placed, page, score, order);
    id, next := 0, from;
    if best.Picked? {
      id := best.id;
      ChosenBest(graph, score, order, start, best);
      assert !placed[id];
    } else {
      next := NextUnplaced(placed, next);
      id := next;
      if next < |graph| {
        ChosenFirst(graph, score, order, start, next);
      } else {
        MarksSize(placed, order);
        return;
      }
    }
    PagePlaces(start, |page|, perPage);
    ChosenNext(graph, perPage, score, order, id);
  }

  /** Fills one page, starting with an anchor; only the last page may stay short. */
  method FillPage(
      graph: seq<seq<nat>>, nodesPerPage: nat, score: PageScore, placed: array<bool>, before: seq<nat>, anchor: nat)
    returns (order: seq<nat>, next: nat)
    requires placed.Length == |graph| && Marks(placed[..], before) && anchor < |graph| && !placed[anchor]
    requires forall i | 0 <= i < anchor :: placed[..][i]
    requires AllChosen(graph, nodesPerPage, score, before) && PageStart(|before|, nodesPerPage) == |before|
    modifies placed
    ensures Marks(placed[..], order) && |order| > |before| && AllChosen(graph, nodesPerPage, score, order)
    ensures next <= |graph| && forall i | 0 <= i < next :: placed[..][i]
    ensures |order| < |graph| ==> PageStart(|order|, nodesPerPage) == |order|
  {
    var page: seq<nat> := [anchor];
    ChosenFirst(graph, score, before, |before|, anchor);
    ChosenNext(graph, nodesPerPage, score, before, anchor);
    Mark(placed, anchor, before);
    order := before + [anchor];
    next := anchor;
    while |order| < |graph| && |page| < nodesPerPage
      invariant Marks(placed[..], order) && AllChosen(graph, nodesPerPage, score, order)
      invariant |before| < |order| && order[|before|..] == page && (|page| <= nodesPerPage || |page| == 1)
      invariant next <= |graph| && forall i | 0 <= i < next :: placed[..][i]
      decreases |graph| - |order|
    {
      var id;
      id, next := NextOnPage(graph, nodesPerPage, score, placed[..], page, next, order, |before|);
      if next == |graph| {
        return;
      }
      Mark(placed, id, order);
      order := order + [id];
      page := page + [id];
    }
    PagePlaces(|before|, |page|, nodesPerPage);
  }

  /** The `j`-th place of a page that starts at `start`. */
  lemma PagePlaces(start: nat, j: nat, perPage: nat)
    requires PageStart(start, perPage) == start
    ensures j < perPage || j == 0 ==> PageStart(start + j, perPage) == start
    ensures j == perPage || perPage == 0 ==> PageStart(start + j, perPage) == start + j
  {
    if perPage > 0 && j < perPage {
      DivUnique(start + j, perPage, start / perPage, j);
    } else if j == perPage && j > 0 {
      DivUnique(start + j, perPage, start / perPage + 1, 0);
    }
  }

  /** The smallest node left is right when no neighbour of the page is good enough. */
  lemma ChosenFirst(graph: seq<seq<nat>>, score: PageScore, order: seq<nat>, start: nat, x: nat)
    requires start <= |order| && x < |graph| && x !in order && forall y: nat | y < x :: y in order
    requires forall n | Offered(graph, order, order[start..], n) :: score(n, order[start..]) <= -1.0
    ensures Chosen(graph, score, order + [x], start, |order|)
  {
    assert (order + [x])[..|order|] == order && (order + [x])[start..|order|] == order[start..];
  }

  lemma ChosenBest(graph: seq<seq<nat>>, score: PageScore, order: seq<nat>, start: nat, best: Pick)
    requires start <= |order| && best.Picked? && Offered(graph, order, order[start..], best.id)
    requires best.score == score(best.id, order[start..]) && best.score > -1.0
    requires forall n | Offered(graph, order, order[start..], n) :: Beats(best, n, score(n, order[start..]))
    ensures Chosen(graph, score, order + [best.id], start, |order|)
  {
    assert (order + [best.id])[..|order|] == order && (order + [best.id])[start..|order|] == order[start..];
  }

  // ---- Directory and pages ----

  function PageCount(n: nat, perPage: nat): nat
    requires perPage > 0
  {
    (n + perPage - 1) / perPage
  }

  /** The nodes on page `p`. */
  function MembersOf(order: seq<nat>, perPage: nat, p: nat): seq<nat> {
    var begin := Area(p, perPage);
    if begin >= |order| then [] else Take(order[begin..], perPage)
  }

  lemma PageOfPosition(n: nat, perPage: nat, pos: nat)
    requires perPage > 0 && pos < n
    ensures pos / perPage < PageCount(n, perPage)
    ensures Area(pos / perPage, perPage) + pos % perPage == pos
  {
    DivMonotone(pos + perPage, n + perPage - 1, perPage);
    AddDivisor(pos, perPage);
  }

  /** A node at a position sits on page `pos / perPage`, at slot `pos % perPage`. */
  lemma MemberAt(order: seq<nat>, perPage: nat, pos: nat)
    requires perPage > 0 && pos < |order|
    ensures var members := MembersOf(order, perPage, pos / perPage);
            pos % perPage < |members| && members[pos % perPage] == order[pos]
  {
    PageOfPosition(|order|, perPage, pos);
  }

  lemma MembersInRange(order: seq<nat>, n: nat, perPage: nat, p: nat)
    requires IsOrder(order, n)
    ensures |MembersOf(order, perPage, p)| <= perPage
    ensures forall m | m in MembersOf(order, perPage, p) :: m < n
  {
    forall m | m in MembersOf(order, perPage, p)
      ensures m < n
    {
      assert m in order;
      assert m in Elements(order);
    }
  }

  /** `node_to_page`. */
  method BuildDirectory(order: seq<nat>, perPage: nat) returns (directory: seq<nat>)
    requires perPage > 0 && IsOrder(order, |order|)
    ensures |directory| == |order|
    ensures forall pos | 0 <= pos < |order| :: order[pos] < |directory| && directory[order[pos]] == pos / perPage
  {
    var out := new nat[|order|](_ => 0);
    InOrder(order);
    for pos := 0 to |order|
      invariant forall k | 0 <= k < pos :: out[order[k]] == k / perPage
    {
      out[order[pos]] := pos / perPage;
    }
    directory := out[..];
  }

  lemma InOrder(order: seq<nat>)
    requires IsOrder(order, |order|)
    ensures forall pos | 0 <= pos < |order| :: order[pos] < |order|
  {
    forall pos | 0 <= pos < |order|
      ensures order[pos] < |order|
    {
      assert order[pos] in Elements(order);
    }
  }

  /** The directory and pages written by `PackedDiskGraphBuilder::build`. */
  datatype PackedFile = PackedFile(directory: seq<nat>, pages: seq<seq<Byte>>)

  ghost predicate IsPacked(file: PackedFile, src: Source, l: Layout, order: seq<nat>) {
    var n := l.NodesPerPage();
    && n > 0
    && |file.directory| == |order|
    && |file.pages| == PageCount(|order|, n)
    && (forall pos | 0 <= pos < |order| ::
          order[pos] < |file.directory| && file.directory[order[pos]] == pos / n)
    && (forall p | 0 <= p < |file.pages| :: file.pages[p] == EncodedPage(src, l, p, MembersOf(order, n, p), n))
  }

  /** The writing part of `build`; it fails only when a page cannot hold a single node. */
  method PackIndex(src: Source, l: Layout, order: seq<nat>) returns (ok: bool, file: PackedFile)
    requires src.Fits(l) && IsOrder(order, |src.lists|) && l.NodesPerPage() < U32
    ensures ok <==> l.NodesPerPage() > 0
    ensures ok ==> IsPacked(file, src, l, order)
  {
    var n := l.NodesPerPage();
    ok, file := n > 0, PackedFile([], []);
    if !ok {
      return;
    }
    var directory := BuildDirectory(order, n);
    var pages := [];
    for p := 0 to PageCount(|order|, n)
      invariant |pages| == p
      invariant forall i | 0 <= i < p :: pages[i] == EncodedPage(src, l, i, MembersOf(order, n, i), n)
    {
      MembersInRange(order, |src.lists|, n, p);
      var written, bytes := EncodePackedPage(src, l, p, MembersOf(order, n, p), n);
      pages := pages + [bytes];
    }
    file := PackedFile(directory, pages);
  }

  /** The decoded index: what a reader of the file sees. */
  function Opened(file: PackedFile, src: Source, l: Layout): Index
    requires |src.vectors| == |src.lists|
  {
    Index(seq(|file.pages|, p requires 0 <= p < |file.pages| => PageOrEmpty(l, p, file.pages[p])),
          file.directory,
          seq(|src.lists|, id requires 0 <= id < |src.lists| => StoredNode(src, l, id)))
  }

  function PageOrEmpty(l: Layout, p: nat, bytes: seq<Byte>): Page {
    match DecodePage(l, l.NodesPerPage(), p, bytes)
    case Decoded(page) => page
    case _ => Page(p, [])
  }

  ghost function StoredNodes(src: Source, l: Layout, members: seq<nat>): seq<Node>
    requires |src.vectors| == |src.lists| && forall m | m in members :: m < |src.lists|
  {
    seq(|members|, i requires 0 <= i < |members| => (assert members[i] in members; StoredNode(src, l, members[i])))
  }

  /** Every page decodes to the nodes placed on it. */
  lemma PagesDecode(file: PackedFile, src: Source, l: Layout, order: seq<nat>, p: nat)
    requires src.Fits(l) && IsOrder(order, |src.lists|) && l.NodesPerPage() < U32
    requires IsPacked(file, src, l, order) && p < |file.pages|
    ensures forall m | m in MembersOf(order, l.NodesPerPage(), p) :: m < |src.lists|
    ensures DecodePage(l, l.NodesPerPage(), p, file.pages[p])
            == Decoded(Page(p, StoredNodes(src, l, MembersOf(order, l.NodesPerPage(), p))))
  {
    var n := l.NodesPerPage();
    MembersInRange(order, |src.lists|, n, p);
    PageCountBound(|order|, n);
    PageRoundTrip(src, l, p, MembersOf(order, n, p));
  }

  lemma PageCountBound(n: nat, perPage: nat)
    requires perPage > 0
    ensures PageCount(n, perPage) <= n
  {
    AtLeast(n, perPage);
    DivMonotone(n + perPage - 1, n * perPage + (perPage - 1), perPage);
    DivUnique(n * perPage + (perPage - 1), perPage, n, perPage - 1);
  }

  /** A position of each node. */
  lemma PositionOf(order: seq<nat>, n: nat, id: nat) returns (pos: nat)
    requires IsOrder(order, n) && id < n
    ensures pos < |order| && order[pos] == id
  {
    assert id in Elements(order);
    pos :| pos < |order| && order[pos] == id;
  }

  /**
   The packed index end to end: whatever the order, the directory sends every node to a page that holds
   it, and pages hold nothing but the nodes of the graph as stored.
   */
  lemma PackedIsWellFormed(file: PackedFile, src: Source, l: Layout, order: seq<nat>)
    requires src.Fits(l) && IsOrder(order, |src.lists|) && l.NodesPerPage() < U32 && IsPacked(file, src, l, order)
    ensures Opened(file, src, l).WellFormed()
  {
    var n := l.NodesPerPage();
    var index := Opened(file, src, l);
    forall p | 0 <= p < |index.disk|
      ensures index.disk[p].id == p && Faithful(index.disk[p].nodes, index.graph)
    {
      PagesDecode(file, src, l, order, p);
      FaithfulPage(src, l, MembersOf(order, n, p), index.graph);
    }
    forall id | 0 <= id < |index.pageOf|
      ensures index.pageOf[id] < |index.disk| && OnPage(index.disk[index.pageOf[id]].nodes, id)
    {
      var pos := PositionOf(order, |src.lists|, id);
      PageOfPosition(|order|, n, pos);
      MemberAt(order, n, pos);
      PagesDecode(file, src, l, order, pos / n);
      assert index.disk[pos / n].nodes[pos % n].id == id;
    }
  }

  lemma FaithfulPage(src: Source, l: Layout, members: seq<nat>, graph: seq<Node>)
    requires |src.vectors| == |src.lists| && forall m | m in members :: m < |src.lists|
    requires graph == seq(|src.lists|, id requires 0 <= id < |src.lists| => StoredNode(src, l, id))
    ensures Faithful(StoredNodes(src, l, members), graph)
  {
    forall i | 0 <= i < |members|
      ensures members[i] < |graph| && StoredNodes(src, l, members)[i] == graph[members[i]]
    {
      assert members[i] in members;
    }
  }

  ghost predicate Holds(index: Index, p: nat, i: nat, id: nat) {
    p < |index.disk| && i < |index.disk[p].nodes| && index.disk[p].nodes[i].id == id
  }

  /** A node is found once and only once: on its directory page, in one slot. */
  lemma FoundOnce(file: PackedFile, src: Source, l: Layout, order: seq<nat>, id: nat, p: nat, i: nat, q: nat, j: nat)
    requires src.Fits(l) && IsOrder(order, |src.lists|) && l.NodesPerPage() < U32 && IsPacked(file, src, l, order)
    requires Holds(Opened(file, src, l), p, i, id) && Holds(Opened(file, src, l), q, j, id)
    ensures p == q && i == j && id < |file.directory| && p == file.directory[id]
  {
    SlotPosition(file, src, l, order, p, i, id);
    SlotPosition(file, src, l, order, q, j, id);
    var n := l.NodesPerPage();
    assert Area(p, n) + i == Area(q, n) + j;
  }

  lemma SlotPosition(file: PackedFile, src: Source, l: Layout, order: seq<nat>, p: nat, i: nat, id: nat)
    requires src.Fits(l) && IsOrder(order, |src.lists|) && l.NodesPerPage() < U32 && IsPacked(file, src, l, order)
    requires Holds(Opened(file, src, l), p, i, id)
    ensures var n := l.NodesPerPage();
            && Area(p, n) + i < |order| && order[Area(p, n) + i] == id
            && (Area(p, n) + i) / n == p
  {
    var n := l.NodesPerPage();
    PagesDecode(file, src, l, order, p);
    var members := MembersOf(order, n, p);
    assert members[i] in members;
    assert members[i] == order[Area(p, n) + i];
    DivOfArea(p, n, i);
  }

  lemma DivOfArea(p: nat, n: nat, i: nat)
    requires i < n
    ensures (Area(p, n) + i) / n == p
  {
    DivUnique(Area(p, n) + i, n, p, i);
  }
}
