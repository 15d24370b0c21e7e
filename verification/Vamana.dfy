/**
 Robust prune, the heart of Vamana graph construction: which candidates it keeps and what covers the others.
 `d(i, j)` is the distance of nodes `i` and `j`; it may be any function.
 */
module Vamana {
  import opened TopK
  import opened PageCache

  type Metric = (nat, nat) -> real

  // ---- Robust prune ----

  /** `p` makes `c` redundant: `c` is closer to `p`, scaled by alpha, than to the node itself. */
  predicate Dominates(d: Metric, alphaSq: real, p: SearchResult, c: SearchResult) {
    alphaSq * d(p.id, c.id) <= c.distance
  }

  function Survivors(d: Metric, alphaSq: real, p: SearchResult, pool: seq<SearchResult>): (r: seq<SearchResult>)
    ensures |r| <= |pool|
  {
    if pool == [] then
      []
    else
      var rest, c := Survivors(d, alphaSq, p, pool[..|pool| - 1]), pool[|pool| - 1];
      if Dominates(d, alphaSq, p, c) then rest else rest + [c]
  }

  /** Repeatedly pick the nearest and drop what it dominates, until `degree` picks or nothing is left. */
  function Prune(d: Metric, alphaSq: real, pool: seq<SearchResult>, degree: nat): (picks: seq<SearchResult>)
    ensures |picks| <= degree
    decreases degree
  {
    if pool == [] || degree == 0 then []
    else [pool[0]] + Prune(d, alphaSq, Survivors(d, alphaSq, pool[0], pool[1..]), degree - 1)
  }

  ghost predicate Ascending(rs: seq<SearchResult>) {
    forall i, j | 0 <= i < j < |rs| :: Less(rs[i], rs[j])
  }

  lemma {:induction false} SurvivorsFacts(d: Metric, alphaSq: real, p: SearchResult, pool: seq<SearchResult>)
    requires Ascending(pool)
    ensures var r := Survivors(d, alphaSq, p, pool);
            Ascending(r) && forall c :: c in r <==> c in pool && !Dominates(d, alphaSq, p, c)
  {
    if pool != [] {
      var rest := pool[..|pool| - 1];
      SurvivorsFacts(d, alphaSq, p, rest);
      var last := pool[|pool| - 1];
      assert pool == rest + [last];
      AscendingBack(Survivors(d, alphaSq, p, rest), last);
    }
  }

  lemma AscendingBack(rs: seq<SearchResult>, x: SearchResult)
    requires Ascending(rs) && forall c | c in rs :: Less(c, x)
    ensures Ascending(rs + [x])
  {
  }

  lemma AscendingFront(x: SearchResult, rs: seq<SearchResult>)
    requires Ascending(rs) && forall c | c in rs :: Less(x, c)
    ensures Ascending([x] + rs)
  {
  }

  /** Picks come from the pool, nearest first. */
  lemma {:induction false} PruneOrder(d: Metric, alphaSq: real, pool: seq<SearchResult>, degree: nat)
    requires Ascending(pool)
    ensures var picks := Prune(d, alphaSq, pool, degree);
            Ascending(picks) && forall c | c in picks :: c in pool
    decreases degree
  {
    if pool != [] && degree > 0 {
      var next := Survivors(d, alphaSq, pool[0], pool[1..]);
      SurvivorsFacts(d, alphaSq, pool[0], pool[1..]);
      PruneOrder(d, alphaSq, next, degree - 1);
      var rest := Prune(d, alphaSq, next, degree - 1);
      forall c | c in rest
        ensures c in pool && Less(pool[0], c)
      {
        assert c in next && c in pool[1..];
      }
      AscendingFront(pool[0], rest);
    }
  }

  /** Some pick before `c` dominates it. */
  ghost predicate Covered(d: Metric, alphaSq: real, picks: seq<SearchResult>, c: SearchResult) {
    exists p :: p in picks && Less(p, c) && Dominates(d, alphaSq, p, c)
  }

  /**
   Coverage. If there are fewer picks than the degree allows, a candidate is picked exactly when no
   nearer pick dominates it. No pick is dominated by a nearer one in any case.
   */
  lemma {:induction false} PruneCoverage(d: Metric, alphaSq: real, pool: seq<SearchResult>, degree: nat, c: SearchResult)
    requires Ascending(pool) && c in pool
    ensures var picks := Prune(d, alphaSq, pool, degree);
            && (c in picks ==> !Covered(d, alphaSq, picks, c))
            && (|picks| < degree && c !in picks ==> Covered(d, alphaSq, picks, c))
    decreases degree
  {
    if degree > 0 {
      var p, next := pool[0], Survivors(d, alphaSq, pool[0], pool[1..]);
      SurvivorsFacts(d, alphaSq, p, pool[1..]);
      PruneOrder(d, alphaSq, next, degree - 1);
      var rest := Prune(d, alphaSq, next, degree - 1);
      var picks := Prune(d, alphaSq, pool, degree);
      assert picks == [p] + rest;
      if c == p {
        NothingBefore(d, alphaSq, pool, picks, c);
      } else {
        assert c in pool[1..] && Less(p, c);
        if c in next {
          PruneCoverage(d, alphaSq, next, degree - 1, c);
          CoveredByRest(d, alphaSq, p, rest, c);
        } else {
          assert p in picks && Dominates(d, alphaSq, p, c);
          assert c !in rest;
        }
      }
    }
  }

  lemma NothingBefore(d: Metric, alphaSq: real, pool: seq<SearchResult>, picks: seq<SearchResult>, c: SearchResult)
    requires Ascending(pool) && pool != [] && c == pool[0] && forall p | p in picks :: p in pool
    ensures !Covered(d, alphaSq, picks, c)
  {
  }

  lemma CoveredByRest(d: Metric, alphaSq: real, p: SearchResult, rest: seq<SearchResult>, c: SearchResult)
    requires !Dominates(d, alphaSq, p, c)
    ensures Covered(d, alphaSq, [p] + rest, c) <==> Covered(d, alphaSq, rest, c)
  {
    if Covered(d, alphaSq, rest, c) {
      var q :| q in rest && Less(q, c) && Dominates(d, alphaSq, q, c);
      assert q in [p] + rest;
    }
  }

  /** The scan of one pick over the pool. */
  method Filter(d: Metric, alphaSq: real, p: SearchResult, pool: seq<SearchResult>) returns (r: seq<SearchResult>)
    ensures r == Survivors(d, alphaSq, p, pool)
  {
    r := [];
    for i := 0 to |pool|
      invariant r == Survivors(d, alphaSq, p, pool[..i])
    {
      assert pool[..i + 1][..i] == pool[..i];
      if alphaSq * d(p.id, pool[i].id) > pool[i].distance {
        r := r + [pool[i]];
      }
    }
    assert pool[..|pool|] == pool;
  }

  /** The picking loop of `robust_prune` and `robust_prune_neighbors`. */
  method PickLoop(d: Metric, alphaSq: real, start: seq<SearchResult>, degree: nat) returns (picks: seq<SearchResult>)
    ensures picks == Prune(d, alphaSq, start, degree)
  {
    picks := [];
    var pool := start;
    while pool != [] && |picks| < degree
      invariant |picks| <= degree
      invariant Prune(d, alphaSq, start, degree) == picks + Prune(d, alphaSq, pool, degree - |picks|)
      decreases degree - |picks|
    {
      var rest := Filter(d, alphaSq, pool[0], pool[1..]);
      assert picks + ([pool[0]] + Prune(d, alphaSq, rest, degree - |picks| - 1))
        == picks + [pool[0]] + Prune(d, alphaSq, rest, degree - |picks| - 1);
      picks := picks + [pool[0]];
      pool := rest;
    }
  }

  // ---- Candidate pools ----

  /** Candidates with their distance from `node`, nearest first. */
  function Pool(d: Metric, node: nat, ids: seq<nat>): seq<SearchResult> {
    Sort(seq(|ids|, i requires 0 <= i < |ids| => SearchResult(ids[i], d(node, ids[i]))))
  }

  lemma PoolFacts(d: Metric, node: nat, ids: seq<nat>)
    requires Distinct(ids)
    ensures Ascending(Pool(d, node, ids))
    ensures forall c :: c in Pool(d, node, ids) <==> c.id in ids && c.distance == d(node, c.id)
  {
    var rs := seq(|ids|, i requires 0 <= i < |ids| => SearchResult(ids[i], d(node, ids[i])));
    forall c
      ensures c in rs <==> c.id in ids && c.distance == d(node, c.id)
    {
      if c.id in ids && c.distance == d(node, c.id) {
        var i :| 0 <= i < |ids| && ids[i] == c.id;
        assert rs[i] == c;
      }
    }
    BestIsBest(rs, |rs|);
    assert Best(rs, |rs|) == Sort(rs);
    forall c
      ensures c in Sort(rs) <==> c in rs
    {
      assert c in multiset(Sort(rs)) <==> c in multiset(rs);
    }
  }

  /** What `robust_prune` makes of a duplicate-free candidate list. */
  function PrunedList(d: Metric, alphaSq: real, node: nat, ids: seq<nat>, degree: nat): (r: seq<nat>)
    ensures |r| <= degree
  {
    IdsOf(Prune(d, alphaSq, Pool(d, node, ids), degree))
  }

  /** A pruned list has no duplicates and only candidates. */
  lemma PrunedFacts(d: Metric, alphaSq: real, node: nat, ids: seq<nat>, degree: nat)
    requires Distinct(ids)
    ensures Distinct(PrunedList(d, alphaSq, node, ids, degree))
    ensures forall x | x in PrunedList(d, alphaSq, node, ids, degree) :: x in ids
  {
    PoolFacts(d, node, ids);
    var pool := Pool(d, node, ids);
    PruneOrder(d, alphaSq, pool, degree);
    var picks := Prune(d, alphaSq, pool, degree);
    forall x | x in IdsOf(picks)
      ensures x in ids
    {
      var i :| 0 <= i < |picks| && picks[i].id == x;
      assert picks[i] in picks;
    }
    forall i, j | 0 <= i < j < |picks|
      ensures picks[i].id != picks[j].id
    {
      assert picks[i] in picks && picks[j] in picks;
      assert Less(picks[i], picks[j]);
    }
  }

  /** The first pick is the nearest candidate. */
  lemma PrunedFirst(d: Metric, alphaSq: real, node: nat, ids: seq<nat>, degree: nat, c: nat)
    requires Distinct(ids) && c in ids && degree > 0
    ensures var out := PrunedList(d, alphaSq, node, ids, degree);
            out != [] && d(node, out[0]) <= d(node, c)
  {
    PoolFacts(d, node, ids);
    var pool, r := Pool(d, node, ids), SearchResult(c, d(node, c));
    assert r in pool;
    assert pool[0] in pool && Leq(pool[0], r);
  }

  /** A node no farther than `c` is in the list and dominates it. */
  ghost predicate CoveredNode(d: Metric, alphaSq: real, node: nat, list: seq<nat>, c: nat) {
    exists p :: p in list && d(node, p) <= d(node, c) && alphaSq * d(p, c) <= d(node, c)
  }

  /** Coverage of a whole prune: if there is room left, every candidate is picked or covered by a pick. */
  lemma PrunedCoverage(d: Metric, alphaSq: real, node: nat, ids: seq<nat>, degree: nat, c: nat)
    requires Distinct(ids) && c in ids && |PrunedList(d, alphaSq, node, ids, degree)| < degree
    ensures c in PrunedList(d, alphaSq, node, ids, degree)
            || CoveredNode(d, alphaSq, node, PrunedList(d, alphaSq, node, ids, degree), c)
  {
    var pool, r := Pool(d, node, ids), SearchResult(c, d(node, c));
    var picks := Prune(d, alphaSq, pool, degree);
    assert r in picks || Covered(d, alphaSq, picks, r) by {
      PoolFacts(d, node, ids);
      PruneCoverage(d, alphaSq, pool, degree, r);
    }
    assert forall p | p in picks :: p.distance == d(node, p.id) by {
      PoolFacts(d, node, ids);
      PruneOrder(d, alphaSq, pool, degree);
    }
    PicksAsNodes(d, alphaSq, node, picks, c);
  }

  lemma PicksAsNodes(d: Metric, alphaSq: real, node: nat, picks: seq<SearchResult>, c: nat)
    requires forall p | p in picks :: p.distance == d(node, p.id)
    requires SearchResult(c, d(node, c)) in picks || Covered(d, alphaSq, picks, SearchResult(c, d(node, c)))
    ensures c in IdsOf(picks) || CoveredNode(d, alphaSq, node, IdsOf(picks), c)
  {
    var r := SearchResult(c, d(node, c));
    if r in picks {
      var i :| 0 <= i < |picks| && picks[i] == r;
      assert IdsOf(picks)[i] == c;
    } else {
      var p :| p in picks && Less(p, r) && Dominates(d, alphaSq, p, r);
      var i :| 0 <= i < |picks| && picks[i] == p;
      assert IdsOf(picks)[i] == p.id;
    }
  }

  // ---- The prune in full ----

  /** `p` comes before `c` in distance from `node`, smaller ids first among equals. */
  predicate Nearer(d: Metric, node: nat, p: nat, c: nat) {
    d(node, p) < d(node, c) || (d(node, p) == d(node, c) && p < c)
  }

  /** A nearer member of the list makes `c` redundant: scaled by alpha it is closer to `c` than the node is. */
  ghost predicate Redundant(d: Metric, alphaSq: real, node: nat, list: seq<nat>, c: nat) {
    exists p :: p in list && Nearer(d, node, p, c) && alphaSq * d(p, c) <= d(node, c)
  }

  /**
   The robust prune of some candidates: nearest first, no member redundant, and every other candidate redundant, or
   the list full and the candidate behind all of it. There is only one such list.
   */
  ghost predicate IsPruned(d: Metric, alphaSq: real, node: nat, candidates: set<nat>, degree: nat, list: seq<nat>) {
    && |list| <= degree && (forall x | x in list :: x in candidates)
    && (forall i, j | 0 <= i < j < |list| :: Compatible(d, alphaSq, node, list[i], list[j]))
    && forall c | c in candidates :: c in list || LeftOut(d, alphaSq, node, list, degree, c)
  }

  /** `p` is nearer than `c` and does not make it redundant. */
  ghost predicate Compatible(d: Metric, alphaSq: real, node: nat, p: nat, c: nat) {
    Nearer(d, node, p, c) && alphaSq * d(p, c) > d(node, c)
  }

  ghost predicate LeftOut(d: Metric, alphaSq: real, node: nat, list: seq<nat>, degree: nat, c: nat) {
    Redundant(d, alphaSq, node, list, c) || (|list| == degree && forall p | p in list :: Nearer(d, node, p, c))
  }

  lemma {:induction false} PruneBehind(d: Metric, alphaSq: real, pool: seq<SearchResult>, degree: nat, c: SearchResult)
    requires Ascending(pool) && c in pool
    ensures var picks := Prune(d, alphaSq, pool, degree);
            c in picks || Covered(d, alphaSq, picks, c)
            || (|picks| == degree && forall p | p in picks :: Less(p, c))
    decreases degree
  {
    if degree > 0 {
      var p, next := pool[0], Survivors(d, alphaSq, pool[0], pool[1..]);
      SurvivorsFacts(d, alphaSq, p, pool[1..]);
      var rest, picks := Prune(d, alphaSq, next, degree - 1), Prune(d, alphaSq, pool, degree);
      assert picks == [p] + rest;
      if c != p {
        assert c in pool[1..] && Less(p, c);
        if c in next {
          PruneBehind(d, alphaSq, next, degree - 1, c);
          if Covered(d, alphaSq, rest, c) {
            CoveredByRest(d, alphaSq, p, rest, c);
          }
        } else {
          assert p in picks && Dominates(d, alphaSq, p, c);
        }
      }
    }
  }

  /** The picks by id, with their distances from the node. */
  ghost predicate AsIds(d: Metric, node: nat, picks: seq<SearchResult>, list: seq<nat>) {
    |list| == |picks| && forall i | 0 <= i < |picks| :: picks[i].id == list[i] && picks[i].distance == d(node, list[i])
  }

  lemma PicksAsIds(d: Metric, alphaSq: real, node: nat, ids: seq<nat>, degree: nat)
    requires Distinct(ids)
    ensures AsIds(d, node, Prune(d, alphaSq, Pool(d, node, ids), degree), PrunedList(d, alphaSq, node, ids, degree))
    ensures Ascending(Pool(d, node, ids))
  {
    var pool := Pool(d, node, ids);
    PoolFacts(d, node, ids);
    PruneOrder(d, alphaSq, pool, degree);
    var picks := Prune(d, alphaSq, pool, degree);
    forall i | 0 <= i < |picks|
      ensures picks[i].distance == d(node, picks[i].id)
    {
      assert picks[i] in picks;
    }
  }

  lemma PrunedIs(d: Metric, alphaSq: real, node: nat, ids: seq<nat>, degree: nat)
    requires Distinct(ids)
    ensures IsPruned(d, alphaSq, node, Elements(ids), degree, PrunedList(d, alphaSq, node, ids, degree))
  {
    var list := PrunedList(d, alphaSq, node, ids, degree);
    PicksAsIds(d, alphaSq, node, ids, degree);
    PrunedFacts(d, alphaSq, node, ids, degree);
    forall i, j | 0 <= i < j < |list|
      ensures Compatible(d, alphaSq, node, list[i], list[j])
    {
      PickedFree(d, alphaSq, Pool(d, node, ids), degree, i, j);
    }
    forall c | c in Elements(ids) && c !in list
      ensures LeftOut(d, alphaSq, node, list, degree, c)
    {
      PrunedOther(d, alphaSq, node, ids, degree, c);
    }
  }

  lemma PickedFree(d: Metric, alphaSq: real, pool: seq<SearchResult>, degree: nat, i: nat, j: nat)
    requires Ascending(pool) && i < j < |Prune(d, alphaSq, pool, degree)|
    ensures var picks := Prune(d, alphaSq, pool, degree);
            Less(picks[i], picks[j]) && alphaSq * d(picks[i].id, picks[j].id) > picks[j].distance
  {
    var picks := Prune(d, alphaSq, pool, degree);
    PruneOrder(d, alphaSq, pool, degree);
    assert picks[i] in picks && picks[j] in picks;
    PruneCoverage(d, alphaSq, pool, degree, picks[j]);
  }

  lemma PrunedOther(d: Metric, alphaSq: real, node: nat, ids: seq<nat>, degree: nat, c: nat)
    requires Distinct(ids) && c in ids && c !in PrunedList(d, alphaSq, node, ids, degree)
    ensures var list := PrunedList(d, alphaSq, node, ids, degree);
            LeftOut(d, alphaSq, node, list, degree, c)
  {
    var pool, r := Pool(d, node, ids), SearchResult(c, d(node, c));
    PoolFacts(d, node, ids);
    PruneBehind(d, alphaSq, pool, degree, r);
    PicksAsIds(d, alphaSq, node, ids, degree);
    OtherById(d, alphaSq, node, Prune(d, alphaSq, pool, degree), PrunedList(d, alphaSq, node, ids, degree), c);
  }

  lemma OtherById(d: Metric, alphaSq: real, node: nat, picks: seq<SearchResult>, list: seq<nat>, c: nat)
    requires AsIds(d, node, picks, list) && c !in list
    ensures var r := SearchResult(c, d(node, c));
            && r !in picks
            && (Covered(d, alphaSq, picks, r) ==> Redundant(d, alphaSq, node, list, c))
            && ((forall p | p in picks :: Less(p, r)) ==> forall p | p in list :: Nearer(d, node, p, c))
  {
    var r := SearchResult(c, d(node, c));
    forall i | 0 <= i < |picks|
      ensures picks[i] != r
    {
      assert list[i] in list;
    }
    if Covered(d, alphaSq, picks, r) {
      var p :| p in picks && Less(p, r) && Dominates(d, alphaSq, p, r);
      var i :| 0 <= i < |picks| && picks[i] == p;
      assert list[i] in list;
    }
    forall x | x in list && forall p | p in picks :: Less(p, r)
      ensures Nearer(d, node, x, c)
    {
      var i :| 0 <= i < |list| && list[i] == x;
      assert picks[i] in picks;
    }
  }

  /** There is only one pruned list. */
  lemma PrunedUnique(d: Metric, alphaSq: real, node: nat, candidates: set<nat>, degree: nat, a: seq<nat>, b: seq<nat>)
    requires IsPruned(d, alphaSq, node, candidates, degree, a) && IsPruned(d, alphaSq, node, candidates, degree, b)
    ensures a == b
  {
    SamePicks(d, alphaSq, node, candidates, degree, a, b, |a|);
    SamePicks(d, alphaSq, node, candidates, degree, b, a, |b|);
    assert a[..|a|] == a && b[..|b|] == b;
  }

  lemma {:induction false} SamePicks(
      d: Metric, alphaSq: real, node: nat, candidates: set<nat>, degree: nat, a: seq<nat>, b: seq<nat>, k: nat)
    requires IsPruned(d, alphaSq, node, candidates, degree, a) && IsPruned(d, alphaSq, node, candidates, degree, b)
    requires k <= |a|
    ensures k <= |b| && a[..k] == b[..k]
    decreases k
  {
    if k > 0 {
      SamePicks(d, alphaSq, node, candidates, degree, a, b, k - 1);
      SamePick(d, alphaSq, node, candidates, degree, a, b, k - 1);
      assert a[..k] == a[..k - 1] + [a[k - 1]] && b[..k] == b[..k - 1] + [b[k - 1]];
    }
  }

  lemma SamePick(d: Metric, alphaSq: real, node: nat, candidates: set<nat>, degree: nat, a: seq<nat>, b: seq<nat>, i: nat)
    requires IsPruned(d, alphaSq, node, candidates, degree, a) && IsPruned(d, alphaSq, node, candidates, degree, b)
    requires i < |a| && i <= |b| && a[..i] == b[..i]
    ensures i < |b| && a[i] == b[i]
  {
    forall j | 0 <= j < i
      ensures a[j] == b[j]
    {
      assert a[..i][j] == b[..i][j];
    }
    PickNotBehind(d, alphaSq, node, candidates, degree, a, b, i);
    if a[i] != b[i] {
      PickNotBehind(d, alphaSq, node, candidates, degree, b, a, i);
    }
  }

  /** The next pick of `a` is not behind that of `b`, which there is. */
  lemma PickNotBehind(d: Metric, alphaSq: real, node: nat, candidates: set<nat>, degree: nat, a: seq<nat>, b: seq<nat>, i: nat)
    requires IsPruned(d, alphaSq, node, candidates, degree, a) && IsPruned(d, alphaSq, node, candidates, degree, b)
    requires i < |a| && i <= |b| && forall j | 0 <= j < i :: a[j] == b[j]
    ensures i < |b| && !Nearer(d, node, a[i], b[i])
  {
    var c := a[i];
    assert c in candidates && !Redundant(d, alphaSq, node, a[..i], c) by {
      NotRedundantBefore(d, alphaSq, node, candidates, degree, a, i);
    }
    if c in b {
      var j :| 0 <= j < |b| && b[j] == c;
      NotEarlier(d, alphaSq, node, candidates, degree, a, b, i, j);
    } else if Redundant(d, alphaSq, node, b, c) {
      var p :| p in b && Nearer(d, node, p, c) && alphaSq * d(p, c) <= d(node, c);
      var j :| 0 <= j < |b| && b[j] == p;
      if j < i {
        assert a[..i][j] == p;
      } else if j > i {
        assert Compatible(d, alphaSq, node, b[i], b[j]);
      }
    } else {
      FullBehind(d, alphaSq, node, candidates, degree, a, b, i);
    }
  }

  lemma FullBehind(d: Metric, alphaSq: real, node: nat, candidates: set<nat>, degree: nat, a: seq<nat>, b: seq<nat>, i: nat)
    requires IsPruned(d, alphaSq, node, candidates, degree, a) && i < |a| && i <= |b|
    requires |b| == degree && forall p | p in b :: Nearer(d, node, p, a[i])
    ensures i < |b| && !Nearer(d, node, a[i], b[i])
  {
    assert b[i] in b;
  }

  lemma NotRedundantBefore(d: Metric, alphaSq: real, node: nat, candidates: set<nat>, degree: nat, a: seq<nat>, i: nat)
    requires IsPruned(d, alphaSq, node, candidates, degree, a) && i < |a|
    ensures a[i] in candidates && !Redundant(d, alphaSq, node, a[..i], a[i])
  {
    assert a[i] in a;
    forall p | p in a[..i]
      ensures alphaSq * d(p, a[i]) > d(node, a[i])
    {
      var j :| 0 <= j < i && a[j] == p;
    }
  }

  lemma NotEarlier(d: Metric, alphaSq: real, node: nat, candidates: set<nat>, degree: nat, a: seq<nat>, b: seq<nat>, i: nat, j: nat)
    requires IsPruned(d, alphaSq, node, candidates, degree, a) && IsPruned(d, alphaSq, node, candidates, degree, b)
    requires i < |a| && j < |b| && b[j] == a[i] && forall k | 0 <= k < i && k < |b| :: a[k] == b[k]
    ensures i <= j && (i < j ==> Nearer(d, node, b[i], b[j]))
  {
    assert j >= i || Compatible(d, alphaSq, node, a[j], a[i]);
    assert i < j ==> Compatible(d, alphaSq, node, b[i], b[j]);
  }
}
