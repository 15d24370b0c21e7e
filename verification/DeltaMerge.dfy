/**
 Searching base and delta together: the exact answer over all visible vectors, the fast answer that
 merges the base top-k with a delta top-k, and exactly when the two agree.

 `dist` gives the distance of a vector to the query.
 */
module DeltaMerge {
  import opened TopK
  import opened Records
  import opened WriteManager

  type Vector = seq<nat>
  type Distance = Vector -> real

  predicate HasDim(r: Record, dim: nat) {
    r.dim == dim && |r.vector| == dim
  }

  /** A record that contributes its own distance. */
  predicate Live(r: Record, dim: nat) {
    !r.deleted && HasDim(r, dim)
  }

  function ResultOf(dist: Distance, r: Record): SearchResult {
    SearchResult(r.node, dist(r.vector))
  }

  // ---- The pools ----

  ghost function BasePool(base: seq<Vector>, dist: Distance): set<SearchResult> {
    set i | 0 <= i < |base| :: SearchResult(i, dist(base[i]))
  }

  /** Base vectors that no visible record hides: not overridden, or overridden by one of another dimension. */
  ghost function Kept(base: seq<Vector>, dist: Distance, visible: map<nat, Record>, dim: nat): set<SearchResult> {
    set i | 0 <= i < |base| && (i in visible ==> !visible[i].deleted && !HasDim(visible[i], dim)) ::
      SearchResult(i, dist(base[i]))
  }

  ghost function LivePool(dist: Distance, visible: map<nat, Record>, dim: nat): set<SearchResult> {
    set n | n in visible && Live(visible[n], dim) :: ResultOf(dist, visible[n])
  }

  /** Everything a reader of the snapshot may be shown, each id with its latest visible distance. */
  ghost function ExactPool(base: seq<Vector>, dist: Distance, visible: map<nat, Record>, dim: nat): set<SearchResult> {
    Kept(base, dist, visible, dim) + LivePool(dist, visible, dim)
  }

  // ---- Top-k of a subset ----

  ghost function Nearer(pool: set<SearchResult>, x: SearchResult): set<SearchResult> {
    set y | y in pool && Less(y, x)
  }

  /** What a top-k leaves out has `k` nearer elements. */
  lemma LeftOutHasKNearer(out: seq<SearchResult>, pool: set<SearchResult>, k: nat, x: SearchResult)
    requires IsBest(out, pool, k) && x in pool && x !in out
    ensures |out| == k && Elements(out) <= Nearer(pool, x)
    ensures k <= |Nearer(pool, x)|
  {
    StrictSetSize(out);
    assert Elements(out) <= pool;
    if |pool| <= k {
      SubsetOfSameSize(Elements(out), pool);
      assert false;
    }
    SubsetSize(Elements(out), Nearer(pool, x));
  }

  /** An element with fewer than `k` nearer ones belongs to the top-k. */
  lemma FewNearerIsIn(out: seq<SearchResult>, pool: set<SearchResult>, k: nat, x: SearchResult)
    requires IsBest(out, pool, k) && x in pool && |Nearer(pool, x)| < k
    ensures x in out
  {
    if x !in out {
      LeftOutHasKNearer(out, pool, k, x);
    }
  }

  /** Dropping elements that have `k` nearer ones does not change the top-k. */
  lemma BestOfSubset(out: seq<SearchResult>, part: set<SearchResult>, pool: set<SearchResult>, k: nat)
    requires IsBest(out, part, k) && part <= pool
    requires forall x | x in pool && x !in part :: k <= |Nearer(part, x)|
    ensures IsBest(out, pool, k)
  {
    if x :| x in pool && x !in part {
      SubsetSize(Nearer(part, x), part);
      SubsetSize(part, pool);
    } else {
      assert part == pool;
    }
    forall x, y | x in pool && x !in out && y in out
      ensures Less(y, x)
    {
      if x !in part && !Less(y, x) {
        assert Less(x, y);
        StrictSetSize(out);
        assert Nearer(part, x) + {y} <= Elements(out) by {
          forall z | z in Nearer(part, x) ensures z in out { }
        }
        SubsetSize(Nearer(part, x) + {y}, Elements(out));
        assert false;
      }
    }
  }

  lemma LeastExists(s: set<SearchResult>) returns (x: SearchResult)
    requires s != {}
    ensures x in s && forall y | y in s :: Leq(x, y)
    decreases |s|
  {
    x :| x in s;
    if y :| y in s && !Leq(x, y) {
      var first, rest := x, s - {x};
      x := LeastExists(rest);
      assert Less(y, first) && Leq(x, y) && Leq(x, first);
    }
  }

  // ---- When the fast answer is exact ----

  /**
   Every base vector outside the base top-k has `k` nearer visible results among the base top-k that
   is still visible and the live delta.
   */
  ghost predicate EnoughNearer(
    base: seq<Vector>, dist: Distance, visible: map<nat, Record>, dim: nat, k: nat, top: set<SearchResult>)
  {
    var kept, live := Kept(base, dist, visible, dim), LivePool(dist, visible, dim);
    forall u | u in kept && u !in top :: k <= |Nearer(kept * top + live, u)|
  }

  /** What the merge draws from: the visible part of the base top-k and at least the delta top-k. */
  ghost predicate MergePool(
    part: set<SearchResult>, kept: set<SearchResult>, top: set<SearchResult>, live: set<SearchResult>, k: nat)
  {
    && part <= kept * top + live && kept * top <= part
    && exists delta :: IsBest(delta, live, k) && Elements(delta) <= part
  }

  lemma FastIsExact(
    out: seq<SearchResult>, part: set<SearchResult>, kept: set<SearchResult>, top: set<SearchResult>,
    live: set<SearchResult>, k: nat)
    requires MergePool(part, kept, top, live, k) && IsBest(out, part, k)
    requires forall u | u in kept && u !in top :: k <= |Nearer(kept * top + live, u)|
    ensures IsBest(out, kept + live, k)
  {
    var delta :| IsBest(delta, live, k) && Elements(delta) <= part;
    forall x | x in kept + live && x !in part
      ensures k <= |Nearer(part, x)|
    {
      if y :| y in live && y !in part && Leq(y, x) {
        assert y !in delta by { assert y in delta ==> y in Elements(delta); }
        LeftOutHasKNearer(delta, live, k, y);
        StrictSetSize(delta);
        assert Elements(delta) <= Nearer(part, x);
        SubsetSize(Elements(delta), Nearer(part, x));
      } else {
        assert Nearer(kept * top + live, x) <= Nearer(part, x);
        SubsetSize(Nearer(kept * top + live, x), Nearer(part, x));
      }
    }
    BestOfSubset(out, part, kept + live, k);
  }

  lemma ExactNeedsEnough(
    out: seq<SearchResult>, part: set<SearchResult>, kept: set<SearchResult>, top: set<SearchResult>,
    live: set<SearchResult>, k: nat, u: SearchResult)
    requires MergePool(part, kept, top, live, k) && IsBest(out, part, k) && kept !! live
    requires u in kept && u !in top && |Nearer(kept * top + live, u)| < k
    ensures !IsBest(out, kept + live, k)
  {
    var rest := kept - top;
    var v := LeastExists(rest);
    assert Nearer(kept + live, v) <= Nearer(kept * top + live, u) by {
      assert Leq(v, u);
      forall y | y in Nearer(kept + live, v)
        ensures y in Nearer(kept * top + live, u)
      {
        assert y in rest ==> Leq(v, y);
      }
    }
    SubsetSize(Nearer(kept + live, v), Nearer(kept * top + live, u));
    if IsBest(out, kept + live, k) {
      FewNearerIsIn(out, kept + live, k, v);
      assert false;
    }
  }

  lemma PoolsDisjoint(base: seq<Vector>, dist: Distance, visible: map<nat, Record>, dim: nat)
    requires KeyedByNode(visible)
    ensures Kept(base, dist, visible, dim) !! LivePool(dist, visible, dim)
  {
  }

  /** No base top-k id is overridden: then nothing outside the base top-k can be missing. */
  lemma NotOverriddenIsEnough(
    base: seq<Vector>, dist: Distance, visible: map<nat, Record>, dim: nat, k: nat, top: seq<SearchResult>)
    requires IsBest(top, BasePool(base, dist), k)
    requires forall x | x in top :: x.id !in visible
    ensures EnoughNearer(base, dist, visible, dim, k, Elements(top))
  {
    var kept, live := Kept(base, dist, visible, dim), LivePool(dist, visible, dim);
    forall x | x in top
      ensures x in kept
    {
      assert x in BasePool(base, dist);
    }
    forall u | u in kept && u !in Elements(top)
      ensures k <= |Nearer(kept * Elements(top) + live, u)|
    {
      assert u in BasePool(base, dist);
      LeftOutHasKNearer(top, BasePool(base, dist), k, u);
      StrictSetSize(top);
      assert Elements(top) <= Nearer(kept * Elements(top) + live, u);
      SubsetSize(Elements(top), Nearer(kept * Elements(top) + live, u));
    }
  }

  // ---- The operations ----

  function RowResults(base: seq<Vector>, dist: Distance): (rs: seq<SearchResult>)
    ensures |rs| == |base|
  {
    if base == [] then
      []
    else
      RowResults(base[..|base| - 1], dist) + [SearchResult(|base| - 1, dist(base[|base| - 1]))]
  }

  lemma {:induction false} RowResultsAt(base: seq<Vector>, dist: Distance, i: nat)
    requires i < |base|
    ensures RowResults(base, dist)[i] == SearchResult(i, dist(base[i]))
  {
    if i < |base| - 1 {
      RowResultsAt(base[..|base| - 1], dist, i);
    }
  }

  lemma RowResultsPool(base: seq<Vector>, dist: Distance)
    ensures Elements(RowResults(base, dist)) == BasePool(base, dist)
    ensures forall i, j | 0 <= i < j < |base| :: RowResults(base, dist)[i] != RowResults(base, dist)[j]
  {
    forall i | 0 <= i < |base|
      ensures RowResults(base, dist)[i] == SearchResult(i, dist(base[i]))
    {
      RowResultsAt(base, dist, i);
    }
  }

  /** `search_memory_fast`: a bounded heap over all rows finds the top-k of the base. */
  method SearchMemoryFast(base: seq<Vector>, dist: Distance, k: nat) returns (top: seq<SearchResult>)
    requires base != []
    ensures top == Best(RowResults(base, dist), k)
    ensures IsBest(top, BasePool(base, dist), k)
  {
    assert IsBest(Best(RowResults(base, dist), k), BasePool(base, dist), k) by {
      RowResultsPool(base, dist);
      BestIsBest(RowResults(base, dist), k);
    }
    if k == 0 {
      return [];
    }
    var limit := if k < |base| then k else |base|;
    top := ScanRows(base, dist, limit);
  }

  lemma RowResultsStep(base: seq<Vector>, dist: Distance, i: nat)
    requires i < |base|
    ensures RowResults(base[..i + 1], dist) == RowResults(base[..i], dist) + [SearchResult(i, dist(base[i]))]
  {
    assert base[..i + 1][..i] == base[..i];
  }

  method ScanRows(base: seq<Vector>, dist: Distance, limit: nat) returns (heap: seq<SearchResult>)
    requires limit > 0
    ensures heap == Best(RowResults(base, dist), limit)
  {
    heap := [];
    for i := 0 to |base|
      invariant heap == Best(RowResults(base[..i], dist), limit)
    {
      var item := SearchResult(i, dist(base[i]));
      RowResultsStep(base, dist, i);
      BoundedPushIsBest(RowResults(base[..i], dist), limit, item);
      heap := BoundedPush(heap, limit, item);
    }
    assert base[..|base|] == base;
  }

  ghost predicate IdKeyed(m: map<nat, SearchResult>) {
    forall n | n in m :: m[n].id == n
  }

  /** Sorting the values of a result map and truncating: its top-k. */
  method SortedValues(m: map<nat, SearchResult>, k: nat) returns (out: seq<SearchResult>)
    requires IdKeyed(m)
    ensures IsBest(out, m.Values, k)
  {
    var todo := m.Keys;
    var items: seq<SearchResult> := [];
    while todo != {}
      invariant todo <= m.Keys
      invariant forall x | x in items :: x.id in m && x.id !in todo && m[x.id] == x
      invariant forall n | n in m && n !in todo :: m[n] in items
      invariant forall i, j | 0 <= i < j < |items| :: items[i] != items[j]
      decreases |todo|
    {
      var n :| n in todo;
      assert m[n] !in items;
      items := items + [m[n]];
      todo := todo - {n};
    }
    assert Elements(items) == m.Values by {
      forall x | x in m.Values
        ensures x in items
      {
        var n :| n in m && m[n] == x;
      }
    }
    BestIsBest(items, k);
    out := Best(items, k);
  }

  function Results(dist: Distance, rs: seq<Record>): (out: seq<SearchResult>)
    ensures |out| == |rs| && forall i | 0 <= i < |rs| :: out[i] == ResultOf(dist, rs[i])
  {
    seq(|rs|, i requires 0 <= i < |rs| => ResultOf(dist, rs[i]))
  }

  /** `search_delta_l2_at`: the nearest live records of the snapshot, nearest first. */
  method SearchDelta(visible: map<nat, Record>, dist: Distance, dim: nat, k: nat) returns (found: seq<Record>)
    requires KeyedByNode(visible)
    ensures forall r | r in found :: r.node in visible && visible[r.node] == r && Live(r, dim)
    ensures IsBest(Results(dist, found), LivePool(dist, visible, dim), k)
  {
    var scored := map n | n in visible && Live(visible[n], dim) :: ResultOf(dist, visible[n]);
    var best := SortedValues(scored, k);
    assert scored.Values == LivePool(dist, visible, dim) by {
      forall x | x in LivePool(dist, visible, dim)
        ensures x in scored.Values
      {
        var n :| n in visible && Live(visible[n], dim) && x == ResultOf(dist, visible[n]);
        assert scored[n] == x;
      }
    }
    forall x | x in best
      ensures x.id in scored && scored[x.id] == x
    {
      var n :| n in scored && scored[n] == x;
    }
    found := seq(|best|, i requires 0 <= i < |best| => visible[best[i].id]);
    assert Results(dist, found) == best;
  }

  /** One delta record applied to the merged results. */
  function MergeOne(m: map<nat, SearchResult>, r: Record, dist: Distance, dim: nat): map<nat, SearchResult> {
    if r.deleted then m - {r.node} else if !HasDim(r, dim) then m else m[r.node := ResultOf(dist, r)]
  }

  function MergeAll(m: map<nat, SearchResult>, rs: seq<Record>, dist: Distance, dim: nat): map<nat, SearchResult> {
    if rs == [] then m else MergeOne(MergeAll(m, rs[..|rs| - 1], dist, dim), rs[|rs| - 1], dist, dim)
  }

  function ById(rs: seq<SearchResult>): map<nat, SearchResult> {
    if rs == [] then map[] else ById(rs[..|rs| - 1])[rs[|rs| - 1].id := rs[|rs| - 1]]
  }

  /** The base loop. */
  method IndexById(top: seq<SearchResult>) returns (byId: map<nat, SearchResult>)
    ensures byId == ById(top)
  {
    byId := map[];
    for i := 0 to |top|
      invariant byId == ById(top[..i])
    {
      assert top[..i + 1][..i] == top[..i];
      byId := byId[top[i].id := top[i]];
    }
    assert top[..|top|] == top;
  }

  /** The record loop. */
  method ApplyAll(base: map<nat, SearchResult>, records: seq<Record>, dist: Distance, dim: nat)
    returns (byId: map<nat, SearchResult>)
    ensures byId == MergeAll(base, records, dist, dim)
  {
    byId := base;
    for i := 0 to |records|
      invariant byId == MergeAll(base, records[..i], dist, dim)
    {
      assert records[..i + 1][..i] == records[..i];
      byId := MergeOne(byId, records[i], dist, dim);
    }
    assert records[..|records|] == records;
  }

  /** `merge_base_and_delta_l2`. */
  method MergeBaseAndDelta(top: seq<SearchResult>, records: seq<Record>, dist: Distance, dim: nat, k: nat)
    returns (out: seq<SearchResult>)
    requires IdKeyed(MergeAll(ById(top), records, dist, dim))
    ensures dim == 0 ==> out == []
    ensures dim > 0 ==> IsBest(out, MergeAll(ById(top), records, dist, dim).Values, k)
  {
    if dim == 0 || k == 0 {
      return [];
    }
    var byId := IndexById(top);
    byId := ApplyAll(byId, records, dist, dim);
    out := SortedValues(byId, k);
  }

  ghost predicate Listed(rs: seq<Record>, n: nat) {
    exists i | 0 <= i < |rs| :: rs[i].node == n
  }

  /** Records of one snapshot overwrite the base results of their nodes, whatever their order. */
  lemma {:induction false} MergeAllOf(
    m: map<nat, SearchResult>, rs: seq<Record>, dist: Distance, dim: nat, visible: map<nat, Record>, n: nat)
    requires forall r | r in rs :: r.node in visible && visible[r.node] == r
    ensures var out := MergeAll(m, rs, dist, dim);
            if Listed(rs, n) && visible[n].deleted then n !in out
            else if Listed(rs, n) && HasDim(visible[n], dim) then n in out && out[n] == ResultOf(dist, visible[n])
            else (n in out <==> n in m) && (n in m ==> out[n] == m[n])
  {
    if rs != [] {
      var t, r := rs[..|rs| - 1], rs[|rs| - 1];
      assert forall q | q in t :: q in rs;
      MergeAllOf(m, t, dist, dim, visible, n);
      assert r in rs;
      assert Listed(rs, n) <==> Listed(t, n) || r.node == n by {
        if Listed(t, n) {
          var i :| 0 <= i < |t| && t[i].node == n;
          assert rs[i].node == n;
        }
        if Listed(rs, n) {
          var i :| 0 <= i < |rs| && rs[i].node == n;
          if i < |t| { assert t[i].node == n; }
        }
      }
    }
  }

  /** What a reader loads from a view at sequence `s`; a closed view shows nothing. */
  function Load(v: View, s: nat): map<nat, Record> {
    if v.live then VisibleAt(v.history, s) else map[]
  }

  lemma LoadKeyed(v: View, s: nat)
    ensures KeyedByNode(Load(v, s))
  {
    if v.live {
      VisibleAtIsNewest(v.history, s);
    }
  }

  /** `latest_records_for`: the visible records of the wanted nodes, tombstones included. */
  function Overrides(visible: map<nat, Record>, wanted: seq<SearchResult>): map<nat, Record> {
    map n | n in (set x | x in wanted :: x.id) && n in visible :: visible[n]
  }

  lemma {:induction false} ByIdHas(rs: seq<SearchResult>)
    requires DistinctIds(rs)
    ensures forall x | x in rs :: x.id in ById(rs) && ById(rs)[x.id] == x
    ensures forall n | n in ById(rs) :: ById(rs)[n] in rs && ById(rs)[n].id == n
  {
    if rs != [] {
      ByIdHas(rs[..|rs| - 1]);
      assert forall x | x in rs :: x == rs[|rs| - 1] || x in rs[..|rs| - 1];
    }
  }

  function MergeInput(top: seq<SearchResult>, found: seq<Record>, visible: map<nat, Record>): seq<Record> {
    found + Listing(Overrides(visible, top))
  }

  ghost predicate FromSnapshot(found: seq<Record>, visible: map<nat, Record>, dim: nat) {
    forall r | r in found :: r.node in visible && visible[r.node] == r && Live(r, dim)
  }

  /** The merge applies the snapshot's record of every node it mentions, and of every overridden base result. */
  lemma InputRecords(top: seq<SearchResult>, found: seq<Record>, visible: map<nat, Record>, dim: nat)
    requires KeyedByNode(visible) && FromSnapshot(found, visible, dim)
    ensures forall r | r in MergeInput(top, found, visible) :: r.node in visible && visible[r.node] == r
  {
    var over := Overrides(visible, top);
    ListingIsSorted(over);
    forall r | r in MergeInput(top, found, visible)
      ensures r.node in visible && visible[r.node] == r
    {
      if r !in found {
        assert r in Elements(Listing(over));
      }
    }
  }

  lemma InputLists(top: seq<SearchResult>, found: seq<Record>, visible: map<nat, Record>, n: nat)
    requires KeyedByNode(visible)
    ensures n in visible && (exists x | x in top :: x.id == n) ==> Listed(MergeInput(top, found, visible), n)
    ensures Listed(found, n) ==> Listed(MergeInput(top, found, visible), n)
  {
    var over, rs := Overrides(visible, top), MergeInput(top, found, visible);
    ListingIsSorted(over);
    if n in visible && exists x | x in top :: x.id == n {
      assert n in over && over[n] in over.Values;
      assert over[n] in Elements(Listing(over));
      assert over[n] in rs;
      var i :| 0 <= i < |rs| && rs[i] == over[n];
      assert rs[i].node == n;
    }
    if Listed(found, n) {
      var i :| 0 <= i < |found| && found[i].node == n;
      assert rs[i].node == n;
    }
  }

  ghost function Merged(
    top: seq<SearchResult>, found: seq<Record>, dist: Distance, dim: nat, visible: map<nat, Record>): map<nat, SearchResult>
  {
    MergeAll(ById(top), MergeInput(top, found, visible), dist, dim)
  }

  /** The merged result of one node: its live record's, else its base result unless that is hidden. */
  lemma MergedAt(
    top: seq<SearchResult>, found: seq<Record>, dist: Distance, dim: nat, visible: map<nat, Record>, n: nat)
    requires DistinctIds(top) && KeyedByNode(visible) && FromSnapshot(found, visible, dim)
    ensures var m := Merged(top, found, dist, dim, visible);
            && (n in m && n in visible && Live(visible[n], dim) ==> m[n] == ResultOf(dist, visible[n]))
            && (n in m && !(n in visible && Live(visible[n], dim)) ==>
                  m[n] in top && m[n].id == n && (n in visible ==> !visible[n].deleted))
            && (n in ById(top) && (n in visible ==> !visible[n].deleted && !HasDim(visible[n], dim)) ==>
                  n in m && m[n] == ById(top)[n])
            && (Listed(found, n) ==> n in m && m[n] == ResultOf(dist, visible[n]))
  {
    ByIdHas(top);
    InputRecords(top, found, visible, dim);
    InputLists(top, found, visible, n);
    MergeAllOf(ById(top), MergeInput(top, found, visible), dist, dim, visible, n);
    if Listed(MergeInput(top, found, visible), n) {
      ListedVisible(MergeInput(top, found, visible), visible, n);
    }
    if Listed(found, n) {
      var i :| 0 <= i < |found| && found[i].node == n;
      assert found[i] in found;
    }
  }

  lemma ListedVisible(rs: seq<Record>, visible: map<nat, Record>, n: nat)
    requires Listed(rs, n) && forall r | r in rs :: r.node in visible && visible[r.node] == r
    ensures n in visible
  {
    var i :| 0 <= i < |rs| && rs[i].node == n;
    assert rs[i] in rs;
  }

  lemma MergedIds(top: seq<SearchResult>, found: seq<Record>, dist: Distance, dim: nat, visible: map<nat, Record>)
    requires DistinctIds(top) && KeyedByNode(visible) && FromSnapshot(found, visible, dim)
    ensures IdKeyed(Merged(top, found, dist, dim, visible))
  {
    forall n | n in Merged(top, found, dist, dim, visible)
      ensures Merged(top, found, dist, dim, visible)[n].id == n
    {
      MergedAt(top, found, dist, dim, visible, n);
    }
  }

  /**
   The read protocol after a base search: overrides and delta come from views loaded at different
   times, but both at the sequence taken before the search. No deleted node is returned, and every
   returned distance is that of the node's latest version visible at that sequence.
   */
  method SearchWithDelta(top: seq<SearchResult>, first: View, second: View, s: nat, dist: Distance, dim: nat, k: nat)
    returns (out: seq<SearchResult>, ghost found: seq<Record>)
    requires DistinctIds(top) && dim > 0
    requires first.live && second.live && SameUpTo(first, second) && s <= first.latest
    ensures |out| <= k
    ensures var visible := VisibleAt(first.history, s);
            forall x | x in out ::
              if x.id in visible && Live(visible[x.id], dim) then x == ResultOf(dist, visible[x.id])
              else x in top && (x.id in visible ==> !visible[x.id].deleted)
    ensures var visible := VisibleAt(first.history, s);
            && KeyedByNode(visible) && FromSnapshot(found, visible, dim)
            && IsBest(Results(dist, found), LivePool(dist, visible, dim), k)
            && IsBest(out, Merged(top, found, dist, dim, visible).Values, k)
  {
    var overridden := Overrides(Load(first, s), top);
    var visible := Load(second, s);
    assert visible == VisibleAt(first.history, s) == Load(first, s);
    LoadKeyed(second, s);
    var delta := SearchDelta(visible, dist, dim, k);
    found := delta;
    MergedIds(top, found, dist, dim, visible);
    var records := delta + Listing(overridden);
    assert records == MergeInput(top, found, visible);
    out := MergeBaseAndDelta(top, records, dist, dim, k);
    ghost var m := Merged(top, found, dist, dim, visible);
    forall x | x in out
      ensures if x.id in visible && Live(visible[x.id], dim) then x == ResultOf(dist, visible[x.id])
              else x in top && (x.id in visible ==> !visible[x.id].deleted)
    {
      assert x in m.Values;
      var n :| n in m && m[n] == x;
      MergedAt(top, found, dist, dim, visible, n);
    }
  }

  lemma MergedIsPool(
    base: seq<Vector>, top: seq<SearchResult>, found: seq<Record>, dist: Distance, dim: nat, visible: map<nat, Record>, k: nat)
    requires KeyedByNode(visible) && FromSnapshot(found, visible, dim)
    requires IsBest(top, BasePool(base, dist), k) && DistinctIds(top)
    requires IsBest(Results(dist, found), LivePool(dist, visible, dim), k)
    ensures MergePool(Merged(top, found, dist, dim, visible).Values,
                      Kept(base, dist, visible, dim), Elements(top), LivePool(dist, visible, dim), k)
  {
    var m := Merged(top, found, dist, dim, visible);
    var kept, live := Kept(base, dist, visible, dim), LivePool(dist, visible, dim);
    forall x | x in m.Values
      ensures x in kept * Elements(top) + live
    {
      var n :| n in m && m[n] == x;
      MergedAt(top, found, dist, dim, visible, n);
      if n in visible && Live(visible[n], dim) {
        assert x in live;
      } else {
        assert x in BasePool(base, dist);
        assert x in kept;
      }
    }
    forall x | x in kept * Elements(top)
      ensures x in m.Values
    {
      ByIdHas(top);
      MergedAt(top, found, dist, dim, visible, x.id);
      assert m[x.id] == x;
    }
    var delta := Results(dist, found);
    forall x | x in Elements(delta)
      ensures x in m.Values
    {
      var i :| 0 <= i < |delta| && delta[i] == x;
      assert found[i].node == x.id && found[i] in found && Listed(found, x.id);
      MergedAt(top, found, dist, dim, visible, x.id);
      assert m[x.id] == x;
    }
  }

  lemma StrictlyBestDistinct(top: seq<SearchResult>, base: seq<Vector>, dist: Distance, k: nat)
    requires IsBest(top, BasePool(base, dist), k)
    ensures DistinctIds(top)
  {
    forall i, j | 0 <= i < j < |top|
      ensures top[i].id != top[j].id
    {
      assert top[i] in BasePool(base, dist) && top[j] in BasePool(base, dist);
      assert Less(top[i], top[j]);
    }
  }

  /**
   `search_memory_with_delta`. Its answer is the exact one if and only if every base vector outside
   the base top-k has `k` nearer visible results; in particular if no base top-k id is overridden.
   In every case it returns only visible nodes at their latest visible distance.
   */
  method SearchMemoryWithDelta(base: seq<Vector>, first: View, second: View, s: nat, dist: Distance, dim: nat, k: nat)
    returns (out: seq<SearchResult>)
    requires base != [] && dim > 0
    requires first.live && second.live && SameUpTo(first, second) && s <= first.latest
    ensures var visible, top := VisibleAt(first.history, s), Best(RowResults(base, dist), k);
            && (IsBest(out, ExactPool(base, dist, visible, dim), k) <==>
                EnoughNearer(base, dist, visible, dim, k, Elements(top)))
            && ((forall x | x in top :: x.id !in visible) ==> IsBest(out, ExactPool(base, dist, visible, dim), k))
            && (forall x | x in out :: x in ExactPool(base, dist, visible, dim))
    ensures |out| <= k
  {
    var top := SearchMemoryFast(base, dist, k);
    StrictlyBestDistinct(top, base, dist, k);
    ghost var found;
    out, found := SearchWithDelta(top, first, second, s, dist, dim, k);
    ghost var visible := VisibleAt(first.history, s);
    ExactIff(base, top, found, dist, dim, visible, k, out);
  }

  lemma ExactIff(
    base: seq<Vector>, top: seq<SearchResult>, found: seq<Record>, dist: Distance, dim: nat,
    visible: map<nat, Record>, k: nat, out: seq<SearchResult>)
    requires KeyedByNode(visible) && FromSnapshot(found, visible, dim)
    requires IsBest(top, BasePool(base, dist), k) && DistinctIds(top)
    requires IsBest(Results(dist, found), LivePool(dist, visible, dim), k)
    requires IsBest(out, Merged(top, found, dist, dim, visible).Values, k)
    ensures IsBest(out, ExactPool(base, dist, visible, dim), k) <==>
            EnoughNearer(base, dist, visible, dim, k, Elements(top))
    ensures (forall x | x in top :: x.id !in visible) ==> IsBest(out, ExactPool(base, dist, visible, dim), k)
    ensures forall x | x in out :: x in ExactPool(base, dist, visible, dim)
  {
    MergedIsPool(base, top, found, dist, dim, visible, k);
    PoolsDisjoint(base, dist, visible, dim);
    var kept, live, part := Kept(base, dist, visible, dim), LivePool(dist, visible, dim), Merged(top, found, dist, dim, visible).Values;
    if EnoughNearer(base, dist, visible, dim, k, Elements(top)) {
      FastIsExact(out, part, kept, Elements(top), live, k);
    } else {
      var u :| u in kept && u !in Elements(top) && |Nearer(kept * Elements(top) + live, u)| < k;
      ExactNeedsEnough(out, part, kept, Elements(top), live, k, u);
    }
    if forall x | x in top :: x.id !in visible {
      NotOverriddenIsEnough(base, dist, visible, dim, k, top);
    }
  }

  /** The condition is real: with the only base top-1 vector deleted, the fast answer is empty and the exact one is not. */
  lemma DeletedTopIsMissed(dist: Distance, a: Vector, b: Vector)
    requires dist(a) < dist(b)
    ensures var visible := map[0 := Record(1, 0, 0, [], [], true)];
            && Best(RowResults([a, b], dist), 1) == [SearchResult(0, dist(a))]
            && !EnoughNearer([a, b], dist, visible, 1, 1, {SearchResult(0, dist(a))})
            && IsBest([SearchResult(1, dist(b))], ExactPool([a, b], dist, visible, 1), 1)
            && forall found, out | FromSnapshot(found, visible, 1)
                   && IsBest(out, Merged([SearchResult(0, dist(a))], found, dist, 1, visible).Values, 1) :: out == []
  {
    var visible := map[0 := Record(1, 0, 0, [], [], true)];
    var x, y := SearchResult(0, dist(a)), SearchResult(1, dist(b));
    TwoRows(dist, a, b);
    DeletedTopPools(dist, a, b, visible, x, y);
    forall found, out | FromSnapshot(found, visible, 1) && IsBest(out, Merged([x], found, dist, 1, visible).Values, 1)
      ensures out == []
    {
      OnlyTombstone(x, found, dist, visible);
    }
  }

  lemma DeletedTopPools(
      dist: Distance, a: Vector, b: Vector, visible: map<nat, Record>, x: SearchResult, y: SearchResult)
    requires dist(a) < dist(b) && visible == map[0 := Record(1, 0, 0, [], [], true)]
    requires x == SearchResult(0, dist(a)) && y == SearchResult(1, dist(b))
    ensures !EnoughNearer([a, b], dist, visible, 1, 1, {x}) && ExactPool([a, b], dist, visible, 1) == {y}
  {
    var kept, live := Kept([a, b], dist, visible, 1), LivePool(dist, visible, 1);
    assert live == {};
    assert kept == {y} by {
      assert [a, b][1] == b && y in kept;
    }
    assert Nearer(kept * {x} + live, y) == {};
  }

  lemma OnlyTombstone(x: SearchResult, found: seq<Record>, dist: Distance, visible: map<nat, Record>)
    requires x.id == 0 && visible == map[0 := Record(1, 0, 0, [], [], true)] && FromSnapshot(found, visible, 1)
    ensures Merged([x], found, dist, 1, visible) == map[]
  {
    forall n
      ensures n !in Merged([x], found, dist, 1, visible)
    {
      MergedAt([x], found, dist, 1, visible, n);
    }
  }

  lemma TwoRows(dist: Distance, a: Vector, b: Vector)
    requires dist(a) < dist(b)
    ensures Best(RowResults([a, b], dist), 1) == [SearchResult(0, dist(a))]
  {
    var x, y := SearchResult(0, dist(a)), SearchResult(1, dist(b));
    var pool := BasePool([a, b], dist);
    assert x in pool && y in pool && pool == {x, y};
    RowResultsPool([a, b], dist);
    BestIsBest(RowResults([a, b], dist), 1);
    IsBestUnique(Best(RowResults([a, b], dist), 1), [x], pool, 1);
  }

  predicate Shown(base: seq<Vector>, latest: map<nat, Record>, dim: nat, n: nat) {
    if n in latest then !latest[n].deleted && (HasDim(latest[n], dim) || n < |base|) else n < |base|
  }

  function ShownAs(base: seq<Vector>, dist: Distance, latest: map<nat, Record>, dim: nat, n: nat): SearchResult
    requires Shown(base, latest, dim, n)
  {
    if n in latest && HasDim(latest[n], dim) then SearchResult(n, dist(latest[n].vector)) else SearchResult(n, dist(base[n]))
  }

  lemma ShownIsExact(
    base: seq<Vector>, dist: Distance, latest: map<nat, Record>, dim: nat, m: map<nat, SearchResult>)
    requires KeyedByNode(latest)
    requires forall n: nat :: n in m <==> Shown(base, latest, dim, n)
    requires forall n | n in m :: m[n] == ShownAs(base, dist, latest, dim, n)
    ensures m.Values == ExactPool(base, dist, latest, dim)
  {
    forall x | x in m.Values
      ensures x in ExactPool(base, dist, latest, dim)
    {
      var n :| n in m && m[n] == x;
      if n in latest && HasDim(latest[n], dim) {
        assert x == ResultOf(dist, latest[n]) && x in LivePool(dist, latest, dim);
      } else {
        assert x in Kept(base, dist, latest, dim);
      }
    }
    forall x | x in ExactPool(base, dist, latest, dim)
      ensures x in m.Values
    {
      if x in Kept(base, dist, latest, dim) {
        var i :| 0 <= i < |base| && (i in latest ==> !latest[i].deleted && !HasDim(latest[i], dim))
                 && x == SearchResult(i, dist(base[i]));
        assert m[i] == x;
      } else {
        var n :| n in latest && Live(latest[n], dim) && x == ResultOf(dist, latest[n]);
        assert m[n] == x;
      }
    }
  }

  /** `exact_dynamic_topk`: every visible vector is scored, sorted and truncated. */
  method ExactDynamicTopk(base: seq<Vector>, latest: map<nat, Record>, dist: Distance, dim: nat, k: nat)
    returns (out: seq<SearchResult>)
    requires KeyedByNode(latest)
    ensures IsBest(out, ExactPool(base, dist, latest, dim), k)
  {
    var results := ScoreBase(base, latest, dist, dim);
    var extra := map n | n in latest && n >= |base| && Live(latest[n], dim) :: SearchResult(n, dist(latest[n].vector));
    ShownIsExact(base, dist, latest, dim, results + extra);
    out := SortedValues(results + extra, k);
  }

  /** The base loop of `exact_dynamic_topk`. */
  method ScoreBase(base: seq<Vector>, latest: map<nat, Record>, dist: Distance, dim: nat)
    returns (results: map<nat, SearchResult>)
    ensures forall n: nat :: n in results <==> n < |base| && Shown(base, latest, dim, n)
    ensures forall n | n in results :: results[n] == ShownAs(base, dist, latest, dim, n)
  {
    results := map[];
    var id := 0;
    while id < |base|
      invariant 0 <= id <= |base|
      invariant forall n: nat :: n in results <==> n < id && Shown(base, latest, dim, n)
      invariant forall n | n in results :: results[n] == ShownAs(base, dist, latest, dim, n)
    {
      if id in latest && latest[id].deleted {
      } else if id in latest && HasDim(latest[id], dim) {
        results := results[id := SearchResult(id, dist(latest[id].vector))];
      } else {
        results := results[id := SearchResult(id, dist(base[id]))];
      }
      id := id + 1;
    }
  }
}
