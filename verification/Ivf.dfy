/** The IVF delta index: buckets of vectors by nearest centroid, and top-k over the probed buckets. */
module Ivf {
  import opened Sealing
  import opened Division
  import opened TopK
  import opened PageCache

  type Vector = seq<real>

  datatype Item = Item(id: nat, vector: Vector)

  /** Distance of two vectors; any function. */
  type Distance = (Vector, Vector) -> real

  /** Trained centroids for the stored items, by number; any training procedure. */
  type Training = seq<Item> -> (nat -> Vector)

  // ---- Buckets ----

  lemma {:induction false} FlatAdd(buckets: seq<seq<Item>>, b: nat, x: Item)
    requires b < |buckets|
    ensures multiset(Flatten(buckets[b := buckets[b] + [x]])) == multiset(Flatten(buckets)) + multiset{x}
  {
    var next, n := buckets[b := buckets[b] + [x]], |buckets| - 1;
    if b == n {
      assert next[..n] == buckets[..n];
    } else {
      assert next[..n] == buckets[..n][b := buckets[..n][b] + [x]];
      FlatAdd(buckets[..n], b, x);
    }
  }

  lemma {:induction false} FlatEmpty(buckets: seq<seq<Item>>)
    requires forall b | 0 <= b < |buckets| :: buckets[b] == []
    ensures Flatten(buckets) == []
  {
    if buckets != [] { FlatEmpty(buckets[..|buckets| - 1]); }
  }

  /** The first of the nearest `count` centroids. */
  ghost predicate IsNearest(dist: Distance, centroids: nat -> Vector, count: nat, v: Vector, best: nat) {
    && best < count
    && (forall c | 0 <= c < count :: dist(v, centroids(best)) <= dist(v, centroids(c)))
    && (forall c | 0 <= c < best :: dist(v, centroids(best)) < dist(v, centroids(c)))
  }

  /** `nearest_centroid_in_range`. */
  method NearestInRange(dist: Distance, centroids: nat -> Vector, count: nat, v: Vector) returns (best: nat)
    requires count > 0
    ensures IsNearest(dist, centroids, count, v, best)
  {
    best := 0;
    for c := 1 to count
      invariant IsNearest(dist, centroids, c, v, best)
    {
      if dist(v, centroids(c)) < dist(v, centroids(best)) {
        best := c;
      }
    }
  }

  /** Every item is in the bucket of its nearest centroid, and buckets beyond those in use are empty. */
  ghost predicate Placed(dist: Distance, centroids: nat -> Vector, count: nat, buckets: seq<seq<Item>>) {
    forall b, x | 0 <= b < |buckets| && x in buckets[b] :: IsNearest(dist, centroids, count, x.vector, b)
  }

  lemma PlacedAdd(dist: Distance, centroids: nat -> Vector, count: nat, buckets: seq<seq<Item>>, b: nat, x: Item)
    requires Placed(dist, centroids, count, buckets) && b < |buckets| && IsNearest(dist, centroids, count, x.vector, b)
    ensures Placed(dist, centroids, count, buckets[b := buckets[b] + [x]])
  {
  }

  /** The items in a list of buckets. */
  ghost function Probed(buckets: seq<seq<Item>>, probes: seq<nat>): seq<Item> {
    if probes == [] then
      []
    else
      var p := probes[|probes| - 1];
      Probed(buckets, probes[..|probes| - 1]) + (if p < |buckets| then buckets[p] else [])
  }

  ghost function Scored(dist: Distance, query: Vector, items: seq<Item>): seq<SearchResult> {
    if items == [] then
      []
    else
      var x := items[|items| - 1];
      Scored(dist, query, items[..|items| - 1]) + [SearchResult(x.id, dist(query, x.vector))]
  }

  lemma {:induction false} ScoredConcat(dist: Distance, query: Vector, a: seq<Item>, b: seq<Item>)
    ensures Scored(dist, query, a + b) == Scored(dist, query, a) + Scored(dist, query, b)
  {
    if b == [] {
      assert a + b == a;
    } else {
      ScoredConcat(dist, query, a, b[..|b| - 1]);
      assert (a + b)[..|a + b| - 1] == a + b[..|b| - 1];
    }
  }

  /** Scoring does not care about order. */
  lemma {:induction false} ScoredMultiset(dist: Distance, query: Vector, a: seq<Item>, b: seq<Item>)
    requires multiset(a) == multiset(b)
    ensures multiset(Scored(dist, query, a)) == multiset(Scored(dist, query, b))
    decreases |a|
  {
    assert |a| == |multiset(a)| == |multiset(b)| == |b|;
    if a != [] {
      var n := |a| - 1;
      var x, rest := a[n], a[..n];
      assert a == rest + [x];
      assert x in multiset(b);
      var i :| 0 <= i < |b| && b[i] == x;
      ScoredRemove(dist, query, b, i);
      ScoredMultiset(dist, query, rest, b[..i] + b[i + 1..]);
    }
  }

  lemma ScoredRemove(dist: Distance, query: Vector, b: seq<Item>, i: nat)
    requires i < |b|
    ensures multiset(b[..i] + b[i + 1..]) == multiset(b) - multiset{b[i]}
    ensures multiset(Scored(dist, query, b))
            == multiset(Scored(dist, query, b[..i] + b[i + 1..])) + multiset{SearchResult(b[i].id, dist(query, b[i].vector))}
  {
    var left, x, right := b[..i], b[i], b[i + 1..];
    assert b == left + [x] + right;
    ScoredConcat(dist, query, left, right);
    ScoredConcat(dist, query, left + [x], right);
    ScoredConcat(dist, query, left, [x]);
    assert Scored(dist, query, [x]) == [SearchResult(x.id, dist(query, x.vector))];
  }

  /** Probing the first `n` buckets once, in any order, sees each of their items once. */
  lemma {:induction false} ProbeSome(buckets: seq<seq<Item>>, probes: seq<nat>, n: nat)
    requires n <= |buckets| && Distinct(probes) && forall b: nat :: b in probes <==> b < n
    ensures multiset(Probed(buckets, probes)) == multiset(Flatten(buckets[..n]))
  {
    if n == 0 {
      assert Elements(probes) == {};
      DistinctSetSize(probes);
    } else {
      assert n - 1 in probes;
      var i :| 0 <= i < |probes| && probes[i] == n - 1;
      var rest := DropAt(probes, i);
      OthersLeft(probes, i, n);
      DropAtDistinct(probes, i);
      ProbeSome(buckets, rest, n - 1);
      ProbedDrop(buckets, probes, i);
      assert buckets[..n][..n - 1] == buckets[..n - 1];
    }
  }

  lemma OthersLeft(probes: seq<nat>, i: nat, n: nat)
    requires Distinct(probes) && (forall b: nat :: b in probes <==> b < n) && i < |probes| && probes[i] == n - 1
    ensures forall b: nat :: b in DropAt(probes, i) <==> b < n - 1
  {
    DropAtElements(probes, i);
    forall b: nat
      ensures b in DropAt(probes, i) <==> b < n - 1
    {
      assert b in DropAt(probes, i) <==> b in Elements(DropAt(probes, i));
      assert b in probes <==> b in Elements(probes);
    }
  }

  lemma DropAtDistinct(s: seq<nat>, i: nat)
    requires Distinct(s) && i < |s|
    ensures Distinct(DropAt(s, i))
  {
    DropAtIndex(s, i);
  }

  lemma {:induction false} ProbedDrop(buckets: seq<seq<Item>>, probes: seq<nat>, i: nat)
    requires i < |probes| && probes[i] < |buckets|
    ensures multiset(Probed(buckets, probes)) == multiset(Probed(buckets, DropAt(probes, i))) + multiset(buckets[probes[i]])
  {
    var n := |probes| - 1;
    if i == n {
      assert DropAt(probes, i) == probes[..n];
    } else {
      ProbedDrop(buckets, probes[..n], i);
      DropAtFront(probes, i);
    }
  }

  lemma DropAtFront(s: seq<nat>, i: nat)
    requires i < |s| - 1
    ensures var d := DropAt(s, i);
            d != [] && d[..|d| - 1] == DropAt(s[..|s| - 1], i) && d[|d| - 1] == s[|s| - 1]
  {
  }

  // ---- Probes ----

  ghost function CentroidScores(dist: Distance, centroids: nat -> Vector, count: nat, query: Vector): (s: seq<SearchResult>)
    ensures |s| == count
    ensures forall i | 0 <= i < count :: s[i] == SearchResult(i, dist(query, centroids(i)))
  {
    if count == 0 then
      []
    else
      CentroidScores(dist, centroids, count - 1, query) + [SearchResult(count - 1, dist(query, centroids(count - 1)))]
  }

  /** Nearer to the query, or equally near with a smaller number. */
  ghost predicate Closer(dist: Distance, centroids: nat -> Vector, query: Vector, a: nat, b: nat) {
    var x, y := dist(query, centroids(a)), dist(query, centroids(b));
    x < y || (x == y && a < b)
  }

  /** As many of the `count` centroids as there are probes, in order, and no other centroid is closer. */
  ghost predicate AreClosest(
      dist: Distance, centroids: nat -> Vector, count: nat, query: Vector, probeCount: nat, probes: seq<nat>)
  {
    && |probes| == (if probeCount < count then probeCount else count)
    && Distinct(probes) && (forall p | p in probes :: p < count)
    && (forall i, j | 0 <= i < j < |probes| :: Closer(dist, centroids, query, probes[i], probes[j]))
    && forall p, c | p in probes && 0 <= c < count && c !in probes :: Closer(dist, centroids, query, p, c)
  }

  lemma BestAreClosest(dist: Distance, centroids: nat -> Vector, count: nat, query: Vector, probeCount: nat)
    ensures AreClosest(dist, centroids, count, query, probeCount,
                       IdsOf(Best(CentroidScores(dist, centroids, count, query), probeCount)))
  {
    var scores := CentroidScores(dist, centroids, count, query);
    var best := Best(scores, probeCount);
    var probes := IdsOf(best);
    forall i | 0 <= i < |best|
      ensures probes[i] < count && best[i] == scores[probes[i]]
    {
      BestEntry(dist, centroids, count, query, probeCount, i);
    }
    forall i, j | 0 <= i < j < |probes|
      ensures Closer(dist, centroids, query, probes[i], probes[j]) && probes[i] != probes[j]
    {
      BestOrder(scores, probeCount, count, i, j);
    }
    forall p, c | p in probes && 0 <= c < count && c !in probes
      ensures Closer(dist, centroids, query, p, c)
    {
      var i :| 0 <= i < |probes| && probes[i] == p;
      BestLeavesOut(scores, probeCount, i, c);
    }
  }

  lemma BestEntry(dist: Distance, centroids: nat -> Vector, count: nat, query: Vector, probeCount: nat, i: nat)
    requires i < |Best(CentroidScores(dist, centroids, count, query), probeCount)|
    ensures var scores := CentroidScores(dist, centroids, count, query);
            var r := Best(scores, probeCount)[i]; r.id < count && r == scores[r.id]
  {
    var scores := CentroidScores(dist, centroids, count, query);
    BestIsBest(scores, probeCount);
    assert Best(scores, probeCount)[i] in Best(scores, probeCount);
    assert Best(scores, probeCount)[i] in Elements(scores);
  }

  lemma BestOrder(scores: seq<SearchResult>, k: nat, count: nat, i: nat, j: nat)
    requires |scores| == count && (forall c | 0 <= c < count :: scores[c].id == c) && i < j < |Best(scores, k)|
    ensures Less(Best(scores, k)[i], Best(scores, k)[j])
  {
    BestIsBest(scores, k);
  }

  lemma BestLeavesOut(scores: seq<SearchResult>, k: nat, i: nat, c: nat)
    requires (forall d | 0 <= d < |scores| :: scores[d].id == d) && i < |Best(scores, k)| && c < |scores|
    requires c !in IdsOf(Best(scores, k))
    ensures Less(Best(scores, k)[i], scores[c])
  {
    BestIsBest(scores, k);
    var best := Best(scores, k);
    forall r | r in best
      ensures r.id in IdsOf(best)
    {
      var j :| 0 <= j < |best| && best[j] == r;
      assert IdsOf(best)[j] == r.id;
    }
    assert scores[c] in Elements(scores) && best[i] in best;
  }

  // ---- The index ----

  /**
   With `n` vectors, all but the last `dirty` had arrived when the centroids were trained: all of them while
   there are at most `count`, and later a whole number of intervals beyond `count`, less than one interval ago.
   */
  ghost predicate OnSchedule(n: nat, dirty: nat, count: nat, interval: nat)
    requires interval > 0
  {
    && dirty <= n && dirty < interval
    && if n <= count then dirty == 0 else n - dirty >= count && Intervals(n - dirty - count, interval)
  }

  /** A whole number of intervals. */
  ghost predicate Intervals(n: nat, interval: nat)
    requires interval > 0
  {
    forall name {:trigger Unsealed(name)} | Unsealed(name) && name == RebuildDue :: n % interval == 0
  }

  lemma NextOnSchedule(n: nat, dirty: nat, count: nat, interval: nat)
    requires interval > 0 && OnSchedule(n, dirty, count, interval)
    ensures if n < count || dirty + 1 >= interval then OnSchedule(n + 1, 0, count, interval)
            else OnSchedule(n + 1, dirty + 1, count, interval)
  {
    assert Unsealed(RebuildDue);
    if n >= count && dirty + 1 == interval {
      AddDivisor(n - dirty - count, interval);
    }
  }

  /** Every item lies in exactly one bucket: the one of its nearest centroid. */
  ghost predicate Stored(dist: Distance, centroids: nat -> Vector, count: nat, buckets: seq<seq<Item>>, items: seq<Item>) {
    forall name {:trigger Unsealed(name)} | Unsealed(name) && name == BucketsHold ::
      multiset(Flatten(buckets)) == multiset(items) && Placed(dist, centroids, count, buckets)
  }

  class DeltaIvfFlatIndex {
    const dist: Distance
    const train: Training
    const centroidCount: nat
    const probeCount: nat
    const rebuildInterval: nat
    /** Every stored vector, in insertion order (`all_ids_`, `all_values_`). */
    var all: seq<Item>
    var centroids: nat -> Vector
    var initialized: nat
    var buckets: seq<seq<Item>>
    var dirty: nat

    /**
     Every stored vector lies in exactly one bucket: the one of its nearest centroid. The centroids were
     trained on all vectors but the last `dirty`.
     */
    ghost predicate Valid()
      reads this
    {
      && centroidCount > 0 && probeCount > 0 && rebuildInterval > 0
      && |buckets| == centroidCount
      && initialized == (if |all| < centroidCount then |all| else centroidCount)
      && Stored(dist, centroids, initialized, buckets, all)
      && OnSchedule(|all|, dirty, centroidCount, rebuildInterval)
      && (all != [] ==> centroids == train(all[..|all| - dirty]))
    }

    constructor (dist: Distance, train: Training, centroidCount: nat, probeCount: nat, rebuildInterval: nat)
      requires centroidCount > 0 && probeCount > 0 && rebuildInterval > 0
      ensures Valid() && all == []
    {
      this.dist, this.train := dist, train;
      this.centroidCount, this.probeCount, this.rebuildInterval := centroidCount, probeCount, rebuildInterval;
      all, initialized, dirty := [], 0, 0;
      centroids := _ => [];
      buckets := seq(centroidCount, _ => []);
      new;
      FlatEmpty(buckets);
    }

    /** `insert`: stores the vector, then places it or rebuilds all buckets. */
    method Insert(id: nat, vector: Vector)
      requires Valid()
      modifies this
      ensures Valid() && all == old(all) + [Item(id, vector)]
    {
      NextOnSchedule(|all|, dirty, centroidCount, rebuildInterval);
      all := all + [Item(id, vector)];
      dirty := dirty + 1;
      if |all| <= centroidCount || dirty >= rebuildInterval {
        Rebuild();
        return;
      }
      AddToBucket(Item(id, vector), old(all));
    }

    /** A vector that comes between two rebuilds. */
    method AddToBucket(x: Item, ghost before: seq<Item>)
      requires all == before + [x] && |before| >= initialized == centroidCount == |buckets| > 0
      requires Stored(dist, centroids, initialized, buckets, before)
      modifies this`buckets
      ensures |buckets| == centroidCount && Stored(dist, centroids, initialized, buckets, all)
      ensures forall k: nat | k <= |before| :: all[..k] == before[..k]
    {
      assert Unsealed(BucketsHold);
      var b := NearestInRange(dist, centroids, initialized, x.vector);
      FlatAdd(buckets, b, x);
      PlacedAdd(dist, centroids, initialized, buckets, b, x);
      buckets := buckets[b := buckets[b] + [x]];
    }

    /** `rebuild`: new centroids, and every vector placed again. */
    method Rebuild()
      requires centroidCount > 0 && probeCount > 0 && rebuildInterval > 0 && |buckets| == centroidCount
      requires all != [] && OnSchedule(|all|, 0, centroidCount, rebuildInterval)
      modifies this`centroids, this`initialized, this`buckets, this`dirty
      ensures Valid() && dirty == 0 && centroids == train(all)
    {
      initialized := if |all| < centroidCount then |all| else centroidCount;
      centroids := train(all);
      buckets := PlaceAll(dist, centroids, initialized, all, centroidCount);
      dirty := 0;
      assert all[..|all|] == all;
    }

    /** The centroids in use, scored. */
    ghost function Scores(query: Vector): seq<SearchResult>
      reads this
    {
      CentroidScores(dist, centroids, initialized, query)
    }

    /** The centroids a query probes: the closest ones, as many as configured. */
    ghost function Probes(query: Vector): seq<nat>
      reads this
    {
      IdsOf(Best(Scores(query), probeCount))
    }

    /** `closest_centroids`. */
    method ClosestCentroids(query: Vector) returns (probes: seq<nat>)
      requires Valid()
      ensures probes == Probes(query)
      ensures AreClosest(dist, centroids, initialized, query, probeCount, probes)
    {
      var scored: seq<SearchResult> := [];
      for c := 0 to initialized
        invariant scored == CentroidScores(dist, centroids, c, query)
      {
        scored := scored + [SearchResult(c, dist(query, centroids(c)))];
      }
      BestAreClosest(dist, centroids, initialized, query, probeCount);
      var order := Take(Sort(scored), probeCount);
      probes := IdsOf(order);
    }

    /**
     `search_one`: the top-k of everything in the buckets of the closest centroids. With as many probes as
     centroids it is the brute-force top-k of all stored vectors.
     */
    method SearchOne(query: Vector, k: nat) returns (out: seq<SearchResult>)
      requires Valid()
      ensures out == Best(Scored(dist, query, Probed(buckets, Probes(query))), k)
      ensures probeCount >= initialized ==> out == Best(Scored(dist, query, all), k)
    {
      if k == 0 || all == [] || initialized == 0 {
        EmptySearch(query, k);
        return [];
      }
      var probes := ClosestCentroids(query);
      out := ScanBuckets(dist, query, k, buckets, probes);
      if probeCount >= initialized {
        FullProbe(probes);
        ScoredMultiset(dist, query, Probed(buckets, probes), all);
        BestOfMultiset(Scored(dist, query, Probed(buckets, probes)), Scored(dist, query, all), k);
      }
    }

    lemma EmptySearch(query: Vector, k: nat)
      requires Valid() && (k == 0 || all == [])
      ensures Best(Scored(dist, query, all), k) == []
      ensures Best(Scored(dist, query, Probed(buckets, Probes(query))), k) == []
    {
      if all == [] {
        assert Scores(query) == [];
        assert Probes(query) == [];
      }
    }

    /** Probing every centroid in use sees every stored vector once. */
    lemma FullProbe(probes: seq<nat>)
      requires Valid() && |probes| == initialized && Distinct(probes) && forall p | p in probes :: p < initialized
      ensures multiset(Probed(buckets, probes)) == multiset(all)
    {
      assert Unsealed(BucketsHold);
      AllProbed(probes, initialized);
      ProbeSome(buckets, probes, initialized);
      RestEmpty(dist, centroids, initialized, buckets, |buckets|);
      assert buckets[..|buckets|] == buckets;
    }
  }

  /** Distinct numbers below `n`, `n` of them: all of them. */
  lemma AllProbed(probes: seq<nat>, n: nat)
    requires |probes| == n && Distinct(probes) && forall p | p in probes :: p < n
    ensures forall b: nat :: b in probes <==> b < n
  {
    DistinctSetSize(probes);
    BelowSize(n);
    SubsetOfSameSize(Elements(probes), Below(n));
    forall b: nat
      ensures b in probes <==> b < n
    {
      assert b in Elements(probes) <==> b in Below(n);
    }
  }

  lemma UsedBucket(dist: Distance, centroids: nat -> Vector, n: nat, buckets: seq<seq<Item>>, b: nat)
    requires Placed(dist, centroids, n, buckets) && b < |buckets| && buckets[b] != []
    ensures b < n
  {
    assert IsNearest(dist, centroids, n, buckets[b][0].vector, b);
  }

  /** Buckets beyond the centroids in use hold nothing. */
  lemma {:induction false} RestEmpty(dist: Distance, centroids: nat -> Vector, n: nat, buckets: seq<seq<Item>>, m: nat)
    requires n <= m <= |buckets| && Placed(dist, centroids, n, buckets)
    ensures multiset(Flatten(buckets[..m])) == multiset(Flatten(buckets[..n]))
  {
    if n < m {
      RestEmpty(dist, centroids, n, buckets, m - 1);
      assert buckets[..m][..m - 1] == buckets[..m - 1];
      if buckets[m - 1] != [] {
        UsedBucket(dist, centroids, n, buckets, m - 1);
        assert false;
      }
    }
  }

  lemma OneMore(all: seq<Item>, i: nat)
    requires i < |all|
    ensures multiset(all[..i + 1]) == multiset(all[..i]) + multiset{all[i]}
  {
    assert all[..i + 1] == all[..i] + [all[i]];
  }

  /** The last loop of `rebuild`. */
  method PlaceAll(dist: Distance, centroids: nat -> Vector, count: nat, all: seq<Item>, size: nat)
    returns (buckets: seq<seq<Item>>)
    requires 0 < count <= size
    ensures |buckets| == size && multiset(Flatten(buckets)) == multiset(all) && Placed(dist, centroids, count, buckets)
  {
    buckets := seq(size, _ => []);
    FlatEmpty(buckets);
    for i := 0 to |all|
      invariant |buckets| == size && multiset(Flatten(buckets)) == multiset(all[..i])
      invariant Placed(dist, centroids, count, buckets)
    {
      var b := NearestInRange(dist, centroids, count, all[i].vector);
      FlatAdd(buckets, b, all[i]);
      OneMore(all, i);
      PlacedAdd(dist, centroids, count, buckets, b, all[i]);
      buckets := buckets[b := buckets[b] + [all[i]]];
    }
    assert all[..|all|] == all;
  }

  /** The bounded heap over the probed buckets. */
  method ScanBuckets(dist: Distance, query: Vector, k: nat, buckets: seq<seq<Item>>, probes: seq<nat>)
    returns (heap: seq<SearchResult>)
    requires k > 0 && forall p | p in probes :: p < |buckets|
    ensures heap == Best(Scored(dist, query, Probed(buckets, probes)), k)
  {
    heap := [];
    ghost var seen: seq<Item> := [];
    for i := 0 to |probes|
      invariant seen == Probed(buckets, probes[..i]) && heap == Best(Scored(dist, query, seen), k)
    {
      assert probes[i] in probes;
      var bucket := buckets[probes[i]];
      heap := ScanBucket(dist, query, k, heap, bucket, seen);
      seen := seen + bucket;
      assert probes[..i + 1][..i] == probes[..i];
    }
    assert probes[..|probes|] == probes;
  }

  lemma ScoredStep(dist: Distance, query: Vector, seen: seq<Item>, bucket: seq<Item>, j: nat)
    requires j < |bucket|
    ensures Scored(dist, query, seen + bucket[..j + 1])
            == Scored(dist, query, seen + bucket[..j]) + [SearchResult(bucket[j].id, dist(query, bucket[j].vector))]
  {
    var items := seen + bucket[..j + 1];
    assert items[..|items| - 1] == seen + bucket[..j];
  }

  method ScanBucket(dist: Distance, query: Vector, k: nat, before: seq<SearchResult>, bucket: seq<Item>, ghost seen: seq<Item>)
    returns (heap: seq<SearchResult>)
    requires k > 0 && before == Best(Scored(dist, query, seen), k)
    ensures heap == Best(Scored(dist, query, seen + bucket), k)
  {
    heap := before;
    assert seen + bucket[..0] == seen;
    for j := 0 to |bucket|
      invariant heap == Best(Scored(dist, query, seen + bucket[..j]), k)
    {
      var r := SearchResult(bucket[j].id, dist(query, bucket[j].vector));
      ScoredStep(dist, query, seen, bucket, j);
      BoundedPushIsBest(Scored(dist, query, seen + bucket[..j]), k, r);
      heap := BoundedPush(heap, k, r);
    }
    assert bucket[..|bucket|] == bucket;
  }
}
