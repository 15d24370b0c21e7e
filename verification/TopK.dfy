/**
 Search results, their total order, and bounded top-k selection.

 `std::sort` and `std::priority_queue` are library code: a heap is modelled by its contents
 in ascending order (its top, the worst result, is the last element), and sorting by `Sort`.
 */
module TopK {

  datatype SearchResult = SearchResult(id: nat, distance: real)

  /** The order of every comparator in the program: distance first, then id. */
  predicate Less(a: SearchResult, b: SearchResult) {
    a.distance < b.distance || (a.distance == b.distance && a.id < b.id)
  }

  predicate Leq(a: SearchResult, b: SearchResult) {
    a == b || Less(a, b)
  }

  ghost predicate Sorted(s: seq<SearchResult>) {
    forall i, j | 0 <= i < j < |s| :: Leq(s[i], s[j])
  }

  /** Inserts `x` behind every result that is not worse than it. */
  function Insert(s: seq<SearchResult>, x: SearchResult): (r: seq<SearchResult>)
    ensures |r| == |s| + 1
    ensures multiset(r) == multiset(s) + multiset{x}
  {
    if s == [] || Less(x, s[0]) then
      [x] + s
    else
      assert s == [s[0]] + s[1..];
      [s[0]] + Insert(s[1..], x)
  }

  lemma {:induction false} InsertSorted(s: seq<SearchResult>, x: SearchResult)
    requires Sorted(s)
    ensures Sorted(Insert(s, x))
  {
    if s != [] && !Less(x, s[0]) {
      InsertSorted(s[1..], x);
      var t := Insert(s[1..], x);
      forall j | 0 <= j < |t|
        ensures Leq(s[0], t[j])
      {
        assert t[j] in multiset(t);
        if t[j] != x {
          assert t[j] in multiset(s[1..]);
          assert t[j] in s[1..];
        }
      }
    }
  }

  function Sort(s: seq<SearchResult>): (r: seq<SearchResult>)
    ensures |r| == |s|
    ensures multiset(r) == multiset(s)
  {
    if s == [] then
      []
    else
      assert s == s[..|s| - 1] + [s[|s| - 1]];
      Insert(Sort(s[..|s| - 1]), s[|s| - 1])
  }

  lemma {:induction false} SortSorted(s: seq<SearchResult>)
    ensures Sorted(Sort(s))
  {
    if s != [] {
      SortSorted(s[..|s| - 1]);
      InsertSorted(Sort(s[..|s| - 1]), s[|s| - 1]);
    }
  }

  lemma HeadIsLeast(s: seq<SearchResult>, x: SearchResult)
    requires Sorted(s) && x in s
    ensures Leq(s[0], x)
  {
  }

  /** A sorted arrangement is determined by its elements. */
  lemma {:induction false} SortedUnique(a: seq<SearchResult>, b: seq<SearchResult>)
    requires Sorted(a) && Sorted(b) && multiset(a) == multiset(b)
    ensures a == b
  {
    assert |a| == |multiset(a)| == |multiset(b)| == |b|;
    if a != [] {
      assert a[0] == b[0] by {
        assert a[0] in multiset(b) && b[0] in multiset(a);
        HeadIsLeast(a, b[0]);
        HeadIsLeast(b, a[0]);
      }
      assert multiset(a[1..]) == multiset(a) - multiset{a[0]} by { assert a == [a[0]] + a[1..]; }
      assert multiset(b[1..]) == multiset(b) - multiset{b[0]} by { assert b == [b[0]] + b[1..]; }
      SortedUnique(a[1..], b[1..]);
      assert a == [a[0]] + a[1..] == [b[0]] + b[1..] == b;
    }
  }

  function Take<T>(s: seq<T>, k: nat): (r: seq<T>)
    ensures |r| == if |s| <= k then |s| else k
    ensures r <= s
  {
    if |s| <= k then s else s[..k]
  }

  /** Sort, then keep the first `k`: the specification of every top-k selection. */
  function Best(s: seq<SearchResult>, k: nat): (r: seq<SearchResult>)
    ensures |r| == if |s| <= k then |s| else k
  {
    Take(Sort(s), k)
  }

  /** Top-k depends only on which results there are, not on the order they come in. */
  lemma BestOfMultiset(a: seq<SearchResult>, b: seq<SearchResult>, k: nat)
    requires multiset(a) == multiset(b)
    ensures Best(a, k) == Best(b, k)
  {
    SortSorted(a);
    SortSorted(b);
    SortedUnique(Sort(a), Sort(b));
  }

  /** One step of a bounded heap: push while there is room, else replace the worst. */
  function BoundedPush(heap: seq<SearchResult>, k: nat, x: SearchResult): (r: seq<SearchResult>)
    requires k > 0
    ensures |heap| <= k ==> |r| == if |heap| < k then |heap| + 1 else k
  {
    if |heap| < k then
      Insert(heap, x)
    else if Less(x, heap[|heap| - 1]) then
      Insert(heap[..|heap| - 1], x)
    else
      heap
  }

  lemma {:induction false} InsertTruncated(t: seq<SearchResult>, k: nat, x: SearchResult)
    requires 0 < k <= |t| && Sorted(t)
    ensures Insert(t, x)[..k] == if Less(x, t[k - 1]) then Insert(t[..k - 1], x) else t[..k]
  {
    if Less(x, t[0]) {
      HeadIsLeast(t, t[k - 1]);
      assert Insert(t, x)[..k] == [x] + t[..k - 1] == Insert(t[..k - 1], x);
    } else if k == 1 {
      assert Insert(t, x)[..1] == [t[0]] == t[..1];
    } else {
      InsertTruncated(t[1..], k - 1, x);
      InsertTruncatedStep(t, k, x);
    }
  }

  lemma InsertTruncatedStep(t: seq<SearchResult>, k: nat, x: SearchResult)
    requires 1 < k <= |t| && !Less(x, t[0])
    ensures t[1..][k - 2] == t[k - 1]
    ensures Insert(t, x)[..k] == [t[0]] + Insert(t[1..], x)[..k - 1]
    ensures Insert(t[..k - 1], x) == [t[0]] + Insert(t[1..][..k - 2], x)
    ensures t[..k] == [t[0]] + t[1..][..k - 1]
  {
    assert t[..k - 1][1..] == t[1..][..k - 2];
  }

  lemma SortStep(s: seq<SearchResult>, x: SearchResult)
    ensures Sort(s + [x]) == Insert(Sort(s), x)
  {
    assert (s + [x])[..|s|] == s;
  }

  lemma PushTruncated(t: seq<SearchResult>, k: nat, x: SearchResult)
    requires k > 0 && Sorted(t)
    ensures BoundedPush(Take(t, k), k, x) == Take(Insert(t, x), k)
  {
    if |t| >= k {
      InsertTruncated(t, k, x);
      assert Take(t, k) == t[..k];
      assert t[..k][..k - 1] == t[..k - 1];
    }
  }

  /** A bounded heap holds the top-k of everything pushed so far. */
  lemma BoundedPushIsBest(s: seq<SearchResult>, k: nat, x: SearchResult)
    requires k > 0
    ensures BoundedPush(Best(s, k), k, x) == Best(s + [x], k)
  {
    SortSorted(s);
    SortStep(s, x);
    PushTruncated(Sort(s), k, x);
  }

  /** All rows, one after the other. */
  function Flatten<T>(rows: seq<seq<T>>): seq<T> {
    if rows == [] then [] else Flatten(rows[..|rows| - 1]) + rows[|rows| - 1]
  }

  ghost function Elements<T>(s: seq<T>): set<T> {
    set x | x in s
  }

  /** Top-k of a set: sorted, drawn from the set, as large as possible, and nothing left out is better. */
  ghost predicate IsBest(out: seq<SearchResult>, pool: set<SearchResult>, k: nat) {
    && (forall i, j | 0 <= i < j < |out| :: Less(out[i], out[j]))
    && (forall x | x in out :: x in pool)
    && |out| == (if |pool| <= k then |pool| else k)
    && (forall x, y | x in pool && x !in out && y in out :: Less(y, x))
  }

  function IdsOf(rs: seq<SearchResult>): (ids: seq<nat>)
    ensures |ids| == |rs|
  {
    seq(|rs|, i requires 0 <= i < |rs| => rs[i].id)
  }

  ghost predicate DistinctIds(rs: seq<SearchResult>) {
    forall i, j | 0 <= i < j < |rs| :: rs[i].id != rs[j].id
  }

  lemma ConcatAssoc<T>(a: seq<T>, b: seq<T>, c: seq<T>)
    ensures a + b + c == a + (b + c)
  {
  }

  lemma {:induction false} DistinctSetSize<T>(s: seq<T>)
    requires forall i, j | 0 <= i < j < |s| :: s[i] != s[j]
    ensures |Elements(s)| == |s|
  {
    if s != [] {
      var t := s[..|s| - 1];
      DistinctSetSize(t);
      assert Elements(s) == Elements(t) + {s[|s| - 1]};
      assert s[|s| - 1] !in t;
    }
  }

  /** Sort-and-truncate of an enumeration of a set computes the set's top-k. */
  lemma BestIsBest(s: seq<SearchResult>, k: nat)
    requires forall i, j | 0 <= i < j < |s| :: s[i] != s[j]
    ensures IsBest(Best(s, k), Elements(s), k)
  {
    SortSorted(s);
    DistinctSetSize(s);
    var t := Sort(s);
    forall x
      ensures x in t <==> x in s
    {
      assert x in multiset(t) <==> x in multiset(s);
    }
    forall i, j | 0 <= i < j < |t|
      ensures Less(t[i], t[j])
    {
      assert Leq(t[i], t[j]);
      if t[i] == t[j] {
        DuplicateCount(t, i, j);
        DistinctCount(s, t[i]);
        assert false;
      }
    }
    var out := Best(s, k);
    forall x, y | x in s && x !in out && y in out
      ensures Less(y, x)
    {
      assert x in t;
      var i :| 0 <= i < |t| && t[i] == x;
      var j :| 0 <= j < |out| && out[j] == y;
      assert t[j] == y;
      assert forall m | 0 <= m < |out| :: out[m] == t[m];
      assert i >= |out|;
    }
  }

  lemma DuplicateCount<T>(s: seq<T>, i: nat, j: nat)
    requires i < j < |s| && s[i] == s[j]
    ensures multiset(s)[s[i]] >= 2
  {
    assert s == s[..j] + [s[j]] + s[j + 1..];
    assert s[..j][i] == s[i];
    assert s[i] in multiset(s[..j]);
  }

  lemma {:induction false} DistinctCount<T>(s: seq<T>, x: T)
    requires forall i, j | 0 <= i < j < |s| :: s[i] != s[j]
    ensures multiset(s)[x] <= 1
  {
    if s != [] {
      var t := s[..|s| - 1];
      assert s == t + [s[|s| - 1]];
      DistinctCount(t, x);
      if x == s[|s| - 1] {
        assert x !in t;
        assert x !in multiset(t);
      }
    }
  }

  lemma StrictSetSize(s: seq<SearchResult>)
    requires forall i, j | 0 <= i < j < |s| :: Less(s[i], s[j])
    ensures |Elements(s)| == |s|
  {
    DistinctSetSize(s);
  }

  /** A set has only one top-k. */
  lemma IsBestUnique(a: seq<SearchResult>, b: seq<SearchResult>, pool: set<SearchResult>, k: nat)
    requires IsBest(a, pool, k) && IsBest(b, pool, k)
    ensures a == b
  {
    StrictSetSize(a);
    StrictSetSize(b);
    var A, B := Elements(a), Elements(b);
    if A != B {
      assert !(A <= B) && !(B <= A) by {
        if A <= B { SubsetOfSameSize(A, B); }
        if B <= A { SubsetOfSameSize(B, A); }
      }
      var x :| x in A && x !in B;
      var y :| y in B && y !in A;
      assert false;
    }
    StrictWithSameElements(a, b);
  }

  lemma SubsetOfSameSize<T>(a: set<T>, b: set<T>)
    requires |a| == |b| && a <= b
    ensures a == b
  {
    assert b == a + (b - a);
    assert |b| == |a| + |b - a|;
    assert b - a == {};
  }

  lemma PutSize<K, V>(m: map<K, V>, k: K, v: V)
    ensures m[k := v].Keys == m.Keys + {k}
    ensures |m[k := v]| == if k in m then |m| else |m| + 1
  {
    assert m[k := v].Keys == m.Keys + {k};
    if k in m { assert m.Keys + {k} == m.Keys; }
  }

  lemma DropSize<K, V>(m: map<K, V>, k: K)
    requires k in m
    ensures (m - {k}).Keys == m.Keys - {k} && |m - {k}| == |m| - 1
  {
    assert m.Keys == (m - {k}).Keys + {k};
  }

  lemma SubsetSize<T>(a: set<T>, b: set<T>)
    requires a <= b
    ensures |a| <= |b|
  {
    assert b == a + (b - a);
  }

  /** The numbers below `n`. */
  ghost function Below(n: nat): (all: set<nat>)
    ensures forall c: nat :: c in all <==> c < n
  {
    if n == 0 then {} else Below(n - 1) + {n - 1}
  }

  lemma {:induction false} BelowSize(n: nat)
    ensures |Below(n)| == n
  {
    if n > 0 {
      BelowSize(n - 1);
    }
  }

  lemma {:induction false} StrictWithSameElements(a: seq<SearchResult>, b: seq<SearchResult>)
    requires forall i, j | 0 <= i < j < |a| :: Less(a[i], a[j])
    requires forall i, j | 0 <= i < j < |b| :: Less(b[i], b[j])
    requires Elements(a) == Elements(b)
    ensures a == b
  {
    if a == [] || b == [] {
      StrictSetSize(a);
      StrictSetSize(b);
    } else {
      assert a[0] in Elements(b) && a[0] in b;
      assert b[0] in Elements(a) && b[0] in a;
      assert a[0] == b[0];
      assert Elements(a[1..]) == Elements(a) - {a[0]};
      assert Elements(b[1..]) == Elements(b) - {b[0]};
      StrictWithSameElements(a[1..], b[1..]);
      assert a == [a[0]] + a[1..] && b == [b[0]] + b[1..];
    }
  }
}
