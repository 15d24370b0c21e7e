/**
 Versioned records of the dynamic layer and "newest version per node".

 Float components are kept as 32-bit patterns; nothing in the write path computes with them.
 */
module Records {
  import opened TopK

  datatype Record = Record(
    seqId: nat, node: nat, dim: nat, vector: seq<nat>, neighbors: seq<nat>, deleted: bool)

  /** The payload the readers of log and tables accept. The writers accept more. */
  const MAX_PAYLOAD: nat := 512 * 1024 * 1024

  function PayloadBytes(r: Record): nat {
    4 * |r.vector| + 4 * |r.neighbors|
  }

  /** The record can be read back. */
  predicate Fits(r: Record) {
    PayloadBytes(r) <= MAX_PAYLOAD
  }

  /** The records that can be read back. */
  function Fitting(rs: seq<Record>): seq<Record> {
    if rs == [] then
      []
    else
      Fitting(rs[..|rs| - 1]) + if Fits(rs[|rs| - 1]) then [rs[|rs| - 1]] else []
  }

  ghost function FittingOf(pool: set<Record>): set<Record> {
    set r | r in pool && Fits(r)
  }

  lemma {:induction false} FittingElements(rs: seq<Record>)
    ensures Elements(Fitting(rs)) == FittingOf(Elements(rs))
  {
    if rs != [] {
      var t, r := rs[..|rs| - 1], rs[|rs| - 1];
      FittingElements(t);
      assert Elements(rs) == Elements(t) + {r};
      assert forall q :: q in Fitting(rs) <==> q in Elements(Fitting(t)) || (q == r && Fits(r));
    }
  }

  lemma {:induction false} FittingAll(rs: seq<Record>)
    requires forall r | r in rs :: Fits(r)
    ensures Fitting(rs) == rs
  {
    if rs != [] {
      var t, r := rs[..|rs| - 1], rs[|rs| - 1];
      assert rs == t + [r];
      FittingAll(t);
    }
  }

  /** The loop of `deduplicate_newest`: a later record replaces an earlier one only if it is strictly newer. */
  function Newest(rs: seq<Record>): map<nat, Record> {
    if rs == [] then
      map[]
    else
      Keep(Newest(rs[..|rs| - 1]), rs[|rs| - 1])
  }

  function Keep(m: map<nat, Record>, r: Record): map<nat, Record> {
    if r.node in m && r.seqId <= m[r.node].seqId then m else m[r.node := r]
  }

  /** `m` gives every node of `pool` a version from `pool` that no other one exceeds. */
  ghost predicate IsNewest(m: map<nat, Record>, pool: set<Record>) {
    && (forall r | r in pool :: r.node in m && r.seqId <= m[r.node].seqId)
    && (forall n | n in m :: m[n] in pool && m[n].node == n)
  }

  /** A node never has two different records under one sequence id. */
  ghost predicate OneVersion(pool: set<Record>) {
    forall r, q | r in pool && q in pool && r.node == q.node && r.seqId == q.seqId :: r == q
  }

  lemma {:induction false} NewestIsNewest(rs: seq<Record>)
    ensures IsNewest(Newest(rs), Elements(rs))
  {
    if rs != [] {
      var t := rs[..|rs| - 1];
      NewestIsNewest(t);
      assert Elements(rs) == Elements(t) + {rs[|rs| - 1]};
    }
  }

  lemma NewestUnique(a: map<nat, Record>, b: map<nat, Record>, pool: set<Record>)
    requires OneVersion(pool) && IsNewest(a, pool) && IsNewest(b, pool)
    ensures a == b
  {
    forall n
      ensures n in a <==> n in b
      ensures n in a ==> n in b && a[n] == b[n]
    {
    }
  }

  /** No record of the pool supersedes `r`. */
  ghost predicate IsTop(pool: set<Record>, r: Record) {
    r in pool && forall q | q in pool && q.node == r.node :: q.seqId <= r.seqId
  }

  /** The node's version, if it has one, can be read back. */
  predicate Shown(m: map<nat, Record>, n: nat) {
    n in m ==> Fits(m[n])
  }

  /** `kept` holds the newest version of every node, unless that version is too large to be read back. */
  ghost predicate Covers(kept: set<Record>, pool: set<Record>) {
    && kept <= pool
    && forall r | IsTop(pool, r) && Fits(r) :: r in kept
  }

  lemma CoverTransitive(a: set<Record>, b: set<Record>, c: set<Record>)
    requires Covers(a, b) && Covers(b, c)
    ensures Covers(a, c)
  {
    forall r | IsTop(c, r) && Fits(r)
      ensures r in a
    {
      assert IsTop(b, r);
    }
  }

  lemma CoverUnion(a: set<Record>, b: set<Record>, c: set<Record>, d: set<Record>)
    requires Covers(a, b) && Covers(c, d)
    ensures Covers(a + c, b + d)
  {
    forall r | IsTop(b + d, r) && Fits(r)
      ensures r in a + c
    {
      if r in b {
        assert IsTop(b, r);
      } else {
        assert IsTop(d, r);
      }
    }
  }

  /** What can be read back of the newest versions covers everything they were taken from. */
  lemma NewestCovers(m: map<nat, Record>, kept: set<Record>, pool: set<Record>)
    requires IsNewest(m, pool) && OneVersion(pool) && kept == FittingOf(m.Values)
    ensures Covers(kept, pool)
  {
    forall r | IsTop(pool, r) && Fits(r)
      ensures r in kept
    {
      assert m[r.node] in m.Values && m[r.node] in pool;
    }
    forall r | r in kept
      ensures r in pool
    {
      var n :| n in m && m[n] == r;
    }
  }

  /** Both maps give the node the same version, or none. */
  predicate SameAt(a: map<nat, Record>, b: map<nat, Record>, n: nat) {
    (n in a <==> n in b) && (n in a ==> a[n] == b[n])
  }

  /** A readable cover has the newest version of a node if and only if that version can be read back. */
  lemma NewestOfCover(kept: seq<Record>, all: seq<Record>, n: nat)
    requires Covers(Elements(kept), Elements(all)) && OneVersion(Elements(all)) && forall r | r in kept :: Fits(r)
    ensures SameAt(Newest(kept), Newest(all), n) <==> Shown(Newest(all), n)
  {
    NewestIsNewest(kept);
    NewestIsNewest(all);
    var a, b := Newest(kept), Newest(all);
    if n in a {
      assert a[n] in Elements(kept) && a[n] in kept && a[n] in Elements(all);
    }
    if n in b && Fits(b[n]) {
      TopOfNewest(b, Elements(all), n);
      assert b[n] in Elements(kept) && a[n] in Elements(all);
    }
  }

  lemma TopOfNewest(m: map<nat, Record>, pool: set<Record>, n: nat)
    requires IsNewest(m, pool) && n in m
    ensures IsTop(pool, m[n])
  {
  }

  /** Agreement on exactly the readable nodes is agreement if and only if all of them are. */
  lemma SameEverywhere(a: map<nat, Record>, b: map<nat, Record>)
    requires forall n :: SameAt(a, b, n) <==> Shown(b, n)
    ensures a == b <==> forall n | n in b :: Fits(b[n])
  {
    if forall n | n in b :: Fits(b[n]) {
      forall n
        ensures n in a <==> n in b
        ensures n in a && n in b ==> a[n] == b[n]
      {
        assert Shown(b, n) && SameAt(a, b, n);
      }
    }
    if a == b {
      forall n | n in b
        ensures Fits(b[n])
      {
        assert SameAt(a, b, n);
      }
    }
  }

  // ---- Listing a map in node order (map iteration followed by std::sort by node id) ----

  ghost predicate IsGreatest(s: set<nat>, n: nat) {
    n in s && forall k | k in s :: k <= n
  }

  lemma {:induction false} MaxExists(s: set<nat>) returns (n: nat)
    requires s != {}
    ensures IsGreatest(s, n)
    decreases s
  {
    var x :| x in s;
    var rest := s - {x};
    n := x;
    if rest != {} {
      var y := MaxExists(rest);
      n := if x <= y then y else x;
      forall k | k in s
        ensures k <= n
      {
        assert k == x || k in rest;
      }
    } else {
      assert s == {x};
    }
  }

  lemma GreatestExists(s: set<nat>)
    requires s != {}
    ensures exists n :: IsGreatest(s, n)
  {
    var n := MaxExists(s);
  }

  function Greatest(s: set<nat>): (n: nat)
    requires s != {}
    ensures n in s && forall k | k in s :: k <= n
  {
    GreatestExists(s);
    var n :| n in s && forall k | k in s :: k <= n;
    n
  }

  function Listing(m: map<nat, Record>): (out: seq<Record>)
    ensures |out| == |m|
    decreases |m|
  {
    if m == map[] then
      []
    else
      var n := Greatest(m.Keys);
      var rest := m - {n};
      assert m.Keys == rest.Keys + {n};
      Listing(rest) + [m[n]]
  }

  ghost predicate KeyedByNode(m: map<nat, Record>) {
    forall n | n in m :: m[n].node == n
  }

  ghost predicate SortedByNode(s: seq<Record>) {
    forall i, j | 0 <= i < j < |s| :: s[i].node < s[j].node
  }

  /** The last record of a listing, and the rest. */
  lemma ListingStep(m: map<nat, Record>) returns (n: nat, rest: map<nat, Record>)
    requires m != map[]
    ensures n in m && rest == m - {n} && |rest| < |m|
    ensures forall k | k in rest :: k < n
    ensures Listing(m) == Listing(rest) + [m[n]]
    ensures rest[n := m[n]] == m && m.Values == rest.Values + {m[n]}
  {
    n := Greatest(m.Keys);
    rest := m - {n};
    assert m.Keys == rest.Keys + {n};
    ValuesWithout(m, n);
  }

  lemma ValuesWithout(m: map<nat, Record>, n: nat)
    requires n in m
    ensures m.Values == (m - {n}).Values + {m[n]}
  {
    var rest := m - {n};
    forall r | r in m.Values
      ensures r in rest.Values + {m[n]}
    {
      var k :| k in m && m[k] == r;
      if k != n { assert rest[k] == r; }
    }
    forall r | r in rest.Values
      ensures r in m.Values
    {
      var k :| k in rest && rest[k] == r;
      assert m[k] == r;
    }
  }

  lemma AppendSorted(out: seq<Record>, rest: map<nat, Record>, r: Record)
    requires KeyedByNode(rest) && SortedByNode(out) && Elements(out) == rest.Values
    requires forall k | k in rest :: k < r.node
    ensures SortedByNode(out + [r])
    ensures Elements(out + [r]) == rest.Values + {r}
  {
    forall i | 0 <= i < |out|
      ensures out[i].node < r.node
    {
      assert out[i] in Elements(out);
      var k :| k in rest && rest[k] == out[i];
    }
  }

  /** The listing is in node order and holds exactly the records of the map. */
  lemma {:induction false} ListingIsSorted(m: map<nat, Record>)
    requires KeyedByNode(m)
    ensures SortedByNode(Listing(m))
    ensures Elements(Listing(m)) == m.Values
    decreases |m|
  {
    if m == map[] {
      assert Listing(m) == [];
    } else {
      var n, rest := ListingStep(m);
      ListingIsSorted(rest);
      AppendSorted(Listing(rest), rest, m[n]);
    }
  }

  lemma {:induction false} NewestOfListing(m: map<nat, Record>)
    requires KeyedByNode(m)
    ensures Newest(Listing(m)) == m
    decreases |m|
  {
    if m == map[] {
      assert Listing(m) == [];
    } else {
      var n, rest := ListingStep(m);
      NewestOfListing(rest);
      NewestStep(Listing(rest), m[n]);
    }
  }

  lemma NewestStep(rs: seq<Record>, r: Record)
    ensures Newest(rs + [r]) == Keep(Newest(rs), r)
  {
    assert (rs + [r])[..|rs|] == rs;
  }

  // ---- Visibility at a read sequence ----

  function UpTo(rs: seq<Record>, s: nat): seq<Record> {
    if rs == [] then
      []
    else
      UpTo(rs[..|rs| - 1], s) + (if rs[|rs| - 1].seqId <= s then [rs[|rs| - 1]] else [])
  }

  lemma {:induction false} UpToElements(rs: seq<Record>, s: nat)
    ensures Elements(UpTo(rs, s)) == set r | r in rs && r.seqId <= s
  {
    if rs != [] {
      var t, r := rs[..|rs| - 1], rs[|rs| - 1];
      UpToElements(t, s);
      assert rs == t + [r];
      assert forall q :: q in UpTo(rs, s) <==> q in UpTo(t, s) || (q == r && r.seqId <= s);
      assert forall q :: q in UpTo(t, s) <==> q in Elements(UpTo(t, s));
    }
  }

  /** What a reader at sequence `s` sees of a history: the newest version of every node, tombstones included. */
  function VisibleAt(rs: seq<Record>, s: nat): map<nat, Record> {
    Newest(UpTo(rs, s))
  }

  lemma VisibleAtIsNewest(rs: seq<Record>, s: nat)
    ensures IsNewest(VisibleAt(rs, s), set r | r in rs && r.seqId <= s)
  {
    NewestIsNewest(UpTo(rs, s));
    UpToElements(rs, s);
  }

  /** Two histories that agree up to `s` show the same snapshot at `s`. */
  lemma VisibleAtAgrees(a: seq<Record>, b: seq<Record>, s: nat)
    requires forall r: Record | r.seqId <= s :: r in a <==> r in b
    requires OneVersion(Elements(a))
    ensures VisibleAt(a, s) == VisibleAt(b, s)
  {
    VisibleAtIsNewest(a, s);
    VisibleAtIsNewest(b, s);
    var pool := set r | r in a && r.seqId <= s;
    assert pool == set r | r in b && r.seqId <= s;
    assert forall r | r in pool :: r in Elements(a);
    NewestUnique(VisibleAt(a, s), VisibleAt(b, s), pool);
  }
}
