/** Decoded graph pages and the page cache of the packed index: lookup, store, eviction and pins. */
module PageCache {
  import opened Sealing
  import opened TopK

  /** One graph node as stored on a page; vector components and codes are opaque values. */
  datatype Node = Node(id: nat, vector: seq<nat>, neighbors: seq<nat>, codes: seq<nat>)

  datatype Page = Page(id: nat, nodes: seq<Node>)

  datatype Policy = NoCache | Lru | TwoQueue | GraphAware

  datatype Entry = Entry(
    page: Page, lastAccess: nat, frequency: nat, protectedQueue: bool, hotScore: nat, pins: nat)

  /** Scoring: how hot a page is (from in-degrees) and how much that is worth (64 log(1 + score)). */
  datatype Scoring = Scoring(hotScore: Page -> nat, hotBonus: nat -> real)

  predicate UsesQueues(policy: Policy) {
    policy.TwoQueue? || policy.GraphAware?
  }

  /** `cache_score`. */
  function Score(policy: Policy, scoring: Scoring, e: Entry): real {
    var bonus := if e.protectedQueue then 1000000000.0 else 0.0;
    match policy
    case NoCache => 0.0
    case Lru => e.lastAccess as real
    case TwoQueue => bonus + e.lastAccess as real
    case GraphAware =>
      bonus + e.lastAccess as real + scoring.hotBonus(e.hotScore)
      + (if e.frequency < 16 then e.frequency else 16) as real * 4.0
  }

  /** `a` is evicted rather than `b`: unprotected first under the queue policies, then score, then page id. */
  predicate EvictedBefore(policy: Policy, scoring: Scoring, a: Entry, i: nat, b: Entry, j: nat) {
    if UsesQueues(policy) && a.protectedQueue != b.protectedQueue then
      !a.protectedQueue
    else
      var s, t := Score(policy, scoring, a), Score(policy, scoring, b);
      s < t || (s == t && i < j)
  }

  lemma EvictionIsTotal(policy: Policy, scoring: Scoring, a: Entry, i: nat, b: Entry, j: nat)
    requires i != j
    ensures EvictedBefore(policy, scoring, a, i, b, j) != EvictedBefore(policy, scoring, b, j, a, i)
  {
  }

  lemma EvictionIsTransitive(policy: Policy, scoring: Scoring, a: Entry, i: nat, b: Entry, j: nat, c: Entry, k: nat)
    requires EvictedBefore(policy, scoring, a, i, b, j) && EvictedBefore(policy, scoring, b, j, c, k)
    ensures EvictedBefore(policy, scoring, a, i, c, k)
  {
  }

  ghost predicate IsVictim(policy: Policy, scoring: Scoring, entries: map<nat, Entry>, v: nat) {
    && v in entries && entries[v].pins == 0
    && forall n | n in entries && n != v && entries[n].pins == 0 ::
         EvictedBefore(policy, scoring, entries[v], v, entries[n], n)
  }

  datatype Choice = Nobody | Victim(id: nat)

  /** The scan of `evict_one_page_locked`, in whatever order the map is iterated. */
  method ChooseVictim(policy: Policy, scoring: Scoring, entries: map<nat, Entry>) returns (c: Choice)
    ensures c.Victim? ==> IsVictim(policy, scoring, entries, c.id)
    ensures c.Nobody? ==> forall n | n in entries :: entries[n].pins > 0
  {
    c := Nobody;
    var todo := entries.Keys;
    while todo != {}
      invariant todo <= entries.Keys
      invariant c.Nobody? ==> forall n | n in entries && n !in todo :: entries[n].pins > 0
      invariant c.Victim? ==> c.id in entries && c.id !in todo && entries[c.id].pins == 0
      invariant c.Victim? ==> forall n | n in entries && n !in todo && n != c.id && entries[n].pins == 0 ::
                  EvictedBefore(policy, scoring, entries[c.id], c.id, entries[n], n)
      decreases |todo|
    {
      var n :| n in todo;
      todo := todo - {n};
      if entries[n].pins == 0 {
        if c.Nobody? {
          c := Victim(n);
        } else {
          EvictionIsTotal(policy, scoring, entries[n], n, entries[c.id], c.id);
          if EvictedBefore(policy, scoring, entries[n], n, entries[c.id], c.id) {
            forall m | m in entries && m !in todo && m != n && m != c.id && entries[m].pins == 0
              ensures EvictedBefore(policy, scoring, entries[n], n, entries[m], m)
            {
              EvictionIsTransitive(policy, scoring, entries[n], n, entries[c.id], c.id, entries[m], m);
            }
            c := Victim(n);
          }
        }
      }
    }
  }

  // ---- Recency ----

  function Without(s: seq<nat>, p: nat): (r: seq<nat>)
    ensures forall x :: x in r <==> x in s && x != p
    ensures |r| <= |s|
  {
    if s == [] then
      []
    else
      assert s == [s[0]] + s[1..];
      if s[0] == p then Without(s[1..], p) else [s[0]] + Without(s[1..], p)
  }

  /** Distinct pages, most recently used first. */
  function Recency(uses: seq<nat>): seq<nat> {
    if uses == [] then [] else [uses[|uses| - 1]] + Without(Recency(uses[..|uses| - 1]), uses[|uses| - 1])
  }

  ghost predicate Distinct(s: seq<nat>) {
    forall i, j | 0 <= i < j < |s| :: s[i] != s[j]
  }

  lemma PrependDistinct(x: nat, s: seq<nat>)
    requires Distinct(s) && x !in s
    ensures Distinct([x] + s)
  {
  }

  lemma {:induction false} WithoutDistinct(s: seq<nat>, p: nat)
    requires Distinct(s)
    ensures Distinct(Without(s, p))
  {
    if s != [] {
      WithoutDistinct(s[1..], p);
      assert s[0] !in s[1..];
      PrependDistinct(s[0], Without(s[1..], p));
    }
  }

  lemma {:induction false} RecencyDistinct(uses: seq<nat>)
    ensures Distinct(Recency(uses))
  {
    if uses != [] {
      RecencyDistinct(uses[..|uses| - 1]);
      WithoutDistinct(Recency(uses[..|uses| - 1]), uses[|uses| - 1]);
      PrependDistinct(uses[|uses| - 1], Without(Recency(uses[..|uses| - 1]), uses[|uses| - 1]));
    }
  }

  lemma RecencyStep(uses: seq<nat>, p: nat)
    ensures Recency(uses + [p]) == [p] + Without(Recency(uses), p)
  {
    assert (uses + [p])[..|uses|] == uses;
  }

  function DropAt<T>(s: seq<T>, i: nat): (r: seq<T>)
    requires i < |s|
  {
    s[..i] + s[i + 1..]
  }

  lemma DropAtIndex<T>(s: seq<T>, i: nat)
    requires i < |s|
    ensures |DropAt(s, i)| == |s| - 1
    ensures forall j | 0 <= j < |s| - 1 :: DropAt(s, i)[j] == s[if j < i then j else j + 1]
  {
  }

  lemma DropAtElements(s: seq<nat>, i: nat)
    requires i < |s| && Distinct(s)
    ensures s[i] !in DropAt(s, i)
    ensures Elements(s) == Elements(DropAt(s, i)) + {s[i]}
  {
    var rest := DropAt(s, i);
    DropAtIndex(s, i);
    forall x | x in s
      ensures x in rest || x == s[i]
    {
      var j :| 0 <= j < |s| && s[j] == x;
      if j < i { assert rest[j] == x; } else if j > i { assert rest[j - 1] == x; }
    }
  }

  lemma {:induction false} WithoutAbsent(s: seq<nat>, p: nat)
    requires p !in s
    ensures Without(s, p) == s
  {
    if s != [] {
      WithoutAbsent(s[1..], p);
      assert s == [s[0]] + s[1..];
    }
  }

  lemma {:induction false} WithoutAt(s: seq<nat>, p: nat, i: nat)
    requires Distinct(s) && i < |s| && s[i] == p
    ensures Without(s, p) == DropAt(s, i)
  {
    if i == 0 {
      WithoutAbsent(s[1..], p);
      assert DropAt(s, 0) == s[1..];
    } else {
      assert s[0] != p;
      WithoutAt(s[1..], p, i - 1);
      assert [s[0]] + DropAt(s[1..], i - 1) == DropAt(s, i);
    }
  }

  /** The position of the last use of `p`, or -1. */
  function LastUse(uses: seq<nat>, p: nat): int {
    if uses == [] then -1
    else if uses[|uses| - 1] == p then |uses| - 1
    else LastUse(uses[..|uses| - 1], p)
  }

  ghost predicate ByLastUse(uses: seq<nat>, s: seq<nat>) {
    forall i, j | 0 <= i < j < |s| :: LastUse(uses, s[i]) > LastUse(uses, s[j])
  }

  lemma {:induction false} LastUseBound(uses: seq<nat>, p: nat)
    ensures LastUse(uses, p) < |uses|
  {
    if uses != [] { LastUseBound(uses[..|uses| - 1], p); }
  }

  lemma WithoutByLastUse(uses: seq<nat>, s: seq<nat>, p: nat)
    requires ByLastUse(uses, s) && Distinct(s)
    ensures ByLastUse(uses, Without(s, p))
  {
    if p in s {
      var i :| 0 <= i < |s| && s[i] == p;
      WithoutAt(s, p, i);
      DropAtIndex(s, i);
    } else {
      WithoutAbsent(s, p);
    }
  }

  /** The recency list holds exactly the pages used, ordered by their last use, latest first. */
  lemma {:induction false} RecencyMeaning(uses: seq<nat>)
    ensures forall p :: p in Recency(uses) <==> p in uses
    ensures ByLastUse(uses, Recency(uses))
  {
    if uses != [] {
      var rest, last := uses[..|uses| - 1], uses[|uses| - 1];
      RecencyMeaning(rest);
      RecencyDistinct(rest);
      WithoutByLastUse(rest, Recency(rest), last);
      assert uses == rest + [last];
      var tail := Without(Recency(rest), last);
      forall p | p in tail
        ensures LastUse(uses, p) == LastUse(rest, p) < |uses| - 1
      {
        LastUseBound(rest, p);
      }
    }
  }

  /** The pages an LRU cache of this capacity holds: the most recently used distinct ones. */
  ghost function MostRecent(uses: seq<nat>, capacity: nat): set<nat> {
    Elements(Take(Recency(uses), capacity))
  }

  /** The cache holds exactly the listed pages, and access times fall along the list. */
  ghost predicate Listed(entries: map<nat, Entry>, kept: seq<nat>) {
    && entries.Keys == Elements(kept)
    && Falling(entries, kept)
  }

  ghost predicate Falling(entries: map<nat, Entry>, kept: seq<nat>) {
    && (forall n | n in kept :: n in entries)
    && forall i, j | 0 <= i < j < |kept| :: entries[kept[i]].lastAccess > entries[kept[j]].lastAccess
  }

  ghost predicate LruExact(entries: map<nat, Entry>, uses: seq<nat>, capacity: nat) {
    Listed(entries, Take(Recency(uses), capacity))
  }

  /** Putting a page with the newest access time in front of a part of the list. */
  lemma PutFirst(entries: map<nat, Entry>, rest: seq<nat>, p: nat, e: Entry, next: map<nat, Entry>)
    requires Falling(entries, rest) && p !in rest
    requires forall n | n in entries :: entries[n].lastAccess < e.lastAccess
    requires next.Keys == Elements(rest) + {p} && next[p] == e
    requires forall n | n in rest :: next[n] == entries[n]
    ensures Listed(next, [p] + rest)
  {
    assert Elements([p] + rest) == Elements(rest) + {p};
    var kept := [p] + rest;
    forall i, j | 0 <= i < j < |kept|
      ensures next[kept[i]].lastAccess > next[kept[j]].lastAccess
    {
      assert kept[j] == rest[j - 1] && rest[j - 1] in rest;
      if i > 0 {
        assert kept[i] == rest[i - 1] && rest[i - 1] in rest;
      }
    }
  }

  /** Recency list after using the page at index `i` of the kept part. */
  lemma TakeAfterHit(order: seq<nat>, capacity: nat, p: nat, i: nat)
    requires Distinct(order) && i < capacity && i < |order| && order[i] == p
    ensures var kept := Take(order, capacity);
            Take([p] + Without(order, p), capacity) == [p] + DropAt(kept, i)
  {
    WithoutAt(order, p, i);
    var kept := Take(order, capacity);
    var rest := Without(order, p);
    assert kept == order[..|kept|];
    assert rest[..|kept| - 1] == DropAt(kept, i);
  }

  lemma TakeAfterMiss(order: seq<nat>, capacity: nat, p: nat)
    requires Distinct(order) && capacity > 0 && p !in Take(order, capacity)
    ensures var kept := Take(order, capacity);
            Take([p] + Without(order, p), capacity) == [p] + (if |kept| < capacity then kept else kept[..capacity - 1])
  {
    if p in order {
      var i :| 0 <= i < |order| && order[i] == p;
      assert forall j | 0 <= j < |Take(order, capacity)| :: Take(order, capacity)[j] == order[j];
      WithoutAt(order, p, i);
    } else {
      WithoutAbsent(order, p);
    }
  }

  lemma FallingDistinct(entries: map<nat, Entry>, kept: seq<nat>)
    requires Falling(entries, kept)
    ensures Distinct(kept)
  {
  }

  lemma FallingPart(entries: map<nat, Entry>, kept: seq<nat>, i: nat)
    requires Falling(entries, kept) && i < |kept|
    ensures Falling(entries, DropAt(kept, i))
    ensures kept[i] !in DropAt(kept, i)
    ensures Elements(kept) == Elements(DropAt(kept, i)) + {kept[i]}
  {
    FallingDistinct(entries, kept);
    DropAtElements(kept, i);
    var rest := DropAt(kept, i);
    assert forall x | x in rest :: x in Elements(kept);
    forall j, k | 0 <= j < k < |rest|
      ensures entries[rest[j]].lastAccess > entries[rest[k]].lastAccess
    {
      DropAtIndex(kept, i);
    }
  }

  lemma UseFirst(order: seq<nat>, capacity: nat, entries: map<nat, Entry>, e: Entry, p: nat)
    requires Distinct(order) && Listed(entries, Take(order, capacity)) && p in entries
    requires forall n | n in entries :: entries[n].lastAccess < e.lastAccess
    ensures Listed(entries[p := e], Take([p] + Without(order, p), capacity))
  {
    var kept := Take(order, capacity);
    assert p in Elements(kept);
    var i :| 0 <= i < |kept| && kept[i] == p;
    TakeAfterHit(order, capacity, p, i);
    FallingPart(entries, kept, i);
    PutFirst(entries, DropAt(kept, i), p, e, entries[p := e]);
  }

  lemma InsertFirst(order: seq<nat>, capacity: nat, entries: map<nat, Entry>, e: Entry, p: nat)
    requires Distinct(order) && Listed(entries, Take(order, capacity)) && p !in entries
    requires |entries| < capacity
    requires forall n | n in entries :: entries[n].lastAccess < e.lastAccess
    ensures Listed(entries[p := e], Take([p] + Without(order, p), capacity))
  {
    var kept := Take(order, capacity);
    assert p !in kept by { assert p in kept ==> p in Elements(kept); }
    assert Take([p] + Without(order, p), capacity) == [p] + kept by {
      assert |entries.Keys| == |kept| by { DistinctSetSize(kept); }
      TakeAfterMiss(order, capacity, p);
    }
    PutFirst(entries, kept, p, e, entries[p := e]);
  }

  lemma ReplaceFirst(order: seq<nat>, capacity: nat, entries: map<nat, Entry>, e: Entry, p: nat, v: nat)
    requires Distinct(order) && Listed(entries, Take(order, capacity)) && p !in entries
    requires |entries| >= capacity > 0
    requires forall n | n in entries :: entries[n].lastAccess < e.lastAccess
    requires v in entries && forall n | n in entries && n != v :: entries[v].lastAccess <= entries[n].lastAccess
    ensures Listed((entries - {v})[p := e], Take([p] + Without(order, p), capacity))
  {
    var kept := Take(order, capacity);
    var rest := kept[..|kept| - 1];
    assert Take([p] + Without(order, p), capacity) == [p] + rest by {
      assert |entries.Keys| == |kept| by { DistinctSetSize(kept); }
      assert p !in kept by { assert p in kept ==> p in Elements(kept); }
      TakeAfterMiss(order, capacity, p);
    }
    ReplaceLast(entries, kept, e, p, v);
  }

  lemma ReplaceLast(entries: map<nat, Entry>, kept: seq<nat>, e: Entry, p: nat, v: nat)
    requires Listed(entries, kept) && kept != [] && p !in entries
    requires forall n | n in entries :: entries[n].lastAccess < e.lastAccess
    requires v in entries && forall n | n in entries && n != v :: entries[v].lastAccess <= entries[n].lastAccess
    ensures Listed((entries - {v})[p := e], [p] + kept[..|kept| - 1])
  {
    LastIsVictim(entries, kept, v, |kept| - 1);
    PutFirst(entries, kept[..|kept| - 1], p, e, (entries - {v})[p := e]);
  }

  /** Using a cached page makes it the most recent one and keeps the set. */
  lemma LruHit(entries: map<nat, Entry>, e: Entry, uses: seq<nat>, capacity: nat, p: nat)
    requires LruExact(entries, uses, capacity) && p in entries
    requires forall n | n in entries :: entries[n].lastAccess < e.lastAccess
    ensures LruExact(entries[p := e], uses + [p], capacity)
  {
    RecencyDistinct(uses);
    RecencyStep(uses, p);
    UseFirst(Recency(uses), capacity, entries, e, p);
  }

  /** Storing a new page: into free room, or in place of the least recently used page. */
  lemma LruStore(entries: map<nat, Entry>, e: Entry, uses: seq<nat>, capacity: nat, p: nat, v: nat)
    requires LruExact(entries, uses, capacity) && p !in entries && capacity > 0
    requires forall n | n in entries :: entries[n].lastAccess < e.lastAccess
    requires |entries| >= capacity ==>
      v in entries && forall n | n in entries && n != v :: entries[v].lastAccess <= entries[n].lastAccess
    ensures LruExact((if |entries| < capacity then entries else entries - {v})[p := e], uses + [p], capacity)
  {
    RecencyDistinct(uses);
    RecencyStep(uses, p);
    if |entries| < capacity {
      InsertFirst(Recency(uses), capacity, entries, e, p);
    } else {
      ReplaceFirst(Recency(uses), capacity, entries, e, p, v);
    }
  }

  lemma LastIsVictim(entries: map<nat, Entry>, kept: seq<nat>, v: nat, last: nat)
    requires Listed(entries, kept) && |kept| == last + 1
    requires v in entries && forall n | n in entries && n != v :: entries[v].lastAccess <= entries[n].lastAccess
    ensures v == kept[last] && v !in kept[..last]
    ensures Falling(entries, kept[..last]) && (entries - {v}).Keys == Elements(kept[..last])
  {
    assert v in Elements(kept);
    var i :| 0 <= i < |kept| && kept[i] == v;
    assert kept[last] in Elements(kept);
    FallingPart(entries, kept, last);
    assert DropAt(kept, last) == kept[..last];
  }

  /** Evicting `v` passes over a pinned page that was used less recently. */
  predicate PassesOver(entries: map<nat, Entry>, v: nat) {
    v in entries && exists n | n in entries :: entries[n].pins > 0 && entries[n].lastAccess < entries[v].lastAccess
  }

  lemma LruVictim(scoring: Scoring, entries: map<nat, Entry>, v: nat)
    requires IsVictim(Lru, scoring, entries, v)
    ensures PassesOver(entries, v) <==> exists n | n in entries :: entries[n].lastAccess < entries[v].lastAccess
  {
    forall n | n in entries && entries[n].lastAccess < entries[v].lastAccess
      ensures entries[n].pins > 0
    {
      assert entries[n].pins == 0 ==> EvictedBefore(Lru, scoring, entries[v], v, entries[n], n);
    }
  }

  /**
   An eviction of an LRU cache leaves exactly the most recently used pages if and only if it passes over no
   pinned page that was used less recently than its victim.
   */
  lemma LruEvictionExactIff(
      scoring: Scoring, entries: map<nat, Entry>, e: Entry, uses: seq<nat>, capacity: nat, p: nat, v: nat)
    requires LruExact(entries, uses, capacity) && p !in entries && |entries| >= capacity > 0
    requires forall n | n in entries :: entries[n].lastAccess < e.lastAccess
    requires IsVictim(Lru, scoring, entries, v)
    ensures (entries - {v})[p := e].Keys == MostRecent(uses + [p], capacity) <==> !PassesOver(entries, v)
    ensures !PassesOver(entries, v) ==> LruExact((entries - {v})[p := e], uses + [p], capacity)
  {
    LruVictim(scoring, entries, v);
    if PassesOver(entries, v) {
      var n :| n in entries && entries[n].lastAccess < entries[v].lastAccess;
      RecentStays(entries, uses, capacity, p, v, n);
    } else {
      LruStore(entries, e, uses, capacity, p, v);
    }
  }

  /** A page that was not the oldest is still among the most recent ones after one more page was used. */
  lemma RecentStays(entries: map<nat, Entry>, uses: seq<nat>, capacity: nat, p: nat, v: nat, n: nat)
    requires LruExact(entries, uses, capacity) && p !in entries && capacity > 0
    requires v in entries && n in entries && entries[n].lastAccess < entries[v].lastAccess
    ensures v in MostRecent(uses + [p], capacity)
  {
    var kept := Take(Recency(uses), capacity);
    RecencyDistinct(uses);
    RecencyStep(uses, p);
    assert p !in kept by { assert p in kept ==> p in Elements(kept); }
    TakeAfterMiss(Recency(uses), capacity, p);
    var i := NotLast(entries, kept, v, n);
    var next := [p] + (if |kept| < capacity then kept else kept[..capacity - 1]);
    assert next[i + 1] == v;
  }

  lemma NotLast(entries: map<nat, Entry>, kept: seq<nat>, v: nat, n: nat) returns (i: nat)
    requires Listed(entries, kept)
    requires v in entries && n in entries && entries[n].lastAccess < entries[v].lastAccess
    ensures i + 1 < |kept| && kept[i] == v
  {
    assert v in Elements(kept) && n in Elements(kept);
    i :| 0 <= i < |kept| && kept[i] == v;
    var j :| 0 <= j < |kept| && kept[j] == n;
  }

  // ---- The cache ----

  /**
   Entries and clock, the pages used so far, and whether pins have broken the LRU order: a store was refused
   because every page was pinned, or an eviction passed over a pinned page older than its victim.
   */
  datatype CacheState = CacheState(entries: map<nat, Entry>, clock: nat, uses: seq<nat>, passedOver: bool)

  datatype Setup = Setup(policy: Policy, capacity: nat, scoring: Scoring) {
    /** `cache_enabled`. */
    predicate Enabled() {
      policy != NoCache && capacity > 0
    }

    /** An entry after one more use. */
    function Touched(e: Entry, now: nat): Entry {
      e.(lastAccess := now, frequency := e.frequency + 1, protectedQueue := e.protectedQueue || UsesQueues(policy))
    }

    function Fresh(page: Page, now: nat): Entry {
      Entry(page, now, 1, false, scoring.hotScore(page), 0)
    }

    /** Entries fit the capacity and sit under their page's id; access times never pass the clock. */
    ghost predicate Bounded(s: CacheState) {
      && |s.entries| <= capacity
      && (!Enabled() ==> s.entries == map[])
      && (forall n | n in s.entries ::
           s.entries[n].page.id == n && s.entries[n].lastAccess <= s.clock)
    }

    /** Under LRU, until a pinned page is passed over, the cache holds exactly the most recently used distinct pages. */
    ghost predicate Recent(s: CacheState) {
      policy.Lru? && Enabled() && !s.passedOver ==> LruExact(s.entries, s.uses, capacity)
    }

    /** What every operation of the cache keeps. */
    ghost predicate Sound(s: CacheState) {
      forall name {:trigger Unsealed(name)} | Unsealed(name) && name == CacheValid :: Bounded(s) && Recent(s)
    }

    lemma LruHoldsMostRecent(s: CacheState)
      requires Recent(s) && policy.Lru? && Enabled() && !s.passedOver
      ensures s.entries.Keys == MostRecent(s.uses, capacity)
    {
    }

    function Hit(s: CacheState, p: nat, e: Entry): CacheState
    {
      s.(entries := s.entries[p := e], clock := s.clock + 1, uses := s.uses + [p])
    }

    lemma HitKeeps(s: CacheState, p: nat, e: Entry)
      requires Bounded(s) && Recent(s) && p in s.entries && e.page.id == p && e.lastAccess == s.clock + 1
      requires e.pins == s.entries[p].pins
      ensures Bounded(Hit(s, p, e)) && Recent(Hit(s, p, e))
    {
      assert s.entries[p := e].Keys == s.entries.Keys;
      if policy.Lru? && Enabled() && !s.passedOver {
        LruHit(s.entries, e, s.uses, capacity, p);
      }
    }

    /** The state after storing a page that was not cached, evicting `c` if the cache was full. */
    function Stored(s: CacheState, page: Page, c: Choice): CacheState {
      var room := if |s.entries| >= capacity && c.Victim? then s.entries - {c.id} else s.entries;
      s.(entries := room[page.id := Fresh(page, s.clock + 1)], clock := s.clock + 1, uses := s.uses + [page.id],
         passedOver := s.passedOver || (|s.entries| >= capacity && c.Victim? && PassesOver(s.entries, c.id)))
    }

    lemma StoreKeeps(s: CacheState, page: Page, c: Choice)
      requires Bounded(s) && Recent(s) && Enabled() && page.id !in s.entries
      requires |s.entries| >= capacity ==> c.Victim? && IsVictim(policy, scoring, s.entries, c.id)
      ensures Bounded(Stored(s, page, c)) && Recent(Stored(s, page, c))
    {
      StoreKeepsBound(s, page, c);
      if policy.Lru? && !Stored(s, page, c).passedOver {
        StoreKeepsRecency(s, page, c);
      }
    }

    /**
     What a store does to the other pages: none changes, and one that goes was unpinned, the eviction
     order's first, and had to make room for the new page.
     */
    ghost predicate StoreEffect(a: CacheState, b: CacheState, page: Page) {
      && (forall n | n in b.entries && n != page.id :: n in a.entries && b.entries[n] == a.entries[n])
      && (forall n | n in a.entries && n !in b.entries ::
            page.id !in a.entries && |a.entries| >= capacity && page.id in b.entries
            && IsVictim(policy, scoring, a.entries, n))
      && (if page.id in b.entries then
            && b.entries[page.id].page == page
            && b.entries[page.id].pins == if page.id in a.entries then a.entries[page.id].pins else 0
          else
            b.entries == a.entries && b.clock == a.clock)
    }

    /** One more use of an entry: the clock's new time, one more hit, and the protected queue if there are queues. */
    ghost predicate UsedOnce(e: Entry, f: Entry, now: nat) {
      && f.lastAccess == now && f.frequency == e.frequency + 1
      && (f.protectedQueue <==> e.protectedQueue || policy.TwoQueue? || policy.GraphAware?)
      && f.pins == e.pins && f.hotScore == e.hotScore
    }

    /** What a hit does to the entry, and that it does nothing else to the entries. */
    lemma TouchedIs(s: CacheState, p: nat)
      requires p in s.entries
      ensures var e := Touched(s.entries[p], s.clock + 1);
              && UsedOnce(s.entries[p], e, s.clock + 1) && e.page == s.entries[p].page
              && SamePagesAndPins(s.entries, Hit(s, p, e).entries)
              && Hit(s, p, e).entries[p] == e && Hit(s, p, e).clock == s.clock + 1
              && forall n | n in s.entries && n != p :: Hit(s, p, e).entries[n] == s.entries[n]
    {
    }

    /** How often a page was used, as far as that counts. */
    function Uses(e: Entry): nat {
      if e.frequency <= 16 then e.frequency else 16
    }

    /**
     Which page a store evicts, of two unpinned ones. With queues a page goes before a protected one only if it is
     not protected itself. Of two pages of one queue, and under LRU, the one used less recently goes, the smaller id
     among equals. The graph-aware policy counts each use, up to 16, as four later accesses and adds the bonus of
     the page's hot score.
     */
    lemma EvictedPage(a: CacheState, b: CacheState, page: Page, n: nat, m: nat)
      requires Enabled() && StoreEffect(a, b, page) && n in a.entries && n !in b.entries
      requires m in a.entries && m != n && a.entries[m].pins == 0
      ensures var x, y := a.entries[n], a.entries[m];
              && x.pins == 0
              && (policy.Lru? ==> x.lastAccess < y.lastAccess || (x.lastAccess == y.lastAccess && n < m))
              && (!policy.Lru? && x.protectedQueue != y.protectedQueue ==> y.protectedQueue)
              && (policy.TwoQueue? && x.protectedQueue == y.protectedQueue ==>
                    x.lastAccess < y.lastAccess || (x.lastAccess == y.lastAccess && n < m))
              && (policy.GraphAware? && x.protectedQueue == y.protectedQueue ==>
                    var more := (y.lastAccess + 4 * Uses(y)) as real - (x.lastAccess + 4 * Uses(x)) as real;
                    var hotter := scoring.hotBonus(y.hotScore) - scoring.hotBonus(x.hotScore);
                    more + hotter > 0.0 || (more + hotter == 0.0 && n < m))
    {
      assert EvictedBefore(policy, scoring, a.entries[n], n, a.entries[m], m);
    }

    /**
     Under the graph-aware policy, of two unpinned pages of one queue none goes that was used as lately and as often
     and is as hot as the other, unless they are equal; at equal hot score and frequency the older one goes.
     */
    lemma GraphAwareEvicts(a: CacheState, b: CacheState, page: Page, n: nat, m: nat)
      requires Enabled() && policy.GraphAware? && StoreEffect(a, b, page) && n in a.entries && n !in b.entries
      requires m in a.entries && m != n && a.entries[m].pins == 0
      requires a.entries[n].protectedQueue == a.entries[m].protectedQueue
      ensures var x, y := a.entries[n], a.entries[m];
              && (x.lastAccess < y.lastAccess || Uses(x) < Uses(y)
                  || scoring.hotBonus(x.hotScore) < scoring.hotBonus(y.hotScore)
                  || (x.lastAccess == y.lastAccess && Uses(x) == Uses(y)
                      && scoring.hotBonus(x.hotScore) == scoring.hotBonus(y.hotScore) && n < m))
              && (x.hotScore == y.hotScore && x.frequency == y.frequency ==>
                    x.lastAccess < y.lastAccess || (x.lastAccess == y.lastAccess && n < m))
    {
      EvictedPage(a, b, page, n, m);
    }

    lemma HitEffect(s: CacheState, page: Page, e: Entry)
      requires page.id in s.entries && e.page == page && e.pins == s.entries[page.id].pins
      ensures StoreEffect(s, Hit(s, page.id, e), page)
    {
    }

    lemma StoredEffect(s: CacheState, page: Page, c: Choice)
      requires page.id !in s.entries
      requires |s.entries| >= capacity ==> c.Victim? && IsVictim(policy, scoring, s.entries, c.id)
      ensures StoreEffect(s, Stored(s, page, c), page)
    {
    }

    lemma StoreKeepsBound(s: CacheState, page: Page, c: Choice)
      requires Bounded(s) && Enabled() && page.id !in s.entries
      requires |s.entries| >= capacity ==> c.Victim? && c.id in s.entries
      ensures Bounded(Stored(s, page, c))
    {
      var room := if |s.entries| >= capacity && c.Victim? then s.entries - {c.id} else s.entries;
      if |s.entries| >= capacity {
        DropSize(s.entries, c.id);
      }
      PutSize(room, page.id, Fresh(page, s.clock + 1));
    }

    lemma StoreKeepsRecency(s: CacheState, page: Page, c: Choice)
      requires policy.Lru? && LruExact(s.entries, s.uses, capacity) && capacity > 0 && page.id !in s.entries
      requires forall n | n in s.entries :: s.entries[n].lastAccess <= s.clock
      requires |s.entries| >= capacity ==>
        c.Victim? && IsVictim(policy, scoring, s.entries, c.id) && !PassesOver(s.entries, c.id)
      ensures LruExact(Stored(s, page, c).entries, Stored(s, page, c).uses, capacity)
    {
      var e := Fresh(page, s.clock + 1);
      if |s.entries| >= capacity {
        assert Stored(s, page, c).entries == (s.entries - {c.id})[page.id := e];
        LruEvictionExactIff(scoring, s.entries, e, s.uses, capacity, page.id, c.id);
      } else {
        assert Stored(s, page, c).entries == s.entries[page.id := e];
        LruStore(s.entries, e, s.uses, capacity, page.id, 0);
      }
    }

    /** Pinning and unpinning change neither the pages nor their order. */
    lemma PinsKeep(s: CacheState, entries: map<nat, Entry>)
      requires Bounded(s) && Recent(s) && entries.Keys == s.entries.Keys
      requires forall n | n in entries ::
                 entries[n].page == s.entries[n].page && entries[n].lastAccess == s.entries[n].lastAccess
      ensures Bounded(s.(entries := entries)) && Recent(s.(entries := entries))
    {
      assert |entries| == |entries.Keys| == |s.entries|;
    }
  }

  /** What a reader of the cache relies on: pages only, never recency. */
  ghost predicate SamePagesAndPins(a: map<nat, Entry>, b: map<nat, Entry>) {
    a.Keys == b.Keys && forall n | n in a :: a[n].page == b[n].page && a[n].pins == b[n].pins
  }

  /** One pin more on page `p`. */
  function PinsPlus(entries: map<nat, Entry>, p: nat): map<nat, Entry>
    requires p in entries
  {
    entries[p := entries[p].(pins := entries[p].pins + 1)]
  }

  function PinsMinus(entries: map<nat, Entry>, p: nat): map<nat, Entry>
    requires p in entries && entries[p].pins > 0
  {
    entries[p := entries[p].(pins := entries[p].pins - 1)]
  }

  class PackedPageCache {
    const setup: Setup
    var s: CacheState

    ghost predicate Valid()
      reads this
    {
      setup.Sound(s)
    }

    lemma EmptyWhenOff()
      requires Valid()
      ensures !setup.Enabled() ==> s.entries == map[]
    {
      assert Unsealed(CacheValid);
    }

    constructor (setup: Setup)
      ensures Valid() && this.setup == setup && s == CacheState(map[], 0, [], false)
    {
      this.setup := setup;
      s := CacheState(map[], 0, [], false);
      assert Take(Recency([]), setup.capacity) == [];
    }

    /** `lookup_cached_page`: a hit refreshes recency and promotes the page; a miss changes nothing. */
    method Lookup(p: nat) returns (hit: bool, page: Page)
      requires Valid()
      modifies this
      ensures Valid() && SamePagesAndPins(old(s).entries, s.entries)
      ensures hit <==> p in s.entries
      ensures hit ==> page == s.entries[p].page
                      && s == setup.Hit(old(s), p, setup.Touched(old(s).entries[p], old(s).clock + 1))
      ensures !hit ==> s == old(s)
    {
      assert Unsealed(CacheValid);
      hit, page := p in s.entries, Page(p, []);
      if hit {
        var e := setup.Touched(s.entries[p], s.clock + 1);
        setup.HitKeeps(s, p, e);
        page := e.page;
        s := setup.Hit(s, p, e);
      }
    }

    /**
     `store_cached_page`. A new page goes into free room or replaces the eviction order's first unpinned
     page; when every page is pinned nothing is stored. A pinned page is never evicted.
     */
    method Store(page: Page)
      requires Valid()
      modifies this
      ensures Valid()
      ensures setup.StoreEffect(old(s), s, page)
      ensures page.id in s.entries || !setup.Enabled() || forall n | n in s.entries :: s.entries[n].pins > 0
      ensures page.id in s.entries && setup.Enabled() ==>
                && s.clock == old(s).clock + 1 && s.entries[page.id].hotScore == setup.scoring.hotScore(page)
                && if page.id in old(s).entries then
                     setup.UsedOnce(old(s).entries[page.id].(hotScore := setup.scoring.hotScore(page)), s.entries[page.id], s.clock)
                   else
                     && s.entries[page.id].lastAccess == s.clock && s.entries[page.id].frequency == 1
                     && !s.entries[page.id].protectedQueue
      ensures s.uses == if setup.Enabled() then old(s).uses + [page.id] else old(s).uses
      ensures s.passedOver && !old(s).passedOver && page.id in s.entries ==>
                exists n | n in old(s).entries && n !in s.entries :: PassesOver(old(s).entries, n)
    {
      assert Unsealed(CacheValid);
      if !setup.Enabled() {
        return;
      }
      if page.id in s.entries {
        var e := setup.Touched(s.entries[page.id], s.clock + 1).(page := page, hotScore := setup.scoring.hotScore(page));
        setup.HitKeeps(s, page.id, e);
        setup.HitEffect(s, page, e);
        s := setup.Hit(s, page.id, e);
        return;
      }
      var c := Nobody;
      if |s.entries| >= setup.capacity {
        c := ChooseVictim(setup.policy, setup.scoring, s.entries);
        if c.Nobody? {
          s := s.(uses := s.uses + [page.id], passedOver := true);
          return;
        }
      }
      setup.StoreKeeps(s, page, c);
      setup.StoredEffect(s, page, c);
      assert c.Victim? ==> c.id !in setup.Stored(s, page, c).entries;
      s := setup.Stored(s, page, c);
    }

    /** `pin_if_cached`. */
    method Pin(p: nat) returns (ok: bool)
      requires Valid()
      modifies this
      ensures Valid() && (ok <==> p in old(s).entries)
      ensures ok ==> s == old(s).(entries := PinsPlus(old(s).entries, p))
      ensures !ok ==> s == old(s)
    {
      assert Unsealed(CacheValid);
      ok := p in s.entries;
      if ok {
        setup.PinsKeep(s, PinsPlus(s.entries, p));
        s := s.(entries := PinsPlus(s.entries, p));
      }
    }

    /** `unpin_if_cached`; unpinning a cached page that is not pinned is an error. */
    method Unpin(p: nat) returns (ok: bool)
      requires Valid()
      modifies this
      ensures Valid() && (ok <==> (p in old(s).entries ==> old(s).entries[p].pins > 0))
      ensures ok && p in old(s).entries ==> s == old(s).(entries := PinsMinus(old(s).entries, p))
      ensures !ok || p !in old(s).entries ==> s == old(s)
    {
      assert Unsealed(CacheValid);
      ok := true;
      if p in s.entries {
        if s.entries[p].pins == 0 {
          return false;
        }
        setup.PinsKeep(s, PinsMinus(s.entries, p));
        s := s.(entries := PinsMinus(s.entries, p));
      }
    }
  }
}
