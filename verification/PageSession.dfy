/** One query's page session: demand loads, prefetches, and the end of the query. */
module PageSession {
  import opened Sealing
  import opened TopK
  import opened PageCache
  import opened PageReader
  import opened PageLedger

  datatype IoStatus = IoStatus(async: bool, depth: nat, batchSize: nat)

  datatype PrefetchConfig = PrefetchConfig(policyNone: bool, width: nat, topK: nat, depth: nat)

  function Max(a: nat, b: nat): nat {
    if a < b then b else a
  }

  function Min(a: nat, b: nat): nat {
    if a < b then a else b
  }

  /** `session_demand_io_reserve`. */
  function DemandReserve(io: IoStatus): nat {
    if !io.async || io.depth <= 1 then 1
    else Max(1, Min(Max(1, io.batchSize), Max(1, io.depth / 2)))
  }

  predicate AsyncPrefetch(io: IoStatus, c: PrefetchConfig) {
    io.async && io.depth > 0 && c.depth > 0 && !c.policyNone
  }

  /** `session_prefetch_budget`. */
  function PrefetchBudget(io: IoStatus, c: PrefetchConfig): nat {
    if !AsyncPrefetch(io, c) || io.depth <= DemandReserve(io) then
      0
    else
      var asked := Max(c.width, c.topK);
      var width := if asked == 0 then Max(1, io.depth / 4) else asked;
      Min(width * Max(1, c.depth), io.depth - DemandReserve(io))
  }

  /** Budget and reserve together fit the ring. */
  lemma BudgetFits(io: IoStatus, c: PrefetchConfig)
    requires io.depth > 0
    ensures 1 <= DemandReserve(io)
    ensures io.async ==> PrefetchBudget(io, c) + DemandReserve(io) <= io.depth
    ensures PrefetchBudget(io, c) > 0 ==> AsyncPrefetch(io, c)
  {
  }

  /** The reserve is one batch, but at most half of the ring and at least one read. */
  lemma ReserveIs(io: IoStatus, m: nat)
    ensures m <= DemandReserve(io) <==> m <= 1 || (io.async && m <= io.batchSize && 2 * m <= io.depth)
  {
  }

  /**
   The budget of a query that may prefetch: what the reserve leaves of the ring, but at most the configured
   width per step and step count. The width is the larger of `width` and `topK`, or a quarter of the ring when
   neither is set, and at least one.
   */
  lemma BudgetIs(io: IoStatus, c: PrefetchConfig, m: nat)
    requires m > 0
    ensures m <= PrefetchBudget(io, c) <==>
            && io.async && c.depth > 0 && !c.policyNone
            && m + DemandReserve(io) <= io.depth
            && (|| m <= c.width * c.depth
                || m <= c.topK * c.depth
                || (c.width == c.topK == 0 && (m <= c.depth || m <= io.depth / 4 * c.depth)))
  {
    MaxTimes(c.width, c.topK, c.depth);
    MaxTimes(1, io.depth / 4, c.depth);
  }

  lemma MaxTimes(a: nat, b: nat, d: nat)
    ensures Max(a, b) * d == Max(a * d, b * d)
  {
    if a < b {
      assert b * d == a * d + (b - a) * d;
    } else {
      assert a * d == b * d + (a - b) * d;
    }
  }

  /** Arrivals only move pages from pending to ready. */
  ghost predicate Moved(a: SessionState, b: SessionState) {
    && b == a.(tokens := b.tokens, pending := b.pending, ready := b.ready, completed := b.completed)
    && Coming(b) == Coming(a) && b.pending <= a.pending
  }

  /** The demand side may use pages of `q`; it never starts a prefetch and unpins nothing. */
  ghost predicate Forward(a: SessionState, b: SessionState, q: set<nat>) {
    && a.materialized <= b.materialized <= a.materialized + q
    && b.owned.Keys <= a.owned.Keys + q
    && Coming(b) <= Coming(a)
    && b.stats.submitted == a.stats.submitted
  }

  /** A page that the session just took or read is put to use. */
  function Used(s: SessionState, page: Page, cacheOn: bool): SessionState {
    if cacheOn then Materialized(s, page) else Owned(s, page)
  }

  /** Page `p` became usable. */
  ghost predicate Gained(a: SessionState, b: SessionState, p: nat) {
    && Forward(a, b, {p}) && p in b.materialized
    && b.hit == a.hit - {p} && b.demand == a.demand && b.demanded == a.demanded
  }

  lemma MaterializedGained(a: SessionState, page: Page)
    requires page.id !in a.hit
    ensures Gained(a, Materialized(a, page), page.id)
  {
    assert a.hit - {page.id} == a.hit;
  }

  lemma TakenGained(a: SessionState, page: Page, cacheOn: bool)
    ensures Gained(a, Used(Taken(a, page.id), page, cacheOn), page.id)
  {
    var b := Used(Taken(a, page.id), page, cacheOn);
    assert Coming(b) <= Coming(a) by {
      assert (a.ready - {page.id}).Keys <= a.ready.Keys;
    }
    assert b.owned.Keys <= a.owned.Keys + {page.id} by {
      assert a.owned[page.id := page].Keys == a.owned.Keys + {page.id};
    }
  }

  lemma WaitedGained(a: SessionState, b: SessionState, c: SessionState, p: nat)
    requires a.hit == {} && Moved(PendingHit(a, p), b) && Gained(b, c, p)
    ensures Gained(a, c, p)
  {
  }

  /** The page of demand token `t` became usable. */
  ghost predicate Delivered(a: SessionState, b: SessionState, t: nat) {
    && t in a.demand
    && Forward(a, b, {a.demand[t]}) && a.demand[t] in b.materialized
    && b.demand == a.demand - {t} && b.demanded == a.demanded - {a.demand[t]} && b.hit == a.hit
    && a.demand[t] in a.demanded
  }

  /** Demand reads in flight at `a` are in flight or used at `b`. */
  ghost predicate Progress(a: SessionState, b: SessionState) {
    forall name {:trigger Unsealed(name)} | Unsealed(name) && name == DemandProgress ::
      && Forward(a, b, a.demanded) && b.hit == a.hit
      && b.demanded <= a.demanded <= b.materialized + b.demanded
  }

  lemma DeliveredProgress(a: SessionState, b: SessionState, t: nat)
    requires Delivered(a, b, t)
    ensures Progress(a, b)
  {
  }

  lemma MovedProgress(a: SessionState, b: SessionState)
    requires Moved(a, b)
    ensures Progress(a, b)
  {
  }

  lemma ProgressEnds(a: SessionState, b: SessionState)
    requires Progress(a, b) && b.demanded == {}
    ensures Forward(a, b, a.demanded) && a.demanded <= b.materialized && b.hit == a.hit
  {
    assert Unsealed(DemandProgress);
  }

  lemma ProgressAgain(a: SessionState, b: SessionState, c: SessionState)
    requires Progress(a, b) && Progress(b, c)
    ensures Progress(a, c)
  {
    assert Unsealed(DemandProgress);
  }

  lemma AnsweredDelivered(a: SessionState, t: nat, page: Page, cacheOn: bool)
    requires t in a.demand && page.id == a.demand[t] && page.id in a.demanded
    ensures Delivered(a, Used(Answered(a, t), page, cacheOn), t)
  {
    assert a.owned[page.id := page].Keys == a.owned.Keys + {page.id};
  }

  lemma ForwardAgain(a: SessionState, b: SessionState, c: SessionState, q: set<nat>, r: set<nat>)
    requires Forward(a, b, q) && Forward(b, c, r)
    ensures Forward(a, c, q + r)
  {
  }

  ghost function FrameOf(index: Index, v: View, setup: Setup, entries: map<nat, Entry>, budget: nat): Frame {
    Frame(index, setup.Enabled(), budget, |v.flying|, v.issued, map p | p in entries :: entries[p].pins)
  }

  lemma NewSessionInv(v: View, setup: Setup, entries: map<nat, Entry>, f: Frame)
    requires f == FrameOf(f.index, v, setup, entries, f.budget) && CacheFromDisk(entries, f.index.disk)
    requires forall t | t in v.flying :: t < v.next
    requires !setup.Enabled() ==> entries == map[]
    ensures Inv(NewSession, v, entries, f)
  {
    assert Known(NewSession) == {};
  }

  /** `materialize_page`. */
  method Materialize(s: SessionState, page: Page) returns (t: SessionState)
    ensures t == Materialized(s, page)
  {
    t := s;
    if page.id !in s.materialized {
      var nodes := s.nodes;
      for i := 0 to |page.nodes|
        invariant nodes == AddNodes(s.nodes, page.nodes[..i])
      {
        AddNodesStep(s.nodes, page.nodes, i);
        if page.nodes[i].id !in nodes {
          nodes := nodes[page.nodes[i].id := page.nodes[i]];
        }
      }
      assert page.nodes[..|page.nodes|] == page.nodes;
      t := s.(materialized := s.materialized + {page.id}, nodes := nodes);
    }
  }

  class QueryPageSession {
    const index: Index
    const reader: AsyncPageReader
    const cache: PackedPageCache
    const io: IoStatus
    const config: PrefetchConfig
    ghost const frame: Frame
    var s: SessionState

    /** How the session is wired to its index, reader and cache. */
    ghost predicate Linked()
      reads this, reader, cache
    {
      && reader.Valid() && cache.Valid() && index.WellFormed()
      && reader.disk == index.disk && reader.async == io.async && reader.depth == io.depth && io.depth > 0
      && frame.index == index && frame.cacheOn == cache.setup.Enabled()
      && frame.budget == PrefetchBudget(io, config)
    }

    /** Reads that earlier queries left in flight, the budget and the reserve fit the ring together. */
    ghost predicate Roomy() {
      io.async ==> frame.stale + PrefetchBudget(io, config) + DemandReserve(io) <= io.depth
    }

    /** The reader refused a batch, which ends the query with an exception; this happens only without room. */
    ghost predicate Refused()
      reads this, reader, cache
    {
      && reader.Valid() && cache.Valid() && !Roomy()
      && CacheFromDisk(cache.s.entries, index.disk) && PinsMatch(s.pinned, cache.s.entries, frame.pins)
    }

    ghost predicate Valid()
      reads this, reader, cache
    {
      Linked() && Inv(s, reader.view, cache.s.entries, frame)
    }

    /** Between operations no demand read is in flight and no pending hit is unresolved. */
    ghost predicate Idle()
      reads this, reader, cache
    {
      && s.demand == map[] && s.demanded == {} && s.hit == {}
      && forall name {:trigger Unsealed(name)} | Unsealed(name) && name == SessionIdle :: Valid()
    }

    /** A reaped read that the session has not looked at yet. */
    ghost predicate Reaped(v: View, c: CompletedRead)
      reads this, reader, cache
    {
      && Linked() && Inv(s, v, cache.s.entries, frame)
      && c.token in v.flying && v.flying[c.token] < |index.disk| && c.data == index.disk[v.flying[c.token]]
      && reader.view == v.(flying := v.flying - {c.token})
    }

    /** A session on a reader that may still have reads of earlier queries in flight. */
    constructor (index: Index, reader: AsyncPageReader, cache: PackedPageCache, io: IoStatus, config: PrefetchConfig)
      requires reader.Valid() && cache.Valid() && index.WellFormed()
      requires reader.disk == index.disk && reader.async == io.async && reader.depth == io.depth && io.depth > 0
      requires CacheFromDisk(cache.s.entries, index.disk)
      ensures Idle() && s == NewSession
      ensures this.index == index && this.reader == reader && this.cache == cache
      ensures this.io == io && this.config == config
      ensures frame == FrameOf(index, reader.view, cache.setup, cache.s.entries, PrefetchBudget(io, config))
    {
      this.index, this.reader, this.cache, this.io, this.config := index, reader, cache, io, config;
      frame := FrameOf(index, reader.view, cache.setup, cache.s.entries, PrefetchBudget(io, config));
      s := NewSession;
      new;
      reader.TokensAreOld();
      cache.EmptyWhenOff();
      NewSessionInv(reader.view, cache.setup, cache.s.entries, frame);
    }

    method Consumed(c: CompletedRead, ghost v: View)
      requires Reaped(v, c) && c.token !in s.demand
      modifies this
      ensures Valid() && Moved(old(s), s)
    {
      ConsumeKeeps(s, v, cache.s.entries, frame, c);
      if c.token in s.tokens {
        ConsumeIsReady(s, v, cache.s.entries, frame, c);
        ArrivedMoves(s, c.token, s.tokens[c.token], c.data);
      }
      s := Consume(s, c, cache.s.entries.Keys, PrefetchBudget(io, config));
    }

    lemma ArrivedMoves(a: SessionState, t: nat, p: nat, data: Page)
      requires p in a.pending
      ensures Moved(a, Arrived(a, t, p, data))
    {
      assert a.ready[p := data].Keys == a.ready.Keys + {p};
    }

    /** Reaps one read and files it. */
    method HarvestOne(wait: bool) returns (got: bool)
      requires Valid() && s.demand == map[]
      modifies this, reader
      ensures Valid() && Moved(old(s), s)
      ensures wait && old(reader.view).flying != map[] ==> got
      ensures !got ==> reader.view == old(reader.view)
      ensures got ==> |reader.view.flying| < |old(reader.view).flying|
      ensures old(reader.Quiet()) && !wait ==> !got && s == old(s) && reader.Quiet()
    {
      ghost var v := reader.view;
      var c;
      got, c := reader.Reap(wait);
      if got {
        OneLess(v.flying, c.token);
        Consumed(c, v);
      }
    }

    /** `harvest_prefetch`: everything that has arrived, waiting for at least one read if asked to. */
    method Harvest(wait: bool) returns (harvested: bool)
      requires Valid() && s.demand == map[] && AsyncPrefetch(io, config)
      modifies this, reader
      ensures Valid() && Moved(old(s), s)
      ensures wait && old(reader.view).flying != map[] ==> harvested
      ensures |reader.view.flying| <= |old(reader.view).flying|
      ensures harvested ==> |reader.view.flying| < |old(reader.view).flying|
      ensures old(reader.Quiet()) && !wait ==>
                !harvested && s == old(s) && reader.view == old(reader.view) && reader.Quiet()
    {
      harvested := HarvestOne(wait);
      var more := harvested;
      while more
        invariant Valid() && Moved(old(s), s)
        invariant harvested ==> |reader.view.flying| < |old(reader.view).flying|
        invariant |reader.view.flying| <= |old(reader.view).flying|
        invariant old(reader.Quiet()) && !wait ==>
                    !harvested && !more && s == old(s) && reader.view == old(reader.view) && reader.Quiet()
        decreases |reader.view.flying|, more
      {
        more := HarvestOne(false);
      }
    }

    /** `wait_for_prefetch_page`: a page that was pending is ready afterwards. */
    method WaitFor(p: nat)
      requires Valid() && s.demand == map[] && AsyncPrefetch(io, config)
      modifies this, reader
      ensures Valid() && Moved(old(s), s) && p !in s.pending
    {
      while p in s.pending
        invariant Valid() && Moved(old(s), s)
        decreases |reader.view.flying|
      {
        PendingIsFlying(s, reader.view, cache.s.entries, frame, p);
        var harvested := Harvest(true);
      }
    }

    lemma PendingIsFlying(a: SessionState, v: View, entries: map<nat, Entry>, f: Frame, p: nat)
      requires Inv(a, v, entries, f) && p in a.pending
      ensures v.flying != map[]
    {
      var t :| t in a.tokens;
      assert Point(t);
    }

    // ---- Using a page ----

    /** With the cache on: the page goes to the cache, if it has room, and to the local nodes. */
    method StoreAndUse(page: Page)
      requires Valid() && cache.setup.Enabled()
      requires page.id < |index.disk| && page == index.disk[page.id] && page.id !in Coming(s)
      modifies this, cache
      ensures Valid() && s == Materialized(old(s), page)
    {
      ghost var entries := cache.s.entries;
      cache.Store(page);
      StoredKeeps(s, reader.view, entries, cache.s.entries, frame, page.id);
      MaterializedKeeps(s, reader.view, cache.s.entries, frame, page.id);
      s := Materialize(s, page);
    }

    /** `try_get_cached_page`, then `materialize_page`. */
    method UseCached(p: nat) returns (found: bool, page: Page)
      requires Valid()
      modifies this, cache
      ensures Valid() && (found <==> p in cache.s.entries) && old(cache.s.entries).Keys == cache.s.entries.Keys
      ensures found ==> p < |index.disk| && page == index.disk[p] && s == Materialized(old(s), page)
      ensures !found ==> s == old(s)
    {
      ghost var entries := cache.s.entries;
      found, page := cache.Lookup(p);
      LookupKeeps(s, reader.view, entries, cache.s.entries, frame);
      if found {
        UseFound(page, p);
      }
    }

    method UseFound(page: Page, p: nat)
      requires Valid() && p in cache.s.entries && cache.s.entries[p].page == page
      modifies this
      ensures Valid() && p < |index.disk| && page == index.disk[p] && s == Materialized(old(s), page)
    {
      CachedIsAvailable(s, reader.view, cache.s.entries, frame, p);
      s := s.(completed := s.completed - {p});
      MaterializedKeeps(s, reader.view, cache.s.entries, frame, p);
      s := Materialize(s, page);
    }

    lemma CachedIsAvailable(a: SessionState, v: View, entries: map<nat, Entry>, f: Frame, p: nat)
      requires Inv(a, v, entries, f) && p in entries
      ensures f.cacheOn && p < |f.index.disk| && entries[p].page == f.index.disk[p] && p !in Coming(a)
      ensures a.(completed := a.completed - {p}) == a
    {
      assert Point(p);
      assert a.completed - {p} == a.completed;
    }

    /** `take_ready_prefetch_page`, then `materialize_page`. */
    method UseReady(p: nat) returns (page: Page)
      requires Valid() && p in s.ready
      modifies this, cache
      ensures Valid() && p < |index.disk| && page == index.disk[p]
      ensures s == Used(Taken(old(s), p), page, cache.setup.Enabled())
    {
      page := s.ready[p];
      ReadyIsDisk(s, reader.view, cache.s.entries, frame, p);
      if cache.setup.Enabled() {
        TakeAndStore(p, page);
      } else {
        TakeAndOwn(p, page);
      }
    }

    lemma ReadyIsDisk(a: SessionState, v: View, entries: map<nat, Entry>, f: Frame, p: nat)
      requires Inv(a, v, entries, f) && p in a.ready && f.index.WellFormed()
      ensures p < |f.index.disk| && a.ready[p] == f.index.disk[p] && a.ready[p].id == p
    {
      assert Point(p);
    }

    method TakeAndStore(p: nat, page: Page)
      requires Valid() && p in s.ready && cache.setup.Enabled()
      requires p < |index.disk| && page == index.disk[p]
      modifies this, cache
      ensures Valid() && s == Materialized(Taken(old(s), p), page)
    {
      TakenKeeps(s, reader.view, cache.s.entries, frame, p);
      s := Taken(s, p);
      StoreAndUse(page);
    }

    method TakeAndOwn(p: nat, page: Page)
      requires Valid() && p in s.ready && !cache.setup.Enabled()
      requires p < |index.disk| && page == index.disk[p]
      modifies this
      ensures Valid() && s == Owned(Taken(old(s), p), page)
    {
      TakenOwnedKeeps(s, reader.view, cache.s.entries, frame, p);
      var t := Taken(s, p);
      t := Materialize(t.(owned := t.owned[page.id := page]), page);
      s := t;
    }

    /** `materialize_available_page`. */
    method MaterializeAvailable(p: nat) returns (ok: bool)
      requires Valid()
      modifies this, cache
      ensures Valid()
      ensures if ok then Gained(old(s), s, p)
              else s == old(s) && p !in s.owned && p !in s.materialized && p !in s.ready
    {
      if p in s.owned || p in s.materialized {
        AlreadyGained(s, reader.view, cache.s.entries, frame, p);
        return true;
      }
      ghost var a := s;
      if p in cache.s.entries {
        CachedGained(s, reader.view, cache.s.entries, frame, p);
      }
      var page;
      ok, page := UseCached(p);
      if !ok && p in s.ready {
        page := UseReady(p);
        ok := true;
        TakenGained(a, page, cache.setup.Enabled());
      }
    }

    lemma AlreadyGained(a: SessionState, v: View, entries: map<nat, Entry>, f: Frame, p: nat)
      requires Inv(a, v, entries, f) && (p in a.owned || p in a.materialized)
      ensures Gained(a, a, p)
    {
      assert Point(p);
    }

    lemma CachedGained(a: SessionState, v: View, entries: map<nat, Entry>, f: Frame, p: nat)
      requires Inv(a, v, entries, f) && f.index.WellFormed() && p in entries
      ensures p < |f.index.disk| && Gained(a, Materialized(a, f.index.disk[p]), p)
    {
      assert p < |f.index.disk| && p !in a.hit by { assert Point(p); }
      MaterializedGained(a, f.index.disk[p]);
    }

    /**
     The steps both loading loops share: use the page if it is at hand, else wait for its prefetch. What
     is left over is a page that nothing in the session is reading.
     */
    method Resolve(p: nat) returns (ok: bool)
      requires Idle()
      modifies this, reader, cache
      ensures Idle() && Forward(old(s), s, {p})
      ensures ok ==> p in s.materialized
      ensures !ok ==> p !in Coming(s) && p !in s.owned && p !in s.materialized
    {
      assert Unsealed(SessionIdle);
      ok := MaterializeAvailable(p);
      if ok {
        assert s.hit == {};
        return;
      }
      if p in s.pending {
        ghost var a := s;
        MarkPendingHit(p);
        WaitFor(p);
        ghost var b := s;
        ok := MaterializeAvailable(p);
        WaitedGained(a, b, s, p);
      }
    }

    method MarkPendingHit(p: nat)
      requires Idle() && p in s.pending
      modifies this
      ensures Valid() && s == PendingHit(old(s), p) && AsyncPrefetch(io, config)
    {
      assert Unsealed(SessionIdle);
      PendingHitKeeps(s, reader.view, cache.s.entries, frame, p);
      BudgetFits(io, config);
      s := PendingHit(s, p);
    }

    // ---- Demand reads ----

    /** A demand read came back: the page is stored or owned, and used. */
    method Deliver(c: CompletedRead, ghost v: View)
      requires Reaped(v, c) && c.token in s.demand
      modifies this, cache
      ensures Valid() && Progress(old(s), s)
      ensures Asked(c.data, old(s).demanded)
    {
      ghost var a := s;
      DemandIsFlying(s, v, cache.s.entries, frame, c.token);
      AnsweredDelivered(s, c.token, c.data, cache.setup.Enabled());
      if cache.setup.Enabled() {
        AnswerAndStore(c, v);
      } else {
        AnswerAndOwn(c, v);
      }
      DeliveredProgress(a, s, c.token);
    }

    lemma DemandIsFlying(a: SessionState, v: View, entries: map<nat, Entry>, f: Frame, t: nat)
      requires Inv(a, v, entries, f) && f.index.WellFormed() && t in a.demand
      ensures t in v.flying && v.flying[t] == a.demand[t] && a.demand[t] in a.demanded && a.demand[t] !in Coming(a)
      ensures a.demand[t] < |f.index.disk| ==> f.index.disk[a.demand[t]].id == a.demand[t]
    {
      assert Point(t) && Point(a.demand[t]);
    }

    method AnswerAndStore(c: CompletedRead, ghost v: View)
      requires Reaped(v, c) && c.token in s.demand && cache.setup.Enabled()
      requires c.data.id == s.demand[c.token] == v.flying[c.token]
      modifies this, cache
      ensures Valid() && s == Materialized(Answered(old(s), c.token), c.data)
    {
      AnsweredKeeps(s, v, cache.s.entries, frame, c.token);
      s := Answered(s, c.token);
      StoreAndUse(c.data);
    }

    method AnswerAndOwn(c: CompletedRead, ghost v: View)
      requires Reaped(v, c) && c.token in s.demand && !cache.setup.Enabled()
      requires c.data.id == s.demand[c.token] == v.flying[c.token]
      modifies this
      ensures Valid() && s == Owned(Answered(old(s), c.token), c.data)
    {
      AnsweredOwnedKeeps(s, v, cache.s.entries, frame, c.token);
      var t := Answered(s, c.token);
      t := Materialize(t.(owned := t.owned[c.data.id := c.data]), c.data);
      s := t;
    }

    /** A page from disk that was asked for. */
    ghost predicate Asked(page: Page, ids: set<nat>) {
      page.id in ids && page.id < |index.disk| && page == index.disk[page.id]
    }

    lemma AskedEarlier(page: Page, a: SessionState, b: SessionState)
      requires Progress(a, b) && Asked(page, b.demanded)
      ensures Asked(page, a.demanded)
    {
      assert Unsealed(DemandProgress);
    }

    /** Reaps reads until no demand read is in flight; other arrivals are prefetches or leftovers. */
    method AwaitDemand() returns (last: Page)
      requires Valid()
      modifies this, reader, cache
      ensures old(s).demand != map[] ==> Asked(last, old(s).demanded)
      ensures Valid() && Progress(old(s), s) && s.demand == map[]
    {
      ghost var a := s;
      last := Page(0, []);
      var any := false;
      while s.demand != map[]
        invariant Valid() && Progress(a, s)
        invariant if any then Asked(last, a.demanded) else s.demand == a.demand
        decreases |reader.view.flying|
      {
        ghost var b := s;
        var mine, page := AwaitOne();
        if mine {
          AskedEarlier(page, a, b);
          last, any := page, true;
        }
        ProgressAgain(a, b, s);
      }
    }

    lemma NoDemand(a: SessionState, v: View, entries: map<nat, Entry>, f: Frame)
      requires Inv(a, v, entries, f) && a.demand == map[]
      ensures a.demanded == {}
    {
    }

    /** With a demand read in flight, waiting always brings something back. */
    method ReapAny() returns (c: CompletedRead, ghost v: View)
      requires Valid() && s.demand != map[]
      modifies reader
      ensures v == old(reader.view) && Reaped(v, c) && |reader.view.flying| < |v.flying|
    {
      v := reader.view;
      SomethingFlies(s, v, cache.s.entries, frame);
      var got;
      got, c := reader.Reap(true);
      OneLess(v.flying, c.token);
    }

    lemma SomethingFlies(a: SessionState, v: View, entries: map<nat, Entry>, f: Frame)
      requires Inv(a, v, entries, f) && a.demand != map[]
      ensures v.flying != map[]
    {
      var t :| t in a.demand;
      assert Point(t);
    }

    lemma OneLess(flying: map<nat, nat>, t: nat)
      requires t in flying
      ensures |flying - {t}| < |flying|
    {
      assert flying.Keys == (flying - {t}).Keys + {t};
    }

    method AwaitOne() returns (mine: bool, page: Page)
      requires Valid() && s.demand != map[]
      modifies this, reader, cache
      ensures if mine then Asked(page, old(s).demanded) else s.demand == old(s).demand
      ensures Valid() && Progress(old(s), s) && |reader.view.flying| < |old(reader.view).flying|
    {
      ghost var a := s;
      var c;
      ghost var v;
      c, v := ReapAny();
      mine, page := c.token in s.demand, c.data;
      if mine {
        Deliver(c, v);
      } else {
        Consumed(c, v);
        MovedProgress(a, s);
      }
    }

    /** Submits demand reads for pages nothing is reading yet, and waits for them. */
    method DemandRead(ps: seq<nat>) returns (ok: bool, last: Page)
      requires Idle() && Unread(s, ps) && ps != []
      requires AllBelow(ps, |index.disk|)
      requires io.async ==> |ps| <= DemandReserve(io)
      modifies this, reader, cache
      ensures ok <==> !io.async || |old(reader.view).flying| + |ps| <= io.depth
      ensures ok ==> Idle() && Loads(old(s), s, ps) && Asked(last, Elements(ps))
      ensures !ok ==> Refused()
    {
      assert Unsealed(SessionIdle);
      ghost var a := s;
      last := Page(0, []);
      ok := SubmitDemand(ps);
      if !ok {
        return;
      }
      ghost var b := s;
      last := AwaitDemand();
      NoDemand(s, reader.view, cache.s.entries, frame);
      ProgressEnds(b, s);
      DemandLoads(a, b, s, ps);
    }

    /** With room, the pool always has buffers for a demand batch. */
    method SubmitDemand(ps: seq<nat>) returns (ok: bool)
      requires Idle() && Unread(s, ps)
      requires AllBelow(ps, |index.disk|)
      requires io.async ==> |ps| <= DemandReserve(io)
      modifies this, reader
      ensures ok <==> !io.async || |old(reader.view).flying| + |ps| <= io.depth
      ensures ok ==> Valid() && s == old(s).(demand := s.demand, demanded := Elements(ps)) && (ps != [] ==> s.demand != map[])
      ensures !ok ==> Refused()
    {
      assert Unsealed(SessionIdle);
      ghost var v, a := reader.view, s;
      FlightBound(s, v, cache.s.entries, frame);
      DemandAllKeeps(s, v, cache.s.entries, frame, ps);
      DemandAllShape(s, v.next, ps);
      var first;
      ok, first := reader.BatchSubmit(ps);
      if ok {
        var t := DemandTokens(s, first, ps);
        s := t;
      }
    }

    // ---- Loading a batch ----

    /** The first pass of `ensure_pages_loaded_batch`: pages at hand are used, the others are missing. */
    method CollectMissing(pages: seq<nat>) returns (missing: seq<nat>)
      requires Idle() && Distinct(pages)
      modifies this, reader, cache
      ensures Idle() && Collected(old(s), s, pages, missing)
    {
      missing := [];
      ghost var a := s;
      CollectedNone(a, pages);
      for i := 0 to |pages|
        invariant Idle() && Collected(a, s, pages[..i], missing)
      {
        ghost var b := s;
        var ok := Resolve(pages[i]);
        CollectedStep(a, b, s, pages, i, missing, ok);
        missing := if ok then missing else missing + [pages[i]];
      }
      assert pages[..|pages|] == pages;
    }

    /**
     One chunk of demand loads. Each page is checked again; what nothing else delivers is read in one
     batch, within the demand reserve.
     */
    method LoadChunk(chunk: seq<nat>) returns (ok: bool)
      requires Idle() && Distinct(chunk) && AllBelow(chunk, |index.disk|)
      requires io.async ==> |chunk| <= DemandReserve(io)
      modifies this, reader, cache
      ensures if ok then Idle() && Loads(old(s), s, chunk) else Refused()
    {
      ok := true;
      var requests := [];
      ghost var a := s;
      CollectedNone(a, chunk);
      for i := 0 to |chunk|
        invariant Idle() && Collected(a, s, chunk[..i], requests) && Unread(s, requests) && |requests| <= i
      {
        ghost var b := s;
        var there := Resolve(chunk[i]);
        UnreadStays(a, b, s, chunk, i, requests, there);
        CollectedStep(a, b, s, chunk, i, requests, there);
        requests := if there then requests else requests + [chunk[i]];
      }
      assert chunk[..|chunk|] == chunk;
      ghost var b := s;
      CollectedBounds(a, b, chunk, requests, |index.disk|);
      if requests != [] {
        var last;
        ok, last := DemandRead(requests);
        if !ok {
          return;
        }
      }
      CollectedLoads(a, b, s, chunk, requests);
    }

    /** `ensure_pages_loaded_batch`: afterwards every requested page is usable. */
    method EnsureLoaded(pages: seq<nat>) returns (ok: bool)
      requires Idle()
      modifies this, reader, cache
      ensures ok ==> AllBelow(pages, |index.disk|) && Idle() && Loads(old(s), s, pages)
      ensures !ok ==> if AllBelow(pages, |index.disk|) then Refused() else Idle() && s == old(s)
    {
      ok := InRange(pages, |index.disk|);
      if !ok {
        return;
      }
      var unique := Unique(pages);
      ghost var a := s;
      var missing := CollectMissing(unique);
      ghost var b := s;
      SameBelow(pages, unique, |index.disk|);
      CollectedBounds(a, b, unique, missing, |index.disk|);
      HarvestAll();
      ghost var c := s;
      ok := LoadMissing(missing);
      if !ok {
        return;
      }
      BatchLoads(a, b, c, s, pages, unique, missing);
    }

    /** Everything that has already arrived is filed. */
    method HarvestAll()
      requires Idle()
      modifies this, reader
      ensures Idle() && Moved(old(s), s)
      ensures old(reader.Quiet()) ==> s == old(s) && reader.view == old(reader.view) && reader.Quiet()
    {
      assert Unsealed(SessionIdle);
      var more := AsyncPrefetch(io, config);
      while more
        invariant old(reader.Quiet()) ==> s == old(s) && reader.view == old(reader.view) && reader.Quiet()
        invariant Idle() && Moved(old(s), s) && (more ==> AsyncPrefetch(io, config))
        decreases |reader.view.flying|, more
      {
        more := Harvest(false);
      }
    }

    method LoadMissing(missing: seq<nat>) returns (ok: bool)
      requires Idle() && Distinct(missing) && AllBelow(missing, |index.disk|)
      modifies this, reader, cache
      ensures if ok then Idle() && Loads(old(s), s, missing) else Refused()
    {
      ok := true;
      var limit := if io.async then Max(1, DemandReserve(io)) else |missing|;
      var begin := 0;
      ghost var a := s;
      LoadsNone(a, missing);
      while begin < |missing|
        invariant 0 <= begin <= |missing|
        invariant Idle() && Loads(a, s, missing[..begin])
      {
        var end := Min(begin + limit, |missing|);
        ghost var b := s;
        ChunkOf(missing, begin, end, |index.disk|);
        ok := LoadChunk(missing[begin..end]);
        if !ok {
          return;
        }
        LoadsMore(a, b, s, missing, begin, end);
        begin := end;
      }
      assert missing[..begin] == missing;
    }

    // ---- Single pages and nodes ----

    /** `get_or_load_page`: the page's contents, whatever way they come. */
    method GetOrLoadPage(p: nat) returns (ok: bool, page: Page)
      requires Idle()
      modifies this, reader, cache
      ensures ok ==> p < |index.disk| && Idle() && page == index.disk[p] && Loads(old(s), s, [p])
      ensures !ok ==> if p < |index.disk| then Refused() else Idle() && s == old(s)
    {
      ok, page := p < |index.disk|, Page(p, []);
      if !ok {
        return;
      }
      ghost var a := s;
      var found;
      found, page := FindPage(p);
      if found {
        return;
      }
      ghost var b := s;
      ok, page := ReadDemandPage(p);
      if ok {
        LoadsAfter(a, b, s, p);
      }
    }

    /** The part of `get_or_load_page` that needs no read of its own. */
    method FindPage(p: nat) returns (found: bool, page: Page)
      requires Idle() && p < |index.disk|
      modifies this, reader, cache
      ensures Idle()
      ensures if found then page == index.disk[p] && Loads(old(s), s, [p])
              else Forward(old(s), s, {}) && p !in Coming(s) && p !in s.owned
    {
      assert Unsealed(SessionIdle);
      ghost var a := s;
      if p in s.owned {
        OwnedIsDisk(s, reader.view, cache.s.entries, frame, p);
        GainedLoads(s, s, p);
        return true, s.owned[p];
      }
      found, page := CachedOrReady(p);
      if found {
        GainedLoads(a, s, p);
      } else if p in s.pending {
        MarkPendingHit(p);
        WaitFor(p);
        ghost var b := s;
        found, page := CachedOrReady(p);
        WaitedGained(a, b, s, p);
        GainedLoads(a, s, p);
      }
    }

    lemma OwnedIsDisk(a: SessionState, v: View, entries: map<nat, Entry>, f: Frame, p: nat)
      requires Inv(a, v, entries, f) && p in a.owned && a.hit == {}
      ensures p < |f.index.disk| && a.owned[p] == f.index.disk[p] && Gained(a, a, p)
    {
      assert Point(p);
    }

    method CachedOrReady(p: nat) returns (found: bool, page: Page)
      requires Valid() && p < |index.disk|
      modifies this, cache
      ensures Valid()
      ensures if found then page == index.disk[p] && Gained(old(s), s, p) else s == old(s) && p !in s.ready
    {
      ghost var a := s;
      if p in cache.s.entries {
        CachedGained(s, reader.view, cache.s.entries, frame, p);
      }
      found, page := UseCached(p);
      if !found && p in s.ready {
        page := UseReady(p);
        found := true;
        PageIds(page, p);
        TakenGained(a, page, cache.setup.Enabled());
      }
    }

    lemma PageIds(page: Page, p: nat)
      requires index.WellFormed() && p < |index.disk| && page == index.disk[p]
      ensures page.id == p
    {
    }

    /** `read_demand_page`, then the store: through the ring, or at once without one. */
    method ReadDemandPage(p: nat) returns (ok: bool, page: Page)
      requires Idle() && p < |index.disk| && p !in Coming(s) && p !in s.owned
      modifies this, reader, cache
      ensures if ok then Idle() && page == index.disk[p] && Loads(old(s), s, [p]) else Refused()
    {
      ok := true;
      if io.async {
        ok, page := DemandRead([p]);
        assert Elements([p]) == {p};
      } else {
        page := ReadAtOnce(p);
      }
    }

    method ReadAtOnce(p: nat) returns (page: Page)
      requires Idle() && p < |index.disk| && p !in Coming(s) && p !in s.owned
      modifies this, reader, cache
      ensures Idle() && page == index.disk[p] && Loads(old(s), s, [p])
    {
      assert Unsealed(SessionIdle);
      ghost var a := s;
      page := ReadDirect(p);
      PageIds(page, p);
      UsedLoads(a, page, cache.setup.Enabled());
    }

    method ReadDirect(p: nat) returns (page: Page)
      requires Valid() && p < |index.disk| && p !in Coming(s) && p !in s.owned && p !in s.demanded
      modifies this, reader, cache
      ensures Valid() && page == index.disk[p] && s == Used(old(s), page, cache.setup.Enabled())
    {
      if cache.setup.Enabled() {
        page := ReadAndStore(p);
      } else {
        page := ReadAndOwn(p);
      }
    }

    method ReadAndStore(p: nat) returns (page: Page)
      requires Valid() && p < |index.disk| && p !in Coming(s) && cache.setup.Enabled()
      modifies this, reader, cache
      ensures Valid() && page == index.disk[p] && s == Materialized(old(s), page)
    {
      DirectKeeps(s, reader.view, cache.s.entries, frame, p);
      page := reader.ReadNow(p);
      PageIds(page, p);
      StoreAndUse(page);
    }

    method ReadAndOwn(p: nat) returns (page: Page)
      requires Valid() && p < |index.disk| && p !in Coming(s) && p !in s.owned && p !in s.demanded
      requires !cache.setup.Enabled()
      modifies this, reader
      ensures Valid() && page == index.disk[p] && s == Owned(old(s), page)
    {
      DirectOwnedKeeps(s, reader.view, cache.s.entries, frame, p);
      page := reader.ReadNow(p);
      var t := Materialize(s.(owned := s.owned[page.id := page]), page);
      s := t;
    }

    /** `get_node`: a node of the graph is found, with the contents the graph gives it, unless a read is refused. */
    method GetNode(id: nat) returns (ok: bool, node: Node)
      requires Idle()
      modifies this, reader, cache
      ensures ok ==> Idle() && id < |index.graph| && node == index.graph[id]
      ensures !ok ==> if id < |index.graph| then Refused() else Idle()
    {
      ok, node := true, Node(id, [], [], []);
      LocalNodes(id);
      if id !in s.nodes {
        if id >= |index.pageOf| {
          return false, node;
        }
        var page;
        ok, page := GetOrLoadPage(index.pageOf[id]);
        if !ok {
          return;
        }
        LoadedPage(old(s), s, index.pageOf[id]);
        LocalNodes(id);
      }
      node := s.nodes[id];
    }

    /** A node is on its page, with the contents the graph gives it. */
    lemma PageHolds(id: nat)
      requires Idle() && id < |index.pageOf| && index.pageOf[id] < |index.disk|
      ensures id < |index.graph|
      ensures var ns := index.disk[index.pageOf[id]].nodes;
              && (exists i | 0 <= i < |ns| :: ns[i].id == id)
              && (forall i | 0 <= i < |ns| && ns[i].id == id :: ns[i] == index.graph[id])
    {
      assert Unsealed(SessionIdle);
      assert OnPage(index.disk[index.pageOf[id]].nodes, id);
      assert Faithful(index.disk[index.pageOf[id]].nodes, index.graph);
    }

    lemma LocalNodes(id: nat)
      requires Idle()
      ensures |index.pageOf| == |index.graph|
      ensures id < |index.pageOf| ==> index.pageOf[id] < |index.disk| && (index.pageOf[id] in s.materialized ==> id in s.nodes)
      ensures id in s.nodes ==> id < |index.graph| && s.nodes[id] == index.graph[id]
    {
      assert Unsealed(SessionIdle) && Point(id);
    }

    // ---- Prefetch ----

    /** `prefetch_batch_limit`. */
    function BatchLimit(): nat {
      var batch := Max(1, io.batchSize);
      var budget := PrefetchBudget(io, config);
      if budget == 0 then batch else Max(1, Min(batch, budget))
    }

    /**
     `queue_prefetch_request`: a page is queued exactly if it exists, was not asked for before, fits the budget
     and nothing has it or is reading it.
     */
    method QueuePrefetch(p: nat, requests: seq<nat>, queued: set<nat>) returns (next: seq<nat>, seen: set<nat>)
      requires Idle() && AsyncPrefetch(io, config)
      requires Queue(s, cache.s.entries.Keys, requests, queued, PrefetchBudget(io, config), |index.disk|)
      modifies this, reader
      ensures Idle()
      ensures Queue(s, cache.s.entries.Keys, next, seen, PrefetchBudget(io, config), |index.disk|)
      ensures next == if p < |index.disk| && p !in queued && !Has(s, cache.s.entries.Keys, p)
                         && |s.pending| + |s.ready| + |requests| < PrefetchBudget(io, config)
                      then requests + [p] else requests
      ensures queued <= seen && (p < |index.disk| && PrefetchBudget(io, config) > 0 ==> p in seen)
      ensures old(reader.Quiet()) ==> s == old(s) && reader.view == old(reader.view) && reader.Quiet()
    {
      next, seen := requests, queued;
      var budget := PrefetchBudget(io, config);
      if p >= |index.disk| || budget == 0 || |s.demand| >= Max(1, DemandReserve(io)) || p in queued {
        return;
      }
      ghost var cached := cache.s.entries.Keys;
      if |s.pending| + |s.ready| + |requests| >= budget {
        HarvestQueued(requests, queued);
      }
      seen := queued + {p};
      if |s.pending| + |s.ready| + |requests| >= budget || p in cache.s.entries || p in s.pending
         || p in s.materialized || p in s.owned || p in s.ready {
        QueueRejects(s, cached, requests, queued, budget, |index.disk|, p);
        return;
      }
      QueueAppends(s, cached, requests, queued, budget, |index.disk|, p);
      next := requests + [p];
    }

    method HarvestQueued(ghost requests: seq<nat>, ghost queued: set<nat>)
      requires Idle() && AsyncPrefetch(io, config)
      requires Queue(s, cache.s.entries.Keys, requests, queued, PrefetchBudget(io, config), |index.disk|)
      modifies this, reader
      ensures Idle() && s.demand == old(s).demand && Moved(old(s), s)
      ensures old(reader.Quiet()) ==> s == old(s) && reader.view == old(reader.view) && reader.Quiet()
      ensures Queue(s, cache.s.entries.Keys, requests, queued, PrefetchBudget(io, config), |index.disk|)
    {
      assert Unsealed(SessionIdle);
      ghost var a := s;
      ComingSize(s, reader.view, cache.s.entries, frame);
      var harvested := Harvest(false);
      ComingSize(s, reader.view, cache.s.entries, frame);
      QueueMoves(a, s, cache.s.entries.Keys, requests, queued, PrefetchBudget(io, config), |index.disk|);
    }

    /** A batch is one I/O batch, within the budget if there is one, and at least one page. */
    lemma BatchLimitIs(m: nat)
      ensures m <= BatchLimit() <==>
              m <= 1 || (m <= io.batchSize && (m <= PrefetchBudget(io, config) || PrefetchBudget(io, config) == 0))
    {
    }

    /** `flush_prefetch_requests`: with room, the pool always has buffers for the queued requests. */
    method FlushPrefetch(requests: seq<nat>, ghost queued: set<nat>) returns (ok: bool)
      requires Idle() && AsyncPrefetch(io, config)
      requires Queue(s, cache.s.entries.Keys, requests, queued, PrefetchBudget(io, config), |index.disk|)
      modifies this, reader
      ensures ok <==> |old(reader.view).flying| + |requests| <= io.depth
      ensures frame.stale + PrefetchBudget(io, config) <= io.depth ==> ok
      ensures ok ==> Idle() && s.pending == old(s).pending + Elements(requests)
      ensures ok ==> s.stats == old(s).stats.(submitted := old(s).stats.submitted + |requests|)
      ensures ok ==> Queue(s, cache.s.entries.Keys, [], queued, PrefetchBudget(io, config), |index.disk|)
      ensures !ok ==> Refused()
      ensures ok && old(Silent()) ==> Silent() && OnlySent(old(s), s, requests)
    {
      assert Unsealed(SessionIdle);
      FlushKeeps(s, reader.view, cache.s.entries, frame, requests, queued);
      assert AllBelow(requests, |index.disk|) && io.async;
      ok := SubmitRequests(requests);
    }

    method SubmitRequests(requests: seq<nat>) returns (ok: bool)
      requires Linked() && AllBelow(requests, |index.disk|) && io.async
      requires Inv(RegisterAll(s, reader.view.next, requests), Started(reader.view, requests), cache.s.entries, frame)
      modifies this, reader
      ensures ok <==> |old(reader.view).flying| + |requests| <= io.depth
      ensures reader.Valid()
      ensures if ok then Valid() && s == RegisterAll(old(s), old(reader.view).next, requests) else s == old(s)
      ensures ok ==> |reader.view.flying| == |old(reader.view).flying| + |requests|
      ensures old(reader.Quiet()) ==> reader.Quiet()
    {
      reader.TokensAreOld();
      BatchSize(reader.view, requests);
      var first;
      ok, first := reader.BatchSubmit(requests);
      if ok {
        var t := PrefetchTokens(s, first, requests);
        s := t;
      }
    }

    /** Every prefetch of the query is still in flight. */
    ghost predicate Silent()
      reads this, reader
    {
      reader.Quiet() && |reader.view.flying| == frame.stale + |s.pending| && s.ready == map[]
    }

    /** Flushing a queue keeps the invariant, and the reads in flight stay within leftovers and budget. */
    lemma FlushKeeps(
        a: SessionState, v: View, entries: map<nat, Entry>, f: Frame, requests: seq<nat>, queued: set<nat>)
      requires Inv(a, v, entries, f) && a.demand == map[]
      requires Queue(a, entries.Keys, requests, queued, f.budget, |f.index.disk|)
      ensures AllBelow(requests, |f.index.disk|) && |v.flying| + |requests| <= f.stale + f.budget
      ensures Inv(RegisterAll(a, v.next, requests), Started(v, requests), entries, f)
      ensures Queue(RegisterAll(a, v.next, requests), entries.Keys, [], queued, f.budget, |f.index.disk|)
      ensures var b := RegisterAll(a, v.next, requests);
              && b == a.(tokens := b.tokens, pending := a.pending + Elements(requests),
                         stats := a.stats.(submitted := a.stats.submitted + |requests|))
              && |b.pending| == |a.pending| + |requests|
    {
      assert Unseen(a, entries.Keys, requests) && AllBelow(requests, |f.index.disk|)
          && |a.pending| + |a.ready| + |requests| <= f.budget by {
        assert Unsealed(PrefetchQueue);
      }
      RegisterAllKeeps(a, v, entries, f, requests);
      RegisterAllShape(a, v.next, requests);
      QueueFlushes(a, RegisterAll(a, v.next, requests), entries.Keys, requests, queued, f.budget, |f.index.disk|);
    }

    lemma ComingSize(a: SessionState, v: View, entries: map<nat, Entry>, f: Frame)
      requires Inv(a, v, entries, f)
      ensures |Coming(a)| == |a.pending| + |a.ready|
    {
      assert a.pending !! a.ready.Keys by {
        forall p | p in a.pending ensures p !in a.ready.Keys { assert Point(p); }
      }
    }

    /** Some pages of the plan became pending, and nothing else happened. */
    ghost predicate OnlySent(a: SessionState, b: SessionState, plan: seq<nat>) {
      b == a.(tokens := b.tokens, pending := b.pending, stats := b.stats) && b.pending <= a.pending + Elements(plan)
    }

    /**
     `submit_prefetch_plan`, for any plan: whatever the policy chose, in whatever order. Afterwards every
     page of the plan is there or on its way, or the budget is used up.
     */
    method SubmitPlan(plan: seq<nat>) returns (ok: bool)
      requires Idle()
      modifies this, reader
      ensures if ok then Idle() else Refused()
      ensures ok && AsyncPrefetch(io, config) && |s.pending| + |s.ready| < PrefetchBudget(io, config) ==>
                forall p | p in plan && p < |index.disk| :: Has(s, cache.s.entries.Keys, p)
      ensures ok && old(Silent()) ==> Silent() && OnlySent(old(s), s, plan)
      ensures frame.stale + PrefetchBudget(io, config) <= io.depth ==> ok
    {
      ok := true;
      if !AsyncPrefetch(io, config) || plan == [] {
        return;
      }
      ghost var queued;
      ok, queued := SubmitQueue(plan);
      if ok {
        HarvestQueued([], queued);
        QueueDone(s, cache.s.entries.Keys, queued, PrefetchBudget(io, config), |index.disk|);
      }
    }

    /** Queues the pages of the plan, submitting a batch whenever it is full and the rest at the end. */
    method SubmitQueue(plan: seq<nat>) returns (ok: bool, ghost seen: set<nat>)
      requires Idle() && AsyncPrefetch(io, config)
      modifies this, reader
      ensures if ok then Idle() else Refused()
      ensures ok ==> Queue(s, cache.s.entries.Keys, [], seen, PrefetchBudget(io, config), |index.disk|)
      ensures ok && PrefetchBudget(io, config) > 0 ==> forall p | p in plan && p < |index.disk| :: p in seen
      ensures ok && old(Silent()) ==> Silent() && OnlySent(old(s), s, plan)
      ensures frame.stale + PrefetchBudget(io, config) <= io.depth ==> ok
    {
      var requests, queued := [], {};
      ok, seen := true, {};
      ghost var a, silent := s, Silent();
      StartQueue();
      for i := 0 to |plan|
        invariant Idle() && (silent ==> SentFrom(a, requests, plan))
        invariant PrefetchBudget(io, config) > 0 ==> forall k | 0 <= k < i && plan[k] < |index.disk| :: plan[k] in queued
        invariant Queue(s, cache.s.entries.Keys, requests, queued, PrefetchBudget(io, config), |index.disk|)
      {
        ok, requests, queued := QueueNext(plan, i, requests, queued, a, silent);
        if !ok {
          return;
        }
      }
      seen := queued;
      ok := FlushPrefetch(requests, queued);
    }

    /** Every prefetch is in flight, all of them of this plan, and so are the requests. */
    ghost predicate SentFrom(a: SessionState, requests: seq<nat>, plan: seq<nat>)
      reads this, reader
    {
      Silent() && OnlySent(a, s, plan) && Elements(requests) <= Elements(plan)
    }

    /** One page of the plan. */
    method QueueNext(
        plan: seq<nat>, i: nat, requests: seq<nat>, queued: set<nat>, ghost a: SessionState, ghost silent: bool)
      returns (ok: bool, next: seq<nat>, seen: set<nat>)
      requires Idle() && AsyncPrefetch(io, config) && i < |plan| && (silent ==> SentFrom(a, requests, plan))
      requires Queue(s, cache.s.entries.Keys, requests, queued, PrefetchBudget(io, config), |index.disk|)
      modifies this, reader
      ensures if ok then Idle() && (silent ==> SentFrom(a, next, plan)) else Refused()
      ensures ok ==> Queue(s, cache.s.entries.Keys, next, seen, PrefetchBudget(io, config), |index.disk|)
      ensures ok ==> queued <= seen && (plan[i] < |index.disk| && PrefetchBudget(io, config) > 0 ==> plan[i] in seen)
      ensures frame.stale + PrefetchBudget(io, config) <= io.depth ==> ok
    {
      ghost var b := s;
      ok, next := MakeRoom(requests, queued);
      seen := queued;
      if ok {
        SentMore(a, b, s, requests, plan, i);
        next, seen := QueuePrefetch(plan[i], next, queued);
      }
    }

    /** Submits a full batch. */
    method MakeRoom(requests: seq<nat>, ghost queued: set<nat>) returns (ok: bool, rest: seq<nat>)
      requires Idle() && AsyncPrefetch(io, config)
      requires Queue(s, cache.s.entries.Keys, requests, queued, PrefetchBudget(io, config), |index.disk|)
      modifies this, reader
      ensures if ok then Idle() else Refused()
      ensures ok ==> Queue(s, cache.s.entries.Keys, rest, queued, PrefetchBudget(io, config), |index.disk|)
      ensures ok ==> rest == if |requests| >= BatchLimit() then [] else requests
      ensures ok && old(Silent()) ==> Silent() && OnlySent(old(s), s, requests)
      ensures frame.stale + PrefetchBudget(io, config) <= io.depth ==> ok
    {
      ok, rest := true, requests;
      if |requests| >= BatchLimit() {
        ok := FlushPrefetch(requests, queued);
        rest := [];
      }
    }

    lemma SentMore(a: SessionState, b: SessionState, c: SessionState, requests: seq<nat>, plan: seq<nat>, i: nat)
      requires i < |plan|
      ensures OnlySent(a, b, plan) && OnlySent(b, c, requests) && Elements(requests) <= Elements(plan) ==> OnlySent(a, c, plan)
      ensures plan[i] in Elements(plan)
    {
    }

    lemma StartQueue()
      requires Idle()
      ensures Queue(s, cache.s.entries.Keys, [], {}, PrefetchBudget(io, config), |index.disk|)
    {
      assert Unsealed(SessionIdle);
    }

    /** `drain_ready_pages`. */
    method DrainReady()
      requires Idle()
      modifies this, reader
      ensures Idle() && Moved(old(s), s)
    {
      if AsyncPrefetch(io, config) {
        StartQueue();
        HarvestQueued([], {});
      }
    }

    // ---- Pins and the end of the query ----

    /** `pin_page`: at most one pin per page and session, only on cached pages. */
    method PinPage(p: nat) returns (ok: bool)
      requires Idle()
      modifies this, cache
      ensures Idle() && (ok <==> p !in old(s).pinned && p in old(cache.s).entries)
      ensures s == if ok then old(s).(pinned := old(s).pinned + {p}) else old(s)
    {
      if p in s.pinned || p !in cache.s.entries {
        return false;
      }
      PinCached(p);
      ok := true;
    }

    method PinCached(p: nat)
      requires Idle() && p !in s.pinned && p in cache.s.entries
      modifies this, cache
      ensures Idle() && s == old(s).(pinned := old(s).pinned + {p})
    {
      assert Unsealed(SessionIdle);
      PinnedKeeps(s, reader.view, cache.s.entries, frame, p);
      var ok := cache.Pin(p);
      s := s.(pinned := s.pinned + {p});
    }

    /** `unpin_all`: every unpin finds its pin. */
    method UnpinAll()
      requires cache.Valid() && PinsMatch(s.pinned, cache.s.entries, frame.pins)
      modifies this, cache
      ensures cache.Valid() && s == old(s).(pinned := {})
      ensures PinsMatch({}, cache.s.entries, frame.pins)
      ensures SamePages(old(cache.s).entries, cache.s.entries)
    {
      while s.pinned != {}
        invariant cache.Valid() && s == old(s).(pinned := s.pinned)
        invariant PinsMatch(s.pinned, cache.s.entries, frame.pins)
        invariant SamePages(old(cache.s).entries, cache.s.entries)
        decreases |s.pinned|
      {
        var p :| p in s.pinned;
        PinsDrop(s.pinned, cache.s.entries, frame.pins, p);
        var ok := cache.Unpin(p);
        assert ok;
        s := s.(pinned := s.pinned - {p});
      }
    }

    /**
     `finish_query`. Every submitted prefetch was a ready hit, a pending hit or dropped; pins are back to
     what they were; with the cache off no page was read twice; reads still in flight are left behind.
     */
    method FinishQuery()
      requires Idle()
      modifies this, reader, cache
      ensures reader.Valid() && cache.Valid() && CacheFromDisk(cache.s.entries, index.disk)
      ensures s.stats.submitted == s.stats.readyHit + s.stats.pendingHit + s.stats.dropped && s.stats.lateHit == 0
      ensures s.pending == {} && s.ready == map[] && s.tokens == map[] && s.pinned == {}
      ensures forall p | p in cache.s.entries :: cache.s.entries[p].pins == PinsBefore(frame.pins, p)
      ensures !cache.setup.Enabled() ==>
                forall p :: multiset(reader.view.issued)[p] <= multiset(frame.before)[p] + 1
      ensures |reader.view.flying| <= frame.stale + frame.budget
      ensures old(reader.Quiet()) ==> reader.view == old(reader.view) && reader.Quiet()
      ensures cache.s.entries.Keys == old(cache.s).entries.Keys
    {
      HarvestAll();
      FinishFacts();
      s := Dropped(s);
      ghost var entries := cache.s.entries;
      UnpinAll();
      PinsRestored(cache.s.entries, frame.pins);
      PagesKept(entries, cache.s.entries, index.disk);
    }

    /** The destructor after a refused batch: arrivals are dropped, pins are given back. */
    method Abandon()
      requires Refused()
      modifies this, reader, cache
      ensures reader.Valid() && cache.Valid() && CacheFromDisk(cache.s.entries, index.disk)
      ensures forall p | p in cache.s.entries :: cache.s.entries[p].pins == PinsBefore(frame.pins, p)
    {
      var more := AsyncPrefetch(io, config);
      while more
        invariant Refused() && cache.s == old(cache.s)
        decreases |reader.view.flying|, more
      {
        ghost var v := reader.view;
        var c;
        more, c := reader.Reap(false);
        if more {
          OneLess(v.flying, c.token);
        }
      }
      s := Dropped(s);
      ghost var entries := cache.s.entries;
      UnpinAll();
      PinsRestored(cache.s.entries, frame.pins);
      PagesKept(entries, cache.s.entries, index.disk);
    }

    lemma FinishFacts()
      requires Idle()
      ensures reader.Valid() && cache.Valid() && CacheFromDisk(cache.s.entries, index.disk)
      ensures var t := Dropped(s).stats; t.submitted == t.readyHit + t.pendingHit + t.dropped && t.lateHit == 0
      ensures PinsMatch(s.pinned, cache.s.entries, frame.pins)
      ensures !cache.setup.Enabled() ==>
                forall p :: multiset(reader.view.issued)[p] <= multiset(frame.before)[p] + 1
      ensures |reader.view.flying| <= frame.stale + frame.budget
    {
      assert Unsealed(SessionIdle);
      DroppedBalances(s, reader.view, cache.s.entries, frame);
      FlightBound(s, reader.view, cache.s.entries, frame);
      if !cache.setup.Enabled() {
        forall p
          ensures multiset(reader.view.issued)[p] <= multiset(frame.before)[p] + 1
        {
          NoPageReadTwice(s, reader.view, cache.s.entries, frame, p);
        }
      }
    }
  }

  ghost predicate SamePages(a: map<nat, Entry>, b: map<nat, Entry>) {
    a.Keys == b.Keys && forall p {:trigger Point(p)} | Point(p) && p in a :: a[p].page == b[p].page
  }

  lemma PinsDrop(pinned: set<nat>, entries: map<nat, Entry>, pins: map<nat, nat>, p: nat)
    requires PinsMatch(pinned, entries, pins) && p in pinned
    ensures entries[p].pins > 0
    ensures PinsMatch(pinned - {p}, PinsMinus(entries, p), pins)
  {
    assert Point(p);
  }

  lemma PinsRestored(entries: map<nat, Entry>, pins: map<nat, nat>)
    requires PinsMatch({}, entries, pins)
    ensures forall p | p in entries :: entries[p].pins == PinsBefore(pins, p)
  {
    forall p | p in entries
      ensures entries[p].pins == PinsBefore(pins, p)
    {
      assert Point(p);
    }
  }

  lemma PagesKept(a: map<nat, Entry>, b: map<nat, Entry>, disk: seq<Page>)
    requires SamePages(a, b) && CacheFromDisk(a, disk)
    ensures CacheFromDisk(b, disk)
  {
  }

  // ---- Without room ----

  /** Prefetches a whole budget of pages on a device that answers nothing in the meantime. */
  method FillBudget(session: QueryPageSession) returns (ok: bool)
    requires session.Idle() && session.s == NewSession && session.Silent() && session.cache.s.entries == map[]
    requires AsyncPrefetch(session.io, session.config)
    requires PrefetchBudget(session.io, session.config) <= |session.index.disk|
    modifies session, session.reader
    ensures if ok then session.Idle() && session.Silent() else session.Refused()
    ensures ok ==> |session.s.pending| == PrefetchBudget(session.io, session.config)
    ensures ok ==> session.s == NewSession.(tokens := session.s.tokens, pending := session.s.pending, stats := session.s.stats)
    ensures ok ==> forall p | p in session.s.pending :: p < |session.s.pending|
    ensures session.frame.stale + PrefetchBudget(session.io, session.config) <= session.io.depth ==> ok
  {
    var n := PrefetchBudget(session.io, session.config);
    var plan := seq(n, i requires 0 <= i < n => i);
    ok := session.SubmitPlan(plan);
    if ok {
      WithinBudget(session);
      Filled(session.s, plan, n);
    }
  }

  lemma WithinBudget(session: QueryPageSession)
    requires session.Idle()
    ensures |session.s.pending| <= PrefetchBudget(session.io, session.config)
  {
    assert Unsealed(SessionIdle);
  }

  lemma Filled(s: SessionState, plan: seq<nat>, n: nat)
    requires s.ready == map[] && s.owned == map[] && s.materialized == {} && s.pending <= Elements(plan)
    requires |plan| == n && forall i | 0 <= i < n :: plan[i] == i
    requires |s.pending| <= n && (|s.pending| < n ==> forall p | p in plan :: Has(s, {}, p))
    ensures |s.pending| == n && forall p | p in s.pending :: p < n
  {
    if |s.pending| < n {
      forall p | p in Below(n)
        ensures p in s.pending
      {
        assert plan[p] in plan;
      }
      BelowSize(n);
      SubsetSize(Below(n), s.pending);
    }
  }

  /**
   The room a query needs is exact. For every ring, prefetch configuration and number of reads that earlier
   queries leave in flight: if those reads, the budget and the reserve do not fit the ring together, a query that
   prefetches its budget and then demands its reserve is refused a batch. The leftovers come from real queries,
   on a device that answers only when waited for. A ring of one buffer is never used for prefetches, so nothing
   is left in it.
   */
  method LeftoverExhaustsPool(index: Index, setup: Setup, io: IoStatus, config: PrefetchConfig, leftover: nat)
    returns (ok: bool)
    requires index.WellFormed() && io.async && 2 <= io.depth <= |index.disk|
    requires leftover <= io.depth < leftover + PrefetchBudget(io, config) + DemandReserve(io)
    ensures !ok
  {
    var reader := new AsyncPageReader(index.disk, true, io.depth, true);
    var cache := new PackedPageCache(setup);
    BudgetFits(io, config);
    LeaveReads(index, reader, cache, io, leftover);
    var session := new QueryPageSession(index, reader, cache, io, config);
    ok := true;
    if AsyncPrefetch(io, config) {
      ok := FillBudget(session);
    }
    if ok {
      ok := DemandReserved(session);
    }
  }

  /** A full demand batch behind a full budget of prefetches, nothing of which has come back. */
  method DemandReserved(session: QueryPageSession) returns (ok: bool)
    requires session.Idle() && session.Silent() && session.io.async
    requires session.s == NewSession.(tokens := session.s.tokens, pending := session.s.pending, stats := session.s.stats)
    requires |session.s.pending| == PrefetchBudget(session.io, session.config)
    requires forall p | p in session.s.pending :: p < |session.s.pending|
    requires |session.s.pending| + DemandReserve(session.io) <= |session.index.disk|
    modifies session, session.reader, session.cache
    ensures ok <==> session.frame.stale + PrefetchBudget(session.io, session.config) + DemandReserve(session.io)
                    <= session.io.depth
  {
    var n := |session.s.pending|;
    var demand := seq(DemandReserve(session.io), i requires 0 <= i < DemandReserve(session.io) => n + i);
    var last;
    ok, last := session.DemandRead(demand);
  }

  /** Any number of reads up to the depth: at most two queries leave them behind. */
  method LeaveReads(index: Index, reader: AsyncPageReader, cache: PackedPageCache, io: IoStatus, leftover: nat)
    requires index.WellFormed() && reader.Valid() && cache.Valid() && reader.Quiet() && reader.view.flying == map[]
    requires reader.disk == index.disk && reader.depth == io.depth && io.async && 2 <= io.depth <= |index.disk|
    requires cache.s.entries == map[] && leftover <= io.depth
    modifies reader, cache
    ensures reader.Valid() && cache.Valid() && reader.Quiet() && |reader.view.flying| == leftover
    ensures cache.s.entries == map[]
  {
    var some := Min(leftover, io.depth - DemandReserve(io));
    if some > 0 {
      LeaveBehind(index, reader, cache, io, some);
    }
    if leftover > some {
      LeaveBehind(index, reader, cache, io, leftover - some);
    }
  }

  /** A query that prefetches `leftover` pages, finds no use for them and ends. */
  method LeaveBehind(index: Index, reader: AsyncPageReader, cache: PackedPageCache, io: IoStatus, leftover: nat)
    requires index.WellFormed() && reader.Valid() && cache.Valid() && reader.Quiet()
    requires reader.disk == index.disk && reader.depth == io.depth && io.async && io.depth <= |index.disk|
    requires cache.s.entries == map[] && 0 < leftover && leftover + DemandReserve(io) <= io.depth
    requires |reader.view.flying| + leftover <= io.depth
    modifies reader, cache
    ensures reader.Valid() && cache.Valid() && reader.Quiet()
    ensures |reader.view.flying| == |old(reader.view).flying| + leftover
    ensures cache.s.entries == map[]
  {
    var config := PrefetchConfig(false, leftover, 0, 1);
    assert PrefetchBudget(io, config) == leftover;
    var session := new QueryPageSession(index, reader, cache, io, config);
    var ok := FillBudget(session);
    session.FinishQuery();
    assert cache.s.entries.Keys == {};
  }

  lemma {:induction false} BatchSize(v: View, pages: seq<nat>)
    requires forall t | t in v.flying :: t < v.next
    ensures |Started(v, pages).flying| == |v.flying| + |pages|
    ensures forall t | t in Started(v, pages).flying :: t < Started(v, pages).next
  {
    if pages != [] {
      BatchSize(v, pages[..|pages| - 1]);
      var w := Started(v, pages[..|pages| - 1]);
      assert w.flying[w.next := pages[|pages| - 1]].Keys == w.flying.Keys + {w.next};
    }
  }

  /** The page is cached, used, ready or on its way. */
  predicate Has(s: SessionState, cached: set<nat>, p: nat) {
    p in cached || p in s.pending || p in s.ready || p in s.materialized || p in s.owned
  }

  /**
   Requests waiting to be submitted: unknown pages, each once, within the budget. Every page asked for so
   far is there, on its way or among the requests, unless the budget is used up.
   */
  ghost predicate Queue(
      s: SessionState, cached: set<nat>, requests: seq<nat>, queued: set<nat>, budget: nat, n: nat)
  {
    forall name {:trigger Unsealed(name)} | Unsealed(name) && name == PrefetchQueue ::
      && Unseen(s, cached, requests) && AllBelow(requests, n) && Elements(requests) <= queued
      && |s.pending| + |s.ready| + |requests| <= budget
      && forall p | p in queued ::
           Has(s, cached, p) || p in requests || |s.pending| + |s.ready| + |requests| >= budget
  }

  lemma QueueDone(s: SessionState, cached: set<nat>, queued: set<nat>, budget: nat, n: nat)
    requires Queue(s, cached, [], queued, budget, n)
    ensures |s.pending| + |s.ready| < budget ==> forall p | p in queued :: Has(s, cached, p)
  {
    assert Unsealed(PrefetchQueue);
  }

  lemma QueueFlushes(a: SessionState, b: SessionState, cached: set<nat>, requests: seq<nat>, queued: set<nat>,
                     budget: nat, n: nat)
    requires Queue(a, cached, requests, queued, budget, n)
    requires b == a.(tokens := b.tokens, pending := a.pending + Elements(requests), stats := b.stats)
    requires |b.pending| == |a.pending| + |requests|
    ensures Queue(b, cached, [], queued, budget, n)
  {
    assert Unsealed(PrefetchQueue);
    assert forall p | p in requests :: p in Elements(requests);
  }

  lemma QueueRejects(
      s: SessionState, cached: set<nat>, requests: seq<nat>, queued: set<nat>, budget: nat, n: nat, p: nat)
    requires Queue(s, cached, requests, queued, budget, n)
    requires Has(s, cached, p) || |s.pending| + |s.ready| + |requests| >= budget
    ensures Queue(s, cached, requests, queued + {p}, budget, n)
  {
    assert Unsealed(PrefetchQueue);
  }

  lemma QueueMoves(
      a: SessionState, b: SessionState, cached: set<nat>, requests: seq<nat>, queued: set<nat>, budget: nat, n: nat)
    requires Queue(a, cached, requests, queued, budget, n) && Moved(a, b)
    requires |b.pending| + |b.ready| == |a.pending| + |a.ready|
    ensures Queue(b, cached, requests, queued, budget, n)
  {
    assert Unsealed(PrefetchQueue);
  }

  lemma QueueAppends(
      s: SessionState, cached: set<nat>, requests: seq<nat>, queued: set<nat>, budget: nat, n: nat, p: nat)
    requires Queue(s, cached, requests, queued, budget, n) && p !in queued
    requires p < n && |s.pending| + |s.ready| + |requests| < budget && !Has(s, cached, p) && p !in s.demanded
    ensures Queue(s, cached, requests + [p], queued + {p}, budget, n)
  {
    assert Unsealed(PrefetchQueue);
    UnseenAppends(s, cached, requests, queued, p);
    BelowAppends(requests, n, p);
    assert forall q | q in queued + {p} :: q in queued || q == p;
  }

  lemma BelowAppends(requests: seq<nat>, n: nat, p: nat)
    requires AllBelow(requests, n) && p < n
    ensures AllBelow(requests + [p], n) && Elements(requests + [p]) == Elements(requests) + {p}
    ensures |requests + [p]| == |requests| + 1 && p in requests + [p] && forall q | q in requests :: q in requests + [p]
  {
  }

  lemma UnseenAppends(s: SessionState, cached: set<nat>, requests: seq<nat>, queued: set<nat>, p: nat)
    requires Unseen(s, cached, requests) && Elements(requests) <= queued && p !in queued
    requires !Has(s, cached, p) && p !in s.demanded
    ensures Unseen(s, cached, requests + [p])
  {
    assert p in requests ==> p in Elements(requests);
  }

  predicate AllBelow(pages: seq<nat>, n: nat) {
    forall p | p in pages :: p < n
  }

  lemma SameBelow(pages: seq<nat>, other: seq<nat>, n: nat)
    requires Elements(pages) == Elements(other) && AllBelow(pages, n)
    ensures AllBelow(other, n)
  {
    assert forall p | p in other :: p in Elements(pages);
  }

  method InRange(pages: seq<nat>, n: nat) returns (ok: bool)
    ensures ok <==> AllBelow(pages, n)
  {
    for i := 0 to |pages|
      invariant forall j | 0 <= j < i :: pages[j] < n
    {
      if pages[i] >= n {
        assert pages[i] in pages;
        return false;
      }
    }
    ok := true;
  }

  /** The first occurrence of each page, in order. */
  method Unique(pages: seq<nat>) returns (unique: seq<nat>)
    ensures Distinct(unique) && Elements(unique) == Elements(pages)
  {
    unique := [];
    for i := 0 to |pages|
      invariant Distinct(unique) && Elements(unique) == Elements(pages[..i])
    {
      AppendElements(pages, i);
      assert pages[i] in Elements(unique) <==> pages[i] in unique;
      if pages[i] !in unique {
        assert Elements(unique + [pages[i]]) == Elements(unique) + {pages[i]};
        unique := unique + [pages[i]];
      }
    }
    assert pages[..|pages|] == pages;
  }

  lemma AppendElements(pages: seq<nat>, i: nat)
    requires i < |pages|
    ensures Elements(pages[..i + 1]) == Elements(pages[..i]) + {pages[i]}
  {
    assert pages[..i + 1] == pages[..i] + [pages[i]];
  }

  /** Of `pages`, all but the missing ones became usable. */
  ghost predicate Collected(a: SessionState, b: SessionState, pages: seq<nat>, missing: seq<nat>) {
    forall name {:trigger Unsealed(name)} | Unsealed(name) && name == PagesCollected ::
      && Forward(a, b, Elements(pages)) && Distinct(missing)
      && Elements(missing) <= Elements(pages) <= b.materialized + Elements(missing)
  }

  lemma CollectedNone(a: SessionState, pages: seq<nat>)
    ensures Collected(a, a, pages[..0], [])
  {
  }

  lemma CollectedStep(
      a: SessionState, b: SessionState, c: SessionState, pages: seq<nat>, i: nat, missing: seq<nat>, ok: bool)
    requires i < |pages| && Distinct(pages) && Collected(a, b, pages[..i], missing)
    requires Forward(b, c, {pages[i]}) && (ok ==> pages[i] in c.materialized)
    ensures Collected(a, c, pages[..i + 1], if ok then missing else missing + [pages[i]])
  {
    assert Unsealed(PagesCollected);
    AppendElements(pages, i);
    ForwardAgain(a, b, c, Elements(pages[..i]), {pages[i]});
    if !ok {
      AppendMissing(pages, i, missing);
    }
  }

  lemma CollectedBounds(a: SessionState, b: SessionState, pages: seq<nat>, missing: seq<nat>, n: nat)
    requires Collected(a, b, pages, missing) && AllBelow(pages, n)
    ensures AllBelow(missing, n) && Distinct(missing)
  {
    assert Unsealed(PagesCollected);
    forall p | p in missing
      ensures p < n
    {
      assert p in Elements(missing);
    }
  }

  lemma AppendMissing(pages: seq<nat>, i: nat, missing: seq<nat>)
    requires i < |pages| && Distinct(pages) && Distinct(missing) && Elements(missing) <= Elements(pages[..i])
    ensures Distinct(missing + [pages[i]])
    ensures Elements(missing + [pages[i]]) == Elements(missing) + {pages[i]}
  {
    assert pages[i] !in pages[..i];
    assert pages[i] !in Elements(pages[..i]);
    assert pages[i] !in Elements(missing);
  }

  lemma UnreadStays(
      a: SessionState, b: SessionState, c: SessionState, pages: seq<nat>, i: nat, requests: seq<nat>, ok: bool)
    requires i < |pages| && Distinct(pages) && Collected(a, b, pages[..i], requests)
    requires Unread(b, requests) && Forward(b, c, {pages[i]}) && c.demanded == {}
    requires ok || (pages[i] !in Coming(c) && pages[i] !in c.owned)
    ensures Unread(c, if ok then requests else requests + [pages[i]])
  {
    assert Unsealed(PagesCollected);
    assert pages[i] !in pages[..i];
    forall p | p in requests
      ensures p != pages[i]
    {
      assert p in Elements(requests) && p in Elements(pages[..i]);
    }
    if !ok {
      AppendMissing(pages, i, requests);
    }
  }

  /** All of `pages` became usable, and the demand side did nothing else. */
  ghost predicate Loads(a: SessionState, b: SessionState, pages: seq<nat>) {
    forall name {:trigger Unsealed(name)} | Unsealed(name) && name == PagesLoaded ::
      Forward(a, b, Elements(pages)) && Elements(pages) <= b.materialized
  }

  lemma LoadsNone(a: SessionState, pages: seq<nat>)
    ensures Loads(a, a, pages[..0])
  {
  }

  lemma CollectedLoads(a: SessionState, b: SessionState, c: SessionState, pages: seq<nat>, missing: seq<nat>)
    requires Collected(a, b, pages, missing) && (if missing == [] then b == c else Loads(b, c, missing))
    ensures Loads(a, c, pages)
  {
    assert Unsealed(PagesCollected) && Unsealed(PagesLoaded);
    if missing == [] {
      assert Elements(missing) == {};
    } else {
      ForwardAgain(a, b, c, Elements(pages), Elements(missing));
      assert Elements(pages) + Elements(missing) == Elements(pages);
    }
  }

  lemma BatchLoads(a: SessionState, b: SessionState, c: SessionState, d: SessionState,
                   pages: seq<nat>, unique: seq<nat>, missing: seq<nat>)
    requires Elements(unique) == Elements(pages)
    requires Collected(a, b, unique, missing) && Moved(b, c) && Loads(c, d, missing)
    ensures Loads(a, d, pages)
  {
    assert Unsealed(PagesCollected) && Unsealed(PagesLoaded);
    assert Forward(b, c, {});
    ForwardAgain(b, c, d, {}, Elements(missing));
    ForwardAgain(a, b, d, Elements(unique), {} + Elements(missing));
    assert Elements(unique) + ({} + Elements(missing)) == Elements(pages);
  }

  lemma DemandLoads(a: SessionState, b: SessionState, c: SessionState, ps: seq<nat>)
    requires b == a.(demand := b.demand, demanded := Elements(ps))
    requires Forward(b, c, b.demanded) && b.demanded <= c.materialized
    ensures Loads(a, c, ps)
  {
  }

  lemma LoadsAfter(a: SessionState, b: SessionState, c: SessionState, p: nat)
    requires Forward(a, b, {}) && Loads(b, c, [p])
    ensures Loads(a, c, [p])
  {
    assert Unsealed(PagesLoaded);
    ForwardAgain(a, b, c, {}, Elements([p]));
    assert {} + Elements([p]) == Elements([p]);
  }

  lemma LoadedPage(a: SessionState, b: SessionState, p: nat)
    requires Loads(a, b, [p])
    ensures p in b.materialized
  {
    assert Unsealed(PagesLoaded);
    assert p in Elements([p]);
  }

  lemma GainedLoads(a: SessionState, b: SessionState, p: nat)
    requires Gained(a, b, p)
    ensures Loads(a, b, [p])
  {
    assert Elements([p]) == {p};
  }

  lemma UsedLoads(a: SessionState, page: Page, cacheOn: bool)
    ensures var b := Used(a, page, cacheOn);
            Loads(a, b, [page.id]) && b.hit == a.hit && b.demand == a.demand && b.demanded == a.demanded
  {
    assert Elements([page.id]) == {page.id};
    assert a.owned[page.id := page].Keys == a.owned.Keys + {page.id};
  }

  lemma LoadsMore(a: SessionState, b: SessionState, c: SessionState, pages: seq<nat>, begin: nat, end: nat)
    requires begin <= end <= |pages|
    requires Loads(a, b, pages[..begin]) && Loads(b, c, pages[begin..end])
    ensures Loads(a, c, pages[..end])
  {
    assert Unsealed(PagesLoaded);
    ForwardAgain(a, b, c, Elements(pages[..begin]), Elements(pages[begin..end]));
    assert pages[..end] == pages[..begin] + pages[begin..end];
    assert Elements(pages[..end]) == Elements(pages[..begin]) + Elements(pages[begin..end]);
  }

  lemma ChunkOf(missing: seq<nat>, begin: nat, end: nat, n: nat)
    requires begin <= end <= |missing| && Distinct(missing) && AllBelow(missing, n)
    ensures Distinct(missing[begin..end]) && AllBelow(missing[begin..end], n)
  {
    assert forall p | p in missing[begin..end] :: p in missing;
  }

  /** The loop of `flush_prefetch_requests`. */
  method PrefetchTokens(s: SessionState, first: nat, ps: seq<nat>) returns (t: SessionState)
    ensures t == RegisterAll(s, first, ps)
  {
    t := s;
    for i := 0 to |ps|
      invariant t == RegisterAll(s, first, ps[..i])
    {
      BatchStep(s, first, ps, i);
      t := Registered(t, first + i, ps[i]);
    }
    assert ps[..|ps|] == ps;
  }

  /** Files each submitted demand read under its token. */
  method DemandTokens(s: SessionState, first: nat, ps: seq<nat>) returns (t: SessionState)
    ensures t == DemandAll(s, first, ps)
  {
    t := s;
    for i := 0 to |ps|
      invariant t == DemandAll(s, first, ps[..i])
    {
      BatchStep(s, first, ps, i);
      t := Demanded(t, first + i, ps[i]);
    }
    assert ps[..|ps|] == ps;
  }
}
