/** The engine's search: the packed graph, then the dynamic layer, at one read sequence. */
module Engine {
  import opened Bytes
  import opened TopK
  import opened Records
  import opened PageCache
  import opened PageReader
  import opened PageLedger
  import opened PageSession
  import opened BeamSearch
  import opened BeamProofs
  import opened GraphSearch
  import opened PageCodec
  import opened PackedLayout
  import opened PackedSearch
  import opened WriteManager
  import opened DeltaMerge

  /**
   `PackedGraphEngine::search_one`, with any operations of other threads while the graph is searched (`during`)
   and between the two loads of the view (`between`). The answer is the top-k of the graph's top-k merged with
   the delta as of the start: no node deleted by then is returned, and every node written by then has its
   distance as of then, whatever is written meanwhile.
   */
  method SearchEngine(
      file: PackedFile, src: Source, l: Layout, ghost order: seq<nat>,
      reader: AsyncPageReader, cache: PackedPageCache, io: IoStatus, prefetch: PrefetchConfig,
      plan: Plan, entries: seq<nat>, m: DynamicWriteManager, dim: nat, during: seq<Op>, between: seq<Op>)
    returns (ok: bool, out: seq<SearchResult>, ghost found: seq<Record>)
    requires src.Fits(l) && IsOrder(order, |src.lists|) && l.NodesPerPage() < U32 && IsPacked(file, src, l, order)
    requires reader.Valid() && cache.Valid() && plan.count == |src.lists|
    requires reader.disk == Opened(file, src, l).disk && CacheFromDisk(cache.s.entries, reader.disk)
    requires reader.async == io.async && reader.depth == io.depth && io.depth > 0
    requires m.Valid() && dim > 0
    modifies reader, cache, m, m.store
    ensures m.Valid()
    ensures plan.config.Runs() && HasRoom(old(reader.view), io, prefetch) ==> ok
    ensures ok ==> |out| <= plan.config.topK
    ensures ok ==> Answers(Query(StoredGraph(src, l), plan).Search(entries),
                           VisibleAt(old(m.view).history, old(m.latestSequence)), plan.exact, dim, plan.config.topK, found, out)
    ensures |old(m.book).start| <= |old(m.book).history|
    ensures forall node :: SameAt(VisibleAt(old(m.view).history, old(m.latestSequence)), Newest(old(m.book).history), node) <==>
              Seen(old(m.book).start, old(m.book).history[|old(m.book).start|..], node)
  {
    ReaderSees(m);
    ghost var start := m.view;
    var s := m.latestSequence;
    out, found := [], [];
    var top;
    ok, top := SearchPacked(file, src, l, order, reader, cache, io, prefetch, plan, entries);
    var ends := Run(m, during);
    if !ok {
      return;
    }
    ResultIdsDistinct(Query(StoredGraph(src, l), plan), entries);
    var first := m.view;
    ends := Run(m, between);
    out, found := SearchWithDelta(top, first, m.view, s, plan.exact, dim, plan.config.topK);
    assert VisibleAt(first.history, s) == VisibleAt(start.history, s);
  }

  /** The engine's answer for a base top-k and a snapshot of the dynamic layer. */
  ghost predicate Answers(
      top: seq<SearchResult>, visible: map<nat, Record>, dist: Distance, dim: nat, k: nat, found: seq<Record>,
      out: seq<SearchResult>)
  {
    && (forall x | x in out ::
          if x.id in visible && Live(visible[x.id], dim) then x == ResultOf(dist, visible[x.id])
          else x in top && (x.id in visible ==> !visible[x.id].deleted))
    && FromSnapshot(found, visible, dim) && IsBest(Results(dist, found), LivePool(dist, visible, dim), k)
    && IsBest(out, Merged(top, found, dist, dim, visible).Values, k)
  }
}
