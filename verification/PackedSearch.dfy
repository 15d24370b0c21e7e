/** Search on an index the builder wrote. */
module PackedSearch {
  import opened Bytes
  import opened TopK
  import opened PageCache
  import opened PageReader
  import opened PageLedger
  import opened PageSession
  import opened BeamSearch
  import opened GraphSearch
  import opened PageCodec
  import opened PackedLayout

  /** The graph as the pages hold it. */
  function StoredGraph(src: Source, l: Layout): seq<Node>
    requires |src.vectors| == |src.lists|
  {
    seq(|src.lists|, id requires 0 <= id < |src.lists| => StoredNode(src, l, id))
  }

  /**
   Builder, page format, cache, prefetch and search together: for any node order, searching the packed file
   is the beam search over the graph that was packed.
   */
  method SearchPacked(
      file: PackedFile, src: Source, l: Layout, ghost order: seq<nat>,
      reader: AsyncPageReader, cache: PackedPageCache, io: IoStatus, prefetch: PrefetchConfig,
      plan: Plan, entries: seq<nat>)
    returns (ok: bool, topk: seq<SearchResult>)
    requires src.Fits(l) && IsOrder(order, |src.lists|) && l.NodesPerPage() < U32 && IsPacked(file, src, l, order)
    requires reader.Valid() && cache.Valid() && plan.count == |src.lists|
    requires reader.disk == Opened(file, src, l).disk && CacheFromDisk(cache.s.entries, reader.disk)
    requires reader.async == io.async && reader.depth == io.depth && io.depth > 0
    modifies reader, cache
    ensures ok ==> plan.config.Runs()
    ensures plan.config.Runs() && HasRoom(old(reader.view), io, prefetch) ==> ok
    ensures ok ==> topk == Query(StoredGraph(src, l), plan).Search(entries)
  {
    PackedIsWellFormed(file, src, l, order);
    var stats;
    ok, topk, stats := SearchOne(Opened(file, src, l), reader, cache, io, prefetch, plan, entries);
  }

  /** When no list exceeds the degree, that is the graph that was built, edge by edge. */
  lemma StoredGraphIsBuilt(src: Source, l: Layout, id: nat)
    requires src.Fits(l) && id < |src.lists| && |src.lists[id]| <= l.degree
    ensures StoredGraph(src, l)[id].id == id
    ensures StoredGraph(src, l)[id].vector == src.vectors[id]
    ensures StoredGraph(src, l)[id].neighbors == src.lists[id]
  {
  }
}
