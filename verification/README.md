# agent-aware: a verified model

agent-aware is a vector index on SSD with a dynamic write layer. This project models its hard parts in
Dafny and proves what they are for:

* **Search on the packed index** (`PageCache`, `PageReader`, `PageLedger`, `PageSession`, `BeamSearch`,
  `BeamProofs`, `GraphSearch`). Pages are read through a page cache, an asynchronous reader with a fixed
  buffer pool and a prefetching session. The result of a search is a function of the graph, the query and the
  configuration alone; cache contents, cache policy, prefetch plans and the order of completions do not
  appear in it. The prefetch ledger balances, with the cache off no page is read twice, and the buffer pool is
  never exhausted while the reads left by earlier queries, the budget and the reserve fit it.
* **The packed index itself** (`Bytes`, `Division`, `PageCodec`, `PackedLayout`, `PackedSearch`): node orders
  are permutations, pages fit, and decoding finds every node once, with its vector, neighbours and codes.
* **Graph construction** (`Vamana`, `VamanaBuild`, `DeletePatch`): robust prune with its coverage guarantee,
  the build invariant, the delete patch.
* **The dynamic write manager** (`Records`, `Wal`, `SsTable`, `Storage`, `DiskBytes`, `WriteManager`): log,
  memtable, tables, manifest, compaction and recovery, with a crash allowed between any two file operations
  and at any byte of the log, and snapshots that never change under a reader. Tables are record lists, the log
  is its whole records and the bytes behind them; `DiskBytes` ties both to bytes in every state of every run.
* **Top-k, merge and quantisation** (`TopK`, `DeltaMerge`, `Pq`, `Ivf`), and the engine's search over the packed
  graph and the dynamic layer together (`Engine`).

Distances are real numbers, or an arbitrary function where only their order matters. `std::sort` and
`std::priority_queue` are library code: a heap is its contents in order. Clocks, file contents and completion
order are parameters or arbitrary choices. Vector components in records and pages are 32-bit words.
Objects that the program updates in place are classes; their state is one datatype value where that keeps
proofs small, and the lemmas about a step are stated on that value. Some quantifiers and invariants are
guarded by the predicates of `Sealing`, which always hold: they are unfolded only where a proof names them.

## What turned out to be false

* WAL and SSTable writers accept a payload of more than 512 MiB that replay and scan then refuse. The round
  trips hold if and only if every payload is within the limit (`Wal.WalRoundTrip`, `SsTable.WriteOpenScan`);
  `Wal.OversizedRecordIsLost` gives the input. Recovery therefore shows the newest surviving version of a node
  if and only if that version is within the limit (`WriteManager.SurviveCrashes`), and compaction keeps every
  newest version if and only if all are (`Storage.CompactionExactIff`).
* The WAL is reopened behind a torn tail without cutting it. If the tail was cut within its first seven bytes,
  what is appended there is not replayed (`Wal.AppendAfterTornTailIsLost`) until the next flush has published
  it and rotated the log; `WriteManager.LoseUnreadableWrite` loses such a write after it was acknowledged and
  drained. A longer tail is completed by the bytes appended to it. With its whole header it is read as a record
  if and only if enough bytes follow and the checksums collide (`Wal.TornPayloadReadIff`), and then replay
  yields a record that nobody wrote (`Wal.LongTailMisread`, `WriteManager.RecoverUnwritten`). Recovery is
  therefore stated for every crash after which replay stops at the tail: always the first one, and every one
  while nothing was appended to a tail of eight or more bytes (`WriteManager.LiveOnce`). Then a logged write is
  recovered if and only if it is within the limit and replay gets through the log before it
  (`Storage.LoggedWriteRecoveredIff`).
* The design document promises that an acknowledged write survives a crash and that replay starts at a
  checkpoint (docs/design/05-dynamic-write.md:152-201). The code does neither: `append` does not flush the
  stream, and the whole log is replayed. `WriteManager.LoseAcknowledgedWrite` loses the first insert on a new
  store. Every crash recovers all the writes that replay can reach if and only if all are published or nothing
  is in the stream's buffer (`Storage.NothingLostIff`); where replay stops at the log's tail, a prefix of the
  history survives that contains everything up to the last published flush (`Storage.CrashKeepsPrefix`,
  `WriteManager.SurviveCrashes`).
* An LRU cache holds the most recently used pages until an eviction passes over a pinned page that was used
  less recently than its victim; exactly such an eviction breaks the order (`PageCache.LruEvictionExactIff`).
* Merging the base top-k with the delta is exact if and only if every visible base row outside the base top-k
  has `k` nearer results among the visible part of the base top-k and the live delta (`DeltaMerge.ExactIff`);
  that no top-k id is overridden is enough (`DeltaMerge.NotOverriddenIsEnough`). Deleting the nearest base row is
  the smallest failure (`DeltaMerge.DeletedTopIsMissed`).
* A neighbour list survives packing if and only if it is not longer than the degree
  (`PageCodec.NeighborsExactIff`).
* `finish_query` forgets reads that are still in flight. No batch is refused while those leftovers, the budget
  and the reserve fit the ring together, which an idle reader always provides (`PageSession.BudgetFits`,
  `GraphSearch.SearchOne`). Whenever they do not, for any number of leftovers that queries can leave, some query
  is refused a batch (`PageSession.LeftoverExhaustsPool`).

## Model

| member | source | states |
|---|---|---|
| `TopK.SortedUnique` | src/graph/disk_graph_index.cpp:47-64 | a sorted list is determined by its elements, so every sort in the program has one possible outcome |
| `TopK.BestOfMultiset` | src/graph/disk_graph_index.cpp:47-64 | top-k depends only on which results there are, not on their order of arrival |
| `TopK.BoundedPushIsBest` | src/graph/disk_graph_index.cpp:132-143 | pushing into a bounded heap that holds the top-k of what came before gives the top-k including the new result |
| `TopK.BestIsBest` | src/core/brute_force.cpp:91-137 | sort-and-truncate of distinct results is the set's top-k: strictly sorted, as many as possible, nothing left out is better |
| `TopK.IsBestUnique` | src/core/brute_force.cpp:91-137 | a set has only one top-k |
| `PageCache.EvictionIsTotal` | src/graph/disk_graph_index.cpp:565-607 | of two different pages exactly one is evicted before the other |
| `PageCache.EvictionIsTransitive` | src/graph/disk_graph_index.cpp:565-607 | the eviction order is transitive under every policy |
| `PageCache.ChooseVictim` | src/graph/disk_graph_index.cpp:565-607 | for any iteration order the victim is the least unpinned entry by (protected, score, id); none is chosen exactly when every entry is pinned |
| `PageCache.RecencyMeaning` | src/graph/disk_graph_index.cpp:456-462 | the recency list holds exactly the pages used so far, ordered by their last use |
| `PageCache.Setup.LruHoldsMostRecent` | src/graph/disk_graph_index.cpp:534-537 | an LRU cache holds exactly the most recently used distinct pages, as many as fit, pins or not, until a store is refused or an eviction passes over a pinned page older than its victim |
| `PageCache.LruHit` | src/graph/disk_graph_index.cpp:440-463 | using a cached page keeps "holds exactly the most recently used distinct pages" |
| `PageCache.LruStore` | src/graph/disk_graph_index.cpp:465-503 | storing a new page, into free room or over the least recently used one, keeps it too |
| `PageCache.LruEvictionExactIff` | src/graph/disk_graph_index.cpp:565-607 | an LRU eviction leaves exactly the most recently used pages if and only if it passes over no pinned page used less recently than the victim |
| `PageCache.Setup.HitKeeps` | src/graph/disk_graph_index.cpp:440-463 | a hit keeps the size bound, page ids, access times and LRU exactness |
| `PageCache.Setup.StoreKeeps` | src/graph/disk_graph_index.cpp:465-503 | a store keeps the size bound and, unless it passes over an older pinned page, LRU exactness |
| `PageCache.PackedPageCache.Lookup` | src/graph/disk_graph_index.cpp:440-463 | hit exactly when cached, with the cached page; pages and pins do not change |
| `PageCache.PackedPageCache.Store` | src/graph/disk_graph_index.cpp:465-503 | other entries are untouched; an evicted page was unpinned, the least in the eviction order, and the cache was full; nothing is stored only if the cache is off or every entry is pinned; the clock, frequency, hot score and queue of the stored entry are stated; the LRU order is given up only for an eviction that passed over an older pinned page or a refused store |
| `PageCache.Setup.TouchedIs` | src/graph/disk_graph_index.cpp:440-463 | a hit advances the clock, gives the entry this time and one more use, moves it to the protected queue under the queue policies, and changes no other entry |
| `PageCache.Setup.EvictedPage` | src/graph/disk_graph_index.cpp:534-607 | on the fields of the evicted and of any kept unpinned page: queues evict an unprotected page before a protected one; within a queue, and under LRU, the one accessed earlier goes, smaller id among equals; graph-aware counts a use, up to 16, as four accesses and adds the hot bonus |
| `PageCache.Setup.GraphAwareEvicts` | src/graph/disk_graph_index.cpp:534-607 | within one queue at equal hot score and frequency the older page goes; later access, more uses or a higher bonus never make a page go sooner |
| `PageCache.PackedPageCache.Pin` | src/graph/disk_graph_index.cpp:324-332 | one more pin on a cached page, nothing otherwise; LRU exactness stays |
| `PageCache.PackedPageCache.Unpin` | src/graph/disk_graph_index.cpp:334-344 | fails exactly on a cached page without a pin |
| `PageReader.AcquireKeepsPartition` | src/core/async_page_reader.cpp:102-110 | lending a buffer keeps free and lent buffers a partition of the pool without sharing |
| `PageReader.ReleaseKeepsPartition` | src/core/async_page_reader.cpp:112-117 | so does returning one |
| `PageReader.BuffersCoverPool` | src/core/async_page_reader.cpp:48-128 | every buffer is free or lent to some outstanding token: none leaks |
| `PageReader.FinishedKeeps` | src/core/async_page_reader.cpp:498-550 | the device overwrites no buffer another finished read still needs |
| `PageReader.AsyncPageReader.Start` | src/core/async_page_reader.cpp:383-431 | succeeds exactly when a buffer is free, under a new token |
| `PageReader.AsyncPageReader.BatchSubmit` | src/core/async_page_reader.cpp:433-475 | succeeds exactly when the pool has a buffer for every request; tokens are consecutive and new; on failure the reads before the refusal stay in flight |
| `PageReader.AsyncPageReader.Reap` | src/core/async_page_reader.cpp:498-561 | any read in flight may come back, with its own page's data; a waiting call returns nothing only if nothing is in flight |
| `PageLedger.ConsumeIsReady` | src/core/query_page_session.cpp:929-963 | a completed prefetch always becomes ready: the late-hit and ready-full branches are unreachable |
| `PageLedger.ConsumeKeeps` | src/core/query_page_session.cpp:929-963 | any completion that is not a demand read, leftovers included, keeps the session invariant |
| `PageLedger.RegisteredKeeps` | src/core/query_page_session.cpp:1067-1088 | registering an unknown page within the budget keeps it |
| `PageLedger.RegisterAllKeeps` | src/core/query_page_session.cpp:1067-1088 | so does a whole batch of prefetches under consecutive tokens |
| `PageLedger.DemandAllKeeps` | src/core/query_page_session.cpp:356-364 | so does a batch of demand reads for pages nothing is reading |
| `PageLedger.TakenKeeps` | src/core/query_page_session.cpp:1120-1141 | taking a ready page for the cache keeps the ledger; it counts one ready hit unless the page was counted while pending, and no other counter moves |
| `PageLedger.TakenOwnedKeeps` | src/core/query_page_session.cpp:1120-1141 | with the cache off the page moves from ready to owned and is not counted as read again |
| `PageLedger.AnsweredOwnedKeeps` | src/core/query_page_session.cpp:376-394 | a demand read that comes back with the cache off becomes owned and materialized |
| `PageLedger.MaterializedKeeps` | src/core/query_page_session.cpp:883-896 | materializing a page keeps local nodes equal to the graph's |
| `PageLedger.PendingHitKeeps` | src/core/query_page_session.cpp:158-163 | a pending hit keeps the ledger and counts one pending hit |
| `PageLedger.StoredKeeps` | src/core/query_page_session.cpp:183-187 | whatever the cache evicts, the session invariant stays: pinned pages remain, pending and ready pages are not cached |
| `PageLedger.PinnedKeeps` | src/core/query_page_session.cpp:493-503 | a session pin keeps "one pin more than before the session" |
| `PageLedger.DroppedBalances` | src/core/query_page_session.cpp:526-540 | at the end submitted = ready hits + pending hits + dropped, where exactly the pages pending or ready are dropped, and no late hit |
| `PageLedger.NoPageReadTwice` | src/core/query_page_session.cpp:125-192 | with the cache off no page is read twice in a session, prefetch and demand together |
| `PageLedger.FlightBound` | src/core/query_page_session.cpp:30-66 | reads in flight never exceed leftovers, budget and demand reads |
| `PageLedger.PendingHasToken` | src/core/query_page_session.cpp:1067-1088 | every pending page has its own token |
| `PageSession.BudgetFits` | src/core/query_page_session.cpp:30-66 | budget and reserve fit the ring together; the reserve is at least one |
| `PageSession.ReserveIs` | src/core/query_page_session.cpp:30-44 | the reserve is the largest number within the batch size and half of the ring, and at least one |
| `PageSession.BudgetIs` | src/core/query_page_session.cpp:46-66 | exactly which sizes are within the budget: what the reserve leaves of the ring, and the larger of width and topK (a quarter of the ring, at least one, when neither is set) for each step of depth |
| `PageSession.LeftoverExhaustsPool` | src/core/query_page_session.cpp:512-554 | for every ring of two or more buffers, prefetch configuration and leftover count up to the depth: if leftovers, budget and reserve do not fit the ring together, there is a query, after others that really left those reads behind, that is refused a batch |
| `PageSession.LeaveBehind` | src/core/query_page_session.cpp:512-554 | a query that prefetches any number of pages within the budget and the free buffers and finds no use for them adds exactly that many to the reads in flight |
| `PageSession.LeaveReads` | src/core/query_page_session.cpp:512-554 | at most two queries leave behind any number of reads up to the depth |
| `PageSession.QueryPageSession.constructor` | src/core/query_page_session.cpp:86-100 | a new session satisfies the invariant over whatever cache and leftovers it finds, with or without room for its own reads |
| `PageSession.QueryPageSession.Consumed` | src/core/query_page_session.cpp:929-963 | filing a completion moves one page from pending to ready and nothing else |
| `PageSession.QueryPageSession.Harvest` | src/core/query_page_session.cpp:965-980 | files everything that arrived; a waiting harvest gets at least one read if any is in flight |
| `PageSession.QueryPageSession.WaitFor` | src/core/query_page_session.cpp:982-999 | terminates with the page no longer pending |
| `PageSession.QueryPageSession.MaterializeAvailable` | src/core/query_page_session.cpp:857-881 | uses an owned, cached or ready page; otherwise changes nothing |
| `PageSession.Materialize` | src/core/query_page_session.cpp:883-896 | the loop computes the pure materialization |
| `PageSession.QueryPageSession.DemandRead` | src/core/query_page_session.cpp:356-395 | refused exactly when leftovers, prefetches and the batch exceed the ring, which needs a lack of room; otherwise all its pages become usable whatever else completes meanwhile |
| `PageSession.QueryPageSession.LoadChunk` | src/core/query_page_session.cpp:321-396 | every page of a chunk becomes usable, within the demand reserve, unless the batch is refused for lack of room |
| `PageSession.QueryPageSession.EnsureLoaded` | src/core/query_page_session.cpp:246-397 | an out-of-range page is rejected without effect; otherwise every requested page becomes usable, unless a batch is refused for lack of room |
| `PageSession.QueryPageSession.GetOrLoadPage` | src/core/query_page_session.cpp:125-192 | an out-of-range page is rejected without effect; otherwise the page is the one on disk, unless its read is refused for lack of room |
| `PageSession.QueryPageSession.ReadDemandPage` | src/core/query_page_session.cpp:898-927 | the page that comes back is the one on disk, with or without io_uring |
| `PageSession.QueryPageSession.GetNode` | src/core/query_page_session.cpp:203-221 | a node of the graph is found, with the graph's contents, unless its read is refused for lack of room |
| `PageSession.QueryPageSession.QueuePrefetch` | src/core/query_page_session.cpp:1011-1065 | a page is queued exactly if it exists, was not asked for before, fits the budget and nothing has it or is reading it |
| `PageSession.QueryPageSession.BatchLimitIs` | src/core/query_page_session.cpp:1001-1009 | exactly which sizes are within the prefetch batch limit: the I/O batch and the budget, if there is one, and at least one page |
| `PageSession.QueryPageSession.FlushPrefetch` | src/core/query_page_session.cpp:1067-1088 | refused exactly when the queue does not fit the ring beside what is in flight, never with room; otherwise it becomes pending and is counted as submitted |
| `PageSession.QueryPageSession.SubmitPlan` | src/core/query_page_session.cpp:1090-1110 | any plan at all keeps the session invariant, unless a batch is refused for lack of room; afterwards every page of it is there or on its way, or the budget is used up |
| `PageSession.QueryPageSession.PinPage` | src/core/query_page_session.cpp:493-503 | pins exactly cached pages not yet pinned by the session |
| `PageSession.QueryPageSession.UnpinAll` | src/core/query_page_session.cpp:505-510 | no unpin underflows and pins return to what they were |
| `PageSession.QueryPageSession.FinishQuery` | src/core/query_page_session.cpp:512-554 | the ledger balances, pins are restored, with the cache off no page was read twice, and leftovers grow by at most the budget |
| `PageSession.QueryPageSession.Abandon` | src/core/query_page_session.cpp:102-107 | a query that ends with a refused batch leaves reader and cache usable and its pins given back |
| `BeamProofs.PushAllKept` | src/graph/disk_graph_index.cpp:1101-1106 | pushing results keeps candidates sorted, found = waiting + expanded, and best = top-k of everything found |
| `BeamProofs.VisitAllLists` | src/graph/disk_graph_index.cpp:1058-1087 | the neighbours a batch marks as visited are exactly those it ranks, each once |
| `BeamProofs.ExpandGood` | src/graph/disk_graph_index.cpp:1046-1109 | a round keeps the search invariant |
| `BeamProofs.ExpandedOnce` | src/graph/disk_graph_index.cpp:1046-1109 | no node is expanded twice |
| `BeamProofs.SearchInvariant` | src/graph/disk_graph_index.cpp:1138-1189 | the search ends with at most search_width expansions, none repeated, and best is exactly the result_capacity smallest ADC results among all visited nodes |
| `BeamProofs.RoundsWithin` | src/graph/disk_graph_index.cpp:1138-1189 | the search visits nothing outside a closed set that contains its entries |
| `BeamProofs.ExhaustiveSearch` | src/graph/disk_graph_index.cpp:1138-1189 | without early stop and with room for every node it visits exactly the least closed set containing its entries |
| `BeamProofs.SearchTrace` | src/graph/disk_graph_index.cpp:968-1013 | every round of a search: it expands the nearest waiting nodes, as many as the batch allows, ranks the neighbours not visited before, and keeps the nearest; it ends when nothing waits, the width is used up or a stop is due |
| `BeamProofs.StagnantIs` | src/graph/disk_graph_index.cpp:153-170 | when the adaptive count starts again and when it grows, in the configured relative improvement |
| `BeamProofs.ResultIs` | src/graph/disk_graph_index.cpp:1111-1136 | for every rerankTopK: of the min(max(topK, rerankTopK), count) visited nodes nearest by ADC distance, the min(topK, count) nearest by the exact distance of their stored vectors, with these distances; without reranking, by ADC distance |
| `BeamProofs.RerankIsExact` | src/graph/disk_graph_index.cpp:1111-1136 | reranking as many results as there are nodes returns the exact top-k of the visited nodes |
| `BeamProofs.PlainIsEstimated` | src/graph/disk_graph_index.cpp:1111-1136 | without reranking the result is the top-k of the visited nodes by ADC distance |
| `BeamProofs.ResultIdsDistinct` | src/graph/disk_graph_index.cpp:1111-1136 | no node is returned twice, with reranking or without |
| `GraphSearch.MarkNew` | src/graph/disk_graph_index.cpp:1063-1071 | the marking loop computes the new neighbours in order, each once |
| `GraphSearch.Initialize` | src/graph/disk_graph_index.cpp:659-724 | builds the initial beam of the pure search |
| `GraphSearch.SelectBatch` | src/graph/disk_graph_index.cpp:968-1013 | pops exactly the batch of the pure search |
| `GraphSearch.ExpandBatch` | src/graph/disk_graph_index.cpp:1046-1109 | loading through the session, pinning and prefetching anything, yields the pure round, unless a read is refused for lack of room |
| `GraphSearch.Rerank` | src/graph/disk_graph_index.cpp:1111-1136 | the rerank loop over loaded pages yields the pure rerank, unless a read is refused for lack of room |
| `GraphSearch.FindNode` | src/graph/disk_page_codec.cpp:199-207 | the scan of a page finds the node with the graph's contents |
| `GraphSearch.RunRounds` | src/graph/disk_graph_index.cpp:1158-1186 | the main loop ends in the beam of the pure search, unless a read is refused for lack of room |
| `GraphSearch.SearchOne` | src/graph/disk_graph_index.cpp:1138-1189 | a search that returns has the result of the beam search over the decoded graph (stated by BeamProofs.ResultIs), for every cache, prefetch plan and completion order; it returns whenever leftovers, budget and reserve fit the ring; ledger, pins, single reads and the leftover bound hold at the end |
| `Bytes.FieldsRoundTrip` | src/dynamic/wal.cpp:65-107 | little-endian fields that fit their widths are read back exactly, whatever follows |
| `Bytes.EncodedByte` | src/dynamic/wal.cpp:53-57 | byte i of a written value is its digit of 256^i |
| `PageCodec.PageFits` | src/graph/disk_page_codec.cpp:23-34 | packed_nodes_per_page is exact: n slots fit the page size if and only if n does not exceed it |
| `PageCodec.SlotWords` | src/graph/disk_page_codec.cpp:36-120 | the words of a page by slot: id, degree, vector and neighbours of each member at their offsets |
| `PageCodec.EncodePackedPage` | src/graph/disk_page_codec.cpp:36-120 | writes the page's blocks and never overflows within the size bound |
| `PageCodec.NeighborsOfPadded` | src/graph/disk_page_codec.cpp:157-172 | filtering a padded row by stored degree and filler gives the list cut to the degree |
| `PageCodec.PageRoundTrip` | src/graph/disk_page_codec.cpp:122-197 | decoding an encoded page gives its page id and its nodes in slot order |
| `PageCodec.NeighborsExactIff` | src/graph/disk_page_codec.cpp:122-197 | the neighbour list decoded from an encoded page is the one that was packed if and only if that is not longer than the degree |
| `PageCodec.CodesExact` | src/graph/disk_page_codec.cpp:174-194 | then every neighbour keeps its own PQ code, in order |
| `PackedLayout.BfsOrder` | src/graph/disk_graph_builder.cpp:992-1019 | a permutation of all nodes in breadth-first order, for every graph: a start is the smallest node not yet found and nothing before it leads to it; every other node was found by the first node that leads to it; nodes follow the order of their finders, and nodes of one finder the order of its list |
| `PackedLayout.BestNeighbor` | src/graph/disk_graph_builder.cpp:1105-1125 | the unplaced neighbour of the page with the highest score above -1, smallest id among equals; none exactly when no such neighbour scores above -1 |
| `PackedLayout.CoaccessOrder` | src/graph/disk_graph_builder.cpp:1021-1141 | a permutation of all nodes, for every graph, page size and score, in which every node is the right one for its position: the neighbour of the nodes on its page with the highest score above -1, smallest id among equals, or the smallest node left when there is none, as at the start of a page |
| `PackedLayout.BuildDirectory` | src/graph/disk_graph_builder.cpp:1381-1386 | the node at position p is sent to page p / nodes_per_page |
| `PackedLayout.PackIndex` | src/graph/disk_graph_builder.cpp:1356-1435 | fails exactly when a page cannot hold one node; otherwise directory and pages are the packed ones |
| `PackedLayout.PackedIsWellFormed` | src/graph/disk_graph_builder.cpp:1362-1435 | decoding page node_to_page[id] always finds id, and pages hold only nodes of the graph |
| `PackedLayout.FoundOnce` | src/graph/disk_graph_builder.cpp:1362-1435 | a node is found on one page only, its directory page, and in one slot only |
| `PackedSearch.SearchPacked` | src/graph/disk_graph_index.cpp:1138-1189 | searching the packed file is the beam search over the graph that was packed, for any node order; it fails only on a bad configuration or for lack of room |
| `PackedSearch.StoredGraphIsBuilt` | src/graph/disk_page_codec.cpp:122-197 | with no list longer than the degree that graph has the original vectors and neighbours |
| `Vamana.PruneOrder` | src/graph/vamana_builder.cpp:262-286 | picks come from the pool in increasing (distance, id) |
| `Vamana.PruneCoverage` | src/graph/vamana_builder.cpp:264-287 | no pick is dominated by a nearer pick; with room left, a candidate is picked exactly when no nearer pick dominates it |
| `Vamana.PickLoop` | src/graph/vamana_builder.cpp:264-286 | the pick-and-filter loop computes the recursive prune |
| `Vamana.PrunedCoverage` | src/graph/disk_graph_builder.cpp:406-452 | if the output is shorter than the degree, every candidate is in it or alpha-dominated by a member no farther away |
| `Vamana.PrunedIs` | src/graph/vamana_builder.cpp:236-287 | the pruned list in terms of the candidates: sorted by distance, each member not redundant to those before it, every candidate left out redundant to an earlier member or behind a full list |
| `Vamana.PrunedUnique` | src/graph/vamana_builder.cpp:236-287 | only one list meets this description |
| `VamanaBuild.VamanaBuilder.FindMedoid` | src/graph/vamana_builder.cpp:121-166 | the live node nearest to the centroid, smallest id among equals; fails exactly when none is live |
| `VamanaBuild.VamanaBuilder.BeginEpoch` | src/graph/vamana_builder.cpp:181-190 | after a new epoch no node counts as visited, across growth and counter restart |
| `VamanaBuild.VamanaBuilder.SearchForConstruction` | src/graph/vamana_builder.cpp:168-234 | distinct live nodes other than the node, nearest first, at most search_width, with the entry among them; each was the nearest node found and not yet expanded, from the entry on; if fewer than the width, they are closed under usable neighbours |
| `VamanaBuild.VamanaBuilder.UniqueIds` | src/graph/vamana_builder.cpp:60-77 | exactly the usable ids, each once |
| `VamanaBuild.VamanaBuilder.RobustPrune` | src/graph/vamana_builder.cpp:236-287 | a well-formed list within the effective degree that starts with the nearest usable candidate, with coverage; in order of distance, exactly the candidates that no earlier member makes redundant, until the degree is reached |
| `VamanaBuild.VamanaBuilder.AddReverseEdge` | src/graph/vamana_builder.cpp:388-420 | only the target's list changes and stays well-formed; it is appended the source while it has room, and is the prune of its list and the source otherwise; the source is in it, or it is full, or a member covers the source |
| `VamanaBuild.VamanaBuilder.InsertNode` | src/graph/vamana_builder.cpp:289-323 | the new list is the prune of what the construction search found and the old list, in range, free of duplicates, self-loops and deleted endpoints; exactly its members get a reverse edge, all other lists stay; a live node that is not alone gets neighbours, each links back or has no need to, and no list becomes empty |
| `VamanaBuild.VamanaBuilder.InitialGraph` | src/graph/vamana_builder.cpp:338-375 | well-formed for any random candidates; a list that is not full holds every live ring neighbour on both sides |
| `VamanaBuild.VamanaBuilder.Build` | src/graph/vamana_builder.cpp:94-119 | for any insertion order every step from the ring on is the insert of the next node, searched from the medoid; the finished graph is well-formed and every inserted live node has a neighbour unless it is the only one; fails exactly when no node is live |
| `DeletePatch.CollectIncoming` | src/graph/disk_graph_builder.cpp:598-608 | for every deleted node exactly its live sources |
| `DeletePatch.CollectPatch` | src/graph/disk_graph_builder.cpp:610-650 | for every node exactly what its deleted neighbours offer, and exactly the affected nodes |
| `DeletePatch.ApplyDeletePatch` | src/graph/disk_graph_builder.cpp:590-674 | deleted nodes lose their lists, affected nodes get the prune of exactly their candidates, all others stay |
| `DeletePatch.PatchRemovesDeleted` | src/graph/disk_graph_builder.cpp:590-674 | afterwards no edge starts or ends at a deleted node and no list outgrows the degree |
| `DeletePatch.PatchCoverage` | src/graph/disk_graph_builder.cpp:652-667 | with room left every reconnection candidate is linked or covered by a link no farther away |
| `DeletePatch.PatchPrunes` | src/graph/disk_graph_builder.cpp:652-667 | the new list of an affected node is the one list that PrunedIs describes of its candidates |
| `Records.NewestIsNewest` | src/dynamic/dynamic_write_manager.cpp:26-48 | the scan keeps exactly one newest version per node |
| `Records.NewestOfCover` | src/dynamic/compaction.cpp:19-41 | dropping superseded versions, and what is too large to be read, keeps the newest version of a node if and only if that version can be read |
| `Records.SameEverywhere` | src/dynamic/compaction.cpp:19-41 | so the newest-version map is kept if and only if every newest version can be read |
| `Records.ListingIsSorted` | src/dynamic/compaction.cpp:31-40 | the output list has every entry of the map, sorted by node id |
| `Records.NewestOfListing` | src/dynamic/compaction.cpp:19-41 | reading a deduplicated list back gives the same map |
| `Records.VisibleAtAgrees` | src/dynamic/dynamic_write_manager.cpp:101-166 | histories with the same records up to a sequence show the same versions there |
| `Wal.WalWriter.Append` | src/dynamic/wal.cpp:65-163 | exactly well-shaped records are accepted by an open log; written field by field, the stream is always the concatenated encodings of the accepted records |
| `Wal.Replay` | src/dynamic/wal.cpp:185-232 | the loop reads records until one is unreadable |
| `Wal.ReadEncoded` | src/dynamic/wal.cpp:185-232 | a record is read back exactly when its payload is within the limit, whatever follows |
| `Wal.ReadIff` | src/dynamic/wal.cpp:91-232 | replay reads a record if and only if its encoding stands there, in range and within the limit: any other bytes are refused |
| `Wal.ChecksumPlace` | src/dynamic/wal.cpp:65-107 | the last four bytes of the header are the checksum of the payload |
| `Wal.ReadTorn` | src/dynamic/wal.cpp:185-232 | a record cut short anywhere is not readable, whatever its ids and words |
| `Wal.ReplayTornTail` | src/dynamic/wal.cpp:124-232 | encodings followed by a proper prefix of one more replay to the records up to the first oversized one |
| `Wal.ReplayWhole` | src/dynamic/wal.cpp:124-232 | the bytes of a log replay to its records up to the first oversized one |
| `Wal.ReplayBehind` | src/dynamic/wal.cpp:185-232 | replay yields the whole records up to the first oversized one, and if there is none goes on with whatever bytes follow |
| `Wal.WalRoundTrip` | src/dynamic/wal.cpp:124-232 | that is the whole list if and only if every payload is within the limit |
| `Wal.OversizedRecordIsLost` | src/dynamic/wal.cpp:124-232 | a record that append accepts and replay refuses |
| `Wal.AppendAfterTornTailIsLost` | src/dynamic/wal.cpp:116-163 | behind a tail of one to seven bytes of a record, whatever was written before and is appended later, replay yields only what came before the tail |
| `Wal.HarmlessStops` | src/dynamic/wal.cpp:91-118 | replay stops at a torn record nothing was appended to, and at one cut within its first seven bytes, whatever bytes starting like a record follow |
| `Wal.TornPayloadReadIff` | src/dynamic/wal.cpp:91-232 | a record cut within its payload is read as one if and only if it was within the limit, enough bytes follow, and the checksum of the mixed payload is its own |
| `Wal.LongTailMisread` | src/dynamic/wal.cpp:116-232 | the input where that happens: replay yields a record that nobody wrote, and then what was appended later |
| `SsTable.Write` | src/dynamic/sstable.cpp:367-420 | newest version per node, in node order, with running offsets; fails exactly on an ill-shaped record |
| `SsTable.EntryPoints` | src/dynamic/sstable.cpp:367-420 | every index entry points at its record |
| `SsTable.ReadIff` | src/dynamic/sstable.cpp:91-240 | a record is read if and only if its encoding stands at the offset: any other bytes are refused |
| `SsTable.ChecksumPlace` | src/dynamic/sstable.cpp:91-131 | the last four bytes of the header are the checksum of the payload |
| `SsTable.SSTableReader.Open` | src/dynamic/sstable.cpp:422-462 | fills the index from the file; fails exactly when header or size are wrong |
| `SsTable.SSTableReader.ScanAll` | src/dynamic/sstable.cpp:482-499 | every readable record of the index, in node order |
| `SsTable.LookupWritten` | src/dynamic/sstable.cpp:464-480 | a lookup in a written table answers with the node's record, unless it is oversized |
| `SsTable.ScanWritten` | src/dynamic/sstable.cpp:482-499 | scanning a written table yields exactly its readable records |
| `SsTable.WriteOpenScan` | src/dynamic/sstable.cpp:133-499 | writing, opening and scanning yields the newest versions, if and only if their payloads are within the limit |
| `Storage.PublishFlush` | src/dynamic/dynamic_write_manager.cpp:323-358 | once the memtable's table is in the manifest, what can be read of the tables has every newest version that is not too large |
| `Storage.PublishCompaction` | src/dynamic/dynamic_write_manager.cpp:542-621 | replacing all tables by the newest of their readable versions loses no newest version that is not too large, tombstones included |
| `Storage.CompactionExactIff` | src/dynamic/compaction.cpp:48-76 | compaction keeps the newest version of every node of the tables if and only if none of them is too large to be read |
| `Storage.UnpublishedFile` | src/dynamic/dynamic_write_manager.cpp:323-358 | writing or removing files of a table the manifest does not list is invisible to recovery |
| `Storage.LogAppended` | src/dynamic/dynamic_write_manager.cpp:295-313 | an append keeps the disk recoverable for the longer history, also when replay stops before it |
| `Storage.LogRemoved` | src/dynamic/dynamic_write_manager.cpp:639-652 | once everything is published the log may go |
| `Storage.CrashKeepsPrefix` | src/dynamic/dynamic_write_manager.cpp:179-252 | after a crash with any bytes of the buffer kept, the disk's tables and whole log records stand for a prefix of the history that contains everything published; replay yields its end if it stops at the log's tail |
| `Storage.LoadedIsNewest` | src/dynamic/dynamic_write_manager.cpp:179-252 | scanning the tables and replaying the log gives a node its newest version of that prefix if and only if that version is not too large |
| `Storage.AllRecovered` | src/dynamic/dynamic_write_manager.cpp:179-252 | it gives the newest-version map of the prefix if and only if no newest version is too large |
| `Storage.LastWriteLost` | src/dynamic/wal.cpp:124-172 | a crash that loses the end of the buffer loses the newest write, unless it was published |
| `Storage.NothingLostIff` | src/dynamic/wal.cpp:124-172 | for a log that replay gets through, and newest versions that are not too large, every crash recovers all acknowledged writes if and only if all are published or nothing is buffered |
| `Storage.LoggedWriteRecoveredIff` | src/dynamic/wal.cpp:91-232 | a write all of whose bytes reached the log is recovered if and only if it is within the limit and replay gets through the log before it, provided replay stops at the log's tail; it does if there is none or it was cut within seven bytes |
| `Storage.LargeWriteLost` | src/dynamic/wal.cpp:91-232 | a write over the limit is never recovered from the log, whatever its tail |
| `DiskBytes.ReplayBytes` | src/dynamic/wal.cpp:116-232 | writing the log record by record and replaying the bytes gives the record-level replay, with any tail behind it |
| `DiskBytes.ScanBytes` | src/dynamic/sstable.cpp:367-499 | writing, opening and scanning a table gives its records within the limit, in order |
| `DiskBytes.RecoverFromBytes` | src/dynamic/dynamic_write_manager.cpp:179-252 | recovery from the bytes of all tables and the log with its tail is the recovery the other results are stated for |
| `DiskBytes.StateEncodable` | src/dynamic/dynamic_write_manager.cpp:179-252 | every disk a run can reach has tables in node order, one record a node, and well-shaped records: it can be written as bytes if its numbers fit their fields |
| `DiskBytes.RecoverState` | src/dynamic/dynamic_write_manager.cpp:179-252 | so recovery from bytes holds in every file state of every run |
| `DiskBytes.ReadableListing` | src/dynamic/sstable.cpp:482-499 | scanning passes over what is too large and keeps the order of the rest |
| `WriteManager.FileStore.WriteTable` | src/dynamic/sstable.cpp:367-420 | each of the three file writes leaves a disk a crash can recover from |
| `WriteManager.FileStore.PublishTable` | src/dynamic/dynamic_write_manager.cpp:323-358 | so does the manifest swap of a flush |
| `WriteManager.FileStore.PublishMerged` | src/dynamic/dynamic_write_manager.cpp:542-621 | and that of a compaction |
| `WriteManager.FileStore.RotateLog` | src/dynamic/dynamic_write_manager.cpp:639-652 | and the log rotation after a flush |
| `WriteManager.FileStore.AppendLog` | src/dynamic/dynamic_write_manager.cpp:295-313 | and an append to the log's buffer |
| `WriteManager.Crash` | src/dynamic/dynamic_write_manager.cpp:179-252 | a crash after any file operation, keeping any bytes of the buffer, leaves files that stand for a prefix of the history with everything published; they can be opened if replay stops at the log's tail, as it does unless bytes were appended behind eight or more torn ones |
| `WriteManager.UniqueVersions` | src/dynamic/dynamic_write_manager.cpp:86-99 | keeps one copy of every version |
| `WriteManager.LoadTables` | src/dynamic/dynamic_write_manager.cpp:179-252 | the table loop of open and of compaction: readable records in table order |
| `WriteManager.ReplayLog` | src/dynamic/wal.cpp:185-232 | replay stops at the first record over the limit and otherwise goes on with the tail's bytes |
| `WriteManager.FillMemtable` | src/dynamic/memtable.cpp:18-34 | replaying the log into the memtable leaves the newest version per node |
| `WriteManager.ReadFiles` | src/dynamic/dynamic_write_manager.cpp:179-252 | open reads exactly what tables and log yield, which has a node's newest version if and only if that is not too large, and the next sequence id exceeds the whole history's |
| `WriteManager.NextSequenceIsLeast` | src/dynamic/dynamic_write_manager.cpp:179-252 | the next sequence id is the smallest above all stored and replayed ones that is at least the manifest's |
| `WriteManager.AppendKeepsSnapshots` | src/dynamic/dynamic_write_manager.cpp:360-427 | a newer version changes no snapshot at an older sequence |
| `WriteManager.WriteKeepsSnapshots` | src/dynamic/dynamic_write_manager.cpp:295-313 | one write leaves every older snapshot as it was |
| `WriteManager.ReadsSeeAllWrites` | src/dynamic/dynamic_write_manager.cpp:360-427 | reading at the latest sequence sees a node's newest version, tombstones included, if and only if that could be read at opening or was written since |
| `WriteManager.ReaderSees` | src/dynamic/dynamic_write_manager.cpp:360-427 | the same for an open manager's published view and sequence |
| `WriteManager.DynamicWriteManager.Open` | src/dynamic/dynamic_write_manager.cpp:179-252 | the view is exactly what tables and log yield: it shows a node's newest version if and only if that is not too large, and the newest-version map if and only if none is; numbering continues above the history |
| `WriteManager.DynamicWriteManager.Insert` | src/dynamic/dynamic_write_manager.cpp:254-280 | extends the history by exactly this record; older snapshots stay |
| `WriteManager.DynamicWriteManager.Erase` | src/dynamic/dynamic_write_manager.cpp:282-293 | extends the history by exactly this tombstone; older snapshots stay |
| `WriteManager.DynamicWriteManager.Append` | src/dynamic/dynamic_write_manager.cpp:295-313 | rejects ill-shaped records without a trace; otherwise writes, and may flush |
| `WriteManager.DynamicWriteManager.Flush` | src/dynamic/dynamic_write_manager.cpp:315-358 | publishes the memtable: afterwards the tables cover the whole history; history and view do not change |
| `WriteManager.DynamicWriteManager.Compact` | src/dynamic/dynamic_write_manager.cpp:542-621 | runs exactly with two or more tables, leaves one and no files of the others; history, coverage and view do not change |
| `WriteManager.DynamicWriteManager.Close` | src/dynamic/dynamic_write_manager.cpp:623-637 | drains the log; readers find no open view |
| `WriteManager.MergeTables` | src/dynamic/compaction.cpp:48-76 | the merged table holds the newest readable version per node of all published tables |
| `WriteManager.FlushTable` | src/dynamic/dynamic_write_manager.cpp:323-358 | the file operations of a flush, each safe, end with everything published and an empty log |
| `WriteManager.CompactTables` | src/dynamic/dynamic_write_manager.cpp:542-621 | the file operations of a compaction, each safe, end with one table and without the files of the old ones |
| `WriteManager.Step` | src/dynamic/dynamic_write_manager.cpp:254-358 | an operation adds exactly its write, numbered next, to the history; a flush ends with everything published |
| `WriteManager.Run` | src/dynamic/dynamic_write_manager.cpp:254-358 | any run of inserts, erases, flushes and compactions adds exactly its writes to the history, every flush publishes all writes before it, and every snapshot a reader may hold stays |
| `WriteManager.LiveOnce` | src/dynamic/dynamic_write_manager.cpp:179-652 | open, any run, a crash after any file operation and at any byte of the log: what survives is a prefix of the history and the run's writes that contains every flush that had ended; it can be opened if the log had no tail at the start, or was cut within seven bytes |
| `WriteManager.SurviveCrashes` | src/dynamic/dynamic_write_manager.cpp:179-652 | any number of such lives, each opened on what the one before left: each adds exactly its writes and loses at most an end of them, no completed flush is ever lost, and reopening shows a node's newest surviving version if and only if that is not too large; the lives end early only where replay reads on behind eight or more torn bytes |
| `WriteManager.SurvivedWasWritten` | src/dynamic/dynamic_write_manager.cpp:179-652 | nothing survives that was not there at the start or written in one of the lives |
| `WriteManager.LoseAcknowledgedWrite` | src/dynamic/dynamic_write_manager.cpp:295-313 | an insert that returns true on a new store, a crash before the stream is drained, and a reopened store that is empty |
| `WriteManager.LoseUnreadableWrite` | src/dynamic/wal.cpp:91-232 | for every open manager, an insert over the limit, or behind an oversized record or a torn tail at which replay stops, is acknowledged, drained to the log, and absent after reopening |
| `WriteManager.RecoverUnwritten` | src/dynamic/wal.cpp:116-232 | two lives and two writes after which replay yields a third record that nobody wrote, if the checksums collide |
| `DeltaMerge.SearchMemoryFast` | src/core/brute_force.cpp:91-137 | the bounded heap returns the base's top-k |
| `DeltaMerge.SearchDelta` | src/dynamic/dynamic_write_manager.cpp:511-540 | the live visible records with the k smallest distances |
| `DeltaMerge.MergeBaseAndDelta` | src/dynamic/dynamic_write_manager.cpp:670-706 | the top-k of the base results after the records are applied in order |
| `DeltaMerge.MergeAllOf` | src/dynamic/dynamic_write_manager.cpp:670-706 | each listed id ends up deleted or with its visible version's distance, every other id as it was |
| `DeltaMerge.SearchWithDelta` | src/engine/storage_engine.cpp:39-98 | with the view loaded twice, no deleted id is returned and every id has its latest visible distance at the read sequence |
| `Engine.SearchEngine` | src/engine/storage_engine.cpp:39-98 | the packed graph and the dynamic layer together: whatever other threads write meanwhile, the answer is the top-k of the graph's top-k merged with the snapshot at the start, which shows the newest version of every readable node |
| `DeltaMerge.SearchMemoryWithDelta` | src/mixed_rw_benchmark.cpp:582-603 | equals the exact dynamic top-k if and only if enough nearer results are kept |
| `DeltaMerge.ExactIff` | src/mixed_rw_benchmark.cpp:534-603 | the exactness condition, both directions |
| `DeltaMerge.NotOverriddenIsEnough` | src/mixed_rw_benchmark.cpp:582-603 | when no base top-k id is overridden the condition holds |
| `DeltaMerge.DeletedTopIsMissed` | src/mixed_rw_benchmark.cpp:582-603 | two rows, the nearer one deleted, k = 1: the exact answer is the other row and the fast form's is empty |
| `DeltaMerge.ExactDynamicTopk` | src/mixed_rw_benchmark.cpp:534-580 | the specification: top-k of base rows not overridden and live visible records |
| `Pq.Quantizer.OffsetsPartition` | src/core/pq_encoder.cpp:18-24 | offsets run from 0 to the dimension, every subspace is non-empty, and offset m is m/subspaces of the dimension, rounded down |
| `Pq.Quantizer.DimensionHasSubspace` | src/core/pq_encoder.cpp:18-24 | every dimension lies in a subspace |
| `Pq.Quantizer.SubspaceUnique` | src/core/pq_encoder.cpp:18-24 | and in only one |
| `Pq.NearestCentroid` | src/core/pq_encoder.cpp:175-195 | the first of the nearest centroids |
| `Pq.Encode` | src/core/pq_encoder.cpp:105-112 | a valid code with the first of the nearest centroids in every subspace |
| `Pq.DecodeCode` | src/core/pq_encoder.cpp:114-129 | fails exactly on a code outside the codebook; otherwise every slice is the centroid's |
| `Pq.DecodedUnique` | src/core/pq_encoder.cpp:114-129 | a code determines the decoded vector in every dimension |
| `Pq.EncodeIsOptimal` | src/core/pq_encoder.cpp:105-112 | encoding minimises the squared reconstruction error over all codes |
| `Pq.BuildAdcTable` | src/core/pq_encoder.cpp:139-159 | the table holds the query's distance to every centroid within its subspace |
| `Pq.AdcDistance` | src/core/pq_encoder.cpp:161-173 | the table sum is the squared distance from the query to the decoded vector |
| `Ivf.NearestInRange` | src/storage/lsm_tree.cpp:342-355 | the first of the nearest centroids |
| `Ivf.ScoredMultiset` | src/storage/lsm_tree.cpp:485-513 | scoring does not depend on the order of the items |
| `Ivf.ProbeSome` | src/storage/lsm_tree.cpp:458-513 | probing the first n buckets once, in any order, sees each of their items once |
| `Ivf.BestAreClosest` | src/storage/lsm_tree.cpp:458-483 | sorting the scored centroids and cutting gives the closest ones in order: no other centroid in use is closer, smaller number first among equals |
| `Ivf.DeltaIvfFlatIndex.Insert` | src/storage/lsm_tree.cpp:314-333 | every stored vector stays in exactly one bucket, that of its nearest centroid; the centroids are those trained on all vectors up to centroid_count, and later at the last whole number of rebuild intervals beyond it, less than one interval ago |
| `Ivf.DeltaIvfFlatIndex.Rebuild` | src/storage/lsm_tree.cpp:386-456 | so it is after a rebuild, with centroids trained on all vectors |
| `Ivf.DeltaIvfFlatIndex.ClosestCentroids` | src/storage/lsm_tree.cpp:458-483 | the closest centroids in use, in order, as many as probes allow |
| `Ivf.DeltaIvfFlatIndex.SearchOne` | src/storage/lsm_tree.cpp:485-513 | the top-k of everything in the buckets of exactly those centroids; with probes covering all centroids, the brute-force top-k |

## Left out

- PageSession.QueryPageSession.EnsureLoaded: does not model a session that is used after `finish_query`, which loads pages without the session.
- PageSession.QueryPageSession.GetOrLoadPage: the same.
- PageReader.AsyncPageReader.Reap: does not model failed or short reads, only completions that carry the page.
- Wal.TornPayloadReadIff: a tail cut within its header, behind the first seven bytes, is completed by the bytes behind it as well; what replay makes of it is left to the condition that it stops there.
- DiskBytes.StateEncodable: for records whose ids and words, and tables whose sizes, fit their fields; sequence ids and table ids are unbounded and do not wrap around.
- WriteManager.DynamicWriteManager.Append: does not model failing file operations, after which `insert` can return false although the record is visible, nor the memtable's byte count; an automatic flush may happen after any write.
- VamanaBuild.VamanaBuilder.FindMedoid: does not compute the centroid; the distance to it is a parameter.
- DeletePatch.ApplyDeletePatch: the deletion mask is empty or as long as the graph, as its only caller makes it.
- VamanaBuild.VamanaBuilder.RobustPrune: candidates are in range, as the build guarantees; out-of-range ids would be read past the vector array.
- io_uring, pread, O_DIRECT, file descriptors, alignment and errno handling.
- Running without a WAL (`enable_wal = false`).
- Manifest and metadata as text: saving replaces the manifest, loading is its inverse.
- The checksum is an arbitrary function of the payload; its strength is not a topic.
- Locks and threads: steps are atomic, and a reader may load the published view at any point.
- The incremental neighbour selection of `insert` is a parameter.
- The prefetch planner's scoring, throttling and model files: a plan is an arbitrary list of pages.
- Cache statistics and hub accounting; the hot score of a page is a parameter.
- Float rounding, NaN and SIMD lanes; k-means quality: codebooks and centroids are arbitrary.
- The order `hotpath`, the LSH and other candidate generators of the graph builder.
- The page buffer of the encoder is the bytes written so far, filled up with zeros at the end; its cursor is their number.
- The flat delta index (`DeltaFlatIndex`, `merge_topk`): its block search is the bounded heap already covered.
- Command lines, timing, reports, scripts, the simpler disk index and entry selection: entries are a parameter.
