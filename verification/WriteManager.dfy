/**
 The dynamic write manager: log, memtable, tables, manifest, compaction, recovery, and the
 immutable view that readers load without taking the writer's lock.

 Every file operation is recorded in `FileStore.states`; a crash may leave any of those states
 behind, with an arbitrary part of the log's buffer drained. File operations succeed.
 */
module WriteManager {
  import opened Sealing
  import opened TopK
  import opened Bytes
  import opened Records
  import opened Storage
  import opened Wal

  // ---- Files, with every state a crash could expose ----

  /** A state of a life that began with `first`: it can be recovered, and its log has a tail only if the first one had. */
  ghost predicate GoodState(first: Disk, d: Disk, hist: seq<Record>, n: nat) {
    forall name {:trigger Unsealed(name)} | Unsealed(name) && name == StateGood ::
      Recoverable(d, hist, n) && (first.tail.Whole? ==> d.tail.Whole?)
  }

  ghost predicate AllRecoverable(states: seq<Disk>, published: seq<nat>, hist: seq<Record>)
    requires |states| == |published|
  {
    && (forall i: nat {:trigger Point(i)} :: Point(i) && i < |states| ==> GoodState(states[0], states[i], hist, published[i]))
    && (forall i: nat, j: nat {:trigger Point(i), Point(j)} ::
          Point(i) && Point(j) && i < j < |states| ==> published[i] <= published[j])
  }

  lemma RecoverableAt(states: seq<Disk>, published: seq<nat>, hist: seq<Record>, i: nat)
    requires |states| == |published| && AllRecoverable(states, published, hist) && i < |states|
    ensures Recoverable(states[i], hist, published[i]) && (states[0].tail.Whole? ==> states[i].tail.Whole?)
    ensures published[i] <= published[|states| - 1]
  {
    assert Point(i) && Point(|states| - 1);
    GoodIs(states[0], states[i], hist, published[i]);
  }

  lemma GoodIs(first: Disk, d: Disk, hist: seq<Record>, n: nat)
    requires GoodState(first, d, hist, n)
    ensures Recoverable(d, hist, n) && (first.tail.Whole? ==> d.tail.Whole?)
  {
    assert Unsealed(StateGood);
  }

  lemma AllHistoryGrows(states: seq<Disk>, published: seq<nat>, hist: seq<Record>, r: Record)
    requires |states| == |published| && AllRecoverable(states, published, hist) && Increasing(hist + [r])
    requires Appendable(r)
    ensures AllRecoverable(states, published, hist + [r])
  {
    forall i: nat | Point(i) && i < |states|
      ensures GoodState(states[0], states[i], hist + [r], published[i])
    {
      GoodGrows(states[0], states[i], hist, r, published[i]);
    }
  }

  lemma GoodGrows(first: Disk, d: Disk, hist: seq<Record>, r: Record, n: nat)
    requires GoodState(first, d, hist, n) && Increasing(hist + [r]) && Appendable(r)
    ensures GoodState(first, d, hist + [r], n)
  {
    assert Unsealed(StateGood);
    HistoryGrows(d, hist, r, n);
  }

  lemma OneMoreState(states: seq<Disk>, published: seq<nat>, hist: seq<Record>, d: Disk, n: nat)
    requires |states| == |published| && AllRecoverable(states, published, hist) && Recoverable(d, hist, n)
    requires states != [] ==> published[|states| - 1] <= n && (states[|states| - 1].tail.Whole? ==> d.tail.Whole?)
    ensures AllRecoverable(states + [d], published + [n], hist)
  {
    var s, p := states + [d], published + [n];
    if states != [] {
      RecoverableAt(states, published, hist, |states| - 1);
    }
    GoodMade(s[0], d, hist, n);
    assert forall i: nat | Point(i) && i < |s| :: GoodState(s[0], s[i], hist, p[i]);
    PublishedStep(states, published, hist, n);
  }

  lemma PublishedStep(states: seq<Disk>, published: seq<nat>, hist: seq<Record>, n: nat)
    requires |states| == |published| && AllRecoverable(states, published, hist)
    requires published != [] ==> published[|published| - 1] <= n
    ensures forall i: nat, j: nat {:trigger Point(i), Point(j)} ::
              Point(i) && Point(j) && i < j <= |published| ==> (published + [n])[i] <= (published + [n])[j]
  {
    assert published != [] ==> Point(|published| - 1);
  }

  lemma GoodMade(first: Disk, d: Disk, hist: seq<Record>, n: nat)
    requires Recoverable(d, hist, n) && (first.tail.Whole? ==> d.tail.Whole?)
    ensures GoodState(first, d, hist, n)
  {
  }

  /** The files during one life of the process, from opening to the next crash. */
  class FileStore {
    const sum: Checksum
    ghost const floor: nat  // how many writes the tables covered at the start
    var disk: Disk
    var states: seq<Disk>
    ghost var published: seq<nat>  // published[i]: how many writes the tables of states[i] cover

    /** Every state so far can be recovered, and later states never cover fewer writes. */
    ghost predicate Safe(hist: seq<Record>)
      reads this
    {
      && |states| == |published| > 0 && states[|states| - 1] == disk
      && floor <= published[0] && AllRecoverable(states, published, hist)
    }

    ghost function Published(): nat
      reads this
      requires published != []
    {
      published[|published| - 1]
    }

    /** The store only adds to the states it has been in. */
    ghost predicate Extends(s: seq<Disk>, p: seq<nat>)
      reads this
    {
      s <= states && p <= published
    }

    constructor (sum: Checksum, d: Disk, ghost hist: seq<Record>, ghost n: nat)
      requires Recoverable(d, hist, n)
      ensures this.sum == sum && disk == d && states == [d] && published == [n] && floor == n && Safe(hist)
    {
      this.sum, floor := sum, n;
      disk, states, published := d, [d], [n];
      OneMoreState([], [], hist, d, n);
    }

    /** One atomic file operation, leading to `d`. */
    method Commit(d: Disk, ghost hist: seq<Record>, ghost n: nat)
      requires Safe(hist) && Recoverable(d, hist, n) && Published() <= n && (disk.tail.Whole? ==> d.tail.Whole?)
      modifies this
      ensures disk == d && states == old(states) + [d] && published == old(published) + [n]
      ensures Safe(hist) && Extends(old(states), old(published))
    {
      OneMoreState(states, published, hist, d, n);
      disk, states, published := d, states + [d], published + [n];
    }

    /** Writes the data, index and metadata file of a table the manifest does not list. */
    method WriteTable(id: nat, rs: seq<Record>, ghost hist: seq<Record>)
      requires Safe(hist) && id !in disk.manifest.tables
      modifies this
      ensures Safe(hist) && Published() == old(Published()) && disk.Readable(id) && disk.data[id] == rs
      ensures Extends(old(states), old(published))
      ensures disk == old(disk).(data := disk.data, index := disk.index, meta := disk.meta)
      ensures forall t | t in old(disk).manifest.tables && t in old(disk).data :: t in disk.data && disk.data[t] == old(disk).data[t]
    {
      Replace(disk.(data := disk.data[id := rs]), id, hist);
      Replace(disk.(index := disk.index[id := rs]), id, hist);
      Replace(disk.(meta := disk.meta[id := rs]), id, hist);
    }

    /** Removes the three files of a table the manifest no longer lists. */
    method RemoveTable(id: nat, ghost hist: seq<Record>)
      requires Safe(hist) && id !in disk.manifest.tables
      modifies this
      ensures Safe(hist) && Published() == old(Published()) && Extends(old(states), old(published))
      ensures disk == old(disk).(data := old(disk).data - {id}, index := old(disk).index - {id}, meta := old(disk).meta - {id})
    {
      Replace(disk.(data := disk.data - {id}), id, hist);
      Replace(disk.(index := disk.index - {id}), id, hist);
      Replace(disk.(meta := disk.meta - {id}), id, hist);
    }

    /** One file operation on a table that is not published. */
    method Replace(d: Disk, id: nat, ghost hist: seq<Record>)
      requires Safe(hist) && id !in disk.manifest.tables
      requires d == disk.(data := d.data, index := d.index, meta := d.meta)
      requires d.data - {id} == disk.data - {id} && d.index - {id} == disk.index - {id} && d.meta - {id} == disk.meta - {id}
      modifies this
      ensures disk == d && Safe(hist) && Published() == old(Published()) && Extends(old(states), old(published))
    {
      RecoverableAt(states, published, hist, |states| - 1);
      UnpublishedFile(disk, d, hist, Published(), id);
      Commit(d, hist, Published());
    }

    /** A longer history explains the same states. */
    lemma Extend(hist: seq<Record>, r: Record)
      requires Safe(hist) && Increasing(hist + [r]) && Appendable(r)
      ensures Safe(hist + [r])
    {
      AllHistoryGrows(states, published, hist, r);
    }

    /** Appends one write to the log's buffer. */
    method AppendLog(r: Record, ghost hist: seq<Record>)
      requires Safe(hist) && Increasing(hist + [r]) && Appendable(r) && Published() <= |hist|
      requires Intact(disk) ==> Completes(disk.Log(), hist, Published())
      modifies this
      ensures Safe(hist + [r]) && Published() == old(Published()) && Extends(old(states), old(published))
      ensures disk == old(disk).Appended(r)
    {
      var d := disk.Appended(r);
      assert Recoverable(d, hist + [r], Published()) by {
        RecoverableAt(states, published, hist, |states| - 1);
        LogAppended(disk, hist, r, Published());
      }
      Extend(hist, r);
      Commit(d, hist + [r], Published());
    }

    lemma Publishable(id: nat, m: Manifest, hist: seq<Record>, mem: seq<Record>)
      requires Safe(hist) && disk.Readable(id) && disk.data[id] == Listing(Newest(mem))
      requires Published() <= |hist| && Completes(mem, hist, Published()) && MaxSeq(hist) < m.nextSeq
      requires m.tables == disk.manifest.tables + [id] && m.nextTable >= disk.manifest.nextTable && id < m.nextTable
      ensures Recoverable(disk.(manifest := m), hist, |hist|) && Completes([], hist, |hist|)
    {
      RecoverableAt(states, published, hist, |states| - 1);
      PublishFlush(disk, hist, Published(), mem, id, m);
    }

    /** Publishes the memtable's table; from here on every write is covered by tables. */
    method PublishTable(id: nat, m: Manifest, ghost hist: seq<Record>, ghost mem: seq<Record>)
      requires Safe(hist) && disk.Readable(id) && disk.data[id] == Listing(Newest(mem))
      requires Published() <= |hist| && Completes(mem, hist, Published()) && MaxSeq(hist) < m.nextSeq
      requires m.tables == disk.manifest.tables + [id] && m.nextTable >= disk.manifest.nextTable && id < m.nextTable
      modifies this
      ensures Safe(hist) && Published() == |hist| && disk == old(disk).(manifest := m)
      ensures Completes([], hist, |hist|) && Extends(old(states), old(published))
    {
      Publishable(id, m, hist, mem);
      Commit(disk.(manifest := m), hist, |hist|);
    }

    /** Replaces all published tables by one that holds their newest versions. */
    method PublishMerged(id: nat, m: Manifest, ghost hist: seq<Record>)
      requires Safe(hist) && TablesOk(disk) && disk.Readable(id)
      requires disk.data[id] == Listing(Newest(Scan(disk.data, disk.manifest.tables)))
      requires m.tables == [id] && id < m.nextTable && m.nextSeq >= disk.manifest.nextSeq
      modifies this
      ensures Safe(hist) && Published() == old(Published()) && disk == old(disk).(manifest := m)
      ensures Extends(old(states), old(published))
    {
      RecoverableAt(states, published, hist, |states| - 1);
      PublishCompaction(disk, hist, Published(), id, m);
      Commit(disk.(manifest := m), hist, Published());
    }

    /** Closes the log stream (draining its buffer), removes the file and starts an empty one. */
    method RotateLog(ghost hist: seq<Record>)
      requires Safe(hist) && Published() == |hist|
      modifies this
      ensures Safe(hist) && Published() == |hist| && disk == old(disk).(wal := [], buffered := [], tail := Whole)
      ensures Extends(old(states), old(published))
    {
      DrainLog(hist);
      Removable(hist);
      Commit(disk.(wal := [], buffered := [], tail := Whole), hist, |hist|);
    }

    lemma Removable(hist: seq<Record>)
      requires Safe(hist) && Published() == |hist|
      ensures Recoverable(disk.(wal := [], buffered := [], tail := Whole), hist, |hist|)
    {
      RecoverableAt(states, published, hist, |states| - 1);
      LogRemoved(disk, hist);
    }

    method DrainLog(ghost hist: seq<Record>)
      requires Safe(hist)
      modifies this
      ensures Safe(hist) && Published() == old(Published()) && Extends(old(states), old(published))
      ensures disk == old(disk).Drained(sum) && disk.Log() == old(disk).Log()
    {
      RecoverableAt(states, published, hist, |states| - 1);
      LogDrained(sum, disk, hist, Published());
      Commit(disk.Drained(sum), hist, Published());
    }

    /** Saves a manifest that lists the same tables (closing, or only counters changed). */
    method SaveManifest(m: Manifest, ghost hist: seq<Record>)
      requires Safe(hist) && m.tables == disk.manifest.tables && m.nextTable == disk.manifest.nextTable
      requires m.nextSeq >= disk.manifest.nextSeq
      modifies this
      ensures Safe(hist) && Published() == old(Published()) && disk == old(disk).(manifest := m)
      ensures Extends(old(states), old(published))
    {
      RecoverableAt(states, published, hist, |states| - 1);
      assert disk.(manifest := m).Log() == disk.Log();
      assert TablesOk(disk.(manifest := m)) by {
        assert forall id | id in m.tables :: disk.Readable(id) && id < m.nextTable;
      }
      Commit(disk.(manifest := m), hist, Published());
    }
  }

  /** A crash at the given point, with the given part of the buffer drained. */
  method CrashAt(store: FileStore, ghost hist: seq<Record>, point: nat, kept: nat, cut: nat)
    returns (next: FileStore, ghost j: nat)
    requires store.Safe(hist) && point < |store.states| && store.states[point].CrashPoint(kept, cut)
    ensures fresh(next) && next.sum == store.sum && next.disk == store.states[point].Crashed(store.sum, kept, cut)
    ensures next.floor == store.published[point] && j <= |hist| && Left(next, hist[..j]) && store.floor <= next.floor <= j
    ensures next.disk.tail.Stops(next.sum) ==> Ready(next, hist[..j])
    ensures store.states[0].tail.Whole? || next.disk.tail.Harmless() ==> next.disk.tail.Stops(next.sum)
  {
    var d := store.states[point].Crashed(store.sum, kept, cut);
    j := CrashLeaves(store, hist, point, kept, cut, d);
    next := new FileStore(store.sum, d, hist[..j], store.published[point]);
  }

  lemma CrashLeaves(store: FileStore, hist: seq<Record>, point: nat, kept: nat, cut: nat, d: Disk) returns (j: nat)
    requires store.Safe(hist) && point < |store.states| && store.states[point].CrashPoint(kept, cut)
    requires d == store.states[point].Crashed(store.sum, kept, cut)
    ensures store.floor <= store.published[point] <= j <= |hist| && d.buffered == []
    ensures Recoverable(d, hist[..j], store.published[point])
    ensures Completes(Replayable(d.wal), hist[..j], store.published[point])
    ensures d.tail.Stops(store.sum) ==> Completes(Replayed(store.sum, d.wal, d.tail), hist[..j], store.published[point])
    ensures store.states[0].tail.Whole? || d.tail.Harmless() ==> d.tail.Stops(store.sum)
  {
    var s := store.states[point];
    RecoverableAt(store.states, store.published, hist, point);
    assert Point(0) && Point(point);
    j := CrashKeepsPrefix(store.sum, s, hist, store.published[point], kept, cut);
    if s.tail.Whole? {
      WholeCrashed(store.sum, s, kept, cut);
    } else if d.tail.Harmless() {
      CrashedBuilt(store.sum, s, kept, cut);
      HarmlessStops(store.sum, d.tail);
    }
  }

  /**
   A crash at any point of the store's life, keeping any part of the buffer, down to the byte. The whole records
   that remain stand for a prefix of the history that contains everything published at that point. The store
   can be opened on it if replay stops at the log's tail, which it does unless bytes were appended behind eight
   or more torn ones.
   */
  method Crash(store: FileStore, ghost hist: seq<Record>) returns (next: FileStore, ghost j: nat, point: nat)
    requires store.Safe(hist)
    ensures fresh(next) && next.sum == store.sum && point < |store.states|
    ensures CrashOf(store.sum, store.states[point], next.disk)
    ensures next.floor == store.published[point] && j <= |hist| && Left(next, hist[..j]) && store.floor <= next.floor <= j
    ensures next.disk.tail.Stops(next.sum) ==> Ready(next, hist[..j])
    ensures store.states[0].tail.Whole? || next.disk.tail.Harmless() ==> next.disk.tail.Stops(next.sum)
  {
    point :| 0 <= point < |store.states|;
    assert store.states[point].CrashPoint(0, 0);
    var kept, cut :| store.states[point].CrashPoint(kept, cut);
    next, j := CrashAt(store, hist, point, kept, cut);
  }

  /** `e` is what a crash in the state `d` can leave. */
  ghost predicate CrashOf(sum: Checksum, d: Disk, e: Disk) {
    forall name {:trigger Unsealed(name)} | Unsealed(name) && name == CrashState ::
      exists kept, cut :: d.CrashPoint(kept, cut) && e == d.Crashed(sum, kept, cut)
  }

  /** What a crash leaves: files that stand for this history, up to the log's tail. */
  ghost predicate Left(store: FileStore, hist: seq<Record>)
    reads store
  {
    forall name {:trigger Unsealed(name)} | Unsealed(name) && name == StoreReady ::
      && store.Safe(hist) && store.disk.buffered == [] && store.states == [store.disk]
      && store.Published() == store.floor <= |hist| && Completes(Replayable(store.disk.wal), hist, store.floor)
  }

  /** A store a manager can be opened on: it stands for this history, and replay yields all unpublished writes. */
  ghost predicate Ready(store: FileStore, hist: seq<Record>)
    reads store
  {
    forall name {:trigger Unsealed(name)} | Unsealed(name) && name == StoreReady ::
      && store.Safe(hist) && store.disk.buffered == []
      && store.Published() == store.floor <= |hist|
      && Completes(Replayed(store.sum, store.disk.wal, store.disk.tail), hist, store.floor)
  }

  lemma ReadyFacts(store: FileStore, hist: seq<Record>)
    requires Ready(store, hist)
    ensures store.states != [] && store.floor <= |hist|
  {
    assert Unsealed(StoreReady);
  }

  predicate HasVersion(rs: seq<Record>, r: Record) {
    exists q | q in rs :: q.node == r.node && q.seqId == r.seqId
  }

  function Unique(rs: seq<Record>): seq<Record> {
    if rs == [] then
      []
    else
      var u := Unique(rs[..|rs| - 1]);
      if HasVersion(u, rs[|rs| - 1]) then u else u + [rs[|rs| - 1]]
  }

  lemma {:induction false} UniqueKeepsElements(rs: seq<Record>)
    requires OneVersion(Elements(rs))
    ensures Elements(Unique(rs)) == Elements(rs)
  {
    if rs != [] {
      var t, r := rs[..|rs| - 1], rs[|rs| - 1];
      assert Elements(rs) == Elements(t) + {r};
      UniqueKeepsElements(t);
      var u := Unique(t);
      if HasVersion(u, r) {
        var q :| q in u && q.node == r.node && q.seqId == r.seqId;
        assert q in Elements(u) && q in Elements(rs) && r in Elements(rs);
      } else {
        assert Elements(u + [r]) == Elements(u) + {r};
      }
    }
  }

  method UniqueVersions(rs: seq<Record>) returns (out: seq<Record>)
    ensures out == Unique(rs)
  {
    out := [];
    var i := 0;
    while i < |rs|
      invariant 0 <= i <= |rs|
      invariant out == Unique(rs[..i])
    {
      assert rs[..i + 1][..i] == rs[..i];
      if !HasVersion(out, rs[i]) {
        out := out + [rs[i]];
      }
      i := i + 1;
    }
    assert rs[..i] == rs;
  }

  datatype View = View(live: bool, latest: nat, history: seq<Record>)

  /** Both views answer alike at every sequence the first one knew. */
  ghost predicate SameUpTo(v: View, w: View) {
    v.latest <= w.latest && forall s: nat | s <= v.latest :: VisibleAt(v.history, s) == VisibleAt(w.history, s)
  }

  /** A view whose latest sequence reaches every record shows the newest version of each. */
  lemma ViewIsNewest(rs: seq<Record>, latest: nat)
    requires OneVersion(Elements(rs)) && forall r | r in rs :: r.seqId <= latest
    ensures VisibleAt(Unique(rs), latest) == Newest(rs)
  {
    UniqueKeepsElements(rs);
    var h := Unique(rs);
    UpToElements(h, latest);
    assert Elements(UpTo(h, latest)) == Elements(rs) by {
      forall r
        ensures r in h && r.seqId <= latest <==> r in Elements(rs)
      {
        assert r in h <==> r in Elements(h);
      }
    }
    NewestIsNewest(UpTo(h, latest));
    NewestIsNewest(rs);
    NewestUnique(Newest(UpTo(h, latest)), Newest(rs), Elements(rs));
  }

  lemma AppendKeepsSnapshots(rs: seq<Record>, r: Record, latest: nat)
    requires OneVersion(Elements(rs + [r])) && latest < r.seqId
    ensures SameUpTo(View(true, latest, Unique(rs)), View(true, r.seqId, Unique(rs + [r])))
  {
    assert Elements(rs + [r]) == Elements(rs) + {r};
    UniqueKeepsElements(rs);
    UniqueKeepsElements(rs + [r]);
    forall s: nat | s <= latest
      ensures VisibleAt(Unique(rs), s) == VisibleAt(Unique(rs + [r]), s)
    {
      NewerIsInvisible(Unique(rs), Unique(rs + [r]), r, s);
    }
  }

  lemma NewerIsInvisible(a: seq<Record>, b: seq<Record>, r: Record, s: nat)
    requires Elements(b) == Elements(a) + {r} && OneVersion(Elements(b)) && s < r.seqId
    ensures VisibleAt(a, s) == VisibleAt(b, s)
  {
    forall q: Record | q.seqId <= s
      ensures q in a <==> q in b
    {
      assert q in Elements(b) <==> q in Elements(a) || q == r;
    }
    VisibleAtAgrees(a, b, s);
  }

  lemma {:induction false} NewestEmpty(rs: seq<Record>)
    ensures Newest(rs) == map[] <==> rs == []
  {
    if rs != [] {
      assert rs[|rs| - 1].node in Newest(rs);
    }
  }

  lemma {:induction false} MaxSeqBounds(rs: seq<Record>, r: Record)
    requires r in rs
    ensures r.seqId <= MaxSeq(rs)
  {
    var t := rs[..|rs| - 1];
    if r in t {
      MaxSeqBounds(t, r);
    }
  }

  lemma MaxSeqStep(rs: seq<Record>, r: Record)
    ensures MaxSeq(rs + [r]) == if MaxSeq(rs) < r.seqId then r.seqId else MaxSeq(rs)
  {
    assert (rs + [r])[..|rs|] == rs;
  }

  /** Every record of `rs` is a write of `hist`. */
  ghost predicate DrawnFrom(rs: seq<Record>, hist: seq<Record>) {
    rs == [] || (rs[|rs| - 1] in hist && DrawnFrom(rs[..|rs| - 1], hist))
  }

  lemma {:induction false} DrawnFromSubset(rs: seq<Record>, hist: seq<Record>)
    ensures DrawnFrom(rs, hist) <==> Elements(rs) <= Elements(hist)
  {
    if rs != [] {
      var t, r := rs[..|rs| - 1], rs[|rs| - 1];
      DrawnFromSubset(t, hist);
      assert Elements(rs) == Elements(t) + {r};
      assert r in Elements(rs);
    }
  }

  lemma DrawnFromStep(rs: seq<Record>, hist: seq<Record>, r: Record)
    requires DrawnFrom(rs, hist)
    ensures DrawnFrom(rs + [r], hist + [r])
  {
    DrawnFromSubset(rs, hist);
    DrawnFromSubset(rs + [r], hist + [r]);
    ElementsConcat(rs, [r]);
    ElementsConcat(hist, [r]);
  }

  /** The loop over `scan_all` of every table, in `open` and in `CompactionJob::run`. */
  method LoadTables(d: Disk) returns (loaded: seq<Record>)
    requires TablesOk(d)
    ensures loaded == Scan(d.data, d.manifest.tables)
  {
    var ids := d.manifest.tables;
    assert forall id | id in ids :: id in d.data by {
      forall id | id in ids ensures id in d.data { assert d.Readable(id); }
    }
    loaded := [];
    var i := 0;
    while i < |ids|
      invariant 0 <= i <= |ids|
      invariant loaded == Scan(d.data, ids[..i])
    {
      assert ids[..i + 1][..i] == ids[..i] && ids[i] in ids;
      var scanned := ScanTable(d.data[ids[i]]);
      loaded := loaded + scanned;
      i := i + 1;
    }
    assert ids[..i] == ids;
  }

  /** `scan_all` on the record level: what cannot be read is passed over. */
  method ScanTable(rs: seq<Record>) returns (out: seq<Record>)
    ensures out == Fitting(rs)
  {
    out := [];
    for i := 0 to |rs|
      invariant out == Fitting(rs[..i])
    {
      assert rs[..i + 1][..i] == rs[..i];
      if Fits(rs[i]) {
        out := out + [rs[i]];
      }
    }
    assert rs[..|rs|] == rs;
  }

  /** `replay` on the record level: it stops at the first record it cannot read; the tail is read byte by byte. */
  method ReplayLog(sum: Checksum, log: seq<Record>, tail: Tail) returns (out: seq<Record>)
    ensures out == Replayed(sum, log, tail)
  {
    out := [];
    var rest := log;
    ghost var more := Parse(sum, tail.Bytes(sum));
    while rest != [] && Fits(rest[0])
      invariant Continued(log, more) == out + Continued(rest, more)
      decreases |rest|
    {
      ContinuedStep(out, rest, more);
      out, rest := out + [rest[0]], rest[1..];
    }
    ReplayedIs(sum, log, tail);
    ContinuedStep(out, rest, more);
    if rest == [] {
      var behind := Replay(sum, tail.Bytes(sum));
      out := out + behind;
    }
  }

  /** The insert loop of `open`: `MemTable::insert` ignores a record that is not newer. */
  method FillMemtable(log: seq<Record>) returns (memtable: map<nat, Record>)
    ensures memtable == Newest(log)
  {
    memtable := map[];
    var i := 0;
    while i < |log|
      invariant 0 <= i <= |log|
      invariant memtable == Newest(log[..i])
    {
      assert log[..i + 1][..i] == log[..i];
      memtable := Keep(memtable, log[i]);
      i := i + 1;
    }
    assert log[..i] == log;
  }

  /** Published writes are below the manifest's counter, and the others are in the log. */
  lemma {:induction false} SeqBound(log: seq<Record>, hist: seq<Record>, n: nat, next: nat, bound: nat)
    requires n <= |hist| && bound <= |hist| && Elements(hist) <= Elements(hist[..n]) + Elements(log)
    requires (n > 0 ==> MaxSeq(hist[..n]) < next) && MaxSeq(log) < next
    ensures MaxSeq(hist[..bound]) < next
    decreases bound
  {
    if bound > 0 {
      SeqBound(log, hist, n, next, bound - 1);
      var r := hist[bound - 1];
      assert r in Elements(hist);
      if r in hist[..n] {
        MaxSeqBounds(hist[..n], r);
      } else {
        assert r in Elements(log);
        MaxSeqBounds(log, r);
      }
      assert hist[..bound][..bound - 1] == hist[..bound - 1];
    }
  }

  function Later(a: nat, b: nat): nat {
    if a < b then b else a
  }

  /** The counter after opening: above every record of the tables, readable or not, and every replayed one. */
  ghost function NextSequence(sum: Checksum, d: Disk): nat
    requires forall id | id in d.manifest.tables :: id in d.data
  {
    var scanned := Later(MaxSeq(Stored(d.data, d.manifest.tables)), MaxSeq(Scan(d.data, d.manifest.tables)));
    Later(d.manifest.nextSeq, Later(scanned, MaxSeq(Replayed(sum, d.wal, d.tail))) + 1)
  }

  /** That is the smallest counter above the manifest's and above every stored and replayed record. */
  lemma NextSequenceIsLeast(sum: Checksum, d: Disk)
    requires forall id | id in d.manifest.tables :: id in d.data
    ensures var next := NextSequence(sum, d);
            var seen := Elements(Stored(d.data, d.manifest.tables)) + Elements(Replayed(sum, d.wal, d.tail));
            && next >= d.manifest.nextSeq && next >= 1 && (forall r | r in seen :: r.seqId < next)
            && (next == d.manifest.nextSeq || next == 1 || exists r | r in seen :: r.seqId + 1 == next)
  {
    var all, scanned, log := Stored(d.data, d.manifest.tables), Scan(d.data, d.manifest.tables), Replayed(sum, d.wal, d.tail);
    ScanIsFitting(d.data, d.manifest.tables);
    MaxSeqIs(all);
    MaxSeqIs(scanned);
    MaxSeqIs(log);
    if MaxSeq(scanned) > 0 {
      var r :| r in Elements(scanned) && r.seqId == MaxSeq(scanned);
      assert r in Elements(all);
    }
  }

  lemma {:induction false} MaxSeqIs(rs: seq<Record>)
    ensures forall r | r in Elements(rs) :: r.seqId <= MaxSeq(rs)
    ensures MaxSeq(rs) == 0 || exists r | r in Elements(rs) :: r.seqId == MaxSeq(rs)
  {
    if rs != [] {
      var rest, last := rs[..|rs| - 1], rs[|rs| - 1];
      MaxSeqIs(rest);
      assert Elements(rs) == Elements(rest) + {last};
    }
  }

  /** The readable records of tables and log, and a sequence id above all of them and above the manifest's. */
  method ReadFiles(store: FileStore, ghost hist: seq<Record>) returns (loaded: seq<Record>, mem: seq<Record>, next: nat)
    requires store.Safe(hist) && store.Published() <= |hist|
    requires Completes(Replayed(store.sum, store.disk.wal, store.disk.tail), hist, store.Published())
    ensures mem == Replayed(store.sum, store.disk.wal, store.disk.tail) && StandsFor(loaded, hist)
    ensures (forall id | id in store.disk.manifest.tables :: id in store.disk.data)
            && loaded == Recovered(store.sum, store.disk) && next == NextSequence(store.sum, store.disk)
    ensures MaxSeq(hist) < next && store.disk.manifest.nextSeq <= next
  {
    var d := store.disk;
    RecoverableAt(store.states, store.published, hist, |store.states| - 1);
    var scanned := LoadTables(d);
    mem := ReplayLog(store.sum, d.wal, d.tail);
    loaded := scanned + mem;
    LoadedStands(store.sum, d, hist, store.Published());
    assert forall id | id in d.manifest.tables :: d.Readable(id);
    next := Later(d.manifest.nextSeq, Later(Later(MaxSeq(Stored(d.data, d.manifest.tables)), MaxSeq(scanned)), MaxSeq(mem)) + 1);
    NextIsAbove(store.sum, d, hist, store.Published());
  }

  lemma NextIsAbove(sum: Checksum, d: Disk, hist: seq<Record>, n: nat)
    requires Recoverable(d, hist, n) && Completes(Replayed(sum, d.wal, d.tail), hist, n)
    ensures (forall id | id in d.manifest.tables :: id in d.data) && MaxSeq(hist) < NextSequence(sum, d)
  {
    assert forall id | id in d.manifest.tables :: d.Readable(id);
    CompletesElements(Replayed(sum, d.wal, d.tail), hist, n);
    SeqBound(Replayed(sum, d.wal, d.tail), hist, n, NextSequence(sum, d), |hist|);
    assert hist[..|hist|] == hist;
  }

  lemma LoadedStands(sum: Checksum, d: Disk, hist: seq<Record>, n: nat)
    requires Recoverable(d, hist, n) && Completes(Replayed(sum, d.wal, d.tail), hist, n)
    ensures StandsFor(Recovered(sum, d), hist)
  {
    LoadedCovers(sum, d, hist, n);
    DrawnFromSubset(Recovered(sum, d), hist);
    forall node
      ensures SameAt(Newest(Recovered(sum, d)), Newest(hist), node) <==> Shown(Newest(hist), node)
    {
      LoadedIsNewest(sum, d, hist, n, node);
    }
  }

  /** The loaded records show exactly the nodes whose newest version is not too large. */
  ghost predicate StandsFor(loaded: seq<Record>, start: seq<Record>) {
    DrawnFrom(loaded, start)
    && forall node :: SameAt(Newest(loaded), Newest(start), node) <==> Shown(Newest(start), node)
  }

  // ---- The manager ----

  /** What the writer keeps in memory, under its lock. */
  datatype Writer = Writer(manifest: Manifest, memtable: map<nat, Record>, recent: seq<Record>)

  /**
   The account the proofs keep: every write that survived so far, how many of them the published
   tables cover, the records the memtable was filled with, and what `open` found.
   */
  datatype Book = Book(history: seq<Record>, flushed: nat, mem: seq<Record>, start: seq<Record>, loaded: seq<Record>)

  ghost predicate Consistent(w: Writer, b: Book) {
    && b.flushed <= |b.history| && Completes(b.mem, b.history, b.flushed)
    && w.memtable == Newest(b.mem)
    && MaxSeq(b.history) < w.manifest.nextSeq
    && b.start <= b.history && w.recent == b.loaded + b.history[|b.start|..]
    && StandsFor(b.loaded, b.start)
  }

  /**
   The manager and the manifest on disk agree on the tables. The log holds what the memtable was filled with,
   unless replay stops before its end.
   */
  ghost predicate SameFiles(m: Manifest, disk: Disk, log: seq<Record>) {
    && m.tables == disk.manifest.tables && m.nextTable == disk.manifest.nextTable
    && m.nextSeq >= disk.manifest.nextSeq
    && (Intact(disk) ==> disk.Log() == log)
  }

  function ViewOf(w: Writer): View {
    View(true, if w.manifest.nextSeq == 0 then 0 else w.manifest.nextSeq - 1, Unique(w.recent))
  }

  function Appended(w: Writer, r: Record): Writer {
    Writer(w.manifest.(nextSeq := w.manifest.nextSeq + 1), Keep(w.memtable, r), w.recent + [r])
  }

  ghost function Booked(b: Book, r: Record): Book {
    b.(history := b.history + [r], mem := b.mem + [r])
  }

  /** The node's newest version could be read back at the start, or the node was written since. */
  predicate Seen(start: seq<Record>, since: seq<Record>, node: nat) {
    Shown(Newest(start), node) || exists r | r in since :: r.node == node
  }

  /** The recent records show exactly the nodes that are seen. */
  lemma {:induction false} RecentStandsFor(loaded: seq<Record>, start: seq<Record>, hist: seq<Record>, node: nat)
    requires StandsFor(loaded, start) && start <= hist && Increasing(hist)
    ensures DrawnFrom(loaded + hist[|start|..], hist)
    ensures SameAt(Newest(loaded + hist[|start|..]), Newest(hist), node) <==> Seen(start, hist[|start|..], node)
    decreases |hist|
  {
    if hist == start {
      assert loaded + hist[|start|..] == loaded;
    } else {
      var n := |hist| - 1;
      IncreasingPrefix(hist, n);
      RecentStandsFor(loaded, start, hist[..n], node);
      LastSince(loaded, start, hist);
      var since := hist[..n][|start|..];
      DrawnFromStep(loaded + since, hist[..n], hist[n]);
      NewestOfAll(loaded + since, hist[..n], hist[n]);
      StillSame(loaded + since, hist[..n], hist[n], node);
      SeenStep(start, since, hist[n], node);
    }
  }

  lemma LastSince(loaded: seq<Record>, start: seq<Record>, hist: seq<Record>)
    requires start <= hist && start != hist
    ensures var n := |hist| - 1;
            && start <= hist[..n] && hist == hist[..n] + [hist[n]]
            && hist[|start|..] == hist[..n][|start|..] + [hist[n]]
            && loaded + hist[|start|..] == (loaded + hist[..n][|start|..]) + [hist[n]]
  {
  }

  lemma SeenStep(start: seq<Record>, since: seq<Record>, r: Record, node: nat)
    ensures Seen(start, since + [r], node) <==> Seen(start, since, node) || r.node == node
  {
    if r.node == node {
      assert r in since + [r];
    }
  }

  /** A write is newer than everything before it. */
  lemma NewestOfAll(recent: seq<Record>, hist: seq<Record>, r: Record)
    requires DrawnFrom(recent, hist) && Increasing(hist + [r])
    ensures Keep(Newest(recent), r) == Newest(recent)[r.node := r] && Keep(Newest(hist), r) == Newest(hist)[r.node := r]
  {
    NewestIsNewest(recent);
    NewestIsNewest(hist);
    DrawnFromSubset(recent, hist);
    forall q | q in Elements(hist)
      ensures q.seqId < r.seqId
    {
      var i :| 0 <= i < |hist| && hist[i] == q;
      IncreasingPairs(hist + [r], i, |hist|);
    }
  }

  lemma StillSame(a: seq<Record>, b: seq<Record>, r: Record, node: nat)
    requires Keep(Newest(a), r) == Newest(a)[r.node := r] && Keep(Newest(b), r) == Newest(b)[r.node := r]
    ensures SameAt(Newest(a + [r]), Newest(b + [r]), node) <==> SameAt(Newest(a), Newest(b), node) || r.node == node
  {
    NewestStep(a, r);
    NewestStep(b, r);
  }

  /** One write keeps the invariant. */
  lemma WriteKeeps(w: Writer, b: Book, r: Record)
    requires Consistent(w, b) && r.seqId == w.manifest.nextSeq
    ensures Consistent(Appended(w, r), Booked(b, r))
  {
    NewestStep(b.mem, r);
    MaxSeqStep(b.history, r);
    CompletesGrows(b.mem, b.history, r, b.flushed);
    assert (b.history + [r])[|b.start|..] == b.history[|b.start|..] + [r];
    assert w.recent + [r] == b.loaded + (b.history + [r])[|b.start|..];
  }

  /** One write leaves every older snapshot as it was. */
  lemma WriteKeepsSnapshots(w: Writer, b: Book, r: Record)
    requires Consistent(w, b) && Increasing(b.history + [r]) && r.seqId == w.manifest.nextSeq
    ensures SameUpTo(ViewOf(w), ViewOf(Appended(w, r)))
  {
    IncreasingPrefix(b.history + [r], |b.history|);
    assert (b.history + [r])[..|b.history|] == b.history;
    RecentStandsFor(b.loaded, b.start, b.history, 0);
    DrawnFromStep(w.recent, b.history, r);
    DrawnFromSubset(w.recent + [r], b.history + [r]);
    IncreasingOneVersion(b.history + [r]);
    AppendKeepsSnapshots(w.recent, r, w.manifest.nextSeq - 1);
  }

  /**
   Reading at the latest sequence shows the newest version of a node, tombstones included, if and only if that
   version could be read back when the manager was opened or was written since.
   */
  lemma ReadsSeeAllWrites(w: Writer, b: Book, node: nat)
    requires Consistent(w, b) && Increasing(b.history)
    ensures SameAt(VisibleAt(ViewOf(w).history, ViewOf(w).latest), Newest(b.history), node) <==>
            Seen(b.start, b.history[|b.start|..], node)
  {
    IncreasingOneVersion(b.history);
    RecentStandsFor(b.loaded, b.start, b.history, node);
    DrawnFromSubset(w.recent, b.history);
    forall r | r in w.recent
      ensures r.seqId <= ViewOf(w).latest
    {
      assert r in Elements(w.recent) && r in b.history;
      MaxSeqBounds(b.history, r);
    }
    ViewIsNewest(w.recent, ViewOf(w).latest);
  }

  class DynamicWriteManager {
    const store: FileStore
    const autoFlush: bool
    var isOpen: bool
    var writer: Writer
    var view: View
    var latestSequence: nat
    ghost var book: Book

    /** Files and writer memory agree with the account. */
    ghost predicate Sound()
      reads this`writer, this`book, store
    {
      forall name {:trigger Unsealed(name)} | Unsealed(name) && name == ManagerSound ::
        && store.Safe(book.history) && store.Published() == book.flushed
        && SameFiles(writer.manifest, store.disk, book.mem)
        && Consistent(writer, book)
    }

    ghost predicate Valid()
      reads this, store
    {
      isOpen && Sound() && view == ViewOf(writer) && latestSequence == view.latest
    }

    constructor (store: FileStore, autoFlush: bool)
      ensures !isOpen && this.store == store && this.autoFlush == autoFlush
    {
      this.store, this.autoFlush := store, autoFlush;
      isOpen, writer := false, Writer(Manifest(1, 1, []), map[], []);
      view, latestSequence := View(false, 0, []), 0;
      book := Book([], 0, [], [], []);
    }

    /** Publishes an immutable view, and only then the sequence up to which it may be read. */
    method Publish()
      modifies this`view, this`latestSequence
      ensures view == ViewOf(writer).(live := isOpen) && latestSequence == view.latest
    {
      var unique := UniqueVersions(writer.recent);
      view := View(isOpen, if writer.manifest.nextSeq == 0 then 0 else writer.manifest.nextSeq - 1, unique);
      latestSequence := view.latest;
    }

    /**
     Opening a store: tables are scanned, then the log is replayed into the memtable. Readers see the newest
     version of a node in the history the files stand for if and only if that version is not too large to be
     read back; the next sequence id lies above every recovered one.
     */
    method Open(ghost hist: seq<Record>)
      requires !isOpen && store.Safe(hist) && store.disk.buffered == [] && store.Published() <= |hist|
      requires Completes(Replayed(store.sum, store.disk.wal, store.disk.tail), hist, store.Published())
      modifies this
      ensures Valid() && book.history == hist && book.flushed == store.Published()
      ensures forall node ::
                SameAt(VisibleAt(view.history, latestSequence), Newest(hist), node) <==> Shown(Newest(hist), node)
      ensures VisibleAt(view.history, latestSequence) == Newest(hist) <==>
              forall node | node in Newest(hist) :: Fits(Newest(hist)[node])
      ensures (forall id | id in store.disk.manifest.tables :: id in store.disk.data)
              && view.history == Unique(Recovered(store.sum, store.disk))
              && writer.manifest.nextSeq == NextSequence(store.sum, store.disk)
      ensures forall r | r in hist :: r.seqId < writer.manifest.nextSeq
    {
      LoadWriter(hist);
      isOpen := true;
      Publish();
      ViewAfterOpen(this);
    }

    /** The writer's memory after reading the files: their tables' records, then the log in the memtable. */
    method LoadWriter(ghost hist: seq<Record>)
      requires store.Safe(hist) && store.disk.buffered == [] && store.Published() <= |hist|
      requires Completes(Replayed(store.sum, store.disk.wal, store.disk.tail), hist, store.Published())
      modifies this`writer, this`book
      ensures Sound() && book.history == hist && book.flushed == store.Published() && book.start == hist
      ensures (forall id | id in store.disk.manifest.tables :: id in store.disk.data)
              && writer.recent == Recovered(store.sum, store.disk)
              && writer.manifest.nextSeq == NextSequence(store.sum, store.disk)
    {
      var loaded, mem, next := ReadFiles(store, hist);
      var filled := FillMemtable(mem);
      writer := Writer(store.disk.manifest.(nextSeq := next), filled, loaded);
      book := Book(hist, store.Published(), mem, hist, loaded);
      WholeLog(store.sum, store.disk);
    }

    /** Log, memtable, history and view take the record; snapshots at older sequences do not change. */
    method WriteRecord(r: Record)
      requires Valid() && r.seqId == writer.manifest.nextSeq && Appendable(r)
      modifies this, store
      ensures Valid() && book == Booked(old(book), r) && writer == Appended(old(writer), r)
      ensures SameUpTo(old(view), view) && store.Extends(old(store.states), old(store.published))
      ensures store.disk == old(store.disk).Appended(r)
    {
      assert Unsealed(ManagerSound);
      SnapshotsStable(store, writer, book, r);
      StoreAndPublish(r);
    }

    method StoreAndPublish(r: Record)
      requires Valid() && r.seqId == writer.manifest.nextSeq && Appendable(r)
      modifies this, store
      ensures Valid() && book == Booked(old(book), r) && writer == Appended(old(writer), r)
      ensures store.Extends(old(store.states), old(store.published))
      ensures store.disk == old(store.disk).Appended(r)
    {
      StoreRecord(r);
      Publish();
    }

    method StoreRecord(r: Record)
      requires Sound() && r.seqId == writer.manifest.nextSeq && Appendable(r)
      modifies this`writer, this`book, store
      ensures Sound() && book == Booked(old(book), r) && writer == Appended(old(writer), r)
      ensures store.Extends(old(store.states), old(store.published))
      ensures store.disk == old(store.disk).Appended(r)
    {
      WritePrepared(r);
      AppendLogFor(r);
      writer := Appended(writer, r);
      book := Booked(book, r);
    }

    /** What storing the next record relies on. */
    lemma WritePrepared(r: Record)
      requires Sound() && r.seqId == writer.manifest.nextSeq
      ensures store.Safe(book.history) && store.Published() == book.flushed <= |book.history|
      ensures SameFiles(writer.manifest, store.disk, book.mem) && Increasing(book.history + [r])
      ensures Intact(store.disk) ==> Completes(store.disk.Log(), book.history, book.flushed)
      ensures Consistent(Appended(writer, r), Booked(book, r))
    {
      assert Unsealed(ManagerSound);
      HistoryAppend(store, book, writer, r);
      WriteKeeps(writer, book, r);
      LogOfBook(store.disk, writer, book);
    }

    method AppendLogFor(r: Record)
      requires store.Safe(book.history) && store.Published() == book.flushed <= |book.history|
      requires SameFiles(writer.manifest, store.disk, book.mem) && Increasing(book.history + [r]) && Appendable(r)
      requires Intact(store.disk) ==> Completes(store.disk.Log(), book.history, book.flushed)
      modifies store
      ensures store.Safe(book.history + [r]) && store.Published() == book.flushed
      ensures SameFiles(Appended(writer, r).manifest, store.disk, book.mem + [r])
      ensures store.Extends(old(store.states), old(store.published))
      ensures store.disk == old(store.disk).Appended(r)
    {
      AppendSameFiles(writer.manifest, store.disk, book.mem, r);
      store.AppendLog(r, book.history);
    }

    /** Inserts or updates a node; the neighbours come from the incremental neighbour selection. */
    method Insert(node: nat, vector: seq<nat>, neighbors: seq<nat>) returns (ok: bool)
      requires isOpen ==> Valid()
      modifies this, store
      ensures isOpen == old(isOpen) && (isOpen ==> Valid())
      ensures var r := Record(old(writer).manifest.nextSeq, node, |vector|, vector, neighbors, false);
              && (ok <==> isOpen && vector != [] && Appendable(r))
              && book.history == if ok then old(book).history + [r] else old(book).history
      ensures ok ==> SameUpTo(old(view), view)
      ensures !ok ==> view == old(view)
      ensures writer.manifest.nextSeq == old(writer).manifest.nextSeq + if ok then 1 else 0
      ensures store.Extends(old(store.states), old(store.published))
      ensures ok && !autoFlush ==>
                var r := Record(old(writer).manifest.nextSeq, node, |vector|, vector, neighbors, false);
                store.disk == old(store.disk).Appended(r)
    {
      if vector == [] || !isOpen {
        return false;
      }
      ok := Append(Record(writer.manifest.nextSeq, node, |vector|, vector, neighbors, false));
    }

    /** Writes a tombstone. */
    method Erase(node: nat) returns (ok: bool)
      requires isOpen ==> Valid()
      modifies this, store
      ensures isOpen == old(isOpen) && (isOpen ==> Valid()) && ok == isOpen
      ensures book.history ==
              if ok then old(book).history + [Record(old(writer).manifest.nextSeq, node, 0, [], [], true)] else old(book).history
      ensures ok ==> SameUpTo(old(view), view)
      ensures !ok ==> view == old(view)
      ensures writer.manifest.nextSeq == old(writer).manifest.nextSeq + if ok then 1 else 0
      ensures store.Extends(old(store.states), old(store.published))
      ensures ok && !autoFlush ==>
                var r := Record(old(writer).manifest.nextSeq, node, 0, [], [], true);
                store.disk == old(store.disk).Appended(r)
    {
      if !isOpen {
        return false;
      }
      ok := Append(Record(writer.manifest.nextSeq, node, 0, [], [], true));
    }

    /** A record of a shape the log refuses is rejected; otherwise it is written, and may trigger a flush. */
    method Append(r: Record) returns (ok: bool)
      requires Valid() && r.seqId == writer.manifest.nextSeq
      modifies this, store
      ensures Valid() && (ok <==> Appendable(r))
      ensures book.history == if ok then old(book).history + [r] else old(book).history
      ensures ok ==> SameUpTo(old(view), view)
      ensures !ok ==> view == old(view)
      ensures writer.manifest.nextSeq == old(writer).manifest.nextSeq + if ok then 1 else 0
      ensures store.Extends(old(store.states), old(store.published))
      ensures ok && !autoFlush ==> store.disk == old(store.disk).Appended(r)
    {
      ok := Appendable(r);
      if !ok {
        return;
      }
      WriteRecord(r);
      var memtableFull: bool := *;
      if autoFlush && memtableFull {
        Flush();
      }
    }

    /**
     Flush: the memtable becomes a table, the table is published, the log is rotated. Afterwards every
     write is covered by published tables, and readers notice nothing.
     */
    method Flush()
      requires Valid()
      modifies this, store
      ensures Valid() && book.history == old(book).history && book.flushed == |book.history| && view == old(view)
      ensures writer.manifest.nextSeq == old(writer).manifest.nextSeq
      ensures store.published != [] && store.Published() == |book.history|
      ensures store.Extends(old(store.states), old(store.published))
    {
      assert Unsealed(ManagerSound);
      if writer.memtable == map[] {
        NothingToFlush(book);
        return;
      }
      var next := FlushTable(store, writer.manifest, writer.memtable, book.history, book.mem);
      writer := Writer(next, map[], writer.recent);
      book := book.(flushed := |book.history|, mem := []);
    }

    /** Compaction: all tables are replaced by one holding their newest versions; nothing visible changes. */
    method Compact() returns (done: bool)
      requires isOpen ==> Valid()
      modifies this, store
      ensures isOpen == old(isOpen) && (isOpen ==> Valid())
      ensures done <==> isOpen && |old(writer).manifest.tables| >= 2
      ensures book == old(book) && view == old(view)
      ensures done ==> |writer.manifest.tables| == 1
      ensures done ==> forall id | id in old(writer).manifest.tables :: NoFiles(store.disk, id)
      ensures writer.manifest.nextSeq == old(writer).manifest.nextSeq
      ensures store.Extends(old(store.states), old(store.published))
    {
      assert Unsealed(ManagerSound);
      if !isOpen || |writer.manifest.tables| < 2 {
        return false;
      }
      var next := CompactTables(store, writer.manifest, book.history);
      writer := writer.(manifest := next);
      done := true;
    }

    /** Saves the manifest, drains and closes the log; readers then find no open view. */
    method Close()
      requires isOpen ==> Valid()
      modifies this, store
      ensures !isOpen && !view.live && book == old(book)
      ensures old(isOpen) ==> store.Safe(book.history) && store.disk.buffered == []
      ensures old(isOpen) && Intact(store.disk) ==> store.disk.wal == book.mem
    {
      assert Unsealed(ManagerSound);
      if isOpen {
        store.SaveManifest(writer.manifest, book.history);
        store.DrainLog(book.history);
        assert store.disk.Log() == store.disk.wal;
      }
      isOpen := false;
      Publish();
    }
  }

  /** What a reader of an open manager sees now. */
  lemma ReaderSees(m: DynamicWriteManager)
    requires m.Valid()
    ensures |m.book.start| <= |m.book.history|
    ensures KeyedByNode(VisibleAt(m.view.history, m.latestSequence))
    ensures forall node :: SameAt(VisibleAt(m.view.history, m.latestSequence), Newest(m.book.history), node) <==>
              Seen(m.book.start, m.book.history[|m.book.start|..], node)
  {
    assert Unsealed(ManagerSound);
    HistoryIncreasing(m.store, m.book.history);
    VisibleAtIsNewest(m.view.history, m.latestSequence);
    forall node
      ensures SameAt(VisibleAt(m.view.history, m.latestSequence), Newest(m.book.history), node) <==>
              Seen(m.book.start, m.book.history[|m.book.start|..], node)
    {
      ReadsSeeAllWrites(m.writer, m.book, node);
    }
  }

  lemma NothingToFlush(b: Book)
    requires b.flushed <= |b.history| && Completes(b.mem, b.history, b.flushed) && Newest(b.mem) == map[]
    ensures b.flushed == |b.history|
  {
    NewestEmpty(b.mem);
  }

  /** The next table id is not in use. */
  lemma UnusedId(store: FileStore, hist: seq<Record>, id: nat)
    requires store.Safe(hist) && id == store.disk.manifest.nextTable
    ensures TablesOk(store.disk) && id !in store.disk.manifest.tables
  {
    RecoverableAt(store.states, store.published, hist, |store.states| - 1);
  }

  /** The file operations of a flush, in order: three table files, the manifest, the log. */
  method FlushTable(
    store: FileStore, m: Manifest, memtable: map<nat, Record>, ghost hist: seq<Record>, ghost mem: seq<Record>)
    returns (next: Manifest)
    requires store.Safe(hist) && SameFiles(m, store.disk, mem) && memtable == Newest(mem)
    requires store.Published() <= |hist| && Completes(mem, hist, store.Published()) && MaxSeq(hist) < m.nextSeq
    modifies store
    ensures next == m.(tables := m.tables + [m.nextTable], nextTable := m.nextTable + 1)
    ensures store.Safe(hist) && store.Published() == |hist| && SameFiles(next, store.disk, [])
    ensures store.Extends(old(store.states), old(store.published))
    ensures Completes([], hist, |hist|)
  {
    var id := m.nextTable;
    UnusedId(store, hist, id);
    store.WriteTable(id, Listing(memtable), hist);
    next := m.(tables := m.tables + [id], nextTable := id + 1);
    store.PublishTable(id, next, hist, mem);
    store.RotateLog(hist);
  }

  /** The file operations of a compaction: the merged table, the manifest, then the removals. */
  method CompactTables(store: FileStore, m: Manifest, ghost hist: seq<Record>) returns (next: Manifest)
    requires store.Safe(hist) && SameFiles(m, store.disk, store.disk.Log())
    modifies store
    ensures next == m.(tables := [m.nextTable], nextTable := m.nextTable + 1)
    ensures store.Safe(hist) && store.Published() == old(store.Published())
    ensures SameFiles(next, store.disk, store.disk.Log()) && store.disk.Log() == old(store.disk).Log()
    ensures forall id | id in m.tables :: NoFiles(store.disk, id)
    ensures store.disk.tail == old(store.disk).tail
    ensures store.Extends(old(store.states), old(store.published))
  {
    var id := m.nextTable;
    UnusedId(store, hist, id);
    MergeTables(store, id, hist);
    next := m.(tables := [id], nextTable := id + 1);
    store.PublishMerged(id, next, hist);
    RemoveTables(store, m.tables, hist);
  }

  /** `CompactionJob::run`: one table with the newest version of every node of the published tables. */
  method MergeTables(store: FileStore, id: nat, ghost hist: seq<Record>)
    requires store.Safe(hist) && id == store.disk.manifest.nextTable
    modifies store
    ensures store.Safe(hist) && store.Published() == old(store.Published())
    ensures store.Extends(old(store.states), old(store.published))
    ensures store.disk.manifest == old(store.disk).manifest && store.disk.Log() == old(store.disk).Log()
    ensures store.disk.tail == old(store.disk).tail
    ensures TablesOk(store.disk) && store.disk.Readable(id)
    ensures store.disk.data[id] == Listing(Newest(Scan(store.disk.data, store.disk.manifest.tables)))
  {
    UnusedId(store, hist, id);
    ghost var before := store.disk;
    assert forall t | t in before.manifest.tables :: before.Readable(t);
    var records := LoadTables(store.disk);
    store.WriteTable(id, Listing(Newest(records)), hist);
    UnusedId(store, hist, id);
    ScanFrame(before.data, store.disk.data, before.manifest.tables);
  }

  /** Nothing is left of the table. */
  ghost predicate NoFiles(d: Disk, id: nat) {
    id !in d.data && id !in d.index && id !in d.meta
  }

  /** Removes the files of tables the manifest no longer lists. */
  method RemoveTables(store: FileStore, ids: seq<nat>, ghost hist: seq<Record>)
    requires store.Safe(hist) && forall id | id in ids :: id !in store.disk.manifest.tables
    modifies store
    ensures store.Safe(hist) && store.Published() == old(store.Published())
    ensures store.Extends(old(store.states), old(store.published))
    ensures store.disk.manifest == old(store.disk).manifest && store.disk.Log() == old(store.disk).Log()
    ensures store.disk.tail == old(store.disk).tail
    ensures forall id | id in ids :: NoFiles(store.disk, id)
  {
    var i := 0;
    while i < |ids|
      invariant 0 <= i <= |ids|
      invariant store.Safe(hist) && store.Published() == old(store.Published())
      invariant store.Extends(old(store.states), old(store.published))
      invariant store.disk.manifest == old(store.disk).manifest && store.disk.Log() == old(store.disk).Log()
      invariant store.disk.tail == old(store.disk).tail
      invariant forall k | 0 <= k < i :: NoFiles(store.disk, ids[k])
    {
      assert ids[i] in ids;
      store.RemoveTable(ids[i], hist);
      i := i + 1;
    }
  }

  lemma SnapshotsStable(store: FileStore, w: Writer, b: Book, r: Record)
    requires store.Safe(b.history) && Consistent(w, b) && r.seqId == w.manifest.nextSeq
    ensures SameUpTo(ViewOf(w), ViewOf(Appended(w, r)))
  {
    HistoryAppend(store, b, w, r);
    WriteKeepsSnapshots(w, b, r);
  }

  lemma HistoryAppend(store: FileStore, b: Book, w: Writer, r: Record)
    requires store.Safe(b.history) && Consistent(w, b) && r.seqId == w.manifest.nextSeq
    ensures Increasing(b.history + [r])
  {
    HistoryIncreasing(store, b.history);
    forall q | q in b.history
      ensures q.seqId < r.seqId
    {
      MaxSeqBounds(b.history, q);
    }
    IncreasingAppend(b.history, r);
  }

  lemma HistoryIncreasing(store: FileStore, hist: seq<Record>)
    requires store.Safe(hist)
    ensures Increasing(hist)
  {
    RecoverableAt(store.states, store.published, hist, |store.states| - 1);
  }

  /** What readers see after opening. */
  lemma ViewAfterOpen(m: DynamicWriteManager)
    requires m.Sound() && m.book.start == m.book.history
    ensures var v := ViewOf(m.writer); forall node ::
              SameAt(VisibleAt(v.history, v.latest), Newest(m.book.history), node) <==> Shown(Newest(m.book.history), node)
    ensures VisibleAt(ViewOf(m.writer).history, ViewOf(m.writer).latest) == Newest(m.book.history) <==>
            forall node | node in Newest(m.book.history) :: Fits(Newest(m.book.history)[node])
    ensures forall r | r in m.book.history :: r.seqId < m.writer.manifest.nextSeq
  {
    assert Unsealed(ManagerSound);
    var w, b := m.writer, m.book;
    HistoryIncreasing(m.store, b.history);
    forall node
      ensures SameAt(VisibleAt(ViewOf(w).history, ViewOf(w).latest), Newest(b.history), node) <==>
              Shown(Newest(b.history), node)
    {
      ReadsSeeAllWrites(w, b, node);
    }
    SameEverywhere(VisibleAt(ViewOf(w).history, ViewOf(w).latest), Newest(b.history));
    forall r | r in b.history
      ensures r.seqId < w.manifest.nextSeq
    {
      MaxSeqBounds(b.history, r);
    }
  }

  /** A log without a buffer and a tail replays to itself, if it replays completely. */
  lemma WholeLog(sum: Checksum, d: Disk)
    requires d.buffered == []
    ensures Intact(d) ==> d.Log() == d.wal == Replayed(sum, d.wal, d.tail)
  {
    ReplayedWhole(sum, d.wal);
    assert d.wal + [] == d.wal;
  }

  /** A log that replays completely completes the history. */
  lemma LogOfBook(d: Disk, w: Writer, b: Book)
    requires SameFiles(w.manifest, d, b.mem) && Consistent(w, b)
    ensures Intact(d) ==> Completes(d.Log(), b.history, b.flushed)
  {
  }

  lemma AppendSameFiles(m: Manifest, d: Disk, mem: seq<Record>, r: Record)
    requires SameFiles(m, d, mem)
    ensures SameFiles(m.(nextSeq := m.nextSeq + 1), d.Appended(r), mem + [r])
  {
    AppendedLog(d, r);
  }

  // ---- Whole runs ----

  datatype Op = Put(node: nat, vector: seq<nat>, neighbors: seq<nat>) | Remove(node: nat) | DoFlush | DoCompact

  /** The write an operation makes, if any, with the next sequence id. */
  function Made(op: Op, next: nat): seq<Record> {
    match op
    case Put(node, vector, neighbors) =>
      var r := Record(next, node, |vector|, vector, neighbors, false);
      if vector != [] && Appendable(r) then [r] else []
    case Remove(node) => [Record(next, node, 0, [], [], true)]
    case DoFlush => []
    case DoCompact => []
  }

  /** The writes a run makes, numbered from `next` on. */
  function MadeAll(ops: seq<Op>, next: nat): seq<Record> {
    if ops == [] then
      []
    else
      var before := MadeAll(ops[..|ops| - 1], next);
      before + Made(ops[|ops| - 1], next + |before|)
  }

  lemma MadeStep(ops: seq<Op>, next: nat, i: nat)
    requires i < |ops|
    ensures MadeAll(ops[..i + 1], next) == MadeAll(ops[..i], next) + Made(ops[i], next + |MadeAll(ops[..i], next)|)
  {
    assert ops[..i + 1][..i] == ops[..i];
  }

  lemma SameUpToTransitive(u: View, v: View, w: View)
    requires SameUpTo(u, v) && SameUpTo(v, w)
    ensures SameUpTo(u, w)
  {
  }

  /** One operation adds exactly its write to the history, and keeps every snapshot a reader may hold. */
  method Step(m: DynamicWriteManager, op: Op)
    requires m.Valid()
    modifies m, m.store
    ensures m.Valid() && SameUpTo(old(m.view), m.view)
    ensures m.book.history == old(m.book).history + Made(op, old(m.writer).manifest.nextSeq)
    ensures m.writer.manifest.nextSeq == old(m.writer).manifest.nextSeq + |Made(op, old(m.writer).manifest.nextSeq)|
    ensures m.store.Extends(old(m.store.states), old(m.store.published)) && m.store.published != []
    ensures op.DoFlush? ==> m.store.published[|m.store.published| - 1] == |m.book.history|
  {
    assert m.store.published != [] by { assert Unsealed(ManagerSound); }
    match op
    case Put(node, vector, neighbors) =>
      var _ := m.Insert(node, vector, neighbors);
    case Remove(node) =>
      var _ := m.Erase(node);
    case DoFlush =>
      m.Flush();
    case DoCompact =>
      var _ := m.Compact();
  }

  /** At the state a flush of the run ended in, every write made so far is published. */
  ghost predicate FlushesPublished(ops: seq<Op>, next: nat, start: nat, ends: seq<nat>, published: seq<nat>) {
    |ends| == |ops| &&
    (ops == [] ||
     var k, e := |ops| - 1, ends[|ops| - 1];
     && FlushesPublished(ops[..k], next, start, ends[..k], published)
     && (ops[k].DoFlush? ==> 0 < e <= |published| && published[e - 1] == start + |MadeAll(ops, next)|))
  }

  lemma {:induction false} FlushesGrow(ops: seq<Op>, next: nat, start: nat, ends: seq<nat>, before: seq<nat>, published: seq<nat>)
    requires FlushesPublished(ops, next, start, ends, before) && before <= published
    ensures FlushesPublished(ops, next, start, ends, published)
  {
    if ops != [] {
      FlushesGrow(ops[..|ops| - 1], next, start, ends[..|ops| - 1], before, published);
    }
  }

  lemma FlushesStep(ops: seq<Op>, next: nat, start: nat, ends: seq<nat>, before: seq<nat>, published: seq<nat>, i: nat)
    requires i < |ops| && FlushesPublished(ops[..i], next, start, ends, before) && before <= published
    requires published != []
    requires ops[i].DoFlush? ==> published[|published| - 1] == start + |MadeAll(ops[..i + 1], next)|
    ensures FlushesPublished(ops[..i + 1], next, start, ends + [|published|], published)
  {
    FlushesGrow(ops[..i], next, start, ends, before, published);
    assert ops[..i + 1][..i] == ops[..i];
    assert (ends + [|published|])[..i] == ends;
  }

  lemma {:induction false} FlushAt(ops: seq<Op>, next: nat, start: nat, ends: seq<nat>, published: seq<nat>, k: nat)
    requires FlushesPublished(ops, next, start, ends, published) && k < |ops| && ops[k].DoFlush?
    ensures 0 < ends[k] <= |published| && published[ends[k] - 1] == start + |MadeAll(ops[..k + 1], next)|
  {
    var n := |ops| - 1;
    if k < n {
      FlushAt(ops[..n], next, start, ends[..n], published, k);
      assert ops[..n][..k + 1] == ops[..k + 1];
    } else {
      assert ops[..k + 1] == ops;
    }
  }

  /**
   Any run of inserts, erases, flushes and compactions: the history grows by exactly the writes made, every
   flush publishes all writes before it, and every answer at a sequence that was current before the run is
   the same after it. `ends[k]` is the number of file states when operation `k` ended.
   */
  method Run(m: DynamicWriteManager, ops: seq<Op>) returns (ghost ends: seq<nat>)
    requires m.Valid()
    modifies m, m.store
    ensures m.Valid() && SameUpTo(old(m.view), m.view)
    ensures m.book.history == old(m.book).history + MadeAll(ops, old(m.writer).manifest.nextSeq)
    ensures m.store.Extends(old(m.store.states), old(m.store.published))
    ensures FlushesPublished(ops, old(m.writer).manifest.nextSeq, |old(m.book).history|, ends, m.store.published)
  {
    ghost var start, first, next := m.book.history, m.view, m.writer.manifest.nextSeq;
    ends := [];
    assert Ran([], next, start, ends, m.book.history, next, m.store.published) by {
      assert start + [] == start;
    }
    for i := 0 to |ops|
      invariant m.Valid() && SameUpTo(first, m.view) && m.store.Extends(old(m.store.states), old(m.store.published))
      invariant Ran(ops[..i], next, start, ends, m.book.history, m.writer.manifest.nextSeq, m.store.published)
    {
      ghost var middle := m.view;
      ends := StepOn(m, ops, i, next, start, ends);
      SameUpToTransitive(first, middle, m.view);
    }
    assert ops[..|ops|] == ops;
    assert Unsealed(RunSoFar);
  }

  /** Operation `i` of a run. */
  method StepOn(m: DynamicWriteManager, ops: seq<Op>, i: nat, ghost next: nat, ghost start: seq<Record>, ghost ends: seq<nat>)
    returns (ghost more: seq<nat>)
    requires m.Valid() && i < |ops|
    requires Ran(ops[..i], next, start, ends, m.book.history, m.writer.manifest.nextSeq, m.store.published)
    modifies m, m.store
    ensures m.Valid() && SameUpTo(old(m.view), m.view) && m.store.Extends(old(m.store.states), old(m.store.published))
    ensures Ran(ops[..i + 1], next, start, more, m.book.history, m.writer.manifest.nextSeq, m.store.published)
  {
    ghost var history, seqId, before := m.book.history, m.writer.manifest.nextSeq, m.store.published;
    Step(m, ops[i]);
    RanStep(ops, i, next, start, ends, history, seqId, before, m.store.published);
    more := ends + [|m.store.published|];
  }

  /** How far a run has come: its writes, its counter and its flushes. */
  ghost predicate Ran(ops: seq<Op>, next: nat, start: seq<Record>, ends: seq<nat>, history: seq<Record>, seqId: nat, published: seq<nat>) {
    forall name {:trigger Unsealed(name)} | Unsealed(name) && name == RunSoFar ::
      && history == start + MadeAll(ops, next) && seqId == next + |MadeAll(ops, next)|
      && FlushesPublished(ops, next, |start|, ends, published)
  }

  lemma RanStep(ops: seq<Op>, i: nat, next: nat, start: seq<Record>, ends: seq<nat>, history: seq<Record>, seqId: nat,
                before: seq<nat>, published: seq<nat>)
    requires i < |ops| && Ran(ops[..i], next, start, ends, history, seqId, before)
    requires before <= published && published != []
    requires ops[i].DoFlush? ==> published[|published| - 1] == |history + Made(ops[i], seqId)|
    ensures Ran(ops[..i + 1], next, start, ends + [|published|], history + Made(ops[i], seqId),
                seqId + |Made(ops[i], seqId)|, published)
  {
    assert Unsealed(RunSoFar);
    MadeStep(ops, next, i);
    var made, more := MadeAll(ops[..i], next), Made(ops[i], seqId);
    assert start + made + more == start + (made + more);
    FlushesStep(ops, next, |start|, ends, before, published, i);
  }

  /**
   One life of the store. `before` is the history it was opened on, `written` that history and the writes of
   the life; `point` is the file state the crash left, `kept` how many writes its tables cover, and `cut` how
   many writes survived; `tail` is the tail of the log it left. `ends` is as in `Run`.
   */
  datatype Life = Life(
    before: seq<Record>, first: nat, written: seq<Record>, ends: seq<nat>, point: nat, kept: nat, cut: nat,
    tail: Tail)
  {
    /** What survives is a prefix of what was written, with every flush that had ended before the crash. */
    ghost predicate Holds(ops: seq<Op>) {
      && written == before + MadeAll(ops, first)
      && (forall r | r in before :: r.seqId < first)
      && kept <= cut <= |written| && |ends| == |ops|
      && (forall k | 0 <= k < |ops| && ops[k].DoFlush? && ends[k] <= point + 1 ::
            |before| + |MadeAll(ops[..k + 1], first)| <= kept)
    }

    ghost function Survived(): seq<Record>
      requires cut <= |written|
    {
      written[..cut]
    }
  }

  /**
   Open, any operations, a crash after any file operation with any bytes of the buffered log lost. What the crash
   leaves can be opened unless replay goes on behind eight or more torn bytes that an earlier crash had left.
   */
  method LiveOnce(store: FileStore, autoFlush: bool, ops: seq<Op>, ghost hist: seq<Record>)
    returns (next: FileStore, ghost life: Life)
    requires Ready(store, hist)
    modifies store
    ensures fresh(next) && next.sum == store.sum && life.before == hist && life.Holds(ops) && life.tail == next.disk.tail
    ensures Left(next, life.Survived()) && store.floor <= next.floor == life.kept
    ensures life.point < |store.states| && CrashOf(store.sum, store.states[life.point], next.disk)
    ensures next.disk.tail.Stops(next.sum) ==> Ready(next, life.Survived())
    ensures old(store.states) != [] && (old(store.states)[0].tail.Whole? || life.tail.Harmless() ==> next.disk.tail.Stops(next.sum))
  {
    ReadyFacts(store, hist);
    var m := OpenReady(store, autoFlush, hist);
    ghost var first := m.writer.manifest.nextSeq;
    ghost var ends := Run(m, ops);
    next, life := EndLife(m, ops, hist, first, ends);
  }

  /** The crash that ends a life. */
  method EndLife(m: DynamicWriteManager, ghost ops: seq<Op>, ghost hist: seq<Record>, ghost first: nat, ghost ends: seq<nat>)
    returns (next: FileStore, ghost life: Life)
    requires m.Valid() && m.book.history == hist + MadeAll(ops, first) && forall r | r in hist :: r.seqId < first
    requires FlushesPublished(ops, first, |hist|, ends, m.store.published)
    ensures fresh(next) && next.sum == m.store.sum
    ensures life.before == hist && life.Holds(ops) && life.tail == next.disk.tail
    ensures Left(next, life.Survived()) && m.store.floor <= next.floor == life.kept
    ensures life.point < |m.store.states| && CrashOf(m.store.sum, m.store.states[life.point], next.disk)
    ensures next.disk.tail.Stops(next.sum) ==> Ready(next, life.Survived())
    ensures m.store.states != [] && (m.store.states[0].tail.Whole? || life.tail.Harmless() ==> next.disk.tail.Stops(next.sum))
  {
    ghost var written := m.book.history;
    assert Unsealed(ManagerSound);
    ghost var j;
    var point;
    next, j, point := Crash(m.store, written);
    life := Life(hist, first, written, ends, point, m.store.published[point], j, next.disk.tail);
    FlushesKept(m.store, written, ops, life);
  }

  lemma FlushesKept(store: FileStore, hist: seq<Record>, ops: seq<Op>, life: Life)
    requires store.Safe(hist) && life.point < |store.states| && life.kept == store.published[life.point]
    requires FlushesPublished(ops, life.first, |life.before|, life.ends, store.published)
    ensures forall k | 0 <= k < |ops| && ops[k].DoFlush? && life.ends[k] <= life.point + 1 ::
              |life.before| + |MadeAll(ops[..k + 1], life.first)| <= life.kept
  {
    PublishedGrows(store, hist, life.point);
    FlushesBelow(ops, life, store.published);
  }

  lemma FlushesBelow(ops: seq<Op>, life: Life, published: seq<nat>)
    requires FlushesPublished(ops, life.first, |life.before|, life.ends, published) && life.point < |published|
    requires forall i | 0 <= i <= life.point :: published[i] <= life.kept
    ensures forall k | 0 <= k < |ops| && ops[k].DoFlush? && life.ends[k] <= life.point + 1 ::
              |life.before| + |MadeAll(ops[..k + 1], life.first)| <= life.kept
  {
    forall k | 0 <= k < |ops| && ops[k].DoFlush? && life.ends[k] <= life.point + 1
      ensures |life.before| + |MadeAll(ops[..k + 1], life.first)| <= life.kept
    {
      FlushAt(ops, life.first, |life.before|, life.ends, published, k);
    }
  }

  lemma PublishedGrows(store: FileStore, hist: seq<Record>, point: nat)
    requires store.Safe(hist) && point < |store.states|
    ensures forall i | 0 <= i <= point :: store.published[i] <= store.published[point]
  {
    forall i | 0 <= i <= point
      ensures store.published[i] <= store.published[point]
    {
      assert Point(i) && Point(point);
    }
  }

  /** Lives one after the other: each is opened on what the one before left. */
  ghost predicate Chained(lives: seq<Life>, runs: seq<seq<Op>>, hist: seq<Record>, survived: seq<Record>) {
    |lives| == |runs| &&
    if lives == [] then
      survived == hist
    else
      var last := lives[|lives| - 1];
      && last.Holds(runs[|runs| - 1]) && survived == last.Survived()
      && Chained(lives[..|lives| - 1], runs[..|runs| - 1], hist, last.before)
  }

  /** What the tables covered at the end of a life is never lost afterwards. */
  ghost predicate Kept(lives: seq<Life>, survived: seq<Record>, floor: nat) {
    forall i | 0 <= i < |lives| ::
      && lives[i].kept <= floor && lives[i].kept <= |survived| && lives[i].kept <= |lives[i].written|
      && survived[..lives[i].kept] == lives[i].written[..lives[i].kept]
  }

  /**
   Crash recovery over whole runs: any number of lives, each ended by a crash between two file operations and
   at any byte of the log. Each life adds exactly the writes of its operations and loses at most an end of
   them; a flush that had ended before a crash is never lost, in this crash or a later one. Opening the store
   afterwards shows the newest version of a node in what survived if and only if that version is not too large
   to be read back, and hands out sequence ids above all of them.

   The lives end early (`!ok`) only if bytes were appended behind eight or more torn ones and replay reads a
   record there, which may be one that nobody wrote.
   */
  method SurviveCrashes(store: FileStore, autoFlush: bool, runs: seq<seq<Op>>, ghost hist: seq<Record>)
    returns (ok: bool, m: DynamicWriteManager?, ghost lives: seq<Life>, ghost survived: seq<Record>)
    requires Ready(store, hist)
    modifies store
    ensures |lives| <= |runs| && Chained(lives, runs[..|lives|], hist, survived) && Kept(lives, survived, |survived|)
    ensures store.floor <= |hist| && store.floor <= |survived| && survived[..store.floor] == hist[..store.floor]
    ensures !ok ==> lives != [] && var t := lives[|lives| - 1].tail;
                    !t.Harmless() && ReadRecord(store.sum, t.Bytes(store.sum)).Parsed?
    ensures ok ==> |lives| == |runs| && m != null && m.Valid() && m.book.history == survived
    ensures ok ==> forall node ::
              SameAt(VisibleAt(m.view.history, m.latestSequence), Newest(survived), node) <==> Shown(Newest(survived), node)
    ensures ok ==> (VisibleAt(m.view.history, m.latestSequence) == Newest(survived) <==>
                    forall node | node in Newest(survived) :: Fits(Newest(survived)[node]))
    ensures ok ==> forall r | r in survived :: r.seqId < m.writer.manifest.nextSeq
  {
    var last;
    ok, last, lives, survived := LiveThrough(store, autoFlush, runs, hist);
    m := null;
    if ok {
      m := OpenReady(last, autoFlush, survived);
    }
  }

  /** The lives, up to the last crash. */
  method LiveThrough(store: FileStore, autoFlush: bool, runs: seq<seq<Op>>, ghost hist: seq<Record>)
    returns (ok: bool, last: FileStore, ghost lives: seq<Life>, ghost survived: seq<Record>)
    requires Ready(store, hist)
    modifies store
    ensures |lives| <= |runs| && Chained(lives, runs[..|lives|], hist, survived) && Kept(lives, survived, |survived|)
    ensures store.floor <= |hist| && store.floor <= |survived| && survived[..store.floor] == hist[..store.floor]
    ensures ok ==> |lives| == |runs| && Ready(last, survived)
    ensures !ok ==> lives != [] && var t := lives[|lives| - 1].tail;
                    !t.Harmless() && ReadRecord(store.sum, t.Bytes(store.sum)).Parsed?
  {
    last := store;
    ReadyFacts(store, hist);
    ok, survived, lives := true, hist, [];
    for i := 0 to |runs|
      invariant last == store || fresh(last)
      invariant ok && last.sum == store.sum
      invariant Ready(last, survived) && store.floor <= last.floor
      invariant |lives| == i && Chained(lives, runs[..i], hist, survived) && Kept(lives, survived, last.floor)
      invariant store.floor <= |hist| && store.floor <= |survived| && survived[..store.floor] == hist[..store.floor]
    {
      ghost var life;
      ghost var before, floor := survived, last.floor;
      ok, last, life := LiveNext(last, autoFlush, runs[i], survived);
      LifeAdded(lives, runs, hist, i, before, floor, life, store.floor);
      survived, lives := life.Survived(), lives + [life];
      if !ok {
        return;
      }
    }
    assert runs[..|runs|] == runs;
  }

  /** The record was written in one of the lives. */
  ghost predicate WrittenIn(lives: seq<Life>, runs: seq<seq<Op>>, r: Record) {
    exists i :: 0 <= i < |lives| && i < |runs| && r in MadeAll(runs[i], lives[i].first)
  }

  /** Nothing survives that was not there before or written in one of the lives. */
  lemma {:induction false} SurvivedWasWritten(lives: seq<Life>, runs: seq<seq<Op>>, hist: seq<Record>, survived: seq<Record>, r: Record)
    requires Chained(lives, runs, hist, survived) && r in survived
    ensures r in hist || WrittenIn(lives, runs, r)
    decreases |lives|
  {
    if lives != [] {
      var n := |lives| - 1;
      var made := MadeAll(runs[n], lives[n].first);
      assert r in lives[n].before + made;
      if r in made {
        assert WrittenIn(lives, runs, r);
      } else {
        SurvivedWasWritten(lives[..n], runs[..n], hist, lives[n].before, r);
        if WrittenIn(lives[..n], runs[..n], r) {
          var i :| 0 <= i < n && r in MadeAll(runs[..n][i], lives[..n][i].first);
          assert r in MadeAll(runs[i], lives[i].first);
        }
      }
    }
  }

  lemma SamePrefix(before: seq<Record>, written: seq<Record>, cut: nat, n: nat)
    requires before <= written && n <= |before| && n <= cut <= |written|
    ensures written[..cut][..n] == before[..n]
  {
  }

  method CheckTail(sum: Checksum, tail: Tail) returns (stops: bool)
    ensures stops <==> tail.Stops(sum)
    ensures !stops ==> ReadRecord(sum, tail.Bytes(sum)).Parsed?
  {
    StopsIs(sum, tail);
    stops := ReadRecord(sum, tail.Bytes(sum)).Broken?;
  }

  /** A manager on a store that is ready for a history shows that history. */
  method OpenReady(store: FileStore, autoFlush: bool, ghost hist: seq<Record>) returns (m: DynamicWriteManager)
    requires Ready(store, hist)
    ensures fresh(m) && m.store == store && m.Valid() && m.book.history == hist
    ensures forall node ::
              SameAt(VisibleAt(m.view.history, m.latestSequence), Newest(hist), node) <==> Shown(Newest(hist), node)
    ensures VisibleAt(m.view.history, m.latestSequence) == Newest(hist) <==>
            forall node | node in Newest(hist) :: Fits(Newest(hist)[node])
    ensures forall r | r in hist :: r.seqId < m.writer.manifest.nextSeq
  {
    assert Unsealed(StoreReady);
    m := new DynamicWriteManager(store, autoFlush);
    m.Open(hist);
  }

  /** One more life, and whether the store can be opened on what it leaves. */
  method LiveNext(store: FileStore, autoFlush: bool, ops: seq<Op>, ghost hist: seq<Record>)
    returns (ok: bool, next: FileStore, ghost life: Life)
    requires Ready(store, hist)
    modifies store
    ensures fresh(next) && next.sum == store.sum && life.before == hist && life.Holds(ops)
    ensures store.floor <= |hist| && store.floor <= next.floor == life.kept
    ensures if ok then Ready(next, life.Survived())
            else !life.tail.Harmless() && ReadRecord(store.sum, life.tail.Bytes(store.sum)).Parsed?
  {
    ReadyFacts(store, hist);
    next, life := LiveOnce(store, autoFlush, ops, hist);
    ok := CheckTail(next.sum, next.disk.tail);
  }

  lemma LifeAdded(lives: seq<Life>, runs: seq<seq<Op>>, hist: seq<Record>, i: nat, before: seq<Record>, floor: nat,
                  life: Life, base: nat)
    requires i < |runs| && Chained(lives, runs[..i], hist, before) && Kept(lives, before, floor)
    requires life.Holds(runs[i]) && life.before == before && base <= floor <= life.kept && floor <= |before|
    ensures Chained(lives + [life], runs[..i + 1], hist, life.Survived()) && Kept(lives + [life], life.Survived(), life.kept)
    ensures base <= |life.Survived()| && life.Survived()[..base] == before[..base]
  {
    ChainedStep(lives, runs, hist, i, life);
    KeptStep(lives, before, floor, life);
    SamePrefix(before, life.written, life.cut, base);
  }

  lemma ChainedStep(lives: seq<Life>, runs: seq<seq<Op>>, hist: seq<Record>, i: nat, life: Life)
    requires i < |runs| && Chained(lives, runs[..i], hist, life.before) && life.Holds(runs[i])
    ensures Chained(lives + [life], runs[..i + 1], hist, life.Survived())
  {
    assert (lives + [life])[..|lives|] == lives;
    assert runs[..i + 1][..i] == runs[..i];
  }

  lemma KeptStep(lives: seq<Life>, before: seq<Record>, floor: nat, life: Life)
    requires Kept(lives, before, floor) && life.before == before && before <= life.written
    requires floor <= life.kept <= life.cut <= |life.written| && floor <= |before|
    ensures Kept(lives + [life], life.Survived(), life.kept)
  {
    var all := lives + [life];
    forall i | 0 <= i < |all|
      ensures all[i].kept <= life.kept && all[i].kept <= life.cut && all[i].kept <= |all[i].written|
      ensures life.Survived()[..all[i].kept] == all[i].written[..all[i].kept]
    {
      if i < |lives| {
        var n := lives[i].kept;
        assert life.written[..life.cut][..n] == life.written[..n] == before[..n];
      } else {
        assert life.written[..life.cut][..life.kept] == life.written[..life.kept];
      }
    }
  }

  // ---- Losses the design does not promise ----

  function EmptyDisk(): Disk {
    Disk(Manifest(1, 1, []), map[], map[], map[], [], [], Whole)
  }

  /** A new store. */
  method EmptyStore(sum: Checksum) returns (store: FileStore)
    ensures fresh(store) && store.sum == sum && Ready(store, [])
    ensures store.disk == EmptyDisk()
  {
    var d := EmptyDisk();
    assert d.Log() == [];
    assert Recoverable(d, [], 0);
    store := new FileStore(sum, d, [], 0);
    NothingThere(sum, d);
  }

  lemma NothingThere(sum: Checksum, d: Disk)
    requires d.manifest.tables == [] && d.wal == [] && d.tail.Stops(sum)
    ensures Recovered(sum, d) == [] && Unique(Recovered(sum, d)) == [] && Replayed(sum, d.wal, d.tail) == []
    ensures NextSequence(sum, d) == Later(d.manifest.nextSeq, 1)
  {
    ReplayedStops(sum, d.wal, d.tail);
    assert Recovered(sum, d) == [];
  }

  /** Reopening after a crash in the last file state, with the given part of the buffer drained. */
  method Reopen(m: DynamicWriteManager, kept: nat, cut: nat) returns (after: DynamicWriteManager)
    requires m.Valid() && m.store.disk.CrashPoint(kept, cut)
    requires m.store.disk.Crashed(m.store.sum, kept, cut).tail.Stops(m.store.sum)
    ensures fresh(after) && fresh(after.store) && after.Valid() && TablesOk(m.store.disk) && after.autoFlush == m.autoFlush
    ensures after.store.sum == m.store.sum && after.store.disk == m.store.disk.Crashed(m.store.sum, kept, cut)
    ensures (forall id | id in after.store.disk.manifest.tables :: id in after.store.disk.data)
            && after.view.history == Unique(Recovered(m.store.sum, after.store.disk))
            && after.writer.manifest.nextSeq == NextSequence(m.store.sum, after.store.disk)
    ensures after.book.history <= m.book.history
  {
    assert Unsealed(ManagerSound);
    var point := |m.store.states| - 1;
    RecoverableAt(m.store.states, m.store.published, m.book.history, point);
    ghost var j;
    var next;
    next, j := CrashAt(m.store, m.book.history, point, kept, cut);
    after := OpenLeft(next, m.autoFlush, m.book.history[..j]);
  }

  method OpenLeft(store: FileStore, autoFlush: bool, ghost hist: seq<Record>) returns (after: DynamicWriteManager)
    requires Ready(store, hist)
    ensures fresh(after) && after.store == store && after.Valid() && after.autoFlush == autoFlush
    ensures (forall id | id in store.disk.manifest.tables :: id in store.disk.data)
            && after.view.history == Unique(Recovered(store.sum, store.disk))
            && after.writer.manifest.nextSeq == NextSequence(store.sum, store.disk)
    ensures after.book.history == hist
  {
    assert Unsealed(StoreReady);
    after := new DynamicWriteManager(store, autoFlush);
    after.Open(hist);
  }

  /**
   An acknowledged write that a crash loses: one insert on a new store returns true, the process dies before
   the stream is drained, and the reopened store does not know the node.
   */
  method LoseAcknowledgedWrite(sum: Checksum, node: nat, vector: seq<nat>) returns (ok: bool, after: DynamicWriteManager)
    requires vector != [] && |vector| <= (U32 - 1) / 4
    ensures ok && after.Valid() && after.view.history == []
  {
    var m := OpenEmpty(sum);
    ok := m.Insert(node, vector, []);
    NothingDrained(sum, m.store.disk);
    after := Reopen(m, 0, 0);
  }

  lemma NothingDrained(sum: Checksum, d: Disk)
    requires d == EmptyDisk().(buffered := d.buffered)
    ensures d.Crashed(sum, 0, 0) == EmptyDisk() && EmptyDisk().tail.Stops(sum) && Unique(Recovered(sum, EmptyDisk())) == []
  {
    assert [] + d.buffered[..0] == [];
    HarmlessStops(sum, Whole);
    NothingThere(sum, EmptyDisk());
  }

  method OpenEmpty(sum: Checksum) returns (m: DynamicWriteManager)
    ensures fresh(m) && fresh(m.store) && m.Valid() && !m.autoFlush && m.store.sum == sum
    ensures m.store.disk == EmptyDisk()
    ensures m.writer.manifest.nextSeq == 1 && m.book.history == []
  {
    var store := EmptyStore(sum);
    m := new DynamicWriteManager(store, false);
    assert Unsealed(StoreReady);
    m.Open([]);
    HarmlessStops(sum, Whole);
    NothingThere(sum, store.disk);
  }

  /**
   A write that is lost although all its bytes reached the log: for every open manager, an insert that is too
   large, or any insert on a store at whose torn log replay stops, and every drained crash before the next flush.
   */
  method LoseUnreadableWrite(m: DynamicWriteManager, node: nat, vector: seq<nat>, neighbors: seq<nat>)
    returns (ok: bool, ghost r: Record, after: DynamicWriteManager)
    requires m.Valid() && !m.autoFlush && vector != []
    requires var r := Record(m.writer.manifest.nextSeq, node, |vector|, vector, neighbors, false);
             && Appendable(r) && !(Fits(r) && Intact(m.store.disk))
             && m.store.disk.Appended(r).Drained(m.store.sum).tail.Stops(m.store.sum)
    modifies m, m.store
    ensures ok && r == Record(old(m.writer).manifest.nextSeq, node, |vector|, vector, neighbors, false)
    ensures m.book.history == old(m.book).history + [r] && m.store.disk == old(m.store.disk).Appended(r)
    ensures after.Valid() && after.store.disk == m.store.disk.Drained(m.store.sum) && r !in after.view.history
  {
    r := Record(m.writer.manifest.nextSeq, node, |vector|, vector, neighbors, false);
    UnreadableIn(m, r);
    ok := m.Insert(node, vector, neighbors);
    after := Reopen(m, |m.store.disk.buffered|, 0);
    UniqueDraws(Recovered(m.store.sum, after.store.disk));
  }

  lemma UnreadableIn(m: DynamicWriteManager, r: Record)
    requires m.Valid() && r.seqId == m.writer.manifest.nextSeq && Appendable(r) && !(Fits(r) && Intact(m.store.disk))
    requires m.store.disk.Appended(r).Drained(m.store.sum).tail.Stops(m.store.sum)
    ensures (forall id | id in m.store.disk.manifest.tables :: id in m.store.disk.data)
            && r !in Recovered(m.store.sum, m.store.disk.Appended(r).Drained(m.store.sum))
  {
    NextWrite(m, r);
    LoggedWriteRecoveredIff(m.store.sum, m.store.disk, m.book.history, m.book.flushed, r);
  }

  lemma NextWrite(m: DynamicWriteManager, r: Record)
    requires m.Valid() && r.seqId == m.writer.manifest.nextSeq
    ensures Recoverable(m.store.disk, m.book.history, m.book.flushed) && Increasing(m.book.history + [r])
  {
    assert Unsealed(ManagerSound);
    RecoverableAt(m.store.states, m.store.published, m.book.history, |m.store.states| - 1);
    HistoryAppend(m.store, m.book, m.writer, r);
  }

  /**
   Behind eight or more torn bytes a crash can leave a record that nobody wrote. A new store takes a vector of
   eleven components, the first one zero, and is torn after 44 bytes; the reopened store takes one tombstone.
   Nothing else is ever written, and if the checksums collide, replay then yields the first record's ids with
   another vector.
   */
  method RecoverUnwritten(sum: Checksum, node: nat, vector: seq<nat>, other: nat)
    returns (first: DynamicWriteManager, second: DynamicWriteManager, left: FileStore, ghost r: Record)
    requires Eleven(Record(1, node, 11, vector, [], false))
    requires Collide(sum, Record(1, node, 11, vector, [], false), Record(1, other, 0, [], [], true))
    ensures var last, a := Record(1, node, 11, vector, [], false), Record(1, other, 0, [], [], true);
            && first.book.history == [last] && (forall q | q in second.book.history :: q == last || q == a)
            && left.disk == EmptyDisk().(tail := Torn(last, 44, EncodeAll(sum, [a])))
            && Recovered(sum, left.disk) == [r] && r != last && r != a && r.node == node && r.seqId == 1
  {
    ghost var last, a := Record(1, node, 11, vector, [], false), Record(1, other, 0, [], [], true);
    first, second := TearFirst(sum, node, vector, 44);
    left := EraseBehind(second, last, 44, other);
    r := UnwrittenThere(sum, left.disk, last, a);
  }

  /** The checksum does not tell the torn record from the one that the bytes behind it make of it. */
  ghost predicate Collide(sum: Checksum, last: Record, a: Record)
    requires PayloadBytes(last) == 44 && PayloadBytes(a) == 0
  {
    forall name {:trigger Unsealed(name)} | Unsealed(name) && name == ChecksumsCollide ::
      sum(Misread(sum, last, EncodeRecord(sum, a)).vector, []) % U32 == sum(last.vector, []) % U32
  }

  /** One insert on a new store, torn after `cut` bytes. */
  method TearFirst(sum: Checksum, node: nat, vector: seq<nat>, cut: nat)
    returns (first: DynamicWriteManager, second: DynamicWriteManager)
    requires vector != [] && |vector| <= (U32 - 1) / 4 && 0 < cut < HEADER + 4 * |vector|
    ensures fresh(first) && first != second
    ensures fresh(second) && fresh(second.store) && second.Valid() && !second.autoFlush && second.store.sum == sum
    ensures var last := Record(1, node, |vector|, vector, [], false);
            && first.book.history == [last] && second.book.history <= [last]
            && second.store.disk == EmptyDisk().(tail := Torn(last, cut, []))
    ensures second.writer.manifest.nextSeq == 1 && second.view.history == []
  {
    ghost var last := Record(1, node, |vector|, vector, [], false);
    first := OpenEmpty(sum);
    var ok := first.Insert(node, vector, []);
    HarmlessStops(sum, Torn(last, cut, []));
    second := Reopen(first, 0, cut);
    NothingThere(sum, second.store.disk);
  }

  /** One tombstone behind a torn record, drained. */
  method EraseBehind(m: DynamicWriteManager, ghost last: Record, ghost cut: nat, other: nat) returns (left: FileStore)
    requires m.Valid() && !m.autoFlush && m.store.disk == EmptyDisk().(tail := Torn(last, cut, []))
    modifies m, m.store
    ensures var a := Record(old(m.writer).manifest.nextSeq, other, 0, [], [], true);
            && m.book.history == old(m.book).history + [a]
            && left.disk == EmptyDisk().(tail := Torn(last, cut, EncodeAll(m.store.sum, [a])))
  {
    ghost var a := Record(m.writer.manifest.nextSeq, other, 0, [], [], true);
    DrainedBehind(m.store.sum, m.store.disk, a);
    var ok := m.Erase(other);
    left := Drain(m);
  }

  lemma DrainedBehind(sum: Checksum, d: Disk, a: Record)
    requires d.tail.Torn? && d.tail.behind == [] && d.buffered == []
    ensures d.Appended(a).Drained(sum) == d.(tail := Torn(d.tail.last, d.tail.cut, EncodeAll(sum, [a])))
  {
    assert [] + [a] == [a] && [a][..1] == [a] && [] + (EncodeAll(sum, [a]) + []) == EncodeAll(sum, [a]);
  }

  /** A crash after the buffer was drained. */
  method Drain(m: DynamicWriteManager) returns (left: FileStore)
    requires m.Valid()
    ensures fresh(left) && left.disk == m.store.disk.Drained(m.store.sum)
  {
    assert Unsealed(ManagerSound);
    ghost var j;
    left, j := CrashAt(m.store, m.book.history, |m.store.states| - 1, |m.store.disk.buffered|, 0);
  }

  lemma UnwrittenThere(sum: Checksum, d: Disk, last: Record, a: Record) returns (r: Record)
    requires Eleven(last) && PayloadBytes(a) == 0 && a.dim == 0
    requires Collide(sum, last, a)
    requires d.manifest.tables == [] && d.wal == [] && d.tail == Torn(last, 44, EncodeAll(sum, [a]))
    ensures Recovered(sum, d) == [r] && r != last && r != a && r.node == last.node && r.seqId == last.seqId
  {
    r := ReadBehind(sum, last, a);
    OnlyTail(sum, d);
  }

  lemma OnlyTail(sum: Checksum, d: Disk)
    requires d.manifest.tables == [] && d.wal == []
    ensures Recovered(sum, d) == Parse(sum, d.tail.Bytes(sum))
  {
    ReplayedIs(sum, d.wal, d.tail);
    ContinuedStep([], [], Parse(sum, d.tail.Bytes(sum)));
  }

  lemma ReadBehind(sum: Checksum, last: Record, a: Record) returns (r: Record)
    requires Eleven(last) && PayloadBytes(a) == 0 && a.dim == 0 && Collide(sum, last, a)
    ensures Parse(sum, Torn(last, 44, EncodeAll(sum, [a])).Bytes(sum)) == [r]
    ensures r != last && r != a && r.node == last.node && r.seqId == last.seqId
  {
    assert Unsealed(ChecksumsCollide);
    r := Misread(sum, last, EncodeRecord(sum, a));
    LongTailMisread(sum, last, a, []);
    assert [a] + [] == [a] && [r] + [] == [r];
  }

  lemma {:induction false} UniqueDraws(rs: seq<Record>)
    ensures forall r | r in Unique(rs) :: r in rs
  {
    if rs != [] {
      UniqueDraws(rs[..|rs| - 1]);
    }
  }
}
