/**
 The files of the dynamic layer and what a crash may leave of them.

 A file operation is atomic. A table is three files (data, index, metadata), each represented by the record
 list it was written from, and reading goes through what the reader accepts: `Fitting` of a table. The log is
 the records appended to it and its tail in bytes: a crash may tear the record that was being drained from
 the stream's buffer (`buffered`), and the log is reopened behind the torn bytes without cutting them.
 `DiskBytes` ties tables and log to the bytes.
 */
module Storage {
  import opened Sealing
  import opened TopK
  import opened Records
  import opened Bytes
  import opened Wal

  datatype Manifest = Manifest(nextSeq: nat, nextTable: nat, tables: seq<nat>)

  datatype Disk = Disk(
    manifest: Manifest,
    data: map<nat, seq<Record>>,
    index: map<nat, seq<Record>>,
    meta: map<nat, seq<Record>>,
    wal: seq<Record>,
    buffered: seq<Record>,
    tail: Tail)
  {
    predicate Readable(id: nat) {
      id in data && id in index && id in meta && data[id] == index[id] == meta[id]
    }

    /** The whole records of the log once the stream's buffer is drained; behind a tear there are none. */
    function Log(): seq<Record> {
      if tail.Whole? then wal + buffered else wal
    }

    function Appended(r: Record): Disk {
      this.(buffered := buffered + [r])
    }

    /** `kept` whole records of the buffer and `cut` bytes of the next one have been drained. */
    predicate CrashPoint(kept: nat, cut: nat) {
      && kept <= |buffered|
      && (cut == 0 || (kept < |buffered| && cut < HEADER + PayloadBytes(buffered[kept])))
    }

    /** The disk as a crash leaves it, with an arbitrary part of the buffer drained. */
    function Crashed(sum: Checksum, kept: nat, cut: nat): Disk
      requires CrashPoint(kept, cut)
    {
      match tail
      case Whole =>
        this.(wal := wal + buffered[..kept], buffered := [],
              tail := if cut == 0 then Whole else Torn(buffered[kept], cut, []))
      case Torn(last, k, behind) =>
        var torn := if cut == 0 then [] else Take(EncodeRecord(sum, buffered[kept]), cut);
        this.(buffered := [], tail := Torn(last, k, behind + (EncodeAll(sum, buffered[..kept]) + torn)))
    }

    /** All of the buffer drained. */
    function Drained(sum: Checksum): Disk {
      Crashed(sum, |buffered|, 0)
    }
  }

  /** Write history: sequence ids strictly increase. */
  ghost predicate Increasing(hist: seq<Record>) {
    |hist| < 2 || (hist[|hist| - 2].seqId < hist[|hist| - 1].seqId && Increasing(hist[..|hist| - 1]))
  }

  /** `scan_all` of every table, one after the other: records that are too large are passed over. */
  function Scan(data: map<nat, seq<Record>>, ids: seq<nat>): seq<Record>
    requires forall id | id in ids :: id in data
  {
    if ids == [] then [] else Scan(data, ids[..|ids| - 1]) + Fitting(data[ids[|ids| - 1]])
  }

  /** What opening reads: the tables in manifest order, then what replay yields of the log. */
  ghost function Recovered(sum: Checksum, d: Disk): seq<Record>
    requires forall id | id in d.manifest.tables :: id in d.data
  {
    Scan(d.data, d.manifest.tables) + Replayed(sum, d.wal, d.tail)
  }

  function MaxSeq(rs: seq<Record>): nat {
    if rs == [] then
      0
    else
      var m := MaxSeq(rs[..|rs| - 1]);
      if m < rs[|rs| - 1].seqId then rs[|rs| - 1].seqId else m
  }

  ghost predicate TablesOk(d: Disk) {
    forall id | id in d.manifest.tables :: d.Readable(id) && id < d.manifest.nextTable
  }

  ghost predicate AllAppendable(rs: seq<Record>) {
    forall r | r in rs :: Appendable(r)
  }

  /** A list as flush and compaction write it. */
  ghost predicate IsTable(rs: seq<Record>) {
    rs == Listing(Newest(rs)) && AllAppendable(rs)
  }

  /** The files have the shape their writers give them. */
  ghost predicate Built(d: Disk) {
    forall name {:trigger Unsealed(name)} | Unsealed(name) && name == FilesBuilt ::
      && (forall id | id in d.manifest.tables :: id in d.data && IsTable(d.data[id]))
      && AllAppendable(d.wal) && AllAppendable(d.buffered) && d.tail.Ok()
  }

  /** The log holds records that are already published, followed by a run of the writes from `n` on. */
  ghost predicate Follows(log: seq<Record>, hist: seq<Record>, n: nat)
    requires n <= |hist|
    decreases |log|
  {
    log <= hist[n..] || (log != [] && log[0] in hist[..n] && Follows(log[1..], hist, n))
  }

  /** As `Follows`, and the run reaches the last write. */
  ghost predicate Completes(log: seq<Record>, hist: seq<Record>, n: nat)
    requires n <= |hist|
    decreases |log|
  {
    log == hist[n..] || (log != [] && log[0] in hist[..n] && Completes(log[1..], hist, n))
  }

  /**
   The recovery invariant. What can be read of the published tables covers the first `n` writes, what can be
   replayed of the log up to its tail is a run of the writes that follow, and the manifest's counter is past
   the first `n`.
   */
  ghost predicate Recoverable(d: Disk, hist: seq<Record>, n: nat) {
    && n <= |hist| && Increasing(hist) && AllAppendable(hist)
    && TablesOk(d) && Built(d)
    && (n > 0 ==> MaxSeq(hist[..n]) < d.manifest.nextSeq)
    && Covers(Elements(Scan(d.data, d.manifest.tables)), Elements(hist[..n]))
    && Follows(Replayable(d.Log()), hist, n)
  }

  // ---- Facts about histories and scans ----

  lemma {:induction false} IncreasingPairs(hist: seq<Record>, i: nat, j: nat)
    requires Increasing(hist) && i < j < |hist|
    ensures hist[i].seqId < hist[j].seqId
  {
    var n := |hist| - 1;
    if j < n {
      IncreasingPairs(hist[..n], i, j);
    } else if i < n - 1 {
      IncreasingPairs(hist[..n], i, n - 1);
    }
  }

  lemma IncreasingOneVersion(hist: seq<Record>)
    requires Increasing(hist)
    ensures OneVersion(Elements(hist))
  {
    forall r, q | r in Elements(hist) && q in Elements(hist) && r.seqId == q.seqId
      ensures r == q
    {
      var i :| 0 <= i < |hist| && hist[i] == r;
      var j :| 0 <= j < |hist| && hist[j] == q;
      if i < j {
        IncreasingPairs(hist, i, j);
      } else if j < i {
        IncreasingPairs(hist, j, i);
      }
    }
  }

  lemma {:induction false} IncreasingPrefix(hist: seq<Record>, j: nat)
    requires Increasing(hist) && j <= |hist|
    ensures Increasing(hist[..j])
  {
    if j == |hist| {
      assert hist[..j] == hist;
    } else if |hist| >= 2 {
      IncreasingPrefix(hist[..|hist| - 1], j);
      assert hist[..|hist| - 1][..j] == hist[..j];
    }
  }

  lemma IncreasingAppend(hist: seq<Record>, r: Record)
    requires Increasing(hist) && forall q | q in hist :: q.seqId < r.seqId
    ensures Increasing(hist + [r])
  {
    if hist != [] {
      assert hist[|hist| - 1] in hist;
      assert (hist + [r])[..|hist|] == hist;
    }
  }

  lemma ElementsConcat<T>(a: seq<T>, b: seq<T>)
    ensures Elements(a + b) == Elements(a) + Elements(b)
  {
  }

  lemma {:induction false} FollowsGrows(log: seq<Record>, hist: seq<Record>, r: Record, n: nat)
    requires n <= |hist| && Follows(log, hist, n)
    ensures Follows(log, hist + [r], n)
    decreases |log|
  {
    assert (hist + [r])[..n] == hist[..n] && (hist + [r])[n..] == hist[n..] + [r];
    if !(log <= hist[n..]) {
      FollowsGrows(log[1..], hist, r, n);
    }
  }

  lemma {:induction false} CompletesGrows(log: seq<Record>, hist: seq<Record>, r: Record, n: nat)
    requires n <= |hist| && Completes(log, hist, n)
    ensures Completes(log + [r], hist + [r], n)
    decreases |log|
  {
    assert (hist + [r])[..n] == hist[..n] && (hist + [r])[n..] == hist[n..] + [r];
    if log != hist[n..] {
      CompletesGrows(log[1..], hist, r, n);
      assert (log + [r])[1..] == log[1..] + [r];
    }
  }

  lemma {:induction false} CompletesFollows(log: seq<Record>, hist: seq<Record>, n: nat)
    requires n <= |hist| && Completes(log, hist, n)
    ensures Follows(log, hist, n)
    decreases |log|
  {
    if log != hist[n..] {
      CompletesFollows(log[1..], hist, n);
    }
  }

  /** Published writes and a complete log together are the whole history. */
  lemma {:induction false} CompletesElements(log: seq<Record>, hist: seq<Record>, n: nat)
    requires n <= |hist| && Completes(log, hist, n)
    ensures Elements(hist[..n]) + Elements(log) == Elements(hist)
    decreases |log|
  {
    if log == hist[n..] {
      assert hist == hist[..n] + hist[n..];
      ElementsConcat(hist[..n], hist[n..]);
    } else {
      CompletesElements(log[1..], hist, n);
      assert log == [log[0]] + log[1..];
      ElementsConcat([log[0]], log[1..]);
      assert log[0] in Elements(hist[..n]);
      assert Elements([log[0]]) == {log[0]};
    }
  }

  /** When everything is published, a log of published writes is all duplicates. */
  lemma {:induction false} AllPublished(log: seq<Record>, hist: seq<Record>)
    requires Elements(log) <= Elements(hist)
    ensures Completes(log, hist, |hist|)
    decreases |log|
  {
    if log == [] {
      assert hist[|hist|..] == [];
    } else {
      assert log == [log[0]] + log[1..];
      ElementsConcat([log[0]], log[1..]);
      assert log[0] in Elements(log) && log[0] in Elements(hist);
      assert hist[..|hist|] == hist;
      AllPublished(log[1..], hist);
    }
  }

  /** Cutting the log anywhere leaves a log that completes some prefix of the history. */
  lemma {:induction false} CutLog(log: seq<Record>, hist: seq<Record>, n: nat, len: nat) returns (j: nat)
    requires n <= |hist| && Follows(log, hist, n) && len <= |log|
    ensures n <= j <= |hist| && Completes(log[..len], hist[..j], n)
    decreases |log|
  {
    if log <= hist[n..] {
      j := n + len;
      assert log[..len] == hist[n..][..len] == hist[..j][n..];
    } else if len == 0 {
      j := n;
      assert log[..0] == hist[..n][n..];
    } else {
      j := CutLog(log[1..], hist, n, len - 1);
      assert log[..len][1..] == log[1..][..len - 1];
      assert hist[..j][..n] == hist[..n];
    }
  }

  lemma {:induction false} ScanFrame(a: map<nat, seq<Record>>, b: map<nat, seq<Record>>, ids: seq<nat>)
    requires forall id | id in ids :: id in a && id in b && a[id] == b[id]
    ensures Scan(a, ids) == Scan(b, ids)
  {
    if ids != [] {
      ScanFrame(a, b, ids[..|ids| - 1]);
    }
  }

  lemma ScanAppend(data: map<nat, seq<Record>>, ids: seq<nat>, id: nat)
    requires id in data && forall i | i in ids :: i in data
    ensures Scan(data, ids + [id]) == Scan(data, ids) + Fitting(data[id])
  {
    assert (ids + [id])[..|ids|] == ids;
  }

  // ---- Every file operation keeps the invariant ----

  lemma HistoryGrows(d: Disk, hist: seq<Record>, r: Record, n: nat)
    requires Recoverable(d, hist, n) && Increasing(hist + [r]) && Appendable(r)
    ensures Recoverable(d, hist + [r], n)
  {
    assert (hist + [r])[..n] == hist[..n];
    FollowsGrows(Replayable(d.Log()), hist, r, n);
  }

  /** Replay gets through the whole log. */
  ghost predicate Intact(d: Disk) {
    d.tail.Whole? && Replayable(d.Log()) == d.Log()
  }

  lemma AppendedLog(d: Disk, r: Record)
    ensures d.Appended(r).Log() == if d.tail.Whole? then d.Log() + [r] else d.Log()
    ensures Intact(d.Appended(r)) <==> Intact(d) && Fits(r)
    ensures Replayable(d.Appended(r).Log()) == if Intact(d) && Fits(r) then d.Log() + [r] else Replayable(d.Log())
  {
    assert d.tail.Whole? ==> d.Appended(r).Log() == d.Log() + [r];
    ReplayableAppend(d.Log(), r);
    ReplayableAll(d.Log());
  }

  /** Appending a write to a log that holds every unpublished write, unless replay stops before its end. */
  lemma LogAppended(d: Disk, hist: seq<Record>, r: Record, n: nat)
    requires Recoverable(d, hist, n) && Increasing(hist + [r]) && Appendable(r)
    requires Intact(d) ==> Completes(d.Log(), hist, n)
    ensures Recoverable(d.Appended(r), hist + [r], n)
  {
    var e := d.Appended(r);
    assert (hist + [r])[..n] == hist[..n];
    AppendedLog(d, r);
    if Intact(d) && Fits(r) {
      CompletesGrows(d.Log(), hist, r, n);
      CompletesFollows(e.Log(), hist + [r], n);
    } else {
      FollowsGrows(Replayable(d.Log()), hist, r, n);
    }
  }

  /** Writing or removing one file of a table that is not published. */
  lemma UnpublishedFile(d: Disk, e: Disk, hist: seq<Record>, n: nat, id: nat)
    requires Recoverable(d, hist, n) && id !in d.manifest.tables
    requires e == d.(data := e.data, index := e.index, meta := e.meta)
    requires e.data - {id} == d.data - {id} && e.index - {id} == d.index - {id} && e.meta - {id} == d.meta - {id}
    ensures Recoverable(e, hist, n)
  {
    forall t | t in d.manifest.tables
      ensures d.Readable(t) && t in e.data && e.data[t] == d.data[t] && e.Readable(t)
    {
      assert d.Readable(t);
      SameElsewhere(d.data, e.data, id, t);
      SameElsewhere(d.index, e.index, id, t);
      SameElsewhere(d.meta, e.meta, id, t);
    }
    ScanFrame(d.data, e.data, d.manifest.tables);
  }

  lemma SameElsewhere(a: map<nat, seq<Record>>, b: map<nat, seq<Record>>, id: nat, t: nat)
    requires b - {id} == a - {id} && t != id && t in a
    ensures t in b && b[t] == a[t]
  {
    assert t in a - {id};
    assert t in b - {id} && (b - {id})[t] == (a - {id})[t];
  }

  lemma {:induction false} FollowsElements(log: seq<Record>, hist: seq<Record>, n: nat)
    requires n <= |hist| && Follows(log, hist, n)
    ensures Elements(log) <= Elements(hist)
    decreases |log|
  {
    if log <= hist[n..] {
      forall r | r in log
        ensures r in hist
      {
        var i :| 0 <= i < |log| && log[i] == r;
        assert hist[n + i] == r;
      }
    } else {
      FollowsElements(log[1..], hist, n);
      assert log == [log[0]] + log[1..];
      assert log[0] in hist[..n];
    }
  }

  /** Publishing the memtable's table: everything written so far is now covered by tables. */
  lemma PublishFlush(d: Disk, hist: seq<Record>, n: nat, mem: seq<Record>, id: nat, m: Manifest)
    requires Recoverable(d, hist, n) && d.Readable(id) && Completes(mem, hist, n)
    requires d.data[id] == Listing(Newest(mem)) && MaxSeq(hist) < m.nextSeq
    requires m.tables == d.manifest.tables + [id] && m.nextTable >= d.manifest.nextTable && id < m.nextTable
    ensures Recoverable(d.(manifest := m), hist, |hist|)
    ensures Completes([], hist, |hist|)
  {
    assert hist[..|hist|] == hist;
    assert d.(manifest := m).Log() == d.Log();
    FlushCovers(d, hist, n, mem, id);
    FlushBuilt(d, hist, n, mem, id, m);
    PublishedFollows(Replayable(d.Log()), hist, n);
    AllPublished([], hist);
  }

  lemma FlushBuilt(d: Disk, hist: seq<Record>, n: nat, mem: seq<Record>, id: nat, m: Manifest)
    requires Recoverable(d, hist, n) && d.Readable(id) && Completes(mem, hist, n)
    requires d.data[id] == Listing(Newest(mem)) && m.tables == d.manifest.tables + [id]
    ensures Built(d.(manifest := m))
  {
    CompletesElements(mem, hist, n);
    TableIsListing(mem);
    AppendableSubset(d.data[id], hist);
    PublishBuilt(d, id, m);
  }

  /** Once everything is published, any log of the history is behind it. */
  lemma PublishedFollows(log: seq<Record>, hist: seq<Record>, n: nat)
    requires n <= |hist| && Follows(log, hist, n)
    ensures Follows(log, hist, |hist|)
  {
    FollowsElements(log, hist, n);
    AllPublished(log, hist);
    CompletesFollows(log, hist, |hist|);
  }

  /** A table of a flush or a compaction is the listing of its own newest versions. */
  lemma TableIsListing(rs: seq<Record>)
    ensures var table := Listing(Newest(rs));
            table == Listing(Newest(table)) && SortedByNode(table) && Elements(table) <= Elements(rs)
  {
    NewestIsNewest(rs);
    NewestOfListing(Newest(rs));
    ListingIsSorted(Newest(rs));
  }

  lemma PublishBuilt(d: Disk, id: nat, m: Manifest)
    requires Built(d) && id in d.data && IsTable(d.data[id])
    requires forall t | t in m.tables :: t == id || t in d.manifest.tables
    ensures Built(d.(manifest := m))
  {
    assert Unsealed(FilesBuilt);
  }

  lemma AppendableSubset(a: seq<Record>, b: seq<Record>)
    requires Elements(a) <= Elements(b) && AllAppendable(b)
    ensures AllAppendable(a)
  {
    forall r | r in a
      ensures Appendable(r)
    {
      assert r in Elements(a) && r in Elements(b);
    }
  }

  lemma FlushCovers(d: Disk, hist: seq<Record>, n: nat, mem: seq<Record>, id: nat)
    requires Recoverable(d, hist, n) && Completes(mem, hist, n) && d.Readable(id) && d.data[id] == Listing(Newest(mem))
    ensures Covers(Elements(Scan(d.data, d.manifest.tables + [id])), Elements(hist))
  {
    ScanAppend(d.data, d.manifest.tables, id);
    var prior, latest := Scan(d.data, d.manifest.tables), Listing(Newest(mem));
    CompletesElements(mem, hist, n);
    IncreasingOneVersion(hist);
    NewestFitting(mem);
    CoverUnion(Elements(prior), Elements(hist[..n]), Elements(Fitting(latest)), Elements(mem));
    ElementsConcat(prior, Fitting(latest));
  }

  /** What can be read back of a table covers the records it was written from. */
  lemma NewestFitting(rs: seq<Record>)
    requires OneVersion(Elements(rs))
    ensures Covers(Elements(Fitting(Listing(Newest(rs)))), Elements(rs))
  {
    NewestIsNewest(rs);
    FittingListing(Newest(rs));
    NewestCovers(Newest(rs), Elements(Fitting(Listing(Newest(rs)))), Elements(rs));
  }

  lemma FittingListing(m: map<nat, Record>)
    requires KeyedByNode(m)
    ensures Elements(Fitting(Listing(m))) == FittingOf(m.Values)
  {
    ListingIsSorted(m);
    FittingElements(Listing(m));
  }

  /** Publishing a compacted table: dropping superseded versions loses no readable newest version. */
  lemma PublishCompaction(d: Disk, hist: seq<Record>, n: nat, id: nat, m: Manifest)
    requires Recoverable(d, hist, n) && d.Readable(id)
    requires d.data[id] == Listing(Newest(Scan(d.data, d.manifest.tables)))
    requires m.tables == [id] && id < m.nextTable && m.nextSeq >= d.manifest.nextSeq
    ensures Recoverable(d.(manifest := m), hist, n)
  {
    var prior := Scan(d.data, d.manifest.tables);
    IncreasingOneVersion(hist);
    PrefixElements(hist, n);
    NewestFitting(prior);
    CompactionBuilt(d, id, m);
    CoverTransitive(Elements(Fitting(d.data[id])), Elements(prior), Elements(hist[..n]));
    assert Scan(d.data, [id]) == Fitting(d.data[id]) by {
      assert [id] == [] + [id];
      ScanAppend(d.data, [], id);
    }
    assert d.(manifest := m).Log() == d.Log();
  }

  lemma CompactionBuilt(d: Disk, id: nat, m: Manifest)
    requires Built(d) && TablesOk(d) && d.Readable(id) && m.tables == [id]
    requires d.data[id] == Listing(Newest(Scan(d.data, d.manifest.tables)))
    ensures Built(d.(manifest := m))
  {
    assert Unsealed(FilesBuilt);
    ScanAppendable(d.data, d.manifest.tables);
    TableIsListing(Scan(d.data, d.manifest.tables));
    AppendableSubset(d.data[id], Scan(d.data, d.manifest.tables));
    PublishBuilt(d, id, m);
  }

  lemma PrefixElements(hist: seq<Record>, n: nat)
    requires n <= |hist|
    ensures Elements(hist[..n]) <= Elements(hist)
  {
    forall r | r in Elements(hist[..n])
      ensures r in Elements(hist)
    {
      var i :| 0 <= i < n && hist[i] == r;
    }
  }

  lemma {:induction false} ScanAppendable(data: map<nat, seq<Record>>, ids: seq<nat>)
    requires forall id | id in ids :: id in data && AllAppendable(data[id])
    ensures AllAppendable(Scan(data, ids))
  {
    if ids != [] {
      var id := ids[|ids| - 1];
      ScanAppendable(data, ids[..|ids| - 1]);
      FittingElements(data[id]);
      assert id in ids;
      AppendableSubset(Fitting(data[id]), data[id]);
    }
  }

  /** The records of all tables, readable or not. */
  function Stored(data: map<nat, seq<Record>>, ids: seq<nat>): seq<Record>
    requires forall id | id in ids :: id in data
  {
    if ids == [] then [] else Stored(data, ids[..|ids| - 1]) + data[ids[|ids| - 1]]
  }

  lemma {:induction false} ScanIsFitting(data: map<nat, seq<Record>>, ids: seq<nat>)
    requires forall id | id in ids :: id in data
    ensures Elements(Scan(data, ids)) == FittingOf(Elements(Stored(data, ids)))
  {
    if ids != [] {
      var rest, id := ids[..|ids| - 1], ids[|ids| - 1];
      ScanIsFitting(data, rest);
      FittingElements(data[id]);
      ElementsConcat(Scan(data, rest), Fitting(data[id]));
      ElementsConcat(Stored(data, rest), data[id]);
    }
  }

  /**
   Compaction keeps the newest version of every node of the tables if and only if none of those versions is
   too large to be read back.
   */
  lemma CompactionExactIff(data: map<nat, seq<Record>>, ids: seq<nat>)
    requires forall id | id in ids :: id in data
    requires OneVersion(Elements(Stored(data, ids)))
    ensures Newest(Listing(Newest(Scan(data, ids)))) == Newest(Stored(data, ids)) <==>
            forall n | n in Newest(Stored(data, ids)) :: Fits(Newest(Stored(data, ids))[n])
  {
    var scan, all := Scan(data, ids), Stored(data, ids);
    ScanIsFitting(data, ids);
    NewestIsNewest(scan);
    NewestIsNewest(all);
    NewestOfListing(Newest(scan));
    if forall n | n in Newest(all) :: Fits(Newest(all)[n]) {
      forall r | r in all
        ensures r.node in Newest(scan) && r.seqId <= Newest(scan)[r.node].seqId
      {
        assert r in Elements(all);
        assert Newest(all)[r.node] in Elements(scan);
      }
      NewestUnique(Newest(scan), Newest(all), Elements(all));
    }
  }

  /** Once everything is published, the log may be removed. */
  lemma LogRemoved(d: Disk, hist: seq<Record>)
    requires Recoverable(d, hist, |hist|)
    ensures Recoverable(d.(wal := [], buffered := [], tail := Whole), hist, |hist|)
  {
    assert d.(wal := [], buffered := [], tail := Whole).Log() == [];
    assert Replayable([]) == [];
    AllPublished([], hist);
    CompletesFollows([], hist, |hist|);
  }

  /** Draining the stream's buffer does not change what the log stands for. */
  lemma LogDrained(sum: Checksum, d: Disk, hist: seq<Record>, n: nat)
    requires Recoverable(d, hist, n)
    ensures Recoverable(d.Drained(sum), hist, n) && d.Drained(sum).Log() == d.Log()
    ensures d.tail.Whole? ==> d.Drained(sum) == d.(wal := d.wal + d.buffered, buffered := [])
  {
    DrainedShape(sum, d);
    var e := d.Drained(sum);
    assert e.Log() == e.wal;
  }

  lemma DrainedShape(sum: Checksum, d: Disk)
    requires Built(d)
    ensures LeftOf(d, d.Drained(sum)) && d.Drained(sum).wal == d.Log()
    ensures d.tail.Whole? ==> d.Drained(sum) == d.(wal := d.wal + d.buffered, buffered := [])
  {
    CrashedShape(sum, d, |d.buffered|, 0);
    assert d.buffered[..|d.buffered|] == d.buffered;
  }

  /** A crash leaves files of the right shape, and a tail whose first bytes are a torn record. */
  lemma CrashedBuilt(sum: Checksum, d: Disk, kept: nat, cut: nat)
    requires Built(d) && d.CrashPoint(kept, cut)
    ensures Built(d.Crashed(sum, kept, cut)) && d.Crashed(sum, kept, cut).tail.Ok()
  {
    assert Unsealed(FilesBuilt);
    CrashedTail(sum, d, kept, cut);
    CrashedWal(sum, d, kept, cut);
    LeftBuilt(d, d.Crashed(sum, kept, cut));
  }

  lemma LeftBuilt(d: Disk, e: Disk)
    requires Built(d) && e == d.(wal := e.wal, buffered := [], tail := e.tail) && AllAppendable(e.wal) && e.tail.Ok()
    ensures Built(e)
  {
  }

  lemma CrashedWal(sum: Checksum, d: Disk, kept: nat, cut: nat)
    requires d.CrashPoint(kept, cut) && AllAppendable(d.wal) && AllAppendable(d.buffered)
    ensures var e := d.Crashed(sum, kept, cut);
            e == d.(wal := e.wal, buffered := [], tail := e.tail) && AllAppendable(e.wal)
  {
    assert forall r | r in d.wal + d.buffered[..kept] :: r in d.wal || r in d.buffered;
  }

  lemma CrashedTail(sum: Checksum, d: Disk, kept: nat, cut: nat)
    requires d.CrashPoint(kept, cut) && AllAppendable(d.buffered) && d.tail.Ok()
    ensures d.Crashed(sum, kept, cut).tail.Ok()
  {
    if d.tail.Torn? {
      var torn := if cut == 0 then [] else Take(EncodeRecord(sum, d.buffered[kept]), cut);
      if cut > 0 {
        EncodedStart(sum, d.buffered[kept]);
      }
      BehindOk(sum, d.buffered[..kept], torn);
      StillBehind(d.tail.behind, EncodeAll(sum, d.buffered[..kept]) + torn);
    }
  }

  lemma StillBehind(a: seq<Byte>, b: seq<Byte>)
    requires (a == [] || a[0] == START[0]) && (b == [] || b[0] == START[0])
    ensures a + b == [] || (a + b)[0] == START[0]
  {
  }

  lemma BehindOk(sum: Checksum, rs: seq<Record>, torn: seq<Byte>)
    ensures torn == [] || torn[0] == START[0] ==>
              var b := EncodeAll(sum, rs) + torn; b == [] || b[0] == START[0]
  {
    EncodedFirst(sum, rs);
  }

  /**
   A crash keeps some of the buffered log and may tear the next record. The whole records that survive are a
   prefix of the history that contains all published ones, and the disk is recoverable for exactly that prefix.
   */
  lemma CrashKeepsPrefix(sum: Checksum, d: Disk, hist: seq<Record>, n: nat, kept: nat, cut: nat) returns (j: nat)
    requires Recoverable(d, hist, n) && d.CrashPoint(kept, cut)
    ensures n <= j <= |hist|
    ensures var e := d.Crashed(sum, kept, cut);
            && Recoverable(e, hist[..j], n)
            && Completes(Replayable(e.wal), hist[..j], n)
            && (e.tail.Stops(sum) ==> Completes(Replayed(sum, e.wal, e.tail), hist[..j], n))
  {
    var e := d.Crashed(sum, kept, cut);
    CrashedShape(sum, d, kept, cut);
    j := CutReplay(d.Log(), hist, n, |e.wal|);
    assert e.wal == d.Log()[..|e.wal|];
    LeftRecoverable(d, e, hist, n, j);
    if e.tail.Stops(sum) {
      ReplayedStops(sum, e.wal, e.tail);
    }
  }

  /** `e` is `d` after a crash: same tables, a part of the log, no buffer. */
  ghost predicate LeftOf(d: Disk, e: Disk) {
    e == d.(wal := e.wal, buffered := [], tail := e.tail) && e.wal <= d.Log() && Built(e)
  }

  lemma CrashedShape(sum: Checksum, d: Disk, kept: nat, cut: nat)
    requires Built(d) && d.CrashPoint(kept, cut)
    ensures LeftOf(d, d.Crashed(sum, kept, cut))
  {
    CrashedBuilt(sum, d, kept, cut);
    assert d.wal + d.buffered[..kept] <= d.wal + d.buffered;
  }

  /** Cutting the log anywhere leaves a log of which replay yields a prefix of the history's end. */
  lemma CutReplay(log: seq<Record>, hist: seq<Record>, n: nat, len: nat) returns (j: nat)
    requires n <= |hist| && Follows(Replayable(log), hist, n) && len <= |log|
    ensures n <= j <= |hist| && Completes(Replayable(log[..len]), hist[..j], n)
  {
    ReplayablePrefix(log, len);
    var good := Replayable(log);
    j := CutLog(good, hist, n, if len <= |good| then len else |good|);
    assert good[..|good|] == good;
  }

  lemma LeftRecoverable(d: Disk, e: Disk, hist: seq<Record>, n: nat, j: nat)
    requires Recoverable(d, hist, n) && LeftOf(d, e) && n <= j <= |hist| && Completes(Replayable(e.wal), hist[..j], n)
    ensures Recoverable(e, hist[..j], n)
  {
    CompletesFollows(Replayable(e.wal), hist[..j], n);
    assert hist[..j][..n] == hist[..n];
    IncreasingPrefix(hist, j);
    PrefixElements(hist, j);
    AppendableSubset(hist[..j], hist);
    assert e.Log() == e.wal;
  }

  /**
   Loading tables and log gives a node its newest version in the history they stand for if and only if that
   version is not too large.
   */
  lemma LoadedIsNewest(sum: Checksum, d: Disk, hist: seq<Record>, n: nat, node: nat)
    requires Recoverable(d, hist, n) && Completes(Replayed(sum, d.wal, d.tail), hist, n)
    ensures SameAt(Newest(Recovered(sum, d)), Newest(hist), node) <==> Shown(Newest(hist), node)
  {
    LoadedCovers(sum, d, hist, n);
    IncreasingOneVersion(hist);
    RecoveredFit(sum, d);
    NewestOfCover(Recovered(sum, d), hist, node);
  }

  lemma LoadedCovers(sum: Checksum, d: Disk, hist: seq<Record>, n: nat)
    requires Recoverable(d, hist, n) && Completes(Replayed(sum, d.wal, d.tail), hist, n)
    ensures Covers(Elements(Recovered(sum, d)), Elements(hist))
  {
    var tables, log := Scan(d.data, d.manifest.tables), Replayed(sum, d.wal, d.tail);
    CoverSelf(Elements(log));
    CoverUnion(Elements(tables), Elements(hist[..n]), Elements(log), Elements(log));
    ElementsConcat(tables, log);
    CompletesElements(log, hist, n);
  }

  lemma CoverSelf(pool: set<Record>)
    ensures Covers(pool, pool)
  {
  }

  // ---- Which acknowledged writes a crash can lose ----

  /** The newest-version map of the history is recovered if and only if none of these versions is too large. */
  lemma AllRecovered(sum: Checksum, d: Disk, hist: seq<Record>, n: nat)
    requires Recoverable(d, hist, n) && Completes(Replayed(sum, d.wal, d.tail), hist, n)
    ensures Newest(Recovered(sum, d)) == Newest(hist) <==> forall m | m in Newest(hist) :: Fits(Newest(hist)[m])
  {
    forall node
      ensures SameAt(Newest(Recovered(sum, d)), Newest(hist), node) <==> Shown(Newest(hist), node)
    {
      LoadedIsNewest(sum, d, hist, n, node);
    }
    SameEverywhere(Newest(Recovered(sum, d)), Newest(hist));
  }

  lemma {:induction false} CompletesLast(log: seq<Record>, hist: seq<Record>, n: nat)
    requires n < |hist| && Completes(log, hist, n)
    ensures log != [] && log[|log| - 1] == hist[|hist| - 1]
    decreases |log|
  {
    if log != hist[n..] {
      CompletesLast(log[1..], hist, n);
    }
  }

  /** The newest write is in the log only as its last record. */
  lemma {:induction false} LastOnlyAtEnd(log: seq<Record>, hist: seq<Record>, n: nat)
    requires n < |hist| && Completes(log, hist, n) && Increasing(hist)
    ensures log != [] && hist[|hist| - 1] !in log[..|log| - 1]
    decreases |log|
  {
    var last := hist[|hist| - 1];
    if log == hist[n..] {
      forall i | 0 <= i < |log| - 1
        ensures log[i] != last
      {
        IncreasingPairs(hist, n + i, |hist| - 1);
      }
    } else {
      LastOnlyAtEnd(log[1..], hist, n);
      assert log[0] in hist[..n];
      var i :| 0 <= i < n && hist[i] == log[0];
      IncreasingPairs(hist, i, |hist| - 1);
      assert log[..|log| - 1] == [log[0]] + log[1..][..|log| - 2];
    }
  }

  /** A crash that loses the end of the log loses the newest write, unless it was published. */
  lemma LastWriteLost(sum: Checksum, d: Disk, hist: seq<Record>, n: nat, kept: nat, cut: nat)
    requires Recoverable(d, hist, n) && d.tail.Whole? && Completes(d.Log(), hist, n) && n < |hist|
    requires d.CrashPoint(kept, cut) && kept < |d.buffered|
    ensures var e := d.Crashed(sum, kept, cut);
            hist[|hist| - 1] !in Recovered(sum, e) && Newest(Recovered(sum, e)) != Newest(hist)
  {
    var last, e := hist[|hist| - 1], d.Crashed(sum, kept, cut);
    WholeCrashed(sum, d, kept, cut);
    LogLacksLast(d.Log(), hist, n, |d.wal| + kept);
    TablesLackLast(Elements(Scan(d.data, d.manifest.tables)), hist, n);
    ElementsConcat(Scan(d.data, d.manifest.tables), Replayable(e.wal));
    assert last !in Elements(Recovered(sum, e));
    LostIsNotNewest(Recovered(sum, e), hist);
  }

  /** After a crash of a log without a tail, replay stops at what the crash tore. */
  lemma WholeCrashed(sum: Checksum, d: Disk, kept: nat, cut: nat)
    requires Built(d) && d.tail.Whole? && d.CrashPoint(kept, cut)
    ensures var e := d.Crashed(sum, kept, cut);
            && e.wal == d.Log()[..|d.wal| + kept]
            && e.tail.Stops(sum) && Replayed(sum, e.wal, e.tail) == Replayable(e.wal)
  {
    var e := d.Crashed(sum, kept, cut);
    CrashedBuilt(sum, d, kept, cut);
    HarmlessStops(sum, e.tail);
    ReplayedStops(sum, e.wal, e.tail);
    assert d.wal + d.buffered[..kept] == (d.wal + d.buffered)[..|d.wal| + kept];
  }

  lemma LostIsNotNewest(rs: seq<Record>, hist: seq<Record>)
    requires Increasing(hist) && hist != [] && hist[|hist| - 1] !in Elements(rs)
    ensures Newest(rs) != Newest(hist)
  {
    LastIsNewest(hist);
    NewestIsNewest(rs);
  }

  lemma LogLacksLast(log: seq<Record>, hist: seq<Record>, n: nat, len: nat)
    requires n < |hist| && Completes(log, hist, n) && Increasing(hist) && len < |log|
    ensures hist[|hist| - 1] !in Replayable(log[..len])
  {
    LastOnlyAtEnd(log, hist, n);
    ReplayableAll(log[..len]);
    var good := Replayable(log[..len]);
    forall r | r in good
      ensures r != hist[|hist| - 1]
    {
      var i :| 0 <= i < |good| && good[i] == r;
      assert log[..|log| - 1][i] == r;
    }
  }

  lemma TablesLackLast(tables: set<Record>, hist: seq<Record>, n: nat)
    requires n < |hist| && Increasing(hist) && tables <= Elements(hist[..n])
    ensures hist[|hist| - 1] !in tables
  {
    forall r | r in tables
      ensures r != hist[|hist| - 1]
    {
      assert r in Elements(hist[..n]);
      var i :| 0 <= i < n && hist[i] == r;
      IncreasingPairs(hist, i, |hist| - 1);
    }
  }

  lemma LastIsNewest(hist: seq<Record>)
    requires Increasing(hist) && hist != []
    ensures var last := hist[|hist| - 1]; last.node in Newest(hist) && Newest(hist)[last.node] == last
  {
    var last := hist[|hist| - 1];
    NewestIsNewest(hist);
    assert last in Elements(hist);
    var m := Newest(hist)[last.node];
    assert m in Elements(hist);
    var i :| 0 <= i < |hist| && hist[i] == m;
    if i < |hist| - 1 {
      IncreasingPairs(hist, i, |hist| - 1);
    }
  }

  /**
   Exactly when no crash can lose an acknowledged write of a log that replay gets through: everything is
   published, or nothing is left in the stream's buffer.
   */
  lemma NothingLostIff(sum: Checksum, d: Disk, hist: seq<Record>, n: nat)
    requires Recoverable(d, hist, n) && Intact(d) && Completes(d.Log(), hist, n)
    requires forall m | m in Newest(hist) :: Fits(Newest(hist)[m])
    ensures (forall kept: nat, cut: nat | d.CrashPoint(kept, cut) ::
               Newest(Recovered(sum, d.Crashed(sum, kept, cut))) == Newest(hist)) <==>
            n == |hist| || d.buffered == []
  {
    if n < |hist| && d.buffered != [] {
      assert d.CrashPoint(0, 0);
      LastWriteLost(sum, d, hist, n, 0, 0);
    } else {
      forall kept: nat, cut: nat | d.CrashPoint(kept, cut)
        ensures Newest(Recovered(sum, d.Crashed(sum, kept, cut))) == Newest(hist)
      {
        NothingLost(sum, d, hist, n, kept, cut);
      }
    }
  }

  lemma NothingLost(sum: Checksum, d: Disk, hist: seq<Record>, n: nat, kept: nat, cut: nat)
    requires Recoverable(d, hist, n) && Intact(d) && Completes(d.Log(), hist, n)
    requires forall m | m in Newest(hist) :: Fits(Newest(hist)[m])
    requires (n == |hist| || d.buffered == []) && d.CrashPoint(kept, cut)
    ensures (forall id | id in d.manifest.tables :: id in d.data)
            && Newest(Recovered(sum, d.Crashed(sum, kept, cut))) == Newest(hist)
  {
    var e := d.Crashed(sum, kept, cut);
    WholeCrashed(sum, d, kept, cut);
    if n == |hist| {
      var j := CrashKeepsPrefix(sum, d, hist, n, kept, cut);
      assert hist[..j] == hist;
    } else {
      assert e.wal == d.Log();
      assert hist[..|hist|] == hist;
      CrashedShape(sum, d, kept, cut);
      LeftRecoverable(d, e, hist, n, |hist|);
    }
    AllRecovered(sum, e, hist, n);
  }

  /**
   Exactly when a write all of whose bytes reached the log is recovered, if replay stops at the log's tail:
   when it is not too large and replay gets through the log before it. Replay does stop at the tail if the
   log had none, or one cut within its first seven bytes.
   */
  lemma LoggedWriteRecoveredIff(sum: Checksum, d: Disk, hist: seq<Record>, n: nat, r: Record)
    requires Recoverable(d, hist, n) && Increasing(hist + [r]) && Appendable(r)
    ensures var e := d.Appended(r).Drained(sum);
            && (forall id | id in d.manifest.tables :: id in d.data)
            && (e.tail.Stops(sum) ==> (r in Recovered(sum, e) <==> Fits(r) && Intact(d)))
            && (d.tail.Whole? || d.tail.cut <= 7 ==> e.tail.Stops(sum))
  {
    var e := d.Appended(r).Drained(sum);
    if d.tail.Whole? || d.tail.cut <= 7 {
      DrainedStops(sum, d, r);
    }
    if e.tail.Stops(sum) {
      ReplayedStops(sum, e.wal, e.tail);
      DrainedLog(sum, d, r);
      DrainedReplay(d, hist, n, r);
      assert r in Recovered(sum, e) <==> r in Scan(d.data, d.manifest.tables) || r in Replayable(e.wal);
    }
  }

  lemma AppendedBuilt(d: Disk, r: Record)
    requires Built(d) && Appendable(r)
    ensures Built(d.Appended(r))
  {
    assert Unsealed(FilesBuilt);
    assert forall q | q in d.buffered + [r] :: q in d.buffered || q == r;
  }

  lemma DrainedStops(sum: Checksum, d: Disk, r: Record)
    requires Built(d) && Appendable(r) && (d.tail.Whole? || d.tail.cut <= 7)
    ensures d.Appended(r).Drained(sum).tail.Stops(sum)
  {
    AppendedBuilt(d, r);
    CrashedBuilt(sum, d.Appended(r), |d.Appended(r).buffered|, 0);
    HarmlessStops(sum, d.Appended(r).Drained(sum).tail);
  }

  lemma DrainedReplay(d: Disk, hist: seq<Record>, n: nat, r: Record)
    requires Recoverable(d, hist, n) && Increasing(hist + [r])
    ensures (forall id | id in d.manifest.tables :: id in d.data) && r !in Scan(d.data, d.manifest.tables)
    ensures r in Replayable(d.Appended(r).Log()) <==> Fits(r) && Intact(d)
  {
    AppendedLog(d, r);
    OldWrites(d, hist, n, r);
  }

  lemma DrainedLog(sum: Checksum, d: Disk, r: Record)
    ensures d.Appended(r).Drained(sum).wal == d.Appended(r).Log()
  {
    var b := d.Appended(r).buffered;
    assert b[..|b|] == b;
  }

  /** Tables and log hold only earlier writes. */
  lemma OldWrites(d: Disk, hist: seq<Record>, n: nat, r: Record)
    requires Recoverable(d, hist, n) && Increasing(hist + [r])
    ensures r !in Scan(d.data, d.manifest.tables) && r !in Replayable(d.Log())
  {
    FollowsElements(Replayable(d.Log()), hist, n);
    PrefixElements(hist, n);
    if r in hist {
      var i :| 0 <= i < |hist| && hist[i] == r;
      IncreasingPairs(hist + [r], i, |hist|);
    }
    assert forall q | q in Scan(d.data, d.manifest.tables) :: q in Elements(Scan(d.data, d.manifest.tables));
    assert forall q | q in Replayable(d.Log()) :: q in Elements(Replayable(d.Log()));
  }

  /** A write that is too large is not recovered, whatever the log's tail. */
  lemma LargeWriteLost(sum: Checksum, d: Disk, r: Record)
    requires TablesOk(d) && !Fits(r)
    ensures (forall id | id in d.manifest.tables :: id in d.data)
            && r !in Recovered(sum, d.Appended(r).Drained(sum))
  {
    RecoveredFit(sum, d.Appended(r).Drained(sum));
  }

  /** Only records that are not too large are ever recovered. */
  lemma RecoveredFit(sum: Checksum, d: Disk)
    requires TablesOk(d)
    ensures (forall id | id in d.manifest.tables :: id in d.data) && forall r | r in Recovered(sum, d) :: Fits(r)
  {
    assert forall id | id in d.manifest.tables :: id in d.data by {
      forall id | id in d.manifest.tables ensures id in d.data { assert d.Readable(id); }
    }
    ScanIsFitting(d.data, d.manifest.tables);
    ReplayedFits(sum, d.wal, d.tail);
    forall r | r in Recovered(sum, d)
      ensures Fits(r)
    {
      assert r in Elements(Scan(d.data, d.manifest.tables)) || r in Replayed(sum, d.wal, d.tail);
    }
  }

  lemma ReplayedFits(sum: Checksum, rs: seq<Record>, t: Tail)
    ensures forall r | r in Replayed(sum, rs, t) :: Fits(r)
  {
    ReplayedIs(sum, rs, t);
    ReplayableFits(rs);
    ParseFits(sum, t.Bytes(sum));
  }

  lemma {:induction false} ParseFits(sum: Checksum, b: seq<Byte>)
    ensures forall r | r in Parse(sum, b) :: Fits(r)
    decreases |b|
  {
    var p := ReadRecord(sum, b);
    if p.Parsed? {
      ParseFits(sum, b[p.size..]);
    }
  }

  lemma {:induction false} ReplayableFits(rs: seq<Record>)
    ensures forall r | r in Replayable(rs) :: Fits(r)
  {
    if rs != [] && Fits(rs[0]) {
      ReplayableFits(rs[1..]);
    }
  }
}
