/**
 The files as bytes. `Storage` keeps the record lists the files were written from and reads them through
 `Fitting` and `Replayed`; here the log is written and replayed, and every table written, opened and scanned,
 byte by byte, and the result is the same, for every state a run goes through.
 */
module DiskBytes {
  import opened Sealing
  import opened TopK
  import opened Records
  import opened Bytes
  import opened Storage
  import Wal
  import SsTable
  import WriteManager

  /** A table's records are in node order, and lengths and offsets fit their fields. */
  ghost predicate TableEncodable(sum: Checksum, rs: seq<Record>) {
    && rs == Listing(Newest(rs))
    && SsTable.Storable(r => SsTable.EncodeRecord(sum, r), rs)
  }

  ghost predicate Encodable(sum: Checksum, d: Disk) {
    && (forall id | id in d.manifest.tables :: id in d.data && TableEncodable(sum, d.data[id]))
    && forall r | r in d.wal :: Wal.InRange(r) && Wal.Appendable(r)
  }

  /** The numbers on the disk fit their fields: ids and words of the records, sizes of the tables. */
  ghost predicate Ranged(sum: Checksum, d: Disk) {
    && (forall id | id in d.manifest.tables :: id in d.data ==> TableRanged(sum, d.data[id]))
    && forall r | r in d.wal :: Wal.InRange(r)
  }

  ghost predicate TableRanged(sum: Checksum, rs: seq<Record>) {
    && (forall r | r in rs :: Wal.InRange(r))
    && |SsTable.EncodeData(r => SsTable.EncodeRecord(sum, r), rs)| < U64 && |rs| < U64
  }

  /** Every disk a run can reach is encodable, if its numbers fit. */
  lemma StateEncodable(sum: Checksum, d: Disk)
    requires Built(d) && Ranged(sum, d)
    ensures Encodable(sum, d)
  {
    assert Unsealed(FilesBuilt);
    forall id | id in d.manifest.tables
      ensures id in d.data && TableEncodable(sum, d.data[id])
    {
      ListedTable(sum, d.data[id]);
    }
  }

  lemma ListedTable(sum: Checksum, rs: seq<Record>)
    requires IsTable(rs) && TableRanged(sum, rs)
    ensures TableEncodable(sum, rs)
  {
    TableIsListing(rs);
  }

  /** Scanning passes over what cannot be read and keeps the order of the rest. */
  lemma {:induction false} ReadableListing(m: map<nat, Record>)
    requires KeyedByNode(m)
    ensures Listing(SsTable.Readable(m)) == Fitting(Listing(m))
    decreases |m|
  {
    if m == map[] {
      assert SsTable.Readable(m) == map[];
    } else {
      var n, rest := ListingStep(m);
      ReadableListing(rest);
      FittingStep(Listing(rest), m[n]);
      ReadableStep(m, n, rest);
    }
  }

  lemma FittingStep(rs: seq<Record>, r: Record)
    ensures Fitting(rs + [r]) == Fitting(rs) + if Fits(r) then [r] else []
  {
    assert (rs + [r])[..|rs|] == rs;
  }

  lemma ReadableStep(m: map<nat, Record>, n: nat, rest: map<nat, Record>)
    requires n in m && rest == m - {n} && forall k | k in rest :: k < n
    ensures Fits(m[n]) ==> Listing(SsTable.Readable(m)) == Listing(SsTable.Readable(rest)) + [m[n]]
    ensures !Fits(m[n]) ==> SsTable.Readable(m) == SsTable.Readable(rest)
  {
    ReadableWithout(m, n);
    var read := SsTable.Readable(m);
    if Fits(m[n]) {
      forall k | k in read
        ensures k <= n
      {
        assert k == n || k in rest;
      }
      GreatestLast(read, n);
    }
  }

  lemma ReadableWithout(m: map<nat, Record>, n: nat)
    requires n in m
    ensures SsTable.Readable(m) - {n} == SsTable.Readable(m - {n})
    ensures if Fits(m[n]) then n in SsTable.Readable(m) && SsTable.Readable(m)[n] == m[n]
            else SsTable.Readable(m) == SsTable.Readable(m - {n})
  {
  }

  lemma GreatestLast(m: map<nat, Record>, n: nat)
    requires n in m && forall k | k in m :: k <= n
    ensures Listing(m) == Listing(m - {n}) + [m[n]]
  {
    var k, rest := ListingStep(m);
    assert k == n || n in rest;
  }

  lemma NextPrefix(log: seq<Record>, i: nat)
    requires i <= |log|
    ensures if i < |log| then log[..i + 1] == log[..i] + [log[i]] && log[i] in log else log[..i] == log
  {
  }

  /** Appends the records one by one. */
  method WriteLog(sum: Checksum, log: seq<Record>) returns (bytes: seq<Byte>)
    requires forall r | r in log :: Wal.Appendable(r)
    ensures bytes == Wal.EncodeAll(sum, log)
  {
    var writer := new Wal.WalWriter(sum);
    for i := 0 to |log|
      invariant fresh(writer) && writer.Valid() && !writer.closed && writer.records == log[..i]
    {
      NextPrefix(log, i);
      var ok := writer.Append(log[i]);
    }
    NextPrefix(log, |log|);
    assert Unsealed(LogEncoded);
    bytes := writer.output;
  }

  /** Writes the log and replays the bytes, with any tail behind its whole records. */
  method ReplayBytes(sum: Checksum, log: seq<Record>, tail: Wal.Tail) returns (records: seq<Record>)
    requires forall r | r in log :: Wal.InRange(r) && Wal.Appendable(r)
    ensures records == Wal.Replayed(sum, log, tail)
  {
    var bytes := WriteLog(sum, log);
    records := Wal.Replay(sum, bytes + tail.Bytes(sum));
    Wal.ReplayBehind(sum, log, tail.Bytes(sum));
    Wal.ReplayedIs(sum, log, tail);
  }

  /** Writes, opens and scans one table. */
  method ScanBytes(sum: Checksum, rs: seq<Record>) returns (records: seq<Record>)
    requires TableEncodable(sum, rs)
    ensures records == Fitting(rs)
  {
    var ok;
    ok, records := SsTable.WriteOpenScan(sum, rs);
    NewestIsNewest(rs);
    ReadableListing(Newest(rs));
  }

  /** Writes, opens and scans one table after the other. */
  method ScanAllBytes(sum: Checksum, data: map<nat, seq<Record>>, ids: seq<nat>) returns (records: seq<Record>)
    requires forall id | id in ids :: id in data && TableEncodable(sum, data[id])
    ensures records == Scan(data, ids)
    decreases |ids|
  {
    records := [];
    if ids != [] {
      var id := ids[|ids| - 1];
      assert id in ids;
      var scanned := ScanBytes(sum, data[id]);
      records := ScanAllBytes(sum, data, ids[..|ids| - 1]);
      records := records + scanned;
    }
  }

  /** Recovery from bytes: the tables of the manifest, then the log with its tail. */
  method RecoverFromBytes(sum: Checksum, d: Disk) returns (records: seq<Record>)
    requires Encodable(sum, d)
    ensures records == Recovered(sum, d)
  {
    var scanned := ScanAllBytes(sum, d.data, d.manifest.tables);
    var replayed := ReplayBytes(sum, d.wal, d.tail);
    records := scanned + replayed;
  }

  /** Any state of any run, as bytes: what is read of it is what the results about crashes speak of. */
  method RecoverState(store: WriteManager.FileStore, ghost hist: seq<Record>, i: nat) returns (records: seq<Record>)
    requires store.Safe(hist) && i < |store.states| && Ranged(store.sum, store.states[i])
    ensures TablesOk(store.states[i]) && records == Recovered(store.sum, store.states[i])
  {
    WriteManager.RecoverableAt(store.states, store.published, hist, i);
    StateEncodable(store.sum, store.states[i]);
    records := RecoverFromBytes(store.sum, store.states[i]);
  }
}
