/**
 Sorted tables: a data file of records in node order, an index file of (node, sequence, offset)
 entries, and a metadata file holding the record count. Its JSON text is not part of this model.
 */
module SsTable {
  import opened TopK
  import opened Bytes
  import opened Records
  import Wal

  const DATA_MAGIC: nat := 0x44535450
  const INDEX_MAGIC: nat := 0x49535450
  const VERSION: nat := 1

  // magic, version, deleted, sequence_id, node_id, dim, vector_bytes, neighbor_count, checksum
  const WIDTHS: seq<nat> := [4, 2, 1, 8, 8, 4, 4, 4, 4]
  const HEADER: nat := 39

  // magic, version, record count
  const INDEX_WIDTHS: seq<nat> := [4, 2, 8]
  const INDEX_HEADER: nat := 14

  // node id, sequence id, data offset
  const ENTRY_WIDTHS: seq<nat> := [8, 8, 8]
  const ENTRY: nat := 24

  lemma Sizes()
    ensures Total(WIDTHS) == HEADER && Total(INDEX_WIDTHS) == INDEX_HEADER && Total(ENTRY_WIDTHS) == ENTRY
  {
    assert Total([4, 4]) == 8;
    assert Total([4, 4, 4]) == 12;
    assert Total([4, 4, 4, 4]) == 16;
    assert Total([8, 4, 4, 4, 4]) == 24;
    assert Total([8, 8, 4, 4, 4, 4]) == 32;
    assert Total([1, 8, 8, 4, 4, 4, 4]) == 33;
    assert Total([2, 1, 8, 8, 4, 4, 4, 4]) == 35;
    assert Total([8]) == 8;
    assert Total([2, 8]) == 10;
    assert Total([8, 8]) == 16;
  }

  // ---- Data records ----

  function HeaderFields(sum: Checksum, r: Record): (h: seq<nat>)
    ensures |h| == |WIDTHS|
  {
    [DATA_MAGIC, VERSION, if r.deleted then 1 else 0, r.seqId, r.node, r.dim, 4 * |r.vector|,
     |r.neighbors|, sum(r.vector, r.neighbors) % U32]
  }

  function EncodeRecord(sum: Checksum, r: Record): (b: seq<Byte>)
    ensures |b| == HEADER + PayloadBytes(r)
  {
    Sizes();
    EncodeParts(HeaderFields(sum, r), WIDTHS, r.vector, r.neighbors)
  }

  /** `data_header_is_valid`. */
  predicate HeaderValid(h: seq<nat>)
    requires |h| == |WIDTHS|
  {
    && h[0] == DATA_MAGIC && h[1] == VERSION && h[2] <= 1
    && h[5] <= (U32 - 1) / 4 && h[6] == 4 * h[5]
    && h[6] + 4 * h[7] <= MAX_PAYLOAD
    && h[4] < U32
  }

  datatype Option<T> = None | Some(value: T)

  /** `read_record_at`, on the bytes from the offset on. */
  function ReadRecord(sum: Checksum, b: seq<Byte>): Option<Record> {
    Sizes();
    if |b| < HEADER then None else ReadPayload(sum, DecodeFields(b, WIDTHS), b[HEADER..])
  }

  function ReadPayload(sum: Checksum, h: seq<nat>, payload: seq<Byte>): Option<Record>
    requires |h| == |WIDTHS|
  {
    if !HeaderValid(h) || |payload| < 4 * h[5] + 4 * h[7] then
      None
    else
      var vector := DecodeWords(payload, h[5]);
      var neighbors := DecodeWords(payload[4 * h[5]..], h[7]);
      if sum(vector, neighbors) % U32 != h[8] then
        None
      else
        Some(Record(h[3], h[4], h[5], vector, neighbors, h[2] != 0))
  }

  lemma HeaderFits(sum: Checksum, r: Record)
    requires Wal.InRange(r) && Wal.Appendable(r)
    ensures FieldsFit(HeaderFields(sum, r), WIDTHS)
  {
    Pow256Values();
    var h := HeaderFields(sum, r);
    assert h[0] < Pow256(4) && h[1] < Pow256(2) && h[2] < Pow256(1) && h[3] < Pow256(8);
    assert h[4] < Pow256(8) && h[5] < Pow256(4) && h[6] < Pow256(4) && h[7] < Pow256(4);
    assert h[8] < Pow256(4);
  }

  lemma PayloadEncoded(sum: Checksum, r: Record, payload: seq<Byte>)
    requires Wal.Appendable(r) && r.node < U32 && |payload| >= PayloadBytes(r)
    requires DecodeWords(payload, |r.vector|) == r.vector
    requires DecodeWords(payload[4 * |r.vector|..], |r.neighbors|) == r.neighbors
    ensures ReadPayload(sum, HeaderFields(sum, r), payload) ==
            if PayloadBytes(r) <= MAX_PAYLOAD then Some(r) else None
  {
  }

  /** A stored record is read back exactly when its payload is within the limit of the reader. */
  lemma ReadEncoded(sum: Checksum, r: Record, rest: seq<Byte>)
    requires Wal.InRange(r) && Wal.Appendable(r)
    ensures ReadRecord(sum, EncodeRecord(sum, r) + rest) ==
            if PayloadBytes(r) <= MAX_PAYLOAD then Some(r) else None
  {
    Sizes();
    HeaderFits(sum, r);
    PartsRoundTrip(HeaderFields(sum, r), WIDTHS, r.vector, r.neighbors, rest);
    PayloadEncoded(sum, r, (EncodeRecord(sum, r) + rest)[HEADER..]);
  }

  /** The last header field is the payload's checksum. */
  lemma ChecksumPlace(sum: Checksum, r: Record)
    ensures EncodeRecord(sum, r)[35..39] == Encode(sum(r.vector, r.neighbors) % U32, 4)
  {
    Sizes();
    FieldPlace(HeaderFields(sum, r), WIDTHS, 8);
    assert WIDTHS[..9] == WIDTHS;
    assert Total(WIDTHS[..8]) == 35;
  }

  /** A lookup reads a record exactly where its encoding stands: everything else is refused. */
  lemma ReadIff(sum: Checksum, b: seq<Byte>, r: Record)
    ensures ReadRecord(sum, b) == Some(r) <==>
            Wal.InRange(r) && Wal.Appendable(r) && Fits(r) && EncodeRecord(sum, r) <= b
  {
    if EncodeRecord(sum, r) <= b && Wal.InRange(r) && Wal.Appendable(r) && Fits(r) {
      var rest := b[|EncodeRecord(sum, r)|..];
      ReadEncoded(sum, r, rest);
      assert b == EncodeRecord(sum, r) + rest;
    }
    if ReadRecord(sum, b) == Some(r) {
      ReadIsEncoded(sum, b, r);
    }
  }

  lemma ReadIsEncoded(sum: Checksum, b: seq<Byte>, r: Record)
    requires ReadRecord(sum, b) == Some(r)
    ensures Wal.InRange(r) && Wal.Appendable(r) && Fits(r) && EncodeRecord(sum, r) <= b
  {
    Sizes();
    Pow256Values();
    var h := DecodeFields(b, WIDTHS);
    PayloadRead(sum, h, b[HEADER..], r);
    PartsExact(b, WIDTHS, h[5], h[7]);
    assert h[3] < Pow256(8) && h[5] < Pow256(4);
  }

  /** The header of a record that was read is the one it is written with. */
  lemma PayloadRead(sum: Checksum, h: seq<nat>, payload: seq<Byte>, r: Record)
    requires |h| == |WIDTHS| && ReadPayload(sum, h, payload) == Some(r)
    ensures HeaderFields(sum, r) == h && Wal.Appendable(r) && Fits(r) && r.node < U32
    ensures |payload| >= 4 * h[5] + 4 * h[7]
    ensures r.vector == DecodeWords(payload, h[5]) && r.neighbors == DecodeWords(payload[4 * h[5]..], h[7])
  {
  }

  // ---- Files ----
  //
  // The file layout does not depend on how one record is encoded, so it is stated for any encoder.

  type Encoder = Record -> seq<Byte>
  type Decoder = seq<Byte> -> Option<Record>

  function EncodeData(enc: Encoder, rs: seq<Record>): seq<Byte> {
    if rs == [] then [] else enc(rs[0]) + EncodeData(enc, rs[1..])
  }

  datatype Entry = Entry(node: nat, seqId: nat, offset: nat)

  function EncodeEntry(e: Entry): (b: seq<Byte>)
    ensures |b| == ENTRY
  {
    Sizes();
    EncodeFields([e.node, e.seqId, e.offset], ENTRY_WIDTHS)
  }

  function DecodeEntry(b: seq<Byte>): Entry
    requires |b| >= ENTRY
  {
    Sizes();
    var f := DecodeFields(b, ENTRY_WIDTHS);
    Entry(f[0], f[1], f[2])
  }

  /** The entries of a data file that starts at `offset`. */
  function Entries(enc: Encoder, rs: seq<Record>, offset: nat): (es: seq<Entry>)
    ensures |es| == |rs|
  {
    if rs == [] then
      []
    else
      [Entry(rs[0].node, rs[0].seqId, offset)] + Entries(enc, rs[1..], offset + |enc(rs[0])|)
  }

  function EncodeEntries(es: seq<Entry>): (b: seq<Byte>)
    ensures |b| == ENTRY * |es|
  {
    if es == [] then [] else EncodeEntry(es[0]) + EncodeEntries(es[1..])
  }

  function DecodeEntries(b: seq<Byte>, n: nat): (es: seq<Entry>)
    requires |b| >= ENTRY * n
    ensures |es| == n
  {
    if n == 0 then [] else [DecodeEntry(b)] + DecodeEntries(b[ENTRY..], n - 1)
  }

  function EncodeIndex(es: seq<Entry>): seq<Byte> {
    EncodeFields([INDEX_MAGIC, VERSION, |es|], INDEX_WIDTHS) + EncodeEntries(es)
  }

  datatype Table = Table(data: seq<Byte>, index: seq<Byte>, count: nat)

  /** `SSTableWriter::write`: newest version per node, in node order, with running offsets. */
  method Write(enc: Encoder, records: seq<Record>) returns (ok: bool, table: Table)
    ensures ok <==> forall r | r in Listing(Newest(records)) :: Wal.Appendable(r)
    ensures ok ==> table == TableOf(enc, Listing(Newest(records)))
  {
    var latest := Listing(Newest(records));
    var data: seq<Byte>, entries: seq<Entry> := [], [];
    table := Table([], [], 0);
    ok := true;
    var i := 0;
    while i < |latest|
      invariant 0 <= i <= |latest|
      invariant forall k | 0 <= k < i :: Wal.Appendable(latest[k])
      invariant EncodeData(enc, latest) == data + EncodeData(enc, latest[i..])
      invariant Entries(enc, latest, 0) == entries + Entries(enc, latest[i..], |data|)
    {
      if !Wal.Appendable(latest[i]) {
        ok := false;
        return;
      }
      WriteStep(enc, latest, i, data, entries);
      entries := entries + [Entry(latest[i].node, latest[i].seqId, |data|)];
      data := data + enc(latest[i]);
      i := i + 1;
    }
    assert latest[i..] == [];
    assert EncodeData(enc, latest) == data by { assert EncodeData(enc, []) == []; }
    assert Entries(enc, latest, 0) == entries by { assert Entries(enc, [], |data|) == []; }
    table := Table(data, EncodeIndex(entries), |latest|);
  }

  lemma WriteStep(enc: Encoder, latest: seq<Record>, i: nat, data: seq<Byte>, entries: seq<Entry>)
    requires i < |latest|
    ensures data + EncodeData(enc, latest[i..]) ==
            (data + enc(latest[i])) + EncodeData(enc, latest[i + 1..])
    ensures entries + Entries(enc, latest[i..], |data|) ==
            (entries + [Entry(latest[i].node, latest[i].seqId, |data|)])
            + Entries(enc, latest[i + 1..], |data + enc(latest[i])|)
  {
    assert latest[i..][0] == latest[i] && latest[i..][1..] == latest[i + 1..];
  }

  function TableOf(enc: Encoder, latest: seq<Record>): Table {
    Table(EncodeData(enc, latest), EncodeIndex(Entries(enc, latest, 0)), |latest|)
  }

  /** The in-memory index: a later entry for a node replaces an earlier one. */
  function IndexMap(es: seq<Entry>): map<nat, Entry> {
    if es == [] then map[] else IndexMap(es[..|es| - 1])[es[|es| - 1].node := es[|es| - 1]]
  }

  /** The checks of `SSTableReader::open` on the index file. */
  predicate Openable(table: Table) {
    Sizes();
    && |table.index| >= INDEX_HEADER
    && DecodeFields(table.index, INDEX_WIDTHS) == [INDEX_MAGIC, VERSION, table.count]
    && |table.index| >= INDEX_HEADER + ENTRY * table.count
    && forall e | e in DecodeEntries(table.index[INDEX_HEADER..], table.count) :: e.node < U32
  }

  class SSTableReader {
    const read: Decoder
    const table: Table
    var index: map<nat, Entry>
    var isOpen: bool

    constructor (read: Decoder, table: Table)
      ensures this.read == read && this.table == table && !isOpen
    {
      this.read, this.table := read, table;
      index, isOpen := map[], false;
    }

    /** What `get` answers once the index is loaded. */
    function Lookup(node: nat): Option<Record>
      reads this
    {
      if !isOpen || node !in index || index[node].offset > |table.data| then
        None
      else
        var found := read(table.data[index[node].offset..]);
        if found.Some? && (found.value.node != node || found.value.seqId != index[node].seqId) then None else found
    }

    method Open() returns (ok: bool)
      modifies this
      ensures ok <==> Openable(table)
      ensures isOpen == ok
      ensures ok ==> index == IndexMap(DecodeEntries(table.index[INDEX_HEADER..], table.count))
    {
      index, isOpen := map[], false;
      ok := Openable(table);
      if ok {
        var es := DecodeEntries(table.index[INDEX_HEADER..], table.count);
        var i := 0;
        while i < |es|
          invariant 0 <= i <= |es|
          invariant index == IndexMap(es[..i])
          invariant !isOpen
        {
          assert es[..i + 1][..i] == es[..i];
          index := index[es[i].node := es[i]];
          i := i + 1;
        }
        assert es[..i] == es;
        isOpen := true;
      }
    }

    method Get(node: nat) returns (found: Option<Record>)
      ensures found == Lookup(node)
    {
      found := Lookup(node);
    }

    /** `scan_all`: every readable record of the index, in node order. */
    method ScanAll() returns (records: seq<Record>)
      ensures records == Listing(map n | n in index.Keys && Lookup(n).Some? :: Lookup(n).value)
    {
      var found: map<nat, Record> := map[];
      var todo := index.Keys;
      while todo != {}
        invariant todo <= index.Keys
        invariant found == map n | n in index.Keys - todo && Lookup(n).Some? :: Lookup(n).value
        decreases |todo|
      {
        var n :| n in todo;
        var r := Get(n);
        if r.Some? {
          found := found[n := r.value];
        }
        todo := todo - {n};
      }
      assert found == map n | n in index.Keys && Lookup(n).Some? :: Lookup(n).value;
      records := Listing(found);
    }
  }

  // ---- Write then read ----

  lemma {:induction false} EntriesRoundTrip(es: seq<Entry>)
    requires forall e | e in es :: e.node < U64 && e.seqId < U64 && e.offset < U64
    ensures DecodeEntries(EncodeEntries(es), |es|) == es
  {
    if es != [] {
      var head, tail := EncodeEntry(es[0]), EncodeEntries(es[1..]);
      EntryRoundTrip(es[0], tail);
      assert (head + tail)[ENTRY..] == tail;
      EntriesRoundTrip(es[1..]);
      assert es == [es[0]] + es[1..];
    }
  }

  lemma EntryRoundTrip(e: Entry, rest: seq<Byte>)
    requires e.node < U64 && e.seqId < U64 && e.offset < U64
    ensures DecodeEntry(EncodeEntry(e) + rest) == e
  {
    Sizes();
    Pow256Values();
    FieldsRoundTrip([e.node, e.seqId, e.offset], ENTRY_WIDTHS, rest);
  }

  /** Entry `i` points at record `i`. */
  lemma {:induction false} EntryPoints(enc: Encoder, rs: seq<Record>, offset: nat, i: nat)
    requires i < |rs|
    ensures var e := Entries(enc, rs, offset)[i];
            && e.node == rs[i].node && e.seqId == rs[i].seqId
            && offset <= e.offset <= offset + |EncodeData(enc, rs)|
            && EncodeData(enc, rs)[e.offset - offset..] == EncodeData(enc, rs[i..])
  {
    if i == 0 {
      assert rs[0..] == rs;
    } else {
      var n := |enc(rs[0])|;
      EntryPoints(enc, rs[1..], offset + n, i - 1);
      var e := Entries(enc, rs, offset)[i];
      assert e == Entries(enc, rs[1..], offset + n)[i - 1];
      assert rs[1..][i - 1..] == rs[i..];
      assert EncodeData(enc, rs)[e.offset - offset..] == EncodeData(enc, rs[1..])[e.offset - offset - n..];
    }
  }

  ghost predicate DistinctNodes(es: seq<Entry>) {
    forall i, j | 0 <= i < j < |es| :: es[i].node != es[j].node
  }

  ghost predicate HasEntry(es: seq<Entry>, n: nat) {
    exists i | 0 <= i < |es| :: es[i].node == n
  }

  ghost predicate HasRecord(rs: seq<Record>, n: nat) {
    exists i | 0 <= i < |rs| :: rs[i].node == n
  }

  lemma {:induction false} IndexMapHas(es: seq<Entry>)
    requires DistinctNodes(es)
    ensures forall n | n in IndexMap(es) :: HasEntry(es, n)
    ensures forall i | 0 <= i < |es| :: es[i].node in IndexMap(es) && IndexMap(es)[es[i].node] == es[i]
  {
    if es != [] {
      var t := es[..|es| - 1];
      IndexMapHas(t);
      forall n | n in IndexMap(es)
        ensures HasEntry(es, n)
      {
        if n != es[|es| - 1].node {
          assert n in IndexMap(t) && HasEntry(t, n);
          var i :| 0 <= i < |t| && t[i].node == n;
          assert es[i].node == n;
        }
      }
    }
  }

  ghost predicate Storable(enc: Encoder, latest: seq<Record>) {
    && SortedByNode(latest)
    && (forall r | r in latest :: Wal.InRange(r) && Wal.Appendable(r))
    && |EncodeData(enc, latest)| < U64 && |latest| < U64
  }

  lemma EntriesFit(enc: Encoder, latest: seq<Record>)
    requires Storable(enc, latest)
    ensures forall e | e in Entries(enc, latest, 0) :: e.node < U32 && e.seqId < U64 && e.offset < U64
    ensures forall i | 0 <= i < |latest| :: Entries(enc, latest, 0)[i].node == latest[i].node
    ensures DistinctNodes(Entries(enc, latest, 0))
  {
    var es := Entries(enc, latest, 0);
    forall i | 0 <= i < |es|
      ensures es[i].node == latest[i].node && es[i].node < U32 && es[i].seqId < U64 && es[i].offset < U64
    {
      EntryPoints(enc, latest, 0, i);
      assert latest[i] in latest;
    }
  }

  lemma IndexRoundTrip(enc: Encoder, latest: seq<Record>)
    requires Storable(enc, latest)
    ensures var t := TableOf(enc, latest);
            && Openable(t)
            && DecodeEntries(t.index[INDEX_HEADER..], t.count) == Entries(enc, latest, 0)
  {
    var es := Entries(enc, latest, 0);
    EntriesFit(enc, latest);
    EntriesRoundTrip(es);
    Sizes();
    IndexHeaderRoundTrip(|es|, EncodeEntries(es));
    assert EncodeIndex(es)[INDEX_HEADER..] == EncodeEntries(es);
  }

  lemma IndexHeaderRoundTrip(n: nat, rest: seq<Byte>)
    requires n < U64
    ensures Total(INDEX_WIDTHS) == INDEX_HEADER
    ensures DecodeFields(EncodeFields([INDEX_MAGIC, VERSION, n], INDEX_WIDTHS) + rest, INDEX_WIDTHS) ==
            [INDEX_MAGIC, VERSION, n]
  {
    Sizes();
    Pow256Values();
    FieldsRoundTrip([INDEX_MAGIC, VERSION, n], INDEX_WIDTHS, rest);
  }

  /** `dec` reads back what `enc` wrote, except for records beyond the payload limit. */
  ghost predicate Inverse(enc: Encoder, dec: Decoder) {
    forall r, rest {:trigger dec(enc(r) + rest)} | Wal.InRange(r) && Wal.Appendable(r) ::
      dec(enc(r) + rest) == if PayloadBytes(r) <= MAX_PAYLOAD then Some(r) else None
  }

  ghost predicate Holds(t: SSTableReader, enc: Encoder, latest: seq<Record>)
    reads t
  {
    && Storable(enc, latest) && Inverse(enc, t.read) && t.table == TableOf(enc, latest)
    && t.isOpen && t.index == IndexMap(Entries(enc, latest, 0))
  }

  /** A lookup in a written table answers with the node's record, unless that record is oversized. */
  lemma LookupWritten(t: SSTableReader, enc: Encoder, latest: seq<Record>, i: nat)
    requires Holds(t, enc, latest) && i < |latest|
    ensures t.Lookup(latest[i].node) ==
            if PayloadBytes(latest[i]) <= MAX_PAYLOAD then Some(latest[i]) else None
  {
    var es := Entries(enc, latest, 0);
    assert t.index[latest[i].node] == es[i] by {
      EntriesFit(enc, latest);
      IndexMapHas(es);
    }
    var tail := EncodeData(enc, latest[i + 1..]);
    assert es[i].offset <= |t.table.data| && t.table.data[es[i].offset..] == enc(latest[i]) + tail by {
      EntryPoints(enc, latest, 0, i);
      assert latest[i..][0] == latest[i] && latest[i..][1..] == latest[i + 1..];
    }
    assert latest[i] in latest;
    assert es[i].seqId == latest[i].seqId by { EntryPoints(enc, latest, 0, i); }
  }

  lemma IndexKeys(enc: Encoder, latest: seq<Record>, n: nat)
    requires Storable(enc, latest)
    ensures n in IndexMap(Entries(enc, latest, 0)) <==> HasRecord(latest, n)
  {
    var es := Entries(enc, latest, 0);
    EntriesFit(enc, latest);
    IndexMapHas(es);
    if n in IndexMap(es) {
      assert HasEntry(es, n);
      var i :| 0 <= i < |es| && es[i].node == n;
      assert latest[i].node == n;
    }
    if HasRecord(latest, n) {
      var i :| 0 <= i < |latest| && latest[i].node == n;
      assert es[i].node == n;
    }
  }

  function Readable(m: map<nat, Record>): map<nat, Record> {
    map n | n in m && PayloadBytes(m[n]) <= MAX_PAYLOAD :: m[n]
  }

  lemma ListingNodes(m: map<nat, Record>, n: nat)
    requires KeyedByNode(m)
    ensures n in m <==> HasRecord(Listing(m), n)
    ensures n in m ==> m[n] in Listing(m)
  {
    var latest := Listing(m);
    ListingIsSorted(m);
    if n in m {
      assert m[n] in m.Values;
      assert m[n] in Elements(latest);
      var i :| 0 <= i < |latest| && latest[i] == m[n];
      assert latest[i].node == n;
    }
    if HasRecord(latest, n) {
      var i :| 0 <= i < |latest| && latest[i].node == n;
      assert latest[i] in Elements(latest);
      var k :| k in m && m[k] == latest[i];
    }
  }

  lemma ScannedAt(t: SSTableReader, enc: Encoder, m: map<nat, Record>, n: nat)
    requires KeyedByNode(m) && Holds(t, enc, Listing(m))
    ensures n in t.index <==> n in m
    ensures n in m ==> t.Lookup(n) == if PayloadBytes(m[n]) <= MAX_PAYLOAD then Some(m[n]) else None
  {
    IndexKeys(enc, Listing(m), n);
    ListingNodes(m, n);
    if n in m {
      var i :| 0 <= i < |Listing(m)| && Listing(m)[i] == m[n];
      LookupWritten(t, enc, Listing(m), i);
    }
  }

  lemma ScanWritten(t: SSTableReader, enc: Encoder, m: map<nat, Record>)
    requires KeyedByNode(m) && Holds(t, enc, Listing(m))
    ensures (map n | n in t.index.Keys && t.Lookup(n).Some? :: t.Lookup(n).value) == Readable(m)
  {
    forall n
      ensures n in t.index <==> n in m
      ensures n in m ==> t.Lookup(n) == if PayloadBytes(m[n]) <= MAX_PAYLOAD then Some(m[n]) else None
    {
      ScannedAt(t, enc, m, n);
    }
  }

  lemma RecordsInverse(sum: Checksum)
    ensures Inverse(r => EncodeRecord(sum, r), b => ReadRecord(sum, b))
  {
    forall r, rest: seq<Byte> | Wal.InRange(r) && Wal.Appendable(r)
      ensures ReadRecord(sum, EncodeRecord(sum, r) + rest) ==
              if PayloadBytes(r) <= MAX_PAYLOAD then Some(r) else None
    {
      ReadEncoded(sum, r, rest);
    }
  }

  lemma ReadableIsAll(m: map<nat, Record>)
    requires KeyedByNode(m)
    ensures Listing(Readable(m)) == Listing(m) <==> forall n | n in m :: PayloadBytes(m[n]) <= MAX_PAYLOAD
  {
    NewestOfListing(m);
    NewestOfListing(Readable(m));
    if forall n | n in m :: PayloadBytes(m[n]) <= MAX_PAYLOAD {
      assert Readable(m) == m;
    } else {
      var n :| n in m && PayloadBytes(m[n]) > MAX_PAYLOAD;
      assert n !in Readable(m);
    }
  }

  /**
   Writing any records, opening the table and scanning it yields the newest version of every node in
   node order -- exactly, if and only if none of those versions exceeds the reader's payload limit.
   */
  method WriteOpenScan(sum: Checksum, records: seq<Record>) returns (ok: bool, scanned: seq<Record>)
    requires Storable(r => EncodeRecord(sum, r), Listing(Newest(records)))
    ensures ok && scanned == Listing(Readable(Newest(records)))
    ensures scanned == Listing(Newest(records)) <==>
            forall n | n in Newest(records) :: PayloadBytes(Newest(records)[n]) <= MAX_PAYLOAD
  {
    ghost var m := Newest(records);
    NewestIsNewest(records);
    RecordsInverse(sum);
    ok, scanned := WriteOpenScanWith(r => EncodeRecord(sum, r), b => ReadRecord(sum, b), records);
    ReadableIsAll(m);
  }

  method WriteOpenScanWith(enc: Encoder, dec: Decoder, records: seq<Record>)
    returns (ok: bool, scanned: seq<Record>)
    requires Storable(enc, Listing(Newest(records))) && Inverse(enc, dec)
    ensures ok && scanned == Listing(Readable(Newest(records)))
  {
    ghost var m := Newest(records);
    NewestIsNewest(records);
    var table;
    ok, table := Write(enc, records);
    var t := new SSTableReader(dec, table);
    IndexRoundTrip(enc, Listing(m));
    ok := t.Open();
    scanned := t.ScanAll();
    ScanWritten(t, enc, m);
  }
}
