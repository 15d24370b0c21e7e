/** The write-ahead log: record encoding, append, and replay up to the first unreadable record. */
module Wal {
  import opened Sealing
  import opened TopK
  import opened Bytes
  import opened Records

  const MAGIC: nat := 0x41574c50
  const VERSION: nat := 1
  const INSERT_OP: nat := 1

  // magic, version, op_type, sequence_id, node_id, dim, vector_bytes, neighbor_count, deleted, checksum
  const WIDTHS: seq<nat> := [4, 2, 2, 8, 8, 4, 4, 4, 1, 4]
  const HEADER: nat := 41

  lemma HeaderSize()
    ensures Total(WIDTHS) == HEADER
  {
    assert WIDTHS == [4] + [2, 2, 8, 8, 4, 4, 4, 1, 4];
    assert Total([4]) == 4;
    assert Total([1, 4]) == 5;
    assert Total([4, 1, 4]) == 9;
    assert Total([4, 4, 1, 4]) == 13;
    assert Total([4, 4, 4, 1, 4]) == 17;
    assert Total([8, 4, 4, 4, 1, 4]) == 25;
    assert Total([8, 8, 4, 4, 4, 1, 4]) == 33;
    assert Total([2, 8, 8, 4, 4, 4, 1, 4]) == 35;
    assert Total([2, 2, 8, 8, 4, 4, 4, 1, 4]) == 37;
  }

  /** The ranges the record's machine types impose. */
  ghost predicate InRange(r: Record) {
    r.seqId < U64 && r.node < U32 && r.dim < U32 && AllWords(r.vector) && AllWords(r.neighbors)
  }

  /** The shape `WalWriter::append` insists on. */
  predicate Appendable(r: Record) {
    r.dim == |r.vector| && |r.vector| <= (U32 - 1) / 4 && |r.neighbors| <= U32 - 1
  }

  function HeaderFields(sum: Checksum, r: Record): (h: seq<nat>)
    ensures |h| == |WIDTHS|
  {
    [MAGIC, VERSION, INSERT_OP, r.seqId, r.node, r.dim, 4 * |r.vector|, |r.neighbors|,
     if r.deleted then 1 else 0, sum(r.vector, r.neighbors) % U32]
  }

  function EncodeRecord(sum: Checksum, r: Record): (b: seq<Byte>)
    ensures |b| == HEADER + PayloadBytes(r)
  {
    HeaderSize();
    EncodeParts(HeaderFields(sum, r), WIDTHS, r.vector, r.neighbors)
  }

  function EncodeAll(sum: Checksum, rs: seq<Record>): seq<Byte> {
    if rs == [] then [] else EncodeRecord(sum, rs[0]) + EncodeAll(sum, rs[1..])
  }

  /** `header_shape_is_valid` together with `node_id_fits`. */
  predicate HeaderValid(h: seq<nat>)
    requires |h| == |WIDTHS|
  {
    && h[0] == MAGIC && h[1] == VERSION && h[2] == INSERT_OP && h[8] <= 1
    && h[5] <= (U32 - 1) / 4 && h[6] == 4 * h[5]
    && h[6] + 4 * h[7] <= MAX_PAYLOAD
    && h[4] < U32
  }

  datatype Parsed = Broken | Parsed(record: Record, size: nat)

  /** One iteration of the replay loop: a record and its length, or `Broken` where the loop stops. */
  function ReadRecord(sum: Checksum, b: seq<Byte>): (p: Parsed)
    ensures p.Parsed? ==> 0 < p.size <= |b|
  {
    HeaderSize();
    if |b| < HEADER then Broken else ReadPayload(sum, DecodeFields(b, WIDTHS), b[HEADER..])
  }

  function ReadPayload(sum: Checksum, h: seq<nat>, payload: seq<Byte>): (p: Parsed)
    requires |h| == |WIDTHS|
    ensures p.Parsed? ==> 0 < p.size <= HEADER + |payload|
  {
    if !HeaderValid(h) || |payload| < 4 * h[5] + 4 * h[7] then
      Broken
    else
      var vector := DecodeWords(payload, h[5]);
      var neighbors := DecodeWords(payload[4 * h[5]..], h[7]);
      if sum(vector, neighbors) % U32 != h[9] then
        Broken
      else
        Parsed(Record(h[3], h[4], h[5], vector, neighbors, h[8] != 0), HEADER + 4 * h[5] + 4 * h[7])
  }

  /** What replay recovers from a byte stream. */
  function Parse(sum: Checksum, b: seq<Byte>): seq<Record>
    decreases |b|
  {
    match ReadRecord(sum, b)
    case Broken => []
    case Parsed(r, size) => [r] + Parse(sum, b[size..])
  }

  /** The log stream. `records` are the records appended so far; the stream holds their encodings. */
  class WalWriter {
    const sum: Checksum
    var output: seq<Byte>
    var closed: bool
    ghost var records: seq<Record>

    ghost predicate Valid()
      reads this
    {
      Encoded(sum, records, output)
    }

    constructor (sum: Checksum)
      ensures Valid() && this.sum == sum && records == [] && !closed
    {
      this.sum := sum;
      output, closed, records := [], false, [];
    }

    /**
     Appends one record, value by value: the header's fields, then vector and neighbours. A record of the
     wrong shape, or a closed log, leaves the file unchanged.
     */
    method Append(r: Record) returns (ok: bool)
      requires Valid()
      modifies this
      ensures Valid() && closed == old(closed)
      ensures ok <==> !old(closed) && Appendable(r)
      ensures records == if ok then old(records) + [r] else old(records)
    {
      ok := !closed && Appendable(r);
      if ok {
        var bytes := WriteNext(sum, output, records, r);
        output, records := bytes, records + [r];
      }
    }
  }

  /** The bytes are the concatenated encodings of the records. */
  ghost predicate Encoded(sum: Checksum, records: seq<Record>, bytes: seq<Byte>) {
    forall name {:trigger Unsealed(name)} | Unsealed(name) && name == LogEncoded :: bytes == EncodeAll(sum, records)
  }

  /** The stream with one more record behind it. */
  method WriteNext(sum: Checksum, out: seq<Byte>, ghost records: seq<Record>, r: Record) returns (bytes: seq<Byte>)
    requires Encoded(sum, records, out)
    ensures Encoded(sum, records + [r], bytes)
  {
    bytes := WriteRecord(sum, out, r);
    assert Unsealed(LogEncoded);
    EncodeAllAppend(sum, records, r);
  }

  /** `write_header`, then the two payload arrays. */
  method WriteRecord(sum: Checksum, out: seq<Byte>, r: Record) returns (bytes: seq<Byte>)
    ensures bytes == out + EncodeRecord(sum, r)
  {
    bytes := WriteValues(out, HeaderFields(sum, r), WIDTHS);
    bytes := WriteValues(bytes, r.vector, Fours(|r.vector|));
    bytes := WriteValues(bytes, r.neighbors, Fours(|r.neighbors|));
    AppendedEncoding(sum, out, r, bytes);
  }

  /** Consecutive `write_value` calls. */
  method WriteValues(out: seq<Byte>, vals: seq<nat>, widths: seq<nat>) returns (bytes: seq<Byte>)
    requires |vals| == |widths|
    ensures bytes == out + EncodeFields(vals, widths)
  {
    bytes := out;
    for i := 0 to |vals|
      invariant out + EncodeFields(vals, widths) == bytes + EncodeFields(vals[i..], widths[i..])
    {
      assert vals[i..][1..] == vals[i + 1..] && widths[i..][1..] == widths[i + 1..];
      ConcatAssoc(bytes, Encode(vals[i], widths[i]), EncodeFields(vals[i + 1..], widths[i + 1..]));
      bytes := bytes + Encode(vals[i], widths[i]);
    }
  }

  lemma AppendedEncoding(sum: Checksum, out: seq<Byte>, r: Record, bytes: seq<Byte>)
    requires bytes == out + EncodeFields(HeaderFields(sum, r), WIDTHS) + EncodeFields(r.vector, Fours(|r.vector|))
                      + EncodeFields(r.neighbors, Fours(|r.neighbors|))
    ensures bytes == out + EncodeRecord(sum, r)
  {
    var h, x, y := EncodeFields(HeaderFields(sum, r), WIDTHS), EncodeWords(r.vector), EncodeWords(r.neighbors);
    ConcatAssoc(out, h, x);
    ConcatAssoc(out, h + x, y);
  }

  lemma {:induction false} EncodeAllAppend(sum: Checksum, rs: seq<Record>, r: Record)
    ensures EncodeAll(sum, rs + [r]) == EncodeAll(sum, rs) + EncodeRecord(sum, r)
  {
    if rs == [] {
      EncodeAllCons(sum, r, []);
      HeadAndRest([r], r);
      EmptyEnds(EncodeRecord(sum, r));
    } else {
      var t := rs[1..];
      EncodeAllAppend(sum, t, r);
      EncodeAllCons(sum, rs[0], t);
      EncodeAllCons(sum, rs[0], t + [r]);
      HeadAndRest(rs, r);
      ConcatAssoc(EncodeRecord(sum, rs[0]), EncodeAll(sum, t), EncodeRecord(sum, r));
    }
  }

  lemma HeadAndRest(rs: seq<Record>, r: Record)
    requires rs != []
    ensures rs == [rs[0]] + rs[1..] && rs + [r] == [rs[0]] + (rs[1..] + [r])
    ensures [] + [r] == [r] + []
  {
  }

  lemma EmptyEnds(b: seq<Byte>)
    ensures b + [] == [] + b
  {
  }

  lemma EncodeAllCons(sum: Checksum, r: Record, rs: seq<Record>)
    ensures EncodeAll(sum, [r] + rs) == EncodeRecord(sum, r) + EncodeAll(sum, rs)
  {
    assert ([r] + rs)[1..] == rs;
  }

  /** `WalReader::replay`: reads records off the front until one is unreadable or the file ends. */
  method Replay(sum: Checksum, input: seq<Byte>) returns (records: seq<Record>)
    ensures records == Parse(sum, input)
  {
    records := [];
    var stream := input;
    while stream != []
      invariant Parse(sum, input) == records + Parse(sum, stream)
      decreases |stream|
    {
      ParseNext(sum, records, stream);
      var p := ReadRecord(sum, stream);
      if p.Broken? {
        return;
      }
      records, stream := records + [p.record], stream[p.size..];
    }
    ParseEmpty(sum, stream);
  }

  lemma ParseNext(sum: Checksum, records: seq<Record>, b: seq<Byte>)
    ensures var p := ReadRecord(sum, b);
            records + Parse(sum, b) ==
            if p.Parsed? then records + [p.record] + Parse(sum, b[p.size..]) else records
  {
    var p := ReadRecord(sum, b);
    if p.Parsed? {
      ConcatAssoc(records, [p.record], Parse(sum, b[p.size..]));
    }
  }

  lemma ParseEmpty(sum: Checksum, b: seq<Byte>)
    requires b == []
    ensures Parse(sum, b) == []
  {
  }

  // ---- Round trip ----

  lemma HeaderFits(sum: Checksum, r: Record)
    requires InRange(r) && Appendable(r)
    ensures FieldsFit(HeaderFields(sum, r), WIDTHS)
  {
    Pow256Values();
    var h := HeaderFields(sum, r);
    assert h[0] < Pow256(4) && h[1] < Pow256(2) && h[2] < Pow256(2) && h[3] < Pow256(8);
    assert h[4] < Pow256(8) && h[5] < Pow256(4) && h[6] < Pow256(4) && h[7] < Pow256(4);
    assert h[8] < Pow256(1) && h[9] < Pow256(4);
  }

  /** The header and payload of an encoded record are found again, whatever follows. */
  lemma EncodedParts(sum: Checksum, r: Record, rest: seq<Byte>)
    requires InRange(r) && Appendable(r)
    ensures Total(WIDTHS) == HEADER
    ensures DecodeFields(EncodeRecord(sum, r) + rest, WIDTHS) == HeaderFields(sum, r)
    ensures DecodeWords((EncodeRecord(sum, r) + rest)[HEADER..], |r.vector|) == r.vector
    ensures DecodeWords((EncodeRecord(sum, r) + rest)[HEADER..][4 * |r.vector|..], |r.neighbors|) == r.neighbors
  {
    HeaderSize();
    HeaderFits(sum, r);
    PartsRoundTrip(HeaderFields(sum, r), WIDTHS, r.vector, r.neighbors, rest);
  }

  lemma PayloadEncoded(sum: Checksum, r: Record, payload: seq<Byte>)
    requires Appendable(r) && r.node < U32 && |payload| >= PayloadBytes(r)
    requires DecodeWords(payload, |r.vector|) == r.vector
    requires DecodeWords(payload[4 * |r.vector|..], |r.neighbors|) == r.neighbors
    ensures ReadPayload(sum, HeaderFields(sum, r), payload) ==
            if PayloadBytes(r) <= MAX_PAYLOAD then Parsed(r, HEADER + PayloadBytes(r)) else Broken
  {
  }

  /** A record is read back exactly when its payload is within the replay limit. */
  lemma ReadEncoded(sum: Checksum, r: Record, rest: seq<Byte>)
    requires InRange(r) && Appendable(r)
    ensures ReadRecord(sum, EncodeRecord(sum, r) + rest) ==
            if PayloadBytes(r) <= MAX_PAYLOAD then Parsed(r, |EncodeRecord(sum, r)|) else Broken
  {
    EncodedParts(sum, r, rest);
    PayloadEncoded(sum, r, (EncodeRecord(sum, r) + rest)[HEADER..]);
  }

  /** The last header field is the payload's checksum. */
  lemma ChecksumPlace(sum: Checksum, r: Record)
    ensures EncodeRecord(sum, r)[37..41] == Encode(sum(r.vector, r.neighbors) % U32, 4)
  {
    HeaderSize();
    FieldPlace(HeaderFields(sum, r), WIDTHS, 9);
    assert WIDTHS[..10] == WIDTHS;
    assert Total(WIDTHS[..9]) == 37;
  }

  /** Replay reads a record exactly where its encoding stands: everything else is refused. */
  lemma ReadIff(sum: Checksum, b: seq<Byte>, r: Record)
    ensures ReadRecord(sum, b) == Parsed(r, |EncodeRecord(sum, r)|) <==>
            InRange(r) && Appendable(r) && Fits(r) && EncodeRecord(sum, r) <= b
  {
    if EncodeRecord(sum, r) <= b && InRange(r) && Appendable(r) && Fits(r) {
      var rest := b[|EncodeRecord(sum, r)|..];
      ReadEncoded(sum, r, rest);
      assert b == EncodeRecord(sum, r) + rest;
    }
    if ReadRecord(sum, b) == Parsed(r, |EncodeRecord(sum, r)|) {
      ReadIsEncoded(sum, b, r);
    }
  }

  lemma ReadIsEncoded(sum: Checksum, b: seq<Byte>, r: Record)
    requires ReadRecord(sum, b).Parsed? && ReadRecord(sum, b).record == r
    ensures InRange(r) && Appendable(r) && Fits(r) && EncodeRecord(sum, r) <= b
  {
    HeaderSize();
    Pow256Values();
    var h := DecodeFields(b, WIDTHS);
    PayloadRead(sum, h, b[HEADER..], r);
    PartsExact(b, WIDTHS, h[5], h[7]);
    assert h[3] < Pow256(8) && h[5] < Pow256(4);
  }

  /** The header of a record that was read is the one it is written with. */
  lemma PayloadRead(sum: Checksum, h: seq<nat>, payload: seq<Byte>, r: Record)
    requires |h| == |WIDTHS| && ReadPayload(sum, h, payload).Parsed? && ReadPayload(sum, h, payload).record == r
    ensures HeaderFields(sum, r) == h && Appendable(r) && Fits(r) && r.node < U32
    ensures |payload| >= 4 * h[5] + 4 * h[7]
    ensures r.vector == DecodeWords(payload, h[5]) && r.neighbors == DecodeWords(payload[4 * h[5]..], h[7])
  {
  }

  /** The sizes in an encoded header are exact, whatever the ids and payload words are. */
  lemma EncodedSizes(sum: Checksum, r: Record, rest: seq<Byte>)
    requires Appendable(r)
    ensures Total(WIDTHS) == HEADER
    ensures var h := DecodeFields(EncodeRecord(sum, r) + rest, WIDTHS); h[5] == |r.vector| && h[7] == |r.neighbors|
  {
    HeaderSize();
    Pow256Values();
    var x, y := EncodeWords(r.vector), EncodeWords(r.neighbors);
    ThreeParts(EncodeFields(HeaderFields(sum, r), WIDTHS), x, y, rest);
    FieldAt(HeaderFields(sum, r), WIDTHS, x + (y + rest), 5);
    FieldAt(HeaderFields(sum, r), WIDTHS, x + (y + rest), 7);
  }

  /** A record cut short anywhere is not readable. */
  lemma ReadTorn(sum: Checksum, r: Record, torn: seq<Byte>)
    requires Appendable(r) && torn < EncodeRecord(sum, r)
    ensures ReadRecord(sum, torn) == Broken
  {
    if |torn| >= HEADER {
      EncodedSizes(sum, r, []);
      var whole := EncodeRecord(sum, r);
      TornHeader(torn, whole);
      FieldsFromPrefix(torn, whole, WIDTHS);
    }
  }

  lemma TornHeader(torn: seq<Byte>, whole: seq<Byte>)
    requires torn <= whole && |torn| >= HEADER
    ensures whole + [] == whole && torn[..HEADER] == whole[..HEADER]
  {
  }

  lemma ParseStep(sum: Checksum, first: seq<Byte>, rest: seq<Byte>)
    requires var p := ReadRecord(sum, first + rest); p.Parsed? ==> p.size == |first|
    ensures Parse(sum, first + rest) ==
            var p := ReadRecord(sum, first + rest); if p.Parsed? then [p.record] + Parse(sum, rest) else []
  {
    assert (first + rest)[|first|..] == rest;
  }

  /** The records replay gets through: all those before the first one with an oversized payload. */
  function Replayable(rs: seq<Record>): seq<Record> {
    if rs == [] || !Fits(rs[0]) then [] else [rs[0]] + Replayable(rs[1..])
  }

  lemma {:induction false} ReplayableAll(rs: seq<Record>)
    ensures Replayable(rs) <= rs
    ensures Replayable(rs) == rs <==> forall r | r in rs :: Fits(r)
  {
    if rs != [] {
      ReplayableAll(rs[1..]);
      assert rs == [rs[0]] + rs[1..];
    }
  }

  lemma {:induction false} ReplayableAppend(rs: seq<Record>, r: Record)
    ensures Replayable(rs + [r]) == if Replayable(rs) == rs && Fits(r) then rs + [r] else Replayable(rs)
  {
    if rs == [] {
      assert (rs + [r])[1..] == [];
    } else {
      ReplayableAppend(rs[1..], r);
      assert (rs + [r])[1..] == rs[1..] + [r];
      assert rs == [rs[0]] + rs[1..];
      assert rs + [r] == [rs[0]] + (rs[1..] + [r]);
    }
  }

  /** Cutting a log cuts what can be replayed of it. */
  lemma {:induction false} ReplayablePrefix(rs: seq<Record>, len: nat)
    requires len <= |rs|
    ensures Replayable(rs[..len]) == if len <= |Replayable(rs)| then Replayable(rs)[..len] else Replayable(rs)
  {
    if len > 0 && Fits(rs[0]) {
      var rest := Replayable(rs[1..]);
      ReplayablePrefix(rs[1..], len - 1);
      assert rs[..len][1..] == rs[1..][..len - 1];
      assert Replayable(rs[..len]) == [rs[0]] + Replayable(rs[1..][..len - 1]);
      if len - 1 <= |rest| {
        assert ([rs[0]] + rest)[..len] == [rs[0]] + rest[..len - 1];
      }
    }
  }

  /** Replay yields the whole records up to the first oversized one; if there is none it goes on with what follows. */
  lemma {:induction false} ReplayBehind(sum: Checksum, rs: seq<Record>, tail: seq<Byte>)
    requires forall r | r in rs :: InRange(r) && Appendable(r)
    ensures Parse(sum, EncodeAll(sum, rs) + tail) ==
            if Replayable(rs) == rs then rs + Parse(sum, tail) else Replayable(rs)
  {
    if rs == [] {
      assert EncodeAll(sum, rs) + tail == tail;
    } else {
      ReplayBehind(sum, rs[1..], tail);
      ReplayFirst(sum, rs, tail);
      FirstReplayed(rs, Parse(sum, tail));
    }
  }

  lemma FirstReplayed(rs: seq<Record>, more: seq<Record>)
    requires rs != []
    ensures Fits(rs[0]) ==> (Replayable(rs) == rs <==> Replayable(rs[1..]) == rs[1..])
    ensures [rs[0]] + (rs[1..] + more) == rs + more
  {
    assert rs == [rs[0]] + rs[1..];
  }

  /** What cannot be read stops replay. */
  lemma ReplayUnreadable(sum: Checksum, rs: seq<Record>, tail: seq<Byte>)
    requires forall r | r in rs :: InRange(r) && Appendable(r)
    requires ReadRecord(sum, tail) == Broken
    ensures Parse(sum, EncodeAll(sum, rs) + tail) == Replayable(rs)
  {
    ReplayBehind(sum, rs, tail);
    assert rs + [] == rs;
  }

  /** A log of whole records replays to all of them up to the first oversized one. */
  lemma ReplayWhole(sum: Checksum, rs: seq<Record>)
    requires forall r | r in rs :: InRange(r) && Appendable(r)
    ensures Parse(sum, EncodeAll(sum, rs)) == Replayable(rs)
  {
    ReplayUnreadable(sum, rs, []);
    assert EncodeAll(sum, rs) + [] == EncodeAll(sum, rs);
  }

  /** Replaying whole encodings followed by one record cut short yields the whole records, up to the first oversized one. */
  lemma ReplayTornTail(sum: Checksum, rs: seq<Record>, last: Record, torn: seq<Byte>)
    requires forall r | r in rs :: InRange(r) && Appendable(r)
    requires Appendable(last) && torn < EncodeRecord(sum, last)
    ensures Parse(sum, EncodeAll(sum, rs) + torn) == Replayable(rs)
  {
    ReadTorn(sum, last, torn);
    ReplayUnreadable(sum, rs, torn);
  }

  /** Replaying the first record and then the rest. */
  lemma ReplayFirst(sum: Checksum, rs: seq<Record>, torn: seq<Byte>)
    requires rs != [] && InRange(rs[0]) && Appendable(rs[0])
    ensures Parse(sum, EncodeAll(sum, rs) + torn) ==
            if PayloadBytes(rs[0]) <= MAX_PAYLOAD then [rs[0]] + Parse(sum, EncodeAll(sum, rs[1..]) + torn) else []
  {
    var first := EncodeRecord(sum, rs[0]);
    var rest := EncodeAll(sum, rs[1..]) + torn;
    ConcatAssoc(first, EncodeAll(sum, rs[1..]), torn);
    ReadEncoded(sum, rs[0], rest);
    ParseStep(sum, first, rest);
  }

  /** Round trip with a torn tail: exact if and only if every whole record is within the replay limit. */
  lemma WalRoundTrip(sum: Checksum, rs: seq<Record>, last: Record, torn: seq<Byte>)
    requires forall r | r in rs :: InRange(r) && Appendable(r)
    requires Appendable(last) && torn < EncodeRecord(sum, last)
    ensures Parse(sum, EncodeAll(sum, rs) + torn) == rs <==> forall r | r in rs :: Fits(r)
  {
    ReplayTornTail(sum, rs, last, torn);
    ReplayableAll(rs);
  }

  /** The limit is real: a tombstone-free record of 2^27 + 1 components is appended but never replayed. */
  lemma OversizedRecordIsLost(sum: Checksum)
    ensures exists r ::
      InRange(r) && Appendable(r) && PayloadBytes(r) > MAX_PAYLOAD && Parse(sum, EncodeRecord(sum, r)) == []
  {
    var n := MAX_PAYLOAD / 4 + 1;
    var r := Record(1, 0, n, seq(n, i => 0), [], false);
    ReadEncoded(sum, r, []);
    assert EncodeRecord(sum, r) + [] == EncodeRecord(sum, r);
    assert InRange(r) && Appendable(r) && PayloadBytes(r) > MAX_PAYLOAD && Parse(sum, EncodeRecord(sum, r)) == [];
  }

  /** The first eight bytes of every record: magic, version and operation. */
  const START: seq<Byte> := [0x50, 0x4c, 0x57, 0x41, 1, 0, 1, 0]

  /**
   What follows the whole records of a log: nothing, or the first `cut` bytes of a record that a crash tore and
   the bytes that were appended behind them, since the log is reopened without cutting such a tail.
   */
  datatype Tail = Whole | Torn(last: Record, cut: nat, behind: seq<Byte>) {
    function Bytes(sum: Checksum): seq<Byte> {
      if Whole? then [] else Take(EncodeRecord(sum, last), cut) + behind
    }

    /** A tail as crashes and appends leave it: what is behind the cut starts like a record. */
    ghost predicate Ok() {
      Torn? ==> Appendable(last) && 0 < cut < HEADER + PayloadBytes(last) && (behind == [] || behind[0] == START[0])
    }

    /** Replay stops at the tail. */
    ghost predicate Stops(sum: Checksum) {
      forall name {:trigger Unsealed(name)} | Unsealed(name) && name == TailStops :: ReadRecord(sum, Bytes(sum)).Broken?
    }

    /** Nothing was appended behind the cut, or the cut is within the first seven bytes. */
    predicate Harmless() {
      Whole? || behind == [] || cut <= 7
    }
  }

  lemma StopsIs(sum: Checksum, t: Tail)
    ensures t.Stops(sum) <==> ReadRecord(sum, t.Bytes(sum)) == Broken
  {
    if t.Stops(sum) {
      assert Unsealed(TailStops);
    }
  }

  /** Replay stops at a tail that is cut within its first seven bytes, and at one nothing was appended to. */
  lemma HarmlessStops(sum: Checksum, t: Tail)
    requires t.Ok() && t.Harmless()
    ensures t.Stops(sum)
  {
    HarmlessRead(sum, t);
    StopsIs(sum, t);
  }

  lemma HarmlessRead(sum: Checksum, t: Tail)
    requires t.Ok() && t.Harmless()
    ensures ReadRecord(sum, t.Bytes(sum)) == Broken
  {
    if t.Torn? {
      var whole := EncodeRecord(sum, t.last);
      var torn := Take(whole, t.cut);
      if t.behind == [] {
        assert t.Bytes(sum) == torn;
        ReadTorn(sum, t.last, torn);
      } else {
        EncodedStart(sum, t.last);
        StartInterrupted(whole, t.cut, t.behind);
        NoStart(sum, t.Bytes(sum));
      }
    }
  }

  /** Bytes that start like a record behind the first bytes of another one do not continue its start. */
  lemma StartInterrupted(whole: seq<Byte>, k: nat, behind: seq<Byte>)
    requires START <= whole && 1 <= k <= 7 && behind != [] && behind[0] == START[0]
    ensures !(START <= Take(whole, k) + behind)
  {
    assert (Take(whole, k) + behind)[k] == START[0] != START[k];
  }

  /** Only bytes that start like a record are read as one. */
  lemma NoStart(sum: Checksum, b: seq<Byte>)
    requires !(START <= b)
    ensures ReadRecord(sum, b) == Broken
  {
    if |b| >= HEADER {
      HeaderSize();
      ThreeFields(b);
      if Decode(b[..4]) == MAGIC && Decode(b[4..6]) == VERSION && Decode(b[6..8]) == INSERT_OP {
        StartDecoded(b);
      }
    }
  }

  lemma StartDecoded(b: seq<Byte>)
    requires |b| >= 8 && Decode(b[..4]) == MAGIC && Decode(b[4..6]) == VERSION && Decode(b[6..8]) == INSERT_OP
    ensures START <= b
  {
    assert b[..4] == [b[0], b[1], b[2], b[3]] && b[4..6] == [b[4], b[5]] && b[6..8] == [b[6], b[7]];
    DecodeFour(b[0], b[1], b[2], b[3]);
    DecodeTwo(b[4], b[5]);
    DecodeTwo(b[6], b[7]);
  }

  /** Encodings start like a record. */
  lemma EncodedFirst(sum: Checksum, rs: seq<Record>)
    ensures EncodeAll(sum, rs) == [] || EncodeAll(sum, rs)[0] == START[0]
  {
    if rs != [] {
      EncodedStart(sum, rs[0]);
    }
  }

  /** Replay of whole records, with `more` behind them. */
  function Continued(rs: seq<Record>, more: seq<Record>): seq<Record> {
    if Replayable(rs) == rs then rs + more else Replayable(rs)
  }

  lemma ContinuedStep(out: seq<Record>, rest: seq<Record>, more: seq<Record>)
    ensures if rest == [] then out + Continued(rest, more) == out + more
            else if Fits(rest[0]) then out + Continued(rest, more) == (out + [rest[0]]) + Continued(rest[1..], more)
            else out + Continued(rest, more) == out
  {
    if rest != [] && Fits(rest[0]) {
      FirstReplayed(rest, more);
      ConcatAssoc(out, [rest[0]], Continued(rest[1..], more));
    }
  }

  /** What replay yields of a log of whole records with a tail. */
  ghost function Replayed(sum: Checksum, rs: seq<Record>, t: Tail): seq<Record> {
    ReplayedExists(sum, rs, t);
    var out :| IsReplayed(sum, rs, t, out);
    out
  }

  ghost predicate IsReplayed(sum: Checksum, rs: seq<Record>, t: Tail, out: seq<Record>) {
    forall name {:trigger Unsealed(name)} | Unsealed(name) && name == LogReplayed ::
      out == Continued(rs, Parse(sum, t.Bytes(sum)))
  }

  lemma ReplayedExists(sum: Checksum, rs: seq<Record>, t: Tail)
    ensures exists out :: IsReplayed(sum, rs, t, out)
  {
    assert IsReplayed(sum, rs, t, Continued(rs, Parse(sum, t.Bytes(sum))));
  }

  lemma ReplayedIs(sum: Checksum, rs: seq<Record>, t: Tail)
    ensures Replayed(sum, rs, t) == Continued(rs, Parse(sum, t.Bytes(sum)))
  {
    assert Unsealed(LogReplayed);
  }

  /** Without a tail, replay yields the records up to the first oversized one. */
  lemma ReplayedWhole(sum: Checksum, rs: seq<Record>)
    ensures Whole.Stops(sum) && Replayed(sum, rs, Whole) == Replayable(rs)
  {
    HarmlessStops(sum, Whole);
    ReplayedStops(sum, rs, Whole);
  }

  /** A tail that stops replay hides what is behind it, and nothing else. */
  lemma ReplayedStops(sum: Checksum, rs: seq<Record>, t: Tail)
    requires t.Stops(sum)
    ensures Replayed(sum, rs, t) == Replayable(rs)
  {
    ReplayedIs(sum, rs, t);
    StopsIs(sum, t);
    assert rs + [] == rs;
  }

  /**
   Behind a tail of one to seven bytes nothing that is appended later is ever replayed, however much was
   written before and is written after.
   */
  lemma AppendAfterTornTailIsLost(sum: Checksum, rs: seq<Record>, last: Record, k: nat, later: seq<Record>)
    requires forall r | r in rs :: InRange(r) && Appendable(r)
    requires Appendable(last) && 1 <= k <= 7
    ensures Parse(sum, EncodeAll(sum, rs) + Torn(last, k, EncodeAll(sum, later)).Bytes(sum)) == Replayable(rs)
  {
    EncodedFirst(sum, later);
    HarmlessRead(sum, Torn(last, k, EncodeAll(sum, later)));
    ReplayUnreadable(sum, rs, Torn(last, k, EncodeAll(sum, later)).Bytes(sum));
  }

  /**
   A tail that holds a whole header is completed by the bytes behind it, whatever they are: it is read as a
   record if and only if there are enough of them, the torn record was within the limit, and the checksum of
   the mixed payload happens to be the torn record's.
   */
  lemma TornPayloadReadIff(sum: Checksum, last: Record, k: nat, behind: seq<Byte>)
    requires InRange(last) && Appendable(last) && HEADER <= k < HEADER + PayloadBytes(last)
    ensures var payload := EncodeRecord(sum, last)[HEADER..k] + behind;
            ReadRecord(sum, Torn(last, k, behind).Bytes(sum)).Parsed? <==>
            && Fits(last) && |payload| >= PayloadBytes(last)
            && sum(DecodeWords(payload, |last.vector|), DecodeWords(payload[4 * |last.vector|..], |last.neighbors|)) % U32
               == sum(last.vector, last.neighbors) % U32
  {
    TornPayload(sum, last, k, behind);
  }

  /** Reading such a tail. */
  lemma TornPayload(sum: Checksum, last: Record, k: nat, behind: seq<Byte>)
    requires InRange(last) && Appendable(last) && HEADER <= k < HEADER + PayloadBytes(last)
    ensures ReadRecord(sum, Torn(last, k, behind).Bytes(sum)) ==
            ReadPayload(sum, HeaderFields(sum, last), EncodeRecord(sum, last)[HEADER..k] + behind)
  {
    var whole := EncodeRecord(sum, last);
    EncodedParts(sum, last, []);
    TornParts(whole, k, behind);
    FieldsFromPrefix(whole[..k] + behind, whole + [], WIDTHS);
  }

  lemma TornParts(whole: seq<Byte>, k: nat, behind: seq<Byte>)
    requires HEADER <= k <= |whole|
    ensures (whole[..k] + behind)[..HEADER] == (whole + [])[..HEADER]
    ensures (whole[..k] + behind)[HEADER..] == whole[HEADER..k] + behind
  {
  }

  /** Eleven components, the first one zero, and no neighbours: 85 bytes. */
  ghost predicate Eleven(r: Record) {
    InRange(r) && Appendable(r) && |r.vector| == 11 && r.vector[0] == 0 && r.neighbors == []
  }

  /** What is read of such a record cut after 44 bytes, with 41 bytes behind the cut. */
  function Misread(sum: Checksum, last: Record, behind: seq<Byte>): Record
    requires |behind| == 41 && PayloadBytes(last) == 44
  {
    last.(vector := DecodeWords(EncodeRecord(sum, last)[HEADER..44] + behind, 11))
  }

  /**
   That does happen. A record of eleven components is cut after 44 bytes, and a record without payload and
   any others are appended behind it: if the checksums collide, replay yields a record that nobody wrote, and
   then the others.
   */
  lemma LongTailMisread(sum: Checksum, last: Record, a: Record, later: seq<Record>)
    requires Eleven(last) && PayloadBytes(a) == 0 && forall r | r in later :: InRange(r) && Appendable(r)
    requires sum(Misread(sum, last, EncodeRecord(sum, a)).vector, []) % U32 == sum(last.vector, []) % U32
    ensures Parse(sum, Torn(last, 44, EncodeAll(sum, [a] + later)).Bytes(sum)) ==
            [Misread(sum, last, EncodeRecord(sum, a))] + Replayable(later)
    ensures Misread(sum, last, EncodeRecord(sum, a)).vector != last.vector
  {
    EncodeAllCons(sum, a, later);
    ReplayWhole(sum, later);
    EncodedStart(sum, a);
    ParseMisread(sum, last, EncodeRecord(sum, a), EncodeAll(sum, later));
    FirstWordPositive(EncodeRecord(sum, last)[HEADER..44] + EncodeRecord(sum, a));
  }

  lemma ParseMisread(sum: Checksum, last: Record, x: seq<Byte>, y: seq<Byte>)
    requires Eleven(last) && |x| == 41
    requires sum(Misread(sum, last, x).vector, []) % U32 == sum(last.vector, []) % U32
    ensures Parse(sum, Torn(last, 44, x + y).Bytes(sum)) == [Misread(sum, last, x)] + Parse(sum, y)
  {
    var cut := EncodeRecord(sum, last)[..44];
    MisreadFirst(sum, last, x, y);
    ConcatAssoc(cut, x, y);
    ParseStep(sum, cut + x, y);
  }

  lemma MisreadFirst(sum: Checksum, last: Record, x: seq<Byte>, y: seq<Byte>)
    requires Eleven(last) && |x| == 41
    requires sum(Misread(sum, last, x).vector, []) % U32 == sum(last.vector, []) % U32
    ensures ReadRecord(sum, EncodeRecord(sum, last)[..44] + x + y) == Parsed(Misread(sum, last, x), 85)
  {
    var whole := EncodeRecord(sum, last);
    TornPayload(sum, last, 44, x + y);
    ConcatAssoc(whole[..44], x, y);
    ConcatAssoc(whole[HEADER..44], x, y);
    ReadMixed(sum, last, whole[HEADER..44] + x, y);
  }

  lemma ReadMixed(sum: Checksum, last: Record, payload: seq<Byte>, y: seq<Byte>)
    requires Eleven(last) && |payload| == 44
    requires sum(DecodeWords(payload, 11), []) % U32 == sum(last.vector, []) % U32
    ensures ReadPayload(sum, HeaderFields(sum, last), payload + y) ==
            Parsed(last.(vector := DecodeWords(payload, 11)), 85)
  {
    WordsFromPrefix(payload, y, 11);
  }

  lemma WordsFromPrefix(b: seq<Byte>, c: seq<Byte>, n: nat)
    requires |b| >= 4 * n
    ensures DecodeWords(b + c, n) == DecodeWords(b, n)
  {
    assert (b + c)[..4 * n] == b[..4 * n];
    FieldsFromPrefix(b + c, b, Fours(n));
  }

  lemma FirstWordPositive(b: seq<Byte>)
    requires |b| >= 44 && b[3] > 0
    ensures DecodeWords(b, 11)[0] > 0
  {
    FirstField(b, Fours(11));
    assert b[..4] == [b[0], b[1], b[2], b[3]];
    DecodeFour(b[0], b[1], b[2], b[3]);
  }

  lemma EncodedStart(sum: Checksum, r: Record)
    ensures START <= EncodeRecord(sum, r)
  {
    HeaderSize();
    var h := HeaderFields(sum, r);
    StartBytes();
    FirstThree(h[0], h[1], h[2], h[3..], WIDTHS[3..]);
    assert h == [h[0], h[1], h[2]] + h[3..] && WIDTHS == [4, 2, 2] + WIDTHS[3..];
  }

  lemma FirstThree(a: nat, b: nat, c: nat, vals: seq<nat>, widths: seq<nat>)
    requires |vals| == |widths|
    ensures Encode(a, 4) + Encode(b, 2) + Encode(c, 2) <= EncodeFields([a, b, c] + vals, [4, 2, 2] + widths)
  {
    var rest := EncodeFields(vals, widths);
    FieldsCons(c, 2, vals, widths);
    FieldsCons(b, 2, [c] + vals, [2] + widths);
    FieldsCons(a, 4, [b] + ([c] + vals), [2] + ([2] + widths));
    ConsThree(a, b, c, vals);
    ConsThree(4, 2, 2, widths);
    ConcatAssoc(Encode(a, 4), Encode(b, 2), Encode(c, 2) + rest);
    ConcatAssoc(Encode(a, 4) + Encode(b, 2), Encode(c, 2), rest);
  }

  lemma StartBytes()
    ensures Encode(MAGIC, 4) + Encode(VERSION, 2) + Encode(INSERT_OP, 2) == START
  {
    assert Encode(0x41, 1) == [0x41] + Encode(0, 0);
    assert Encode(0x4157, 2) == [0x57] + Encode(0x41, 1);
    assert Encode(0x41574c, 3) == [0x4c] + Encode(0x4157, 2);
    assert Encode(MAGIC, 4) == [0x50, 0x4c, 0x57, 0x41];
    assert Encode(0, 1) == [0] + Encode(0, 0);
    assert Encode(1, 2) == [1, 0];
  }

  /** Where the first three header fields are decoded from. */
  lemma ThreeFields(b: seq<Byte>)
    requires |b| >= Total(WIDTHS) == HEADER
    ensures var h := DecodeFields(b, WIDTHS);
            h[0] == Decode(b[..4]) && h[1] == Decode(b[4..6]) && h[2] == Decode(b[6..8])
  {
    var w := WIDTHS;
    assert w[1..][1..] == w[2..];
    assert Total(w) == 4 + Total(w[1..]) && Total(w[1..]) == 2 + Total(w[2..]);
    FirstField(b, w);
    FirstField(b[4..], w[1..]);
    FirstField(b[4..][2..], w[1..][1..]);
    assert DecodeFields(b, w)[1] == DecodeFields(b[4..], w[1..])[0];
    assert DecodeFields(b, w)[2] == DecodeFields(b[4..], w[1..])[1] == DecodeFields(b[4..][2..], w[1..][1..])[0];
    Slices(b);
  }

  lemma Slices(b: seq<Byte>)
    requires |b| >= 8
    ensures b[4..][..2] == b[4..6] && b[4..][2..][..2] == b[6..8]
  {
  }

  lemma FirstField(b: seq<Byte>, widths: seq<nat>)
    requires widths != [] && |b| >= Total(widths)
    ensures widths[0] <= |b| && DecodeFields(b, widths)[0] == Decode(b[..widths[0]])
  {
  }

  lemma DecodeTwo(a: Byte, b: Byte)
    ensures Decode([a, b]) == a + 256 * b
  {
    assert [a, b][1..] == [b] && [b][1..] == [];
    assert Decode([b]) == b + 256 * Decode([]);
  }

  lemma DecodeFour(a: Byte, b: Byte, c: Byte, d: Byte)
    ensures Decode([a, b, c, d]) == a + 256 * (b + 256 * (c + 256 * d))
  {
    assert [a, b, c, d][1..] == [b, c, d];
    assert [b, c, d][1..] == [c, d];
    DecodeTwo(c, d);
    assert Decode([b, c, d]) == b + 256 * Decode([c, d]);
  }
}
