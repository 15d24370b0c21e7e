/**
 The packed page format: a header, then ids, degrees, vectors, neighbours and neighbour codes, each as
 one block with a fixed number of slots, and zeros up to the page size.
 */
module PageCodec {
  import opened Division
  import opened Bytes
  import opened TopK
  import opened PageCache

  /** Fills unused slots; no node has this id. */
  const NoNode: nat := U32 - 1

  /** `n` rows of `w` items. */
  function Area(n: nat, w: nat): nat {
    n * w
  }

  datatype Layout = Layout(dim: nat, degree: nat, pageSize: nat, codeBytes: nat) {
    /** `graph_record_bytes`. */
    function PerNode(): (r: nat)
      ensures r >= 8
    {
      8 + 4 * dim + 4 * degree + Area(degree, codeBytes)
    }

    /** `packed_nodes_per_page`. */
    function NodesPerPage(): nat {
      if pageSize <= 8 then 0 else (pageSize - 8) / PerNode()
    }
  }

  /** What is packed: vectors as 32-bit words, neighbour lists, and code bytes, by node id. */
  datatype Source = Source(vectors: seq<seq<nat>>, lists: seq<seq<nat>>, codes: seq<seq<Byte>>) {
    /** Every node has a vector and codes of the layout's size; ids, sizes and words fit in 32 bits. */
    ghost predicate Fits(l: Layout) {
      && |vectors| == |lists| == |codes| < U32
      && (forall id | 0 <= id < |vectors| :: |vectors[id]| == l.dim && AllWords(vectors[id]))
      && (forall id | 0 <= id < |lists| :: |lists[id]| < U32 && forall n | n in lists[id] :: n < |lists|)
      && (forall id | 0 <= id < |codes| :: |codes[id]| == l.codeBytes)
    }
  }

  // ---- Blocks of equal rows ----

  ghost predicate Uniform<T>(rows: seq<seq<T>>, w: nat) {
    forall i | 0 <= i < |rows| :: |rows[i]| == w
  }

  lemma {:induction false} FlattenSize<T>(rows: seq<seq<T>>, w: nat)
    requires Uniform(rows, w)
    ensures |Flatten(rows)| == Area(|rows|, w)
  {
    if rows != [] {
      FlattenSize(rows[..|rows| - 1], w);
      assert Area(|rows|, w) == Area(|rows| - 1, w) + w;
    }
  }

  function Row<T>(block: seq<T>, w: nat, i: nat): seq<T> {
    if Area(i, w) + w <= |block| then block[Area(i, w)..Area(i, w) + w] else []
  }

  lemma {:induction false} RowInside(n: nat, w: nat, i: nat)
    requires i < n
    ensures Area(i, w) + w <= Area(n, w)
  {
    assert Area(n, w) == Area(n - 1, w) + w;
    if i < n - 1 { RowInside(n - 1, w, i); }
  }

  lemma {:induction false} RowOfFlatten<T>(rows: seq<seq<T>>, w: nat, i: nat)
    requires Uniform(rows, w) && i < |rows|
    ensures Row(Flatten(rows), w, i) == rows[i]
  {
    var rest, last := rows[..|rows| - 1], rows[|rows| - 1];
    FlattenSize(rows, w);
    FlattenSize(rest, w);
    RowInside(|rows|, w, i);
    if i < |rest| {
      RowOfFlatten(rest, w, i);
      RowInside(|rest|, w, i);
      RowOfPrefix(Flatten(rest), last, Area(i, w), w);
    }
  }

  lemma RowOfPrefix<T>(a: seq<T>, b: seq<T>, from: nat, w: nat)
    requires from + w <= |a|
    ensures (a + b)[from..from + w] == a[from..from + w]
  {
  }

  // ---- What each slot holds ----

  /** The first `n` of a row, filled up with `fill`. */
  function Padded(s: seq<nat>, n: nat, fill: nat): (r: seq<nat>)
    ensures |r| == n
  {
    seq(n, i requires 0 <= i < n => if i < |s| then s[i] else fill)
  }

  function NeighborCode(src: Source, l: Layout, list: seq<nat>, n: nat): (r: seq<Byte>)
    ensures |r| == l.codeBytes
  {
    if n < |list| && list[n] < |src.codes| && |src.codes[list[n]]| == l.codeBytes then src.codes[list[n]]
    else seq(l.codeBytes, _ => 0)
  }

  function CodeRow(src: Source, l: Layout, list: seq<nat>, n: nat): seq<Byte> {
    if n == 0 then [] else CodeRow(src, l, list, n - 1) + NeighborCode(src, l, list, n - 1)
  }

  lemma {:induction false} CodeRowSize(src: Source, l: Layout, list: seq<nat>, n: nat)
    ensures |CodeRow(src, l, list, n)| == Area(n, l.codeBytes)
  {
    if n > 0 {
      CodeRowSize(src, l, list, n - 1);
      assert Area(n, l.codeBytes) == Area(n - 1, l.codeBytes) + l.codeBytes;
    }
  }

  function ListOf(src: Source, members: seq<nat>, slot: nat): seq<nat> {
    if slot < |members| && members[slot] < |src.lists| then src.lists[members[slot]] else []
  }

  function VectorOf(src: Source, l: Layout, members: seq<nat>, slot: nat): seq<nat> {
    if slot < |members| && members[slot] < |src.vectors| then src.vectors[members[slot]] else Padded([], l.dim, 0)
  }

  function DegreeRows(src: Source, members: seq<nat>, n: nat): (r: seq<nat>)
    ensures |r| == n
  {
    seq(n, i requires 0 <= i < n => |ListOf(src, members, i)|)
  }

  function VectorRows(src: Source, l: Layout, members: seq<nat>, n: nat): (r: seq<seq<nat>>)
    ensures |r| == n
  {
    seq(n, i requires 0 <= i < n => VectorOf(src, l, members, i))
  }

  function NeighborRows(src: Source, l: Layout, members: seq<nat>, n: nat): (r: seq<seq<nat>>)
    ensures |r| == n
  {
    seq(n, i requires 0 <= i < n => Padded(ListOf(src, members, i), l.degree, NoNode))
  }

  function CodeRows(src: Source, l: Layout, members: seq<nat>, n: nat): (r: seq<seq<Byte>>)
    ensures |r| == n
  {
    seq(n, i requires 0 <= i < n => CodeRow(src, l, ListOf(src, members, i), l.degree))
  }

  // ---- Encoding ----

  function PageWords(src: Source, l: Layout, page: nat, members: seq<nat>, n: nat): seq<nat> {
    [page, |members|] + Padded(members, n, NoNode) + DegreeRows(src, members, n)
    + Flatten(VectorRows(src, l, members, n)) + Flatten(NeighborRows(src, l, members, n))
  }

  function PageCodes(src: Source, l: Layout, members: seq<nat>, n: nat): seq<Byte> {
    Flatten(CodeRows(src, l, members, n))
  }

  function Zeros(n: nat): seq<Byte> {
    seq(n, _ => 0)
  }

  /** The bytes of a page that holds `members`. */
  function EncodedPage(src: Source, l: Layout, page: nat, members: seq<nat>, n: nat): seq<Byte> {
    var body := EncodeWords(PageWords(src, l, page, members, n)) + PageCodes(src, l, members, n);
    body + Zeros(if |body| < l.pageSize then l.pageSize - |body| else 0)
  }

  // ---- Decoding ----

  datatype PageResult = Decoded(page: Page) | Truncated | Corrupted

  /** Neighbours in the row that count: below the stored degree and not a filler. */
  function Neighbors(row: seq<nat>, degree: nat): seq<nat> {
    if row == [] then
      []
    else
      var rest, n := Neighbors(row[..|row| - 1], degree), row[|row| - 1];
      if |row| - 1 < degree && n != NoNode then rest + [n] else rest
  }

  /** The code bytes kept for a node: those below the stored degree, in a vector sized by that degree. */
  function Codes(row: seq<Byte>, degree: nat, codeBytes: nat): seq<Byte> {
    var size := Area(degree, codeBytes);
    if size <= |row| then row[..size] else row + Zeros(size - |row|)
  }

  function WordCount(l: Layout, n: nat): nat {
    2 + n + n + Area(n, l.dim) + Area(n, l.degree)
  }

  function DecodedNode(l: Layout, n: nat, words: seq<nat>, codes: seq<Byte>, slot: nat): Node
    requires |words| == WordCount(l, n) && slot < n
  {
    var degree := words[2 + n + slot];
    var vectors, neighbors := words[2 + n + n..][..Area(n, l.dim)], words[2 + n + n + Area(n, l.dim)..];
    Node(words[2 + slot], Row(vectors, l.dim, slot), Neighbors(Row(neighbors, l.degree, slot), degree),
         if l.codeBytes == 0 then [] else Codes(Row(codes, Area(l.degree, l.codeBytes), slot), degree, l.codeBytes))
  }

  /** `decode_packed_page`. */
  function DecodePage(l: Layout, n: nat, page: nat, bytes: seq<Byte>): PageResult {
    if |bytes| < 8 then
      Truncated
    else if DecodeWords(bytes, 2)[0] != page || DecodeWords(bytes, 2)[1] > n then
      Corrupted
    else if |bytes| < 4 * WordCount(l, n) + Area(n, Area(l.degree, l.codeBytes)) then
      Truncated
    else
      var words := DecodeWords(bytes, WordCount(l, n));
      var count := DecodeWords(bytes, 2)[1];
      var codes := bytes[4 * WordCount(l, n)..];
      Decoded(Page(page, seq(count, i requires 0 <= i < count => DecodedNode(l, n, words, codes, i))))
  }

  // ---- Round trip ----

  /** What a reader finds for a node: the list cut to the degree, and codes sized by the whole list. */
  function StoredNode(src: Source, l: Layout, id: nat): Node
    requires id < |src.vectors| && id < |src.lists|
  {
    var list := src.lists[id];
    Node(id, src.vectors[id], Take(list, l.degree),
         if l.codeBytes == 0 then [] else Codes(CodeRow(src, l, list, l.degree), |list|, l.codeBytes))
  }

  ghost predicate Members(src: Source, members: seq<nat>, n: nat) {
    |members| <= n < U32 && forall m | m in members :: m < |src.lists|
  }

  lemma {:induction false} NeighborsOfPadded(list: seq<nat>, degree: nat)
    requires forall n | n in list :: n != NoNode
    ensures Neighbors(Padded(list, degree, NoNode), |list|) == Take(list, degree)
  {
    if degree > 0 {
      NeighborsOfPadded(list, degree - 1);
      var row := Padded(list, degree, NoNode);
      assert row[..degree - 1] == Padded(list, degree - 1, NoNode);
      if degree - 1 < |list| {
        assert list[degree - 1] in list;
        assert Take(list, degree) == Take(list, degree - 1) + [list[degree - 1]];
      }
    }
  }

  lemma RowsUniform(src: Source, l: Layout, members: seq<nat>, n: nat)
    requires src.Fits(l) && Members(src, members, n)
    ensures Uniform(VectorRows(src, l, members, n), l.dim)
    ensures Uniform(NeighborRows(src, l, members, n), l.degree)
    ensures Uniform(CodeRows(src, l, members, n), Area(l.degree, l.codeBytes))
  {
    forall i | 0 <= i < n
      ensures |VectorRows(src, l, members, n)[i]| == l.dim
    {
      if i < |members| { assert members[i] in members; }
    }
    forall i | 0 <= i < n
      ensures |CodeRows(src, l, members, n)[i]| == Area(l.degree, l.codeBytes)
    {
      CodeRowSize(src, l, ListOf(src, members, i), l.degree);
    }
  }

  lemma WordsSize(src: Source, l: Layout, page: nat, members: seq<nat>, n: nat)
    requires src.Fits(l) && Members(src, members, n)
    ensures |PageWords(src, l, page, members, n)| == WordCount(l, n)
    ensures |PageCodes(src, l, members, n)| == Area(n, Area(l.degree, l.codeBytes))
  {
    RowsUniform(src, l, members, n);
    FlattenSize(VectorRows(src, l, members, n), l.dim);
    FlattenSize(NeighborRows(src, l, members, n), l.degree);
    FlattenSize(CodeRows(src, l, members, n), Area(l.degree, l.codeBytes));
  }

  /** `packed_nodes_per_page`: a page takes `n` nodes exactly when their blocks do not overflow it. */
  lemma PageFits(l: Layout, n: nat)
    requires 0 < n
    ensures n <= l.NodesPerPage() <==> 4 * WordCount(l, n) + Area(n, Area(l.degree, l.codeBytes)) <= l.pageSize
  {
    var per := l.PerNode();
    Distribute(n, l.dim, l.degree, Area(l.degree, l.codeBytes));
    if n <= l.NodesPerPage() {
      assert (l.pageSize - 8) / per * per <= l.pageSize - 8;
      Monotone(n, l.NodesPerPage(), per);
    } else if 8 + n * per <= l.pageSize {
      AtLeast(per, n);
      DivMonotone(n * per, l.pageSize - 8, per);
      DivUnique(n * per, per, n, 0);
    }
  }

  lemma Monotone(a: nat, b: nat, c: nat)
    requires a <= b
    ensures a * c <= b * c
  {
  }

  lemma Distribute(n: nat, dim: nat, degree: nat, codes: nat)
    ensures n * (8 + 4 * dim + 4 * degree + codes)
            == 8 * n + 4 * Area(n, dim) + 4 * Area(n, degree) + Area(n, codes)
  {
  }

  lemma {:induction false} FlattenWords(rows: seq<seq<nat>>)
    requires forall i | 0 <= i < |rows| :: AllWords(rows[i])
    ensures AllWords(Flatten(rows))
  {
    if rows != [] {
      FlattenWords(rows[..|rows| - 1]);
    }
  }

  lemma AllWordsConcat(a: seq<nat>, b: seq<nat>)
    requires AllWords(a) && AllWords(b)
    ensures AllWords(a + b)
  {
  }

  lemma PageWordsFit(src: Source, l: Layout, page: nat, members: seq<nat>, n: nat)
    requires src.Fits(l) && Members(src, members, n) && page < U32
    ensures AllWords(PageWords(src, l, page, members, n))
  {
    var ids, degrees := Padded(members, n, NoNode), DegreeRows(src, members, n);
    var vectors, neighbors := VectorRows(src, l, members, n), NeighborRows(src, l, members, n);
    forall i | 0 <= i < n
      ensures ids[i] < U32 && degrees[i] < U32 && AllWords(vectors[i]) && AllWords(neighbors[i])
    {
      SlotFits(src, l, members, i);
    }
    FlattenWords(vectors);
    FlattenWords(neighbors);
    AllWordsConcat([page, |members|], ids);
    AllWordsConcat([page, |members|] + ids, degrees);
    AllWordsConcat([page, |members|] + ids + degrees, Flatten(vectors));
    AllWordsConcat([page, |members|] + ids + degrees + Flatten(vectors), Flatten(neighbors));
  }

  lemma SlotFits(src: Source, l: Layout, members: seq<nat>, i: nat)
    requires src.Fits(l) && forall m | m in members :: m < |src.lists|
    ensures i < |members| ==> members[i] < U32
    ensures |ListOf(src, members, i)| < U32
    ensures AllWords(VectorOf(src, l, members, i))
    ensures AllWords(Padded(ListOf(src, members, i), l.degree, NoNode))
  {
    if i < |members| {
      var m := members[i];
      assert m in members;
      var list := src.lists[m];
      forall k | 0 <= k < l.degree
        ensures Padded(list, l.degree, NoNode)[k] < U32
      {
        if k < |list| { assert list[k] in list; }
      }
    }
  }

  /** The blocks of a page are found at their offsets. */
  lemma BlocksOf(src: Source, l: Layout, page: nat, members: seq<nat>, n: nat)
    requires src.Fits(l) && Members(src, members, n)
    ensures var words := PageWords(src, l, page, members, n);
            && |words| == WordCount(l, n)
            && (forall i | 0 <= i < n :: words[2 + i] == Padded(members, n, NoNode)[i])
            && (forall i | 0 <= i < n :: words[2 + n + i] == DegreeRows(src, members, n)[i])
            && words[2 + n + n..][..Area(n, l.dim)] == Flatten(VectorRows(src, l, members, n))
            && words[2 + n + n + Area(n, l.dim)..] == Flatten(NeighborRows(src, l, members, n))
  {
    WordsSize(src, l, page, members, n);
    RowsUniform(src, l, members, n);
    FlattenSize(VectorRows(src, l, members, n), l.dim);
    FourBlocks([page, |members|], Padded(members, n, NoNode), DegreeRows(src, members, n),
               Flatten(VectorRows(src, l, members, n)), Flatten(NeighborRows(src, l, members, n)));
  }

  lemma FourBlocks(h: seq<nat>, a: seq<nat>, b: seq<nat>, c: seq<nat>, d: seq<nat>)
    ensures var s := h + a + b + c + d;
            && (forall i | 0 <= i < |a| :: s[|h| + i] == a[i])
            && (forall i | 0 <= i < |b| :: s[|h| + |a| + i] == b[i])
            && s[|h| + |a| + |b|..][..|c|] == c
            && s[|h| + |a| + |b| + |c|..] == d
  {
  }

  /** A stored node is decoded from its slot. */
  lemma SlotRoundTrip(src: Source, l: Layout, page: nat, members: seq<nat>, n: nat, rest: seq<Byte>, slot: nat)
    requires src.Fits(l) && Members(src, members, n) && slot < |members|
    ensures members[slot] < |src.lists|
    ensures |PageWords(src, l, page, members, n)| == WordCount(l, n)
    ensures DecodedNode(l, n, PageWords(src, l, page, members, n), PageCodes(src, l, members, n) + rest, slot)
            == StoredNode(src, l, members[slot])
  {
    SlotWords(src, l, page, members, n, slot);
    CodesRoundTrip(src, l, members, n, rest, slot);
  }

  /** The words of one slot. */
  lemma SlotWords(src: Source, l: Layout, page: nat, members: seq<nat>, n: nat, slot: nat)
    requires src.Fits(l) && Members(src, members, n) && slot < |members|
    ensures members[slot] < |src.lists| && |PageWords(src, l, page, members, n)| == WordCount(l, n)
    ensures var words, m := PageWords(src, l, page, members, n), members[slot];
            && words[2 + slot] == m && words[2 + n + slot] == |src.lists[m]|
            && Row(words[2 + n + n..][..Area(n, l.dim)], l.dim, slot) == src.vectors[m]
            && Neighbors(Row(words[2 + n + n + Area(n, l.dim)..], l.degree, slot), |src.lists[m]|)
               == Take(src.lists[m], l.degree)
  {
    BlocksOf(src, l, page, members, n);
    VectorRoundTrip(src, l, members, n, slot);
    NeighborsRoundTrip(src, l, members, n, slot);
  }

  lemma VectorRoundTrip(src: Source, l: Layout, members: seq<nat>, n: nat, slot: nat)
    requires src.Fits(l) && Members(src, members, n) && slot < |members|
    ensures members[slot] < |src.vectors|
    ensures Row(Flatten(VectorRows(src, l, members, n)), l.dim, slot) == src.vectors[members[slot]]
  {
    RowsUniform(src, l, members, n);
    RowOfFlatten(VectorRows(src, l, members, n), l.dim, slot);
    assert members[slot] in members;
  }

  lemma NeighborsRoundTrip(src: Source, l: Layout, members: seq<nat>, n: nat, slot: nat)
    requires src.Fits(l) && Members(src, members, n) && slot < |members|
    ensures members[slot] < |src.lists|
    ensures var list := src.lists[members[slot]];
            Neighbors(Row(Flatten(NeighborRows(src, l, members, n)), l.degree, slot), |list|) == Take(list, l.degree)
  {
    assert members[slot] in members;
    var list := src.lists[members[slot]];
    RowsUniform(src, l, members, n);
    RowOfFlatten(NeighborRows(src, l, members, n), l.degree, slot);
    assert forall m | m in list :: m != NoNode;
    NeighborsOfPadded(list, l.degree);
  }

  lemma CodesRoundTrip(src: Source, l: Layout, members: seq<nat>, n: nat, rest: seq<Byte>, slot: nat)
    requires src.Fits(l) && Members(src, members, n) && slot < |members|
    ensures Row(PageCodes(src, l, members, n) + rest, Area(l.degree, l.codeBytes), slot)
            == CodeRow(src, l, ListOf(src, members, slot), l.degree)
  {
    var w := Area(l.degree, l.codeBytes);
    var rows := CodeRows(src, l, members, n);
    RowsUniform(src, l, members, n);
    FlattenSize(rows, w);
    RowOfFlatten(rows, w, slot);
    RowInside(n, w, slot);
    RowOfPrefix(Flatten(rows), rest, Area(slot, w), w);
  }

  /** Decoding a page that was encoded within the size bound gives back its nodes. */
  lemma PageRoundTrip(src: Source, l: Layout, page: nat, members: seq<nat>)
    requires src.Fits(l) && page < U32 && 0 < l.NodesPerPage() < U32 && Members(src, members, l.NodesPerPage())
    ensures var n := l.NodesPerPage();
            && |EncodedPage(src, l, page, members, n)| == l.pageSize
            && DecodePage(l, n, page, EncodedPage(src, l, page, members, n))
               == Decoded(Page(page, seq(|members|, i requires 0 <= i < |members| =>
                                           (assert members[i] in members; StoredNode(src, l, members[i])))))
  {
    var n := l.NodesPerPage();
    var words, codes := PageWords(src, l, page, members, n), PageCodes(src, l, members, n);
    var bytes := EncodedPage(src, l, page, members, n);
    WordsSize(src, l, page, members, n);
    PageFits(l, n);
    PageWordsFit(src, l, page, members, n);
    var body := EncodeWords(words) + codes;
    var rest := Zeros(l.pageSize - |body|);
    assert bytes == EncodeWords(words) + (codes + rest);
    WordsRoundTrip(words, codes + rest);
    HeaderOf(words, codes + rest);
    assert bytes[4 * |words|..] == codes + rest;
    forall i | 0 <= i < |members|
      ensures members[i] < |src.lists| && DecodedNode(l, n, words, codes + rest, i) == StoredNode(src, l, members[i])
    {
      SlotRoundTrip(src, l, page, members, n, rest, i);
    }
  }

  lemma HeaderOf(words: seq<nat>, rest: seq<Byte>)
    requires |words| >= 2 && AllWords(words)
    ensures DecodeWords(EncodeWords(words) + rest, 2) == words[..2]
  {
    EncodeWordsSplit(words);
    WordsRoundTrip(words[..2], EncodeWords(words[2..]) + rest);
    assert EncodeWords(words[..2]) + EncodeWords(words[2..]) + rest
      == EncodeWords(words[..2]) + (EncodeWords(words[2..]) + rest);
  }

  lemma EncodeWordsSplit(words: seq<nat>)
    requires |words| >= 2
    ensures EncodeWords(words) == EncodeWords(words[..2]) + EncodeWords(words[2..])
  {
    EncodeWordsConcat(words[..2], words[2..]);
    assert words[..2] + words[2..] == words;
  }

  lemma {:induction false} EncodeWordsConcat(a: seq<nat>, b: seq<nat>)
    ensures EncodeWords(a + b) == EncodeWords(a) + EncodeWords(b)
  {
    if a == [] {
      assert a + b == b;
    } else {
      EncodeWordsConcat(a[1..], b);
      assert (a + b)[1..] == a[1..] + b;
    }
  }

  /** The neighbour list decoded from a page is the one that was packed exactly when that is not longer than the degree. */
  lemma NeighborsExactIff(src: Source, l: Layout, page: nat, members: seq<nat>, i: nat)
    requires src.Fits(l) && page < U32 && 0 < l.NodesPerPage() < U32 && Members(src, members, l.NodesPerPage())
    requires i < |members|
    ensures members[i] < |src.lists|
    ensures var n := l.NodesPerPage();
            var r := DecodePage(l, n, page, EncodedPage(src, l, page, members, n));
            && r.Decoded? && |r.page.nodes| == |members| && r.page.nodes[i].id == members[i]
            && (r.page.nodes[i].neighbors == src.lists[members[i]] <==> |src.lists[members[i]]| <= l.degree)
  {
    PageRoundTrip(src, l, page, members);
    assert members[i] in members;
  }

  /** Then every neighbour keeps its own code, in order. */
  lemma CodesExact(src: Source, l: Layout, id: nat, k: nat)
    requires src.Fits(l) && id < |src.lists| && |src.lists[id]| <= l.degree && l.codeBytes > 0 && k < |src.lists[id]|
    ensures src.lists[id][k] < |src.codes|
    ensures |StoredNode(src, l, id).codes| == Area(|src.lists[id]|, l.codeBytes)
    ensures Row(StoredNode(src, l, id).codes, l.codeBytes, k) == src.codes[src.lists[id][k]]
  {
    var list := src.lists[id];
    assert list[k] in list;
    CodeRowSize(src, l, list, l.degree);
    CodeRowSize(src, l, list, |list|);
    CodeRowPrefix(src, l, list, l.degree, |list|);
    CodeRowAt(src, l, list, |list|, k);
  }

  lemma {:induction false} CodeRowPrefix(src: Source, l: Layout, list: seq<nat>, n: nat, m: nat)
    requires m <= n
    ensures |CodeRow(src, l, list, m)| == Area(m, l.codeBytes) <= |CodeRow(src, l, list, n)|
    ensures CodeRow(src, l, list, n)[..Area(m, l.codeBytes)] == CodeRow(src, l, list, m)
  {
    CodeRowSize(src, l, list, m);
    if m < n {
      CodeRowPrefix(src, l, list, n - 1, m);
      PrefixOfConcat(CodeRow(src, l, list, n - 1), NeighborCode(src, l, list, n - 1), Area(m, l.codeBytes));
    }
  }

  lemma PrefixOfConcat<T>(a: seq<T>, b: seq<T>, n: nat)
    requires n <= |a|
    ensures (a + b)[..n] == a[..n]
  {
  }

  lemma CodeRowAt(src: Source, l: Layout, list: seq<nat>, n: nat, k: nat)
    requires k < n
    ensures Row(CodeRow(src, l, list, n), l.codeBytes, k) == NeighborCode(src, l, list, k)
  {
    CodeRowPrefix(src, l, list, n, k + 1);
    CodeRowSize(src, l, list, k);
    CodeRowSize(src, l, list, n);
    var row, w := CodeRow(src, l, list, n), l.codeBytes;
    assert Area(k + 1, w) == Area(k, w) + w;
    assert row[Area(k, w)..Area(k, w) + w] == row[..Area(k, w) + w][Area(k, w)..];
  }

  // ---- The writer ----

  /** Consecutive `put_bytes` of 32-bit words; a write past the end of the page is refused. */
  method PutWords(out: seq<Byte>, words: seq<nat>, pageSize: nat) returns (ok: bool, next: seq<Byte>)
    ensures ok <==> words == [] || |out| + 4 * |words| <= pageSize
    ensures ok ==> next == out + EncodeWords(words)
  {
    next := out;
    for i := 0 to |words|
      invariant next == out + EncodeWords(words[..i])
      invariant i > 0 ==> |out| + 4 * i <= pageSize
    {
      if |next| + 4 > pageSize {
        return false, next;
      }
      EncodeWordsConcat(words[..i], [words[i]]);
      assert words[..i + 1] == words[..i] + [words[i]];
      next := next + EncodeWords([words[i]]);
    }
    ok := true;
    assert words[..|words|] == words;
  }

  method PutRows(out: seq<Byte>, rows: seq<seq<nat>>, pageSize: nat) returns (ok: bool, next: seq<Byte>)
    ensures |out| + 4 * |Flatten(rows)| <= pageSize ==> ok
    ensures ok ==> next == out + EncodeWords(Flatten(rows))
  {
    next := out;
    for i := 0 to |rows|
      invariant next == out + EncodeWords(Flatten(rows[..i]))
    {
      assert rows[..i + 1][..i] == rows[..i];
      EncodeWordsConcat(Flatten(rows[..i]), rows[i]);
      FlattenGrows(rows, i + 1);
      ok, next := PutWords(next, rows[i], pageSize);
      if !ok {
        return;
      }
    }
    ok := true;
    assert rows[..|rows|] == rows;
  }

  lemma {:induction false} FlattenGrows<T>(rows: seq<seq<T>>, i: nat)
    requires i <= |rows|
    ensures |Flatten(rows[..i])| <= |Flatten(rows)|
    decreases |rows| - i
  {
    if i == |rows| {
      assert rows[..i] == rows;
    } else {
      FlattenGrows(rows, i + 1);
      assert rows[..i + 1][..i] == rows[..i];
    }
  }

  method PutBytes(out: seq<Byte>, rows: seq<seq<Byte>>, pageSize: nat) returns (ok: bool, next: seq<Byte>)
    ensures |out| + |Flatten(rows)| <= pageSize ==> ok
    ensures ok ==> next == out + Flatten(rows)
  {
    next := out;
    for i := 0 to |rows|
      invariant next == out + Flatten(rows[..i])
    {
      assert rows[..i + 1][..i] == rows[..i];
      FlattenGrows(rows, i + 1);
      if |next| + |rows[i]| > pageSize {
        return false, next;
      }
      next := next + rows[i];
    }
    ok := true;
    assert rows[..|rows|] == rows;
  }

  /** `encode_packed_page`: block after block into a zeroed page. It never overflows within the size bound. */
  method EncodePackedPage(src: Source, l: Layout, page: nat, members: seq<nat>, n: nat)
    returns (ok: bool, bytes: seq<Byte>)
    requires src.Fits(l) && Members(src, members, n) && 0 < n
    ensures n <= l.NodesPerPage() ==> ok
    ensures ok ==> bytes == EncodedPage(src, l, page, members, n)
  {
    ghost var words := PageWords(src, l, page, members, n);
    WordsSize(src, l, page, members, n);
    if n <= l.NodesPerPage() {
      PageFits(l, n);
    }
    var ids, degrees := Padded(members, n, NoNode), DegreeRows(src, members, n);
    ok, bytes := PutWords([], [page, |members|] + ids + degrees, l.pageSize);
    if !ok { return; }
    ghost var head := [page, |members|] + ids + degrees;
    assert bytes == EncodeWords(head);
    ghost var vectors := Flatten(VectorRows(src, l, members, n));
    ghost var neighbors := Flatten(NeighborRows(src, l, members, n));
    ok, bytes := PutRows(bytes, VectorRows(src, l, members, n), l.pageSize);
    if !ok { return; }
    EncodeWordsConcat(head, vectors);
    ok, bytes := PutRows(bytes, NeighborRows(src, l, members, n), l.pageSize);
    if !ok { return; }
    EncodeWordsConcat(head + vectors, neighbors);
    ok, bytes := PutBytes(bytes, CodeRows(src, l, members, n), l.pageSize);
    if !ok { return; }
    bytes := bytes + Zeros(if |bytes| < l.pageSize then l.pageSize - |bytes| else 0);
  }
}
