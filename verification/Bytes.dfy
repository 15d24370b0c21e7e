/** Little-endian fixed-width fields, as written by `write_value` and read back by `read_value`. */
module Bytes {
  import opened Division

  type Byte = b: nat | b < 256

  function Pow256(k: nat): (r: nat)
    ensures r > 0
  {
    if k == 0 then 1 else 256 * Pow256(k - 1)
  }

  const U32: nat := 0x1_0000_0000
  const U64: nat := 0x1_0000_0000_0000_0000

  lemma Pow256Values()
    ensures Pow256(1) == 256 && Pow256(2) == 65536 && Pow256(4) == U32 && Pow256(8) == U64
  {
    assert Pow256(3) == 256 * Pow256(2);
    assert Pow256(5) == 256 * Pow256(4);
    assert Pow256(6) == 256 * Pow256(5);
    assert Pow256(7) == 256 * Pow256(6);
  }

  /** The low `k` bytes of `v`, least significant first. */
  function Encode(v: nat, k: nat): (r: seq<Byte>)
    ensures |r| == k
  {
    if k == 0 then [] else [v % 256] + Encode(v / 256, k - 1)
  }

  /** The byte at place `i` is the digit of `256^i`. */
  lemma {:induction false} EncodedByte(v: nat, k: nat, i: nat)
    requires i < k
    ensures Encode(v, k)[i] == v / Pow256(i) % 256
  {
    if i > 0 {
      EncodedByte(v / 256, k - 1, i - 1);
      DivTwice(v, 256, Pow256(i - 1));
    }
  }

  function Decode(s: seq<Byte>): nat {
    if s == [] then 0 else s[0] + 256 * Decode(s[1..])
  }

  lemma {:induction false} DecodeEncode(v: nat, k: nat)
    requires v < Pow256(k)
    ensures Decode(Encode(v, k)) == v
  {
    if k > 0 {
      DecodeEncode(v / 256, k - 1);
      assert Encode(v, k)[1..] == Encode(v / 256, k - 1);
    }
  }

  /** Bytes that were read are written again. */
  lemma {:induction false} EncodeDecode(s: seq<Byte>)
    ensures Decode(s) < Pow256(|s|) && Encode(Decode(s), |s|) == s
  {
    if s != [] {
      EncodeDecode(s[1..]);
      assert s == [s[0]] + s[1..];
    }
  }

  // ---- Sequences of fields ----

  function Total(widths: seq<nat>): nat {
    if widths == [] then 0 else widths[0] + Total(widths[1..])
  }

  function EncodeFields(vals: seq<nat>, widths: seq<nat>): (r: seq<Byte>)
    requires |vals| == |widths|
    ensures |r| == Total(widths)
  {
    if vals == [] then [] else Encode(vals[0], widths[0]) + EncodeFields(vals[1..], widths[1..])
  }

  function DecodeFields(b: seq<Byte>, widths: seq<nat>): (r: seq<nat>)
    requires |b| >= Total(widths)
    ensures |r| == |widths|
  {
    if widths == [] then [] else [Decode(b[..widths[0]])] + DecodeFields(b[widths[0]..], widths[1..])
  }

  ghost predicate FieldsFit(vals: seq<nat>, widths: seq<nat>) {
    |vals| == |widths| && forall i | 0 <= i < |vals| :: vals[i] < Pow256(widths[i])
  }

  lemma SplitHead(head: seq<Byte>, tail: seq<Byte>, rest: seq<Byte>)
    ensures (head + tail + rest)[..|head|] == head && (head + tail + rest)[|head|..] == tail + rest
  {
  }

  lemma ConsThree(a: nat, b: nat, c: nat, s: seq<nat>)
    ensures [a, b, c] + s == [a] + ([b] + ([c] + s))
  {
  }

  lemma FieldsCons(v: nat, w: nat, vals: seq<nat>, widths: seq<nat>)
    requires |vals| == |widths|
    ensures EncodeFields([v] + vals, [w] + widths) == Encode(v, w) + EncodeFields(vals, widths)
  {
    assert ([v] + vals)[1..] == vals && ([w] + widths)[1..] == widths;
  }

  /** Field `i` stands behind the fields before it. */
  lemma {:induction false} FieldPlace(vals: seq<nat>, widths: seq<nat>, i: nat)
    requires i < |vals| == |widths|
    ensures Total(widths[..i + 1]) == Total(widths[..i]) + widths[i] <= Total(widths)
    ensures EncodeFields(vals, widths)[Total(widths[..i])..Total(widths[..i + 1])] == Encode(vals[i], widths[i])
  {
    var w := widths[0];
    assert widths[..i + 1][0] == w && widths[..i + 1][1..] == widths[1..][..i];
    if i > 0 {
      FieldPlace(vals[1..], widths[1..], i - 1);
      assert widths[..i][1..] == widths[1..][..i - 1];
      var tail, at := EncodeFields(vals[1..], widths[1..]), Total(widths[1..][..i - 1]);
      SliceBehind(Encode(vals[0], w), tail, at, widths[i]);
    }
  }

  lemma SliceBehind(a: seq<Byte>, b: seq<Byte>, at: nat, w: nat)
    requires at + w <= |b|
    ensures (a + b)[|a| + at..|a| + at + w] == b[at..at + w]
  {
  }

  /** Values that fit their widths are read back exactly, whatever follows them. */
  lemma {:induction false} FieldsRoundTrip(vals: seq<nat>, widths: seq<nat>, rest: seq<Byte>)
    requires FieldsFit(vals, widths)
    ensures DecodeFields(EncodeFields(vals, widths) + rest, widths) == vals
  {
    if vals != [] {
      var w := widths[0];
      var head, tail := Encode(vals[0], w), EncodeFields(vals[1..], widths[1..]);
      SplitHead(head, tail, rest);
      DecodeEncode(vals[0], w);
      FieldsRoundTrip(vals[1..], widths[1..], rest);
      assert vals == [vals[0]] + vals[1..];
    }
  }

  /** A value that fits its width is read back exactly, whether or not the others do. */
  lemma {:induction false} FieldAt(vals: seq<nat>, widths: seq<nat>, rest: seq<Byte>, i: nat)
    requires i < |vals| == |widths| && vals[i] < Pow256(widths[i])
    ensures DecodeFields(EncodeFields(vals, widths) + rest, widths)[i] == vals[i]
  {
    var head, tail := Encode(vals[0], widths[0]), EncodeFields(vals[1..], widths[1..]);
    SplitHead(head, tail, rest);
    if i == 0 {
      DecodeEncode(vals[0], widths[0]);
    } else {
      FieldAt(vals[1..], widths[1..], rest, i - 1);
    }
  }

  /** Whatever is read as fields fits them, and is written as the same bytes. */
  lemma {:induction false} FieldsExact(b: seq<Byte>, widths: seq<nat>)
    requires |b| >= Total(widths)
    ensures FieldsFit(DecodeFields(b, widths), widths)
    ensures EncodeFields(DecodeFields(b, widths), widths) == b[..Total(widths)]
  {
    if widths != [] {
      var w, n := widths[0], Total(widths);
      EncodeDecode(b[..w]);
      FieldsExact(b[w..], widths[1..]);
      FieldsCons(Decode(b[..w]), w, DecodeFields(b[w..], widths[1..]), widths[1..]);
      assert [w] + widths[1..] == widths;
      assert b[..n] == b[..w] + b[w..][..n - w];
    }
  }

  /** Reading looks only at the bytes of the fields. */
  lemma {:induction false} FieldsFromPrefix(b: seq<Byte>, c: seq<Byte>, widths: seq<nat>)
    requires |b| >= Total(widths) && |c| >= Total(widths)
    requires b[..Total(widths)] == c[..Total(widths)]
    ensures DecodeFields(b, widths) == DecodeFields(c, widths)
  {
    if widths != [] {
      var w, n := widths[0], Total(widths);
      assert b[..w] == b[..n][..w] == c[..w];
      assert b[w..][..n - w] == b[..n][w..];
      assert c[w..][..n - w] == c[..n][w..];
      FieldsFromPrefix(b[w..], c[w..], widths[1..]);
    }
  }

  // ---- Arrays of 32-bit words ----

  /** Word `i` is found at byte `4 * i`. */
  lemma {:induction false} WordAt(vals: seq<nat>, i: nat)
    requires i < |vals|
    ensures EncodeWords(vals)[4 * i..4 * i + 4] == Encode(vals[i], 4)
  {
    var head, tail := Encode(vals[0], 4), EncodeWords(vals[1..]);
    assert Fours(|vals|)[1..] == Fours(|vals| - 1);
    assert EncodeWords(vals) == head + tail;
    if i > 0 {
      WordAt(vals[1..], i - 1);
      assert (head + tail)[4 * i..4 * i + 4] == tail[4 * (i - 1)..4 * (i - 1) + 4];
    }
  }

  function Fours(n: nat): (r: seq<nat>)
    ensures |r| == n && Total(r) == 4 * n
    ensures forall i | 0 <= i < n :: r[i] == 4
  {
    if n == 0 then [] else [4] + Fours(n - 1)
  }

  ghost predicate AllWords(vals: seq<nat>) {
    forall i | 0 <= i < |vals| :: vals[i] < U32
  }

  function EncodeWords(vals: seq<nat>): (r: seq<Byte>)
    ensures |r| == 4 * |vals|
  {
    EncodeFields(vals, Fours(|vals|))
  }

  function DecodeWords(b: seq<Byte>, n: nat): (r: seq<nat>)
    requires |b| >= 4 * n
    ensures |r| == n
  {
    DecodeFields(b, Fours(n))
  }

  lemma WordsRoundTrip(vals: seq<nat>, rest: seq<Byte>)
    requires AllWords(vals)
    ensures DecodeWords(EncodeWords(vals) + rest, |vals|) == vals
  {
    Pow256Values();
    FieldsRoundTrip(vals, Fours(|vals|), rest);
  }

  lemma WordsExact(b: seq<Byte>, n: nat)
    requires |b| >= 4 * n
    ensures AllWords(DecodeWords(b, n)) && EncodeWords(DecodeWords(b, n)) == b[..4 * n]
  {
    Pow256Values();
    FieldsExact(b, Fours(n));
  }

  // ---- A header followed by two word arrays: the layout of every stored record ----

  function EncodeParts(fields: seq<nat>, widths: seq<nat>, u: seq<nat>, v: seq<nat>): (b: seq<Byte>)
    requires |fields| == |widths|
    ensures |b| == Total(widths) + 4 * |u| + 4 * |v|
  {
    EncodeFields(fields, widths) + EncodeWords(u) + EncodeWords(v)
  }

  /** All three parts are found again at their offsets, whatever follows. */
  lemma PartsRoundTrip(fields: seq<nat>, widths: seq<nat>, u: seq<nat>, v: seq<nat>, rest: seq<Byte>)
    requires FieldsFit(fields, widths) && AllWords(u) && AllWords(v)
    ensures DecodeFields(EncodeParts(fields, widths, u, v) + rest, widths) == fields
    ensures DecodeWords((EncodeParts(fields, widths, u, v) + rest)[Total(widths)..], |u|) == u
    ensures DecodeWords((EncodeParts(fields, widths, u, v) + rest)[Total(widths)..][4 * |u|..], |v|) == v
  {
    var h, x, y := EncodeFields(fields, widths), EncodeWords(u), EncodeWords(v);
    FieldsRoundTrip(fields, widths, x + (y + rest));
    WordsRoundTrip(u, y + rest);
    WordsRoundTrip(v, rest);
    ThreeParts(h, x, y, rest);
  }

  /** Three parts that were read are written as the bytes they came from. */
  lemma PartsExact(b: seq<Byte>, widths: seq<nat>, m: nat, n: nat)
    requires |b| >= Total(widths) + 4 * m + 4 * n
    ensures var fields := DecodeFields(b, widths);
            var u, v := DecodeWords(b[Total(widths)..], m), DecodeWords(b[Total(widths)..][4 * m..], n);
            && FieldsFit(fields, widths) && AllWords(u) && AllWords(v)
            && EncodeParts(fields, widths, u, v) == b[..Total(widths) + 4 * m + 4 * n]
  {
    var t := Total(widths);
    FieldsExact(b, widths);
    WordsExact(b[t..], m);
    WordsExact(b[t..][4 * m..], n);
    ThreeSlices(b, t, 4 * m, 4 * n);
  }

  lemma ThreeSlices(b: seq<Byte>, i: nat, j: nat, k: nat)
    requires i + j + k <= |b|
    ensures b[..i] + b[i..][..j] + b[i..][j..][..k] == b[..i + j + k]
  {
  }

  lemma ThreeParts(h: seq<Byte>, x: seq<Byte>, y: seq<Byte>, rest: seq<Byte>)
    ensures h + x + y + rest == h + (x + (y + rest))
    ensures (h + x + y + rest)[|h|..] == x + (y + rest)
    ensures (h + x + y + rest)[|h|..][|x|..] == y + rest
  {
  }

  /** The payload checksum may be any function; only its low 32 bits are stored. */
  type Checksum = (seq<nat>, seq<nat>) -> nat
}
