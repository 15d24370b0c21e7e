/** Product quantisation over the reals: offsets, encoding, decoding and asymmetric distances. */
module Pq {
  import opened Division

  type Vector = seq<real>

  /** Sum of squared differences over the dimensions in `[from, to)`. */
  function SquaredSum(a: Vector, b: Vector, from: nat, to: nat): real
    requires from <= to <= |a| && to <= |b|
  {
    if from == to then 0.0
    else SquaredSum(a, b, from, to - 1) + (a[to - 1] - b[to - 1]) * (a[to - 1] - b[to - 1])
  }

  lemma {:induction false} SumSplit(a: Vector, b: Vector, i: nat, j: nat, k: nat)
    requires i <= j <= k <= |a| && k <= |b|
    ensures SquaredSum(a, b, i, k) == SquaredSum(a, b, i, j) + SquaredSum(a, b, j, k)
  {
    if j < k {
      SumSplit(a, b, i, j, k - 1);
    }
  }

  lemma {:induction false} SumSame(a: Vector, b: Vector, c: Vector, i: nat, j: nat)
    requires i <= j <= |a| && j <= |b| && j <= |c|
    requires forall d | i <= d < j :: b[d] == c[d]
    ensures SquaredSum(a, b, i, j) == SquaredSum(a, c, i, j)
  {
    if i < j {
      SumSame(a, b, c, i, j - 1);
    }
  }

  /** A trained quantiser: `books[m][c]` is centroid `c` of subspace `m`. */
  datatype Quantizer = Quantizer(dim: nat, subspaces: nat, centroids: nat, books: seq<seq<Vector>>) {
    /** What `train` establishes; the training method itself does not matter. */
    ghost predicate Valid() {
      && 0 < subspaces <= dim
      && 2 <= centroids <= 256
      && |books| == subspaces
      && (forall m | 0 <= m < subspaces :: |books[m]| == centroids)
      && (forall m, c | 0 <= m < subspaces && 0 <= c < centroids :: |books[m][c]| == dim)
    }

    /** `offsets_`. */
    function Offset(m: nat): nat
      requires subspaces > 0
    {
      m * dim / subspaces
    }

    /**
     Offsets run from 0 to the dimension, every subspace has at least one dimension, and subspace `m` starts
     where its share of the dimensions, rounded down, puts it.
     */
    lemma OffsetsPartition(m: nat)
      requires 0 < subspaces <= dim && m < subspaces
      ensures Offset(0) == 0 && Offset(subspaces) == dim
      ensures Offset(m) < Offset(m + 1)
      ensures subspaces * Offset(m) <= m * dim < subspaces * (Offset(m) + 1)
    {
      DivUnique(subspaces * dim, subspaces, dim, 0);
      DivUnique(0, subspaces, 0, 0);
      assert m * dim == subspaces * Offset(m) + m * dim % subspaces;
      AddDivisor(m * dim, subspaces);
      assert (m + 1) * dim == m * dim + dim;
      DivMonotone(m * dim + subspaces, m * dim + dim, subspaces);
    }

    lemma {:induction false} OffsetsOrdered(m: nat, k: nat)
      requires 0 < subspaces <= dim && m <= k <= subspaces
      ensures Offset(m) <= Offset(k) <= dim
      decreases subspaces - m
    {
      if m < k {
        OffsetsPartition(m);
        OffsetsOrdered(m + 1, k);
      } else if k < subspaces {
        OffsetsPartition(k);
        OffsetsOrdered(k + 1, subspaces);
      } else {
        OffsetsPartition(0);
      }
    }

    /** Every dimension lies in exactly one subspace. */
    lemma {:induction false} DimensionHasSubspace(d: nat, k: nat) returns (m: nat)
      requires 0 < subspaces <= dim && k <= subspaces && d < Offset(k)
      ensures m < k && Offset(m) <= d < Offset(m + 1)
    {
      m := 0;
      OffsetsPartition(0);
      if k == 0 {
        assert false;
      } else if Offset(k - 1) <= d {
        m := k - 1;
      } else {
        m := DimensionHasSubspace(d, k - 1);
      }
    }

    lemma SubspaceUnique(d: nat, m: nat, k: nat)
      requires 0 < subspaces <= dim && m < subspaces && k < subspaces
      requires Offset(m) <= d < Offset(m + 1) && Offset(k) <= d < Offset(k + 1)
      ensures m == k
    {
      if m < k {
        OffsetsOrdered(m + 1, k);
      } else if k < m {
        OffsetsOrdered(k + 1, m);
      }
    }

    ghost predicate IsCode(code: seq<nat>) {
      |code| == subspaces && forall m | 0 <= m < subspaces :: code[m] < centroids
    }

    /** `v` agrees with centroid `c` of subspace `m` on the subspace's dimensions. */
    ghost predicate Slice(v: Vector, m: nat, c: nat)
      requires Valid() && m < subspaces && c < centroids
    {
      Offset(m + 1) <= |v| && Offset(m + 1) <= dim
      && forall d | Offset(m) <= d < Offset(m + 1) :: v[d] == books[m][c][d]
    }

    /** `v` holds, in each of the first `k` subspaces, the centroid the code names. */
    ghost predicate Holds(v: Vector, code: seq<nat>, k: nat)
      requires Valid() && IsCode(code) && k <= subspaces
    {
      forall m | 0 <= m < k :: Slice(v, m, code[m])
    }

    /** Distance of `v` from the centroid `c` of subspace `m`, within the subspace. */
    function Local(v: Vector, m: nat, c: nat): real
      requires Valid() && |v| == dim && m < subspaces && c < centroids
    {
      OffsetsOrdered(m, m + 1);
      OffsetsOrdered(m + 1, subspaces);
      SquaredSum(v, books[m][c], Offset(m), Offset(m + 1))
    }

    function LocalSum(v: Vector, code: seq<nat>, k: nat): real
      requires Valid() && |v| == dim && IsCode(code) && k <= subspaces
    {
      if k == 0 then 0.0 else LocalSum(v, code, k - 1) + Local(v, k - 1, code[k - 1])
    }

    /** Per-subspace distances add up to the distance from the decoded vector. */
    lemma {:induction false} LocalSumIsDistance(v: Vector, decoded: Vector, code: seq<nat>, k: nat)
      requires Valid() && |v| == |decoded| == dim && IsCode(code) && k <= subspaces && Holds(decoded, code, subspaces)
      ensures Offset(k) <= dim && LocalSum(v, code, k) == SquaredSum(v, decoded, 0, Offset(k))
    {
      OffsetsPartition(0);
      OffsetsOrdered(k, subspaces);
      if k > 0 {
        LocalSumIsDistance(v, decoded, code, k - 1);
        OffsetsOrdered(k - 1, k);
        SumSplit(v, decoded, 0, Offset(k - 1), Offset(k));
        assert Slice(decoded, k - 1, code[k - 1]);
        SumSame(v, decoded, books[k - 1][code[k - 1]], Offset(k - 1), Offset(k));
      }
    }
  }

  /** The accumulation loop every distance uses. */
  method LocalDistance(q: Quantizer, v: Vector, m: nat, c: nat) returns (distance: real)
    requires q.Valid() && |v| == q.dim && m < q.subspaces && c < q.centroids
    ensures distance == q.Local(v, m, c)
  {
    q.OffsetsOrdered(m, m + 1);
    q.OffsetsOrdered(m + 1, q.subspaces);
    distance := 0.0;
    for d := q.Offset(m) to q.Offset(m + 1)
      invariant distance == SquaredSum(v, q.books[m][c], q.Offset(m), d)
    {
      var diff := v[d] - q.books[m][c][d];
      distance := distance + diff * diff;
    }
  }

  /** `nearest_centroid`: the first of the nearest centroids of a subspace. */
  method NearestCentroid(q: Quantizer, v: Vector, m: nat) returns (best: nat)
    requires q.Valid() && |v| == q.dim && m < q.subspaces
    ensures best < q.centroids && IsNearest(q, v, m, best)
  {
    best := 0;
    var least := LocalDistance(q, v, m, 0);
    for c := 1 to q.centroids
      invariant best < c && least == q.Local(v, m, best)
      invariant forall e | 0 <= e < c :: q.Local(v, m, best) <= q.Local(v, m, e)
      invariant forall e | 0 <= e < best :: q.Local(v, m, best) < q.Local(v, m, e)
    {
      var distance := LocalDistance(q, v, m, c);
      if distance < least {
        best, least := c, distance;
      }
    }
  }

  /** The first of the nearest centroids of subspace `m`. */
  ghost predicate IsNearest(q: Quantizer, v: Vector, m: nat, best: nat)
    requires q.Valid() && |v| == q.dim && m < q.subspaces && best < q.centroids
  {
    && (forall c | 0 <= c < q.centroids :: q.Local(v, m, best) <= q.Local(v, m, c))
    && (forall c | 0 <= c < best :: q.Local(v, m, best) < q.Local(v, m, c))
  }

  ghost predicate Nearest(q: Quantizer, v: Vector, code: seq<nat>)
    requires q.Valid() && |v| == q.dim && q.IsCode(code)
  {
    forall m | 0 <= m < q.subspaces :: IsNearest(q, v, m, code[m])
  }

  /** `encode`. */
  method Encode(q: Quantizer, v: Vector) returns (code: seq<nat>)
    requires q.Valid() && |v| == q.dim
    ensures q.IsCode(code) && Nearest(q, v, code)
  {
    code := [];
    for m := 0 to q.subspaces
      invariant |code| == m && forall i | 0 <= i < m :: code[i] < q.centroids
      invariant forall i | 0 <= i < m :: IsNearest(q, v, i, code[i])
    {
      var best := NearestCentroid(q, v, m);
      code := code + [best];
    }
  }

  /** `decode_code`: copies each subspace's slice; a code outside the codebook is an error. */
  method DecodeCode(q: Quantizer, code: seq<nat>) returns (ok: bool, decoded: Vector)
    requires q.Valid() && |code| == q.subspaces
    ensures ok <==> q.IsCode(code)
    ensures ok ==> |decoded| == q.dim && q.Holds(decoded, code, q.subspaces)
  {
    decoded := [];
    q.OffsetsPartition(0);
    for m := 0 to q.subspaces
      invariant forall i | 0 <= i < m :: code[i] < q.centroids
      invariant |decoded| == q.Offset(m) <= q.dim
      invariant forall i | 0 <= i < m :: q.Slice(decoded, i, code[i])
    {
      if code[m] >= q.centroids {
        return false, decoded;
      }
      q.OffsetsPartition(m);
      q.OffsetsOrdered(m + 1, q.subspaces);
      decoded := CopySlice(q, decoded, m, code[m]);
    }
    ok := true;
  }

  method CopySlice(q: Quantizer, decoded: Vector, m: nat, c: nat) returns (next: Vector)
    requires q.Valid() && m < q.subspaces && c < q.centroids
    requires |decoded| == q.Offset(m) <= q.Offset(m + 1) <= q.dim
    ensures |next| == q.Offset(m + 1) && q.Slice(next, m, c)
    ensures forall i, e | 0 <= i < m && 0 <= e < q.centroids && q.Slice(decoded, i, e) :: q.Slice(next, i, e)
  {
    next := decoded + q.books[m][c][q.Offset(m)..q.Offset(m + 1)];
  }

  /** A code determines the decoded vector in every dimension. */
  lemma DecodedUnique(q: Quantizer, code: seq<nat>, a: Vector, b: Vector)
    requires q.Valid() && q.IsCode(code) && |a| == |b| == q.dim
    requires q.Holds(a, code, q.subspaces) && q.Holds(b, code, q.subspaces)
    ensures a == b
  {
    q.OffsetsPartition(0);
    forall d | 0 <= d < q.dim
      ensures a[d] == b[d]
    {
      var m := q.DimensionHasSubspace(d, q.subspaces);
      assert q.Slice(a, m, code[m]) && q.Slice(b, m, code[m]);
    }
  }

  /** Encoding minimises the reconstruction error over all codes. */
  lemma EncodeIsOptimal(q: Quantizer, v: Vector, code: seq<nat>, decoded: Vector, other: seq<nat>, alternative: Vector)
    requires q.Valid() && |v| == |decoded| == |alternative| == q.dim && q.IsCode(code) && q.IsCode(other)
    requires Nearest(q, v, code) && q.Holds(decoded, code, q.subspaces) && q.Holds(alternative, other, q.subspaces)
    ensures SquaredSum(v, decoded, 0, q.dim) <= SquaredSum(v, alternative, 0, q.dim)
  {
    q.OffsetsPartition(0);
    q.LocalSumIsDistance(v, decoded, code, q.subspaces);
    q.LocalSumIsDistance(v, alternative, other, q.subspaces);
    NearestSum(q, v, code, other, q.subspaces);
  }

  lemma {:induction false} NearestSum(q: Quantizer, v: Vector, code: seq<nat>, other: seq<nat>, k: nat)
    requires q.Valid() && |v| == q.dim && q.IsCode(code) && q.IsCode(other) && Nearest(q, v, code) && k <= q.subspaces
    ensures q.LocalSum(v, code, k) <= q.LocalSum(v, other, k)
  {
    if k > 0 {
      NearestSum(q, v, code, other, k - 1);
      assert IsNearest(q, v, k - 1, code[k - 1]);
    }
  }

  /** A table of distances from the query to every centroid, one row per subspace. */
  ghost predicate IsTable(q: Quantizer, query: Vector, table: seq<seq<real>>)
    requires q.Valid() && |query| == q.dim
  {
    && |table| == q.subspaces
    && (forall m | 0 <= m < q.subspaces :: |table[m]| == q.centroids)
    && (forall m, c | 0 <= m < q.subspaces && 0 <= c < q.centroids :: table[m][c] == q.Local(query, m, c))
  }

  /** `build_adc_table`. */
  method BuildAdcTable(q: Quantizer, query: Vector) returns (table: seq<seq<real>>)
    requires q.Valid() && |query| == q.dim
    ensures IsTable(q, query, table)
  {
    table := [];
    for m := 0 to q.subspaces
      invariant |table| == m && forall i | 0 <= i < m :: |table[i]| == q.centroids
      invariant forall i, c | 0 <= i < m && 0 <= c < q.centroids :: table[i][c] == q.Local(query, i, c)
    {
      var row := [];
      for c := 0 to q.centroids
        invariant |row| == c && forall e | 0 <= e < c :: row[e] == q.Local(query, m, e)
      {
        var distance := LocalDistance(q, query, m, c);
        row := row + [distance];
      }
      table := table + [row];
    }
  }

  /** `adc_distance`: the sum over the table is the distance from the query to the decoded vector. */
  method AdcDistance(q: Quantizer, ghost query: Vector, code: seq<nat>, ghost decoded: Vector, table: seq<seq<real>>)
    returns (distance: real)
    requires q.Valid() && |query| == |decoded| == q.dim && q.IsCode(code) && q.Holds(decoded, code, q.subspaces)
    requires IsTable(q, query, table)
    ensures distance == SquaredSum(query, decoded, 0, q.dim)
  {
    distance := 0.0;
    for m := 0 to q.subspaces
      invariant distance == q.LocalSum(query, code, m)
    {
      distance := distance + table[m][code[m]];
    }
    q.OffsetsPartition(0);
    q.LocalSumIsDistance(query, decoded, code, q.subspaces);
  }
}
