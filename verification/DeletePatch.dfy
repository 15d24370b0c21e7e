/** The delete patch of the other builders: deleted nodes are cut out and their neighbours reconnected. */
module DeletePatch {
  import opened TopK
  import opened PageCache
  import opened Vamana

  type Lists = seq<seq<nat>>

  /** A graph and the mask of its deleted nodes. */
  datatype Marked = Marked(graph: Lists, deleted: seq<bool>) {
    ghost predicate Valid() {
      |graph| == |deleted|
    }

    predicate Gone(v: nat) {
      v < |deleted| && deleted[v]
    }

    predicate Live(v: nat) {
      v < |deleted| && !deleted[v]
    }

    /** A live node with an edge to a node. */
    predicate Edge(v: nat, t: nat)
      requires Valid()
    {
      Live(v) && t in graph[v]
    }

    /** What deleted node `t` offers to its in-neighbours: its live out-neighbours and in-neighbours. */
    predicate Offers(t: nat, x: nat)
      requires Valid()
    {
      Gone(t) && ((Live(x) && x in graph[t]) || Edge(x, t))
    }

    /** A deleted neighbour of `v` below `k` offers `x`. */
    ghost predicate FedBelow(k: nat, v: nat, x: nat)
      requires Valid()
    {
      exists t: nat :: t < k && Edge(v, t) && Offers(t, x)
    }

    ghost predicate CutBelow(k: nat, v: nat)
      requires Valid()
    {
      exists t: nat :: t < k && Gone(t) && Edge(v, t)
    }

    /** `v` loses an edge to a deleted node. */
    ghost predicate Affected(v: nat)
      requires Valid()
    {
      CutBelow(|graph|, v)
    }

    /** The candidates of an affected node: its live neighbours and what its deleted ones offer. */
    ghost predicate Candidate(v: nat, x: nat)
      requires Valid()
    {
      Live(x) && x != v && (Edge(v, x) || FedBelow(|graph|, v, x))
    }
  }

  /** The sources of each deleted node, from the first `k` nodes. */
  ghost predicate IncomingUpTo(m: Marked, incoming: Lists, k: nat)
    requires m.Valid()
  {
    |incoming| == |m.graph| &&
    forall t: nat, v: nat | 0 <= t < |incoming| :: v in incoming[t] <==> v < k && m.Gone(t) && m.Edge(v, t)
  }

  method CollectIncoming(m: Marked) returns (incoming: Lists)
    requires m.Valid()
    ensures IncomingUpTo(m, incoming, |m.graph|)
  {
    incoming := seq(|m.graph|, _ => []);
    for v := 0 to |m.graph|
      invariant IncomingUpTo(m, incoming, v)
    {
      if !m.deleted[v] {
        incoming := AddSource(m, incoming, v);
      }
    }
  }

  method AddSource(m: Marked, before: Lists, v: nat) returns (incoming: Lists)
    requires m.Valid() && m.Live(v) && IncomingUpTo(m, before, v)
    ensures IncomingUpTo(m, incoming, v + 1)
  {
    incoming := before;
    var list := m.graph[v];
    for i := 0 to |list|
      invariant |incoming| == |before|
      invariant forall t: nat, u: nat | 0 <= t < |incoming| ::
                  u in incoming[t] <==> u in before[t] || (u == v && m.Gone(t) && t in list[..i])
    {
      assert list[..i + 1] == list[..i] + [list[i]];
      var t := list[i];
      if m.Gone(t) {
        incoming := incoming[t := incoming[t] + [v]];
      }
    }
    assert list[..|list|] == list;
  }

  /** The live members of a list. */
  method LiveOnly(m: Marked, list: seq<nat>) returns (out: seq<nat>)
    ensures forall x: nat :: x in out <==> x in list && m.Live(x)
  {
    out := [];
    for i := 0 to |list|
      invariant forall x: nat :: x in out <==> x in list[..i] && m.Live(x)
    {
      assert list[..i + 1] == list[..i] + [list[i]];
      if m.Live(list[i]) {
        out := out + [list[i]];
      }
    }
    assert list[..|list|] == list;
  }

  /** What the deleted nodes below `k` contribute. */
  ghost predicate PatchUpTo(m: Marked, patch: Lists, affected: seq<nat>, k: nat)
    requires m.Valid()
  {
    && |patch| == |m.graph|
    && (forall v: nat, x: nat | 0 <= v < |patch| :: x in patch[v] <==> m.FedBelow(k, v, x))
    && Distinct(affected)
    && (forall v: nat :: v in affected <==> m.CutBelow(k, v))
  }

  method CollectPatch(m: Marked, incoming: Lists) returns (patch: Lists, affected: seq<nat>)
    requires m.Valid() && IncomingUpTo(m, incoming, |m.graph|)
    ensures PatchUpTo(m, patch, affected, |m.graph|)
  {
    patch, affected := seq(|m.graph|, _ => []), [];
    for t := 0 to |m.graph|
      invariant PatchUpTo(m, patch, affected, t)
    {
      if m.deleted[t] {
        var outs := LiveOnly(m, m.graph[t]);
        var ins := LiveOnly(m, incoming[t]);
        ghost var p, a := patch, affected;
        patch, affected := Offer(patch, affected, ins, outs + ins);
        OfferStep(m, p, a, patch, affected, t, ins, outs + ins);
      } else {
        NoOffer(m, patch, affected, t);
      }
    }
  }

  lemma BelowStep(m: Marked, t: nat, v: nat, x: nat)
    requires m.Valid()
    ensures m.FedBelow(t + 1, v, x) <==> m.FedBelow(t, v, x) || (m.Edge(v, t) && m.Offers(t, x))
    ensures m.CutBelow(t + 1, v) <==> m.CutBelow(t, v) || (m.Gone(t) && m.Edge(v, t))
  {
    if m.FedBelow(t, v, x) {
      var u: nat :| u < t && m.Edge(v, u) && m.Offers(u, x);
      assert u < t + 1;
    }
    if m.CutBelow(t, v) {
      var u: nat :| u < t && m.Gone(u) && m.Edge(v, u);
      assert u < t + 1;
    }
  }

  lemma NoOffer(m: Marked, patch: Lists, affected: seq<nat>, t: nat)
    requires m.Valid() && t < |m.graph| && !m.Gone(t) && PatchUpTo(m, patch, affected, t)
    ensures PatchUpTo(m, patch, affected, t + 1)
  {
    forall v: nat, x: nat
      ensures m.FedBelow(t + 1, v, x) <==> m.FedBelow(t, v, x)
      ensures m.CutBelow(t + 1, v) <==> m.CutBelow(t, v)
    {
      BelowStep(m, t, v, x);
    }
  }

  /** Each source gets the offered nodes and is recorded once. */
  ghost predicate Offered(p: Lists, a: seq<nat>, patch: Lists, affected: seq<nat>, sources: seq<nat>, extra: seq<nat>) {
    && |patch| == |p| && Distinct(affected)
    && (forall v | 0 <= v < |p| :: Elements(patch[v]) == Elements(p[v]) + if v in sources then Elements(extra) else {})
    && (forall v: nat :: v in affected <==> v in a || v in sources)
  }

  method Offer(p: Lists, a: seq<nat>, sources: seq<nat>, extra: seq<nat>) returns (patch: Lists, affected: seq<nat>)
    requires Distinct(a) && forall v | v in sources :: v < |p|
    ensures Offered(p, a, patch, affected, sources, extra)
  {
    patch, affected := p, a;
    for i := 0 to |sources|
      invariant Offered(p, a, patch, affected, sources[..i], extra)
    {
      assert sources[..i + 1] == sources[..i] + [sources[i]];
      var v := sources[i];
      assert v in sources;
      if v !in affected {
        affected := affected + [v];
      }
      assert Elements(patch[v] + extra) == Elements(patch[v]) + Elements(extra);
      patch := patch[v := patch[v] + extra];
    }
    assert sources[..|sources|] == sources;
  }

  lemma OfferStep(m: Marked, p: Lists, a: seq<nat>, patch: Lists, affected: seq<nat>, t: nat,
                  sources: seq<nat>, extra: seq<nat>)
    requires m.Valid() && t < |m.graph| && m.Gone(t) && PatchUpTo(m, p, a, t)
    requires Offered(p, a, patch, affected, sources, extra)
    requires forall v: nat :: v in sources <==> m.Edge(v, t)
    requires forall x: nat :: x in extra <==> m.Offers(t, x)
    ensures PatchUpTo(m, patch, affected, t + 1)
  {
    forall v: nat, x: nat | v < |patch|
      ensures x in patch[v] <==> m.FedBelow(t + 1, v, x)
    {
      BelowStep(m, t, v, x);
      assert v in sources <==> m.Edge(v, t);
      assert x in Elements(extra) <==> m.Offers(t, x);
      assert x in Elements(p[v]) <==> m.FedBelow(t, v, x);
      assert x in patch[v] <==> x in Elements(patch[v]);
    }
    forall v: nat
      ensures v in affected <==> m.CutBelow(t + 1, v)
    {
      BelowStep(m, t, v, 0);
    }
  }

  // ---- The patch ----

  function PatchDegree(n: nat, degree: nat): nat {
    if n == 0 then 0 else if degree < n - 1 then degree else n - 1
  }

  /** The new list of an affected node: the robust prune of exactly its candidates. */
  ghost predicate Reconnected(m: Marked, d: Metric, alphaSq: real, degree: nat, v: nat, list: seq<nat>)
    requires m.Valid()
  {
    exists ids: seq<nat> :: Distinct(ids) && (forall x: nat :: x in ids <==> m.Candidate(v, x))
      && list == PrunedList(d, alphaSq, v, ids, PatchDegree(|m.graph|, degree))
  }

  /** `robust_prune_neighbors` on the deduplicated candidates of an affected node. */
  method Reconnect(m: Marked, d: Metric, alphaSq: real, degree: nat, v: nat, patch: seq<nat>) returns (list: seq<nat>)
    requires m.Valid() && m.Live(v) && forall x: nat :: x in patch <==> m.FedBelow(|m.graph|, v, x)
    ensures Reconnected(m, d, alphaSq, degree, v, list)
  {
    var kept := LiveOnly(m, m.graph[v]);
    var ids := UniqueLive(m, v, kept + patch);
    var picks := PickLoop(d, alphaSq, Pool(d, v, ids), PatchDegree(|m.graph|, degree));
    list := IdsOf(picks);
  }

  method UniqueLive(m: Marked, v: nat, ids: seq<nat>) returns (out: seq<nat>)
    ensures Distinct(out) && forall x: nat :: x in out <==> x in ids && x != v && m.Live(x)
  {
    out := [];
    for i := 0 to |ids|
      invariant Distinct(out) && forall x: nat :: x in out <==> x in ids[..i] && x != v && m.Live(x)
    {
      assert ids[..i + 1] == ids[..i] + [ids[i]];
      if ids[i] != v && m.Live(ids[i]) && ids[i] !in out {
        out := out + [ids[i]];
      }
    }
    assert ids[..|ids|] == ids;
  }

  /**
   `apply_freshvamana_delete_patch`. Deleted nodes lose their lists; a node that had an edge to one gets
   the robust prune of its reconnection candidates; every other list stays as it was.
   */
  method ApplyDeletePatch(graph: array<seq<nat>>, d: Metric, alphaSq: real, degree: nat, deleted: seq<bool>)
    requires deleted == [] || |deleted| == graph.Length
    modifies graph
    ensures deleted == [] ==> graph[..] == old(graph[..])
    ensures deleted != [] ==> Patched(Marked(old(graph[..]), deleted), d, alphaSq, degree, graph[..])
  {
    if deleted == [] {
      return;
    }
    var m := Marked(graph[..], deleted);
    var incoming := CollectIncoming(m);
    var patch, affected := CollectPatch(m, incoming);
    for i := 0 to |affected|
      invariant forall v | 0 <= v < graph.Length && v !in affected[..i] :: graph[v] == m.graph[v]
      invariant forall v | v in affected[..i] :: v < graph.Length && Reconnected(m, d, alphaSq, degree, v, graph[v])
    {
      var v := affected[i];
      assert affected[..i + 1] == affected[..i] + [v];
      assert v in affected && v !in affected[..i];
      graph[v] := Reconnect(m, d, alphaSq, degree, v, patch[v]);
    }
    assert affected[..|affected|] == affected;
    ClearDeleted(graph, m);
  }

  method ClearDeleted(graph: array<seq<nat>>, m: Marked)
    requires |m.deleted| == graph.Length
    modifies graph
    ensures forall v | 0 <= v < graph.Length :: graph[v] == if m.deleted[v] then [] else old(graph[v])
  {
    for v := 0 to graph.Length
      invariant forall u | 0 <= u < v :: graph[u] == if m.deleted[u] then [] else old(graph[u])
      invariant forall u | v <= u < graph.Length :: graph[u] == old(graph[u])
    {
      if m.deleted[v] {
        graph[v] := [];
      }
    }
  }

  ghost predicate Patched(m: Marked, d: Metric, alphaSq: real, degree: nat, after: Lists)
  {
    && m.Valid() && |after| == |m.graph|
    && forall v | 0 <= v < |after| ::
         if m.Gone(v) then after[v] == []
         else if m.Affected(v) then Reconnected(m, d, alphaSq, degree, v, after[v])
         else after[v] == m.graph[v]
  }

  /** After the patch no edge starts or ends at a deleted node, and no list outgrows the degree. */
  lemma PatchRemovesDeleted(m: Marked, d: Metric, alphaSq: real, degree: nat, after: Lists, v: nat, x: nat)
    requires Patched(m, d, alphaSq, degree, after) && v < |after| && x in after[v]
    ensures !m.Gone(v) && !m.Gone(x)
    ensures m.Affected(v) ==> Distinct(after[v]) && |after[v]| <= degree && x != v
    ensures |m.graph[v]| <= degree ==> |after[v]| <= degree
  {
    if m.Affected(v) {
      var ids: seq<nat> :| Distinct(ids) && (forall y: nat :: y in ids <==> m.Candidate(v, y))
        && after[v] == PrunedList(d, alphaSq, v, ids, PatchDegree(|m.graph|, degree));
      PrunedFacts(d, alphaSq, v, ids, PatchDegree(|m.graph|, degree));
      assert m.Candidate(v, x);
    } else if m.Gone(x) {
      assert m.Edge(v, x);
      assert false;
    }
  }

  /** Reconnection coverage: with room left, every candidate is linked or covered by a nearer link. */
  lemma PatchCoverage(m: Marked, d: Metric, alphaSq: real, degree: nat, after: Lists, v: nat, x: nat)
    requires Patched(m, d, alphaSq, degree, after) && v < |after| && m.Live(v) && m.Affected(v)
    requires m.Candidate(v, x) && |after[v]| < PatchDegree(|m.graph|, degree)
    ensures x in after[v] || CoveredNode(d, alphaSq, v, after[v], x)
  {
    var ids: seq<nat> :| Distinct(ids) && (forall y: nat :: y in ids <==> m.Candidate(v, y))
      && after[v] == PrunedList(d, alphaSq, v, ids, PatchDegree(|m.graph|, degree));
    PrunedCoverage(d, alphaSq, v, ids, PatchDegree(|m.graph|, degree), x);
  }

  /** The new list of an affected node is the robust prune of its candidates, to the degree or one less than there are nodes. */
  lemma PatchPrunes(m: Marked, d: Metric, alphaSq: real, degree: nat, after: Lists, v: nat, candidates: set<nat>)
    requires Patched(m, d, alphaSq, degree, after) && v < |after| && m.Live(v) && m.Affected(v)
    requires forall x: nat :: x in candidates <==> m.Candidate(v, x)
    ensures IsPruned(d, alphaSq, v, candidates, if degree <= |m.graph| - 1 then degree else |m.graph| - 1, after[v])
  {
    var ids: seq<nat> :| Distinct(ids) && (forall y: nat :: y in ids <==> m.Candidate(v, y))
      && after[v] == PrunedList(d, alphaSq, v, ids, PatchDegree(|m.graph|, degree));
    PrunedIs(d, alphaSq, v, ids, PatchDegree(|m.graph|, degree));
    assert Elements(ids) == candidates;
  }
}
