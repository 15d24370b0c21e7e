/**
 Beam search over a decoded graph: the search the packed index performs, with nodes read straight from
 the graph. Distances are parameters: `adc` estimates by node id, `exact` measures a stored vector.
 */
module BeamSearch {
  import opened TopK
  import opened PageCache

  datatype SearchConfig = SearchConfig(
    topK: nat, searchWidth: nat, beamWidth: nat, entryCount: nat, rerankTopK: nat,
    earlyStop: bool, earlyStopMin: nat,
    adaptiveStop: bool, minExpansions: nat, patience: nat, eps: real)
  {
    /** The configurations a search accepts. */
    predicate Runs() {
      topK > 0 && searchWidth > 0 && entryCount > 0
    }
  }

  /** `previous_worst_distance`; it starts at infinity. */
  datatype Worst = Infinite | Finite(distance: real)

  /**
   `visited`, `candidates` and `best` of the search state, with the adaptive-stop counters. `found` lists
   every visited node in the order it was pushed and `expanded` the expanded ones.
   */
  datatype Beam = Beam(
    visited: set<nat>, candidates: seq<SearchResult>, best: seq<SearchResult>,
    found: seq<SearchResult>, expanded: seq<SearchResult>, stagnant: nat, worst: Worst)

  /** A query without the graph: how many nodes there are, the two distances, and the configuration. */
  datatype Plan = Plan(count: nat, adc: nat -> real, exact: seq<nat> -> real, config: SearchConfig) {
    function Smaller(a: nat, b: nat): nat {
      if a < b then a else b
    }

    function EffectiveK(): nat {
      Smaller(config.topK, count)
    }

    /** `result_capacity`. */
    function Capacity(): nat {
      Smaller(if EffectiveK() < config.rerankTopK then config.rerankTopK else EffectiveK(), count)
    }

    /** `effective_beam_width`. */
    function BeamWidth(): nat {
      var asked := if config.beamWidth == 0 then config.searchWidth else config.beamWidth;
      if asked < 1 then 1 else Smaller(asked, config.searchWidth)
    }

    function Result(id: nat): SearchResult {
      SearchResult(id, adc(id))
    }

    function Ranked(ids: seq<nat>): seq<SearchResult> {
      Sort(seq(|ids|, i requires 0 <= i < |ids| => Result(ids[i])))
    }

    /** The ids of the list that are in the graph and not visited yet, in order, each once. */
    function Unvisited(ids: seq<nat>, visited: set<nat>): seq<nat> {
      if ids == [] then
        []
      else
        var rest, id := Unvisited(ids[..|ids| - 1], visited), ids[|ids| - 1];
        if id < count && id !in visited && id !in rest then rest + [id] else rest
    }

    // ---- One discovered node ----

    /** The candidate heap takes every result, `best` the smallest ones. */
    function Push(b: Beam, r: SearchResult): Beam {
      b.(candidates := Insert(b.candidates, r),
         best := if Capacity() == 0 then b.best else BoundedPush(b.best, Capacity(), r),
         found := b.found + [r])
    }

    function PushAll(b: Beam, rs: seq<SearchResult>): Beam {
      if rs == [] then b else Push(PushAll(b, rs[..|rs| - 1]), rs[|rs| - 1])
    }

    /** `update_adaptive_stop`. */
    function UpdateStop(b: Beam): Beam {
      if !config.adaptiveStop || |b.best| < Capacity() || b.best == [] then
        b
      else
        var current := b.best[|b.best| - 1].distance;
        var improved := b.worst.Infinite? ||
                        (b.worst.distance - current) / Scale(b.worst.distance) > config.eps;
        b.(stagnant := if improved then 0 else b.stagnant + 1, worst := Finite(current))
    }

    function Scale(d: real): (r: real)
      ensures r >= 1.0
    {
      var size := if d < 0.0 then -d else d;
      if size < 1.0 then 1.0 else size
    }

    // ---- Rounds ----

    ghost function Init(entries: seq<nat>): Beam {
      var added := Unvisited(entries, {});
      PushAll(Beam(Elements(added), [], [], [], [], 0, Infinite), Ranked(added))
    }

    /** `update_frontier`. */
    predicate Stops(b: Beam) {
      || (config.adaptiveStop && |b.expanded| >= config.minExpansions && b.stagnant >= config.patience)
      || (config.earlyStop && |b.best| >= Capacity() && |b.expanded| >= config.earlyStopMin
          && b.candidates != [] && b.best != []
          && b.candidates[0].distance > b.best[|b.best| - 1].distance)
    }

    /** How many candidates the next batch takes, nearest first. */
    function BatchSize(b: Beam, limit: nat): (k: nat)
      ensures k <= limit && k <= |b.candidates|
      decreases limit
    {
      if limit == 0 || b.candidates == [] || Stops(b) then 0
      else 1 + BatchSize(b.(candidates := b.candidates[1..]), limit - 1)
    }

    function BatchLimit(b: Beam): nat {
      Smaller(BeamWidth(), if config.searchWidth > |b.expanded| then config.searchWidth - |b.expanded| else 0)
    }

    /** Its second loop: every ranked list is pushed, then the adaptive stop is updated. */
    ghost function Absorb(b: Beam, lists: seq<seq<SearchResult>>): Beam {
      if lists == [] then b
      else UpdateStop(PushAll(Absorb(b, lists[..|lists| - 1]), lists[|lists| - 1]))
    }

    function TakeBatch(b: Beam, k: nat): Beam
      requires k <= |b.candidates|
    {
      b.(candidates := b.candidates[k..], expanded := b.expanded + b.candidates[..k])
    }

    lemma {:induction false} PushAllExpanded(b: Beam, rs: seq<SearchResult>)
      ensures PushAll(b, rs).expanded == b.expanded
    {
      if rs != [] { PushAllExpanded(b, rs[..|rs| - 1]); }
    }

    lemma {:induction false} AbsorbExpanded(b: Beam, lists: seq<seq<SearchResult>>)
      ensures Absorb(b, lists).expanded == b.expanded
    {
      if lists != [] {
        AbsorbExpanded(b, lists[..|lists| - 1]);
        PushAllExpanded(Absorb(b, lists[..|lists| - 1]), lists[|lists| - 1]);
      }
    }
  }

  /** A query on a decoded graph. */
  datatype Query = Query(graph: seq<Node>, plan: Plan) {
    function Neighbors(id: nat): seq<nat> {
      if id < |graph| then graph[id].neighbors else []
    }

    /** One node of a batch: its new neighbours are marked as visited and ranked. */
    ghost function Visit(visited: set<nat>, id: nat): (set<nat>, seq<SearchResult>) {
      var added := plan.Unvisited(Neighbors(id), visited);
      (visited + Elements(added), plan.Ranked(added))
    }

    /** The first loop of `expand_candidate_batch`. */
    ghost function VisitAll(visited: set<nat>, batch: seq<SearchResult>): (set<nat>, seq<seq<SearchResult>>) {
      if batch == [] then
        (visited, [])
      else
        var (seen, lists) := VisitAll(visited, batch[..|batch| - 1]);
        var (next, ranked) := Visit(seen, batch[|batch| - 1].id);
        (next, lists + [ranked])
    }

    ghost function Expand(b: Beam, k: nat): Beam
      requires k <= |b.candidates|
    {
      var (seen, lists) := VisitAll(b.visited, b.candidates[..k]);
      plan.Absorb(plan.TakeBatch(b, k).(visited := seen), lists)
    }

    /** The main loop of `search_one`. */
    ghost function Rounds(b: Beam): Beam
      decreases if plan.config.searchWidth > |b.expanded| then plan.config.searchWidth - |b.expanded| else 0
    {
      if b.candidates == [] || |b.expanded| >= plan.config.searchWidth then
        b
      else
        var k := plan.BatchSize(b, plan.BatchLimit(b));
        ExpandGrows(b, k);
        if k == 0 then b else Rounds(Expand(b, k))
    }

    lemma ExpandGrows(b: Beam, k: nat)
      requires k <= |b.candidates|
      ensures Expand(b, k).expanded == b.expanded + b.candidates[..k]
    {
      var (seen, lists) := VisitAll(b.visited, b.candidates[..k]);
      plan.AbsorbExpanded(plan.TakeBatch(b, k).(visited := seen), lists);
    }

    function Vector(id: nat): seq<nat> {
      if id < |graph| then graph[id].vector else []
    }

    function Exactly(r: SearchResult): SearchResult {
      SearchResult(r.id, plan.exact(Vector(r.id)))
    }

    /** `finalize_topk`: rerank by exact distance if asked to, and truncate. */
    function Rerank(best: seq<SearchResult>): seq<SearchResult> {
      if plan.config.rerankTopK == 0 then best
      else Sort(seq(|best|, i requires 0 <= i < |best| => Exactly(best[i])))
    }

    ghost function Search(entries: seq<nat>): seq<SearchResult> {
      Take(Rerank(Rounds(plan.Init(entries)).best), plan.EffectiveK())
    }
  }
}
