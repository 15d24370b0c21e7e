/**
 The asynchronous page reader: tokens, the fixed pool of I/O buffers, and completions in any order.

 The device may finish outstanding reads in any order and at any time before they are reaped. It
 writes the page into the buffer that was handed out with the read.
 */
module PageReader {
  import opened Sealing
  import opened TopK
  import opened PageCache

  /** An outstanding read: which page, into which buffer (`AsyncBuffer`). */
  datatype Read = Read(page: nat, buffer: nat)

  datatype CompletedRead = CompletedRead(token: nat, data: Page)

  /**
   `free_list_`, the buffers' contents, `async_buffers`, `inline_completions` and `next_async_token`;
   `landed` holds the tokens whose completion the device has posted but nobody has reaped.
   */
  datatype ReaderState = ReaderState(
    free: seq<nat>, pool: seq<Page>, outstanding: map<nat, Read>, landed: set<nat>,
    inlined: seq<CompletedRead>, next: nat)

  /** What a client of the reader can rely on: reads in flight, the next token, and all pages ever read. */
  datatype View = View(flying: map<nat, nat>, next: nat, issued: seq<nat>)

  // ---- Buffers ----

  /** Free and lent buffers together are exactly the pool, without repetition. */
  ghost predicate Partition(free: seq<nat>, outstanding: map<nat, Read>, depth: nat) {
    && |free| + |outstanding| == depth
    && Distinct(free)
    && (forall b | b in free :: b < depth)
    && (forall t | t in outstanding :: outstanding[t].buffer < depth && outstanding[t].buffer !in free)
    && NoSharing(outstanding)
  }

  /** No two outstanding tokens share a buffer. */
  ghost predicate NoSharing(outstanding: map<nat, Read>) {
    forall t, u | t in outstanding && u in outstanding && t != u ::
      outstanding[t].buffer != outstanding[u].buffer
  }

  lemma AcquireKeepsPartition(free: seq<nat>, outstanding: map<nat, Read>, depth: nat, t: nat, page: nat)
    requires Partition(free, outstanding, depth) && free != [] && t !in outstanding
    ensures Partition(free[..|free| - 1], outstanding[t := Read(page, free[|free| - 1])], depth)
  {
    var b, rest := free[|free| - 1], free[..|free| - 1];
    var next := outstanding[t := Read(page, b)];
    PutSize(outstanding, t, Read(page, b));
    assert b in free && b !in rest;
    assert forall c | c in rest :: c in free;
  }

  lemma ReleaseKeepsPartition(free: seq<nat>, outstanding: map<nat, Read>, depth: nat, t: nat)
    requires Partition(free, outstanding, depth) && t in outstanding
    ensures Partition(free + [outstanding[t].buffer], outstanding - {t}, depth)
  {
    var b, rest := outstanding[t].buffer, outstanding - {t};
    DropSize(outstanding, t);
    assert forall u | u in rest :: rest[u] == outstanding[u] && rest[u].buffer != b;
    var grown := free + [b];
    assert forall c | c in grown :: c in free || c == b;
    assert Distinct(grown);
  }

  /** In every reachable state a buffer is free or lent: none leaks. */
  lemma BuffersCoverPool(free: seq<nat>, outstanding: map<nat, Read>, depth: nat, b: nat)
    requires Partition(free, outstanding, depth) && b < depth
    ensures b in free || exists t :: t in outstanding && outstanding[t].buffer == b
  {
    var held := Elements(free) + Lent(outstanding);
    assert |held| == depth by {
      LentSize(outstanding);
      DistinctSetSize(free);
      assert Elements(free) !! Lent(outstanding);
    }
    BelowSize(depth);
    assert held <= Below(depth);
    SubsetOfSameSize(held, Below(depth));
    assert b in held;
  }

  ghost function Lent(outstanding: map<nat, Read>): set<nat> {
    set t | t in outstanding :: outstanding[t].buffer
  }

  lemma LentStep(outstanding: map<nat, Read>, t: nat)
    requires NoSharing(outstanding) && t in outstanding
    ensures Lent(outstanding) == Lent(outstanding - {t}) + {outstanding[t].buffer}
    ensures outstanding[t].buffer !in Lent(outstanding - {t})
  {
    forall u | u in outstanding
      ensures outstanding[u].buffer in Lent(outstanding - {t}) + {outstanding[t].buffer}
    {
      if u != t { assert u in outstanding - {t}; }
    }
  }

  lemma {:induction false} LentSize(outstanding: map<nat, Read>)
    requires NoSharing(outstanding)
    ensures |Lent(outstanding)| == |outstanding|
    decreases |outstanding|
  {
    if outstanding != map[] {
      var t :| t in outstanding;
      var rest := outstanding - {t};
      assert outstanding.Keys == rest.Keys + {t};
      LentSize(rest);
      LentStep(outstanding, t);
    }
  }

  // ---- Reader ----

  /** Every posted completion left its page in its own buffer. */
  ghost predicate Landed(s: ReaderState, disk: seq<Page>) {
    && s.landed <= s.outstanding.Keys
    && (forall t | t in s.outstanding :: s.outstanding[t].page < |disk| && s.outstanding[t].buffer < |s.pool|)
    && (forall t | t in s.landed :: s.pool[s.outstanding[t].buffer] == disk[s.outstanding[t].page])
  }

  ghost predicate TokensOf(inlined: seq<CompletedRead>, flying: map<nat, nat>, disk: seq<Page>) {
    if inlined == [] then
      flying == map[]
    else
      var c := inlined[0];
      && c.token in flying && flying[c.token] < |disk| && c.data == disk[flying[c.token]]
      && TokensOf(inlined[1..], flying - {c.token}, disk)
  }

  lemma {:induction false} TokensOfAppend(inlined: seq<CompletedRead>, flying: map<nat, nat>, disk: seq<Page>, t: nat, p: nat)
    requires TokensOf(inlined, flying, disk) && t !in flying && p < |disk|
    ensures TokensOf(inlined + [CompletedRead(t, disk[p])], flying[t := p], disk)
  {
    var c := CompletedRead(t, disk[p]);
    if inlined == [] {
      assert ([c])[1..] == [];
      assert flying[t := p] - {t} == map[];
      assert [] + [c] == [c];
    } else {
      TokensOfAppend(inlined[1..], flying - {inlined[0].token}, disk, t, p);
      assert (inlined + [c])[1..] == inlined[1..] + [c];
      assert (flying - {inlined[0].token})[t := p] == flying[t := p] - {inlined[0].token};
    }
  }

  /** Pages in flight, by token. */
  ghost function Flying(outstanding: map<nat, Read>): map<nat, nat> {
    map t | t in outstanding :: outstanding[t].page
  }

  /** The view after starting reads of `pages`: consecutive fresh tokens. */
  ghost function Started(v: View, pages: seq<nat>): View {
    if pages == [] then
      v
    else
      var w := Started(v, pages[..|pages| - 1]);
      var p := pages[|pages| - 1];
      View(w.flying[w.next := p], w.next + 1, w.issued + [p])
  }

  lemma StartedStep(v: View, pages: seq<nat>, n: nat)
    requires n < |pages|
    ensures var w := Started(v, pages[..n]);
            Started(v, pages[..n + 1]) == View(w.flying[w.next := pages[n]], w.next + 1, w.issued + [pages[n]])
  {
    assert pages[..n + 1][..n] == pages[..n];
  }

  lemma {:induction false} StartedNext(v: View, pages: seq<nat>)
    ensures Started(v, pages).next == v.next + |pages|
  {
    if pages != [] { StartedNext(v, pages[..|pages| - 1]); }
  }

  /** What ties the reader's tables to its view. */
  ghost predicate Consistent(s: ReaderState, v: View, disk: seq<Page>, async: bool, depth: nat) {
    && s.next == v.next
    && (forall t | t in v.flying :: t < v.next)
    && (if async then
          && Partition(s.free, s.outstanding, depth)
          && |s.pool| == depth
          && Landed(s, disk)
          && v.flying == Flying(s.outstanding)
          && s.inlined == []
        else
          TokensOf(s.inlined, v.flying, disk))
  }

  lemma FlyingSize(s: ReaderState, v: View, disk: seq<Page>, depth: nat)
    requires Consistent(s, v, disk, true, depth)
    ensures |v.flying| + |s.free| == depth
  {
    assert v.flying.Keys == s.outstanding.Keys;
  }

  function Acquired(s: ReaderState, p: nat): ReaderState
    requires s.free != []
  {
    s.(free := s.free[..|s.free| - 1], outstanding := s.outstanding[s.next := Read(p, s.free[|s.free| - 1])],
       next := s.next + 1)
  }

  ghost function Issue(v: View, p: nat): View {
    View(v.flying[v.next := p], v.next + 1, v.issued + [p])
  }

  lemma AcquiredKeeps(s: ReaderState, v: View, disk: seq<Page>, depth: nat, p: nat)
    requires Consistent(s, v, disk, true, depth) && s.free != [] && p < |disk|
    ensures Consistent(Acquired(s, p), Issue(v, p), disk, true, depth)
  {
    AcquireKeepsFlying(s.outstanding, v, p, s.free[|s.free| - 1]);
    AcquireKeepsPartition(s.free, s.outstanding, depth, s.next, p);
    assert s.free[|s.free| - 1] in s.free;
    AcquireKeepsLanded(s, disk, p, s.free[|s.free| - 1]);
  }

  lemma AcquireKeepsFlying(outstanding: map<nat, Read>, v: View, p: nat, b: nat)
    requires v.flying == Flying(outstanding) && forall t | t in v.flying :: t < v.next
    ensures v.next !in outstanding
    ensures Issue(v, p).flying == Flying(outstanding[v.next := Read(p, b)])
  {
    assert v.flying.Keys == outstanding.Keys;
  }

  lemma AcquireKeepsLanded(s: ReaderState, disk: seq<Page>, p: nat, b: nat)
    requires Landed(s, disk) && s.next !in s.outstanding && s.free != [] && p < |disk|
    requires b == s.free[|s.free| - 1] && b < |s.pool|
    ensures Landed(Acquired(s, p), disk)
  {
    assert s.next !in s.landed;
  }

  function Finished(s: ReaderState, disk: seq<Page>, t: nat): ReaderState
    requires t in s.outstanding && s.outstanding[t].page < |disk| && s.outstanding[t].buffer < |s.pool|
  {
    s.(pool := s.pool[s.outstanding[t].buffer := disk[s.outstanding[t].page]], landed := s.landed + {t})
  }

  /** The device overwrites no buffer that another landed read still needs. */
  lemma FinishedKeeps(s: ReaderState, v: View, disk: seq<Page>, depth: nat, t: nat)
    requires Consistent(s, v, disk, true, depth) && t in s.outstanding
    ensures Consistent(Finished(s, disk, t), v, disk, true, depth)
  {
  }

  function Reaped(s: ReaderState, t: nat): ReaderState
    requires t in s.outstanding
  {
    s.(free := s.free + [s.outstanding[t].buffer], outstanding := s.outstanding - {t}, landed := s.landed - {t})
  }

  lemma ReapedKeeps(s: ReaderState, v: View, disk: seq<Page>, depth: nat, t: nat)
    requires Consistent(s, v, disk, true, depth) && t in s.landed
    ensures Consistent(Reaped(s, t), v.(flying := v.flying - {t}), disk, true, depth)
  {
    ReleaseKeepsPartition(s.free, s.outstanding, depth, t);
    assert v.flying - {t} == Flying(s.outstanding - {t});
  }

  class AsyncPageReader {
    const disk: seq<Page>
    const async: bool
    const depth: nat
    const lazy: bool  // a device that completes a read only while somebody waits
    var s: ReaderState
    ghost var view: View

    ghost predicate Valid()
      reads this
    {
      forall name {:trigger Unsealed(name)} | Unsealed(name) && name == ReaderValid :: Consistent(s, view, disk, async, depth)
    }

    /** Nothing has come back that nobody waited for. */
    ghost predicate Quiet()
      reads this
    {
      async && lazy && s.landed == {}
    }

    /** Tokens in flight have been handed out, and no more of them than there are buffers. */
    lemma TokensAreOld()
      requires Valid()
      ensures s.next == view.next && forall t | t in view.flying :: t < view.next
      ensures async ==> |view.flying| <= depth
    {
      assert Unsealed(ReaderValid);
      if async {
        FlyingSize(s, view, disk, depth);
      }
    }

    constructor (disk: seq<Page>, async: bool, depth: nat, lazy: bool)
      ensures Valid() && this.disk == disk && this.async == async && this.depth == depth
      ensures view == View(map[], 0, []) && (async && lazy ==> Quiet())
    {
      this.disk, this.async, this.depth, this.lazy := disk, async, depth, lazy;
      var free := seq(depth, i requires 0 <= i < depth => i);
      assert forall b | b in free :: b < depth;
      s := ReaderState(free, seq(depth, i requires 0 <= i < depth => Page(0, [])), map[], {}, [], 0);
      view := View(map[], 0, []);
    }

    /** `start_async_read`; fails exactly when the pool is exhausted. */
    method Start(p: nat) returns (ok: bool)
      requires Valid() && async && p < |disk|
      modifies this
      ensures Valid() && (ok <==> |old(view).flying| < depth)
      ensures view == if ok then Issue(old(view), p) else old(view)
      ensures s.landed == old(s).landed
    {
      assert Unsealed(ReaderValid);
      FlyingSize(s, view, disk, depth);
      ok := s.free != [];
      if ok {
        AcquiredKeeps(s, view, disk, depth, p);
        s := Acquired(s, p);
        view := Issue(view, p);
      }
    }

    /** Without io_uring a submission reads at once and queues the completion. */
    method ReadInline(p: nat)
      requires Valid() && !async && p < |disk|
      modifies this
      ensures Valid() && view == Issue(old(view), p)
    {
      assert Unsealed(ReaderValid);
      TokensOfAppend(s.inlined, view.flying, disk, s.next, p);
      s := s.(inlined := s.inlined + [CompletedRead(s.next, disk[p])], next := s.next + 1);
      view := Issue(view, p);
    }

    /**
     `batch_submit`. Tokens are consecutive and new. It succeeds exactly when the pool has a buffer for
     every request; otherwise the reads before the first refusal stay in flight.
     */
    method BatchSubmit(pages: seq<nat>) returns (ok: bool, first: nat)
      requires Valid() && forall p | p in pages :: p < |disk|
      modifies this
      ensures Valid() && first == old(view).next
      ensures ok <==> !async || |old(view).flying| + |pages| <= depth
      ensures ok ==> view == Started(old(view), pages)
      ensures !ok ==> exists n: nat :: n < |pages| && view == Started(old(view), pages[..n])
      ensures old(Quiet()) ==> Quiet()
    {
      first := s.next;
      ghost var before := view;
      TokensAreOld();
      for i := 0 to |pages|
        invariant Valid() && view == Started(before, pages[..i])
        invariant |view.flying| == |before.flying| + i
        invariant async ==> |before.flying| + i <= depth && s.landed == old(s).landed
      {
        StartedStep(before, pages, i);
        assert pages[i] in pages;
        TokensAreOld();
        if async {
          var started := Start(pages[i]);
          if !started {
            return false, first;
          }
        } else {
          ReadInline(pages[i]);
        }
      }
      assert pages[..|pages|] == pages;
      ok := true;
    }

    /** The device posts a completion for one more outstanding read. */
    method Land(t: nat)
      requires Valid() && async && t in s.outstanding
      modifies this
      ensures Valid() && view == old(view) && t in s.landed && s.outstanding == old(s).outstanding
    {
      assert Unsealed(ReaderValid);
      FinishedKeeps(s, view, disk, depth, t);
      s := Finished(s, disk, t);
    }

    /** `read`: a synchronous read, outside the token protocol. */
    method ReadNow(p: nat) returns (page: Page)
      requires Valid() && p < |disk|
      modifies this
      ensures Valid() && page == disk[p] && view == old(view).(issued := old(view).issued + [p])
    {
      assert Unsealed(ReaderValid);
      page := disk[p];
      view := view.(issued := view.issued + [p]);
    }

    /** While nobody waits, the device may finish any reads in any order, unless it is lazy. */
    method Progress()
      requires Valid() && async
      modifies this
      ensures Valid() && view == old(view) && s.outstanding == old(s).outstanding
      ensures lazy ==> s == old(s)
    {
      assert Unsealed(ReaderValid);
      if lazy {
        return;
      }
      var steps: nat :| true;
      for i := 0 to steps
        invariant Valid() && view == old(view) && s.outstanding == old(s).outstanding
      {
        var t: nat :| true;
        if t in s.outstanding {
          Land(t);
        }
      }
    }

    /**
     `reap_async_read`: any read in flight may be the one that comes back, with its page's data. A waiting
     call comes back empty-handed only when nothing is in flight.
     */
    method Reap(wait: bool) returns (got: bool, c: CompletedRead)
      requires Valid()
      modifies this
      ensures Valid()
      ensures got ==> c.token in old(view).flying && old(view).flying[c.token] < |disk|
      ensures got ==> c.data == disk[old(view).flying[c.token]]
      ensures view == if got then old(view).(flying := old(view).flying - {c.token}) else old(view)
      ensures wait && old(view).flying != map[] ==> got
      ensures old(Quiet()) && !wait ==> !got && Quiet()
    {
      assert Unsealed(ReaderValid);
      c := CompletedRead(0, Page(0, []));
      if !async {
        got := s.inlined != [];
        if got {
          c := s.inlined[0];
          s := s.(inlined := s.inlined[1..]);
          view := view.(flying := view.flying - {c.token});
        }
        return;
      }
      assert view.flying.Keys == s.outstanding.Keys;
      Progress();
      if wait && s.landed == {} && s.outstanding != map[] {
        var t :| t in s.outstanding;
        Land(t);
      }
      got := s.landed != {};
      if got {
        var t :| t in s.landed;
        c := TakeLanded(t);
      }
    }

    method TakeLanded(t: nat) returns (c: CompletedRead)
      requires Valid() && async && t in s.landed
      modifies this
      ensures Valid() && c.token == t && t in old(view).flying && old(view).flying[t] < |disk|
      ensures c.data == disk[old(view).flying[t]]
      ensures view == old(view).(flying := old(view).flying - {t})
    {
      assert Unsealed(ReaderValid);
      ReapedKeeps(s, view, disk, depth, t);
      c := CompletedRead(t, s.pool[s.outstanding[t].buffer]);
      s := Reaped(s, t);
      view := view.(flying := view.flying - {t});
    }
  }
}
