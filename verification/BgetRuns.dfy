/** What the heap invariant means for a client, over whole runs of calls. */
module BgetRuns {
  import opened BgetLayout
  import opened BgetMemory
  import opened BgetHeap

  /** Payloads of live blocks are aligned and do not overlap. */
  lemma PayloadsAreDisjoint(l: Layout, ps: Pools, a: int, b: int)
    requires Wf(l, ps) && a in LiveMap(l) && b in LiveMap(l) && a < b
    ensures (a + 8) % 8 == 0 && (b + 8) % 8 == 0
    ensures a + LiveMap(l)[a] <= b
    ensures exists p :: p in ps && p <= a && a + LiveMap(l)[a] <= p + ps[p] - 8
  {
    assert AlignedAt(l, a) && AlignedAt(l, b);
    var p := BlockInPool(l, ps, a);
    assert PoolAt(l, ps, p);
  }

  /** A free block is a maximal gap: it starts at a pool base or right behind a live block,
      and ends where a live block or the sentinel of the pool starts. */
  lemma FreeBlockIsMaximalGap(l: Layout, ps: Pools, a: int)
    requires Wf(l, ps) && a in l && l[a].kind == Free
    ensures a in ps || exists p :: p in LiveMap(l) && p + LiveMap(l)[p] == a
    ensures a + l[a].size in LiveMap(l) || IsSentinel(ps, a + l[a].size)
  {
    if a !in ps {
      assert HasPrev(l, a);
      var p :| IsPrev(l, p, a);
      assert p in LiveMap(l) && p + LiveMap(l)[p] == a;
    }
    assert Stop(l, a) in l;
    if l[Stop(l, a)].kind == End {
      assert IsSentinel(ps, Stop(l, a));
    }
  }

  /** A run of releases: run[i + 1] is the layout after block xs[i] is released. */
  ghost predicate ReleaseRun(run: seq<Layout>, ps: Pools, xs: seq<int>) {
    && |run| == |xs| + 1
    && (forall i :: 0 <= i < |run| ==> Wf(run[i], ps))
    && forall i :: 0 <= i < |xs| ==> xs[i] in LiveMap(run[i]) && LiveMap(run[i + 1]) == LiveMap(run[i]) - {xs[i]}
  }

  lemma {:induction false} ReleaseRunLive(run: seq<Layout>, ps: Pools, xs: seq<int>, n: nat)
    requires ReleaseRun(run, ps, xs) && n <= |xs|
    ensures LiveMap(run[n]) == LiveMap(run[0]) - (set i | 0 <= i < n :: xs[i])
  {
    if n > 0 {
      ReleaseRunLive(run, ps, xs, n - 1);
      assert (set i | 0 <= i < n :: xs[i]) == (set i | 0 <= i < n - 1 :: xs[i]) + {xs[n - 1]};
    }
  }

  /** Releasing the same buffers in any order leads to the same layout. */
  lemma ReleaseOrderIrrelevant(run1: seq<Layout>, run2: seq<Layout>, ps: Pools, xs: seq<int>, ys: seq<int>)
    requires ReleaseRun(run1, ps, xs) && ReleaseRun(run2, ps, ys) && run1[0] == run2[0]
    requires (set i | 0 <= i < |xs| :: xs[i]) == (set i | 0 <= i < |ys| :: ys[i])
    ensures run1[|xs|] == run2[|ys|]
  {
    ReleaseRunLive(run1, ps, xs, |xs|);
    ReleaseRunLive(run2, ps, ys, |ys|);
    LayoutIsCanonical(run1[|xs|], run2[|ys|], ps);
  }

  /** brel right after bget restores the layout that bget found. */
  lemma ReleaseUndoesGet(l: Layout, got: Layout, back: Layout, ps: Pools, a: int, s: int)
    requires Wf(l, ps) && Wf(got, ps) && Wf(back, ps)
    requires a !in LiveMap(l) && LiveMap(got) == LiveMap(l)[a := s]
    requires LiveMap(back) == LiveMap(got) - {a}
    ensures back == l
  {
    assert LiveMap(back) == LiveMap(l);
    LayoutIsCanonical(back, l, ps);
  }

  /** With nothing allocated each pool is one free block and its sentinel; blocks of
      neighbouring pools have not been merged. */
  lemma AllReleased(l: Layout, ps: Pools)
    requires Wf(l, ps) && LiveMap(l) == map[]
    ensures forall b :: b in ps ==> b in l && l[b] == Blk(ps[b] - 8, Free)
    ensures forall a :: a in l ==> a in ps || IsSentinel(ps, a)
  {
    forall a | a in l ensures l[a].kind != Live {
      assert l[a].kind == Live ==> a in LiveMap(l);
    }
    forall b | b in ps ensures b in l && l[b] == Blk(ps[b] - 8, Free) {
      OneBlock(l, ps, b);
    }
    forall a | a in l ensures a in ps || IsSentinel(ps, a) {
      assert a in ps || HasPrev(l, a);
      if l[a].kind == End {
        assert IsSentinel(ps, a);
      }
    }
  }

  lemma OneBlock(l: Layout, ps: Pools, b: int)
    requires Wf(l, ps) && b in ps && forall a :: a in l ==> l[a].kind != Live
    ensures b in l && l[b] == Blk(ps[b] - 8, Free)
  {
    assert PoolAt(l, ps, b);
    var n := Stop(l, b);
    assert l[n].kind == End;
    assert IsSentinel(ps, n);
    var d :| d in ps && d + ps[d] - 8 == n;
    if d != b {
      assert false;
    }
  }

  // ----- runs of calls -----

  lemma HeapWf(h: Heap)
    requires h.Valid()
    ensures Wf(h.layout, h.pools)
  {
    RepresentsWf(h.mem, h.layout, h.pools, h.ring);
  }

  /** bget and brel in a row: the heap has the layout it had, whatever was merged or split. */
  method GetAndRelease(h: Heap, size: int) returns (buf: int)
    requires h.Valid() && 0 <= size <= 0x7FFF_FFF0
    modifies h
    ensures h.Valid() && h.pools == old(h.pools) && h.layout == old(h.layout) && h.totalloc == old(h.totalloc)
    ensures SamePayloads(old(h.mem), h.mem, h.Allocated())
  {
    hide Wf, LiveMap, Represents, SamePayloads, Granted, HasRoom;
    ghost var l, m := h.layout, h.mem;
    HeapWf(h);
    buf := h.Bget(size);
    if buf == NULL {
      SameAtOnce(m, h.Allocated());
      return;
    }
    ghost var got, m1 := h.layout, h.mem;
    HeapWf(h);
    h.Brel(buf);
    HeapWf(h);
    TakenAway(LiveMap(l), buf - BHEAD, LiveMap(got)[buf - BHEAD]);
    ReleaseUndoesGet(l, got, h.layout, h.pools, buf - BHEAD, LiveMap(got)[buf - BHEAD]);
    SameThrough(m, m1, h.mem, LiveMap(l));
  }

  lemma TakenAway(m: map<int, int>, a: int, s: int)
    requires a !in m
    ensures m[a := s] - {a} == m
  {
  }

  /** The addresses of the first n buffers in a list. */
  ghost function Heads(bufs: seq<int>, n: nat): (s: set<int>)
    requires n <= |bufs|
  {
    set i | 0 <= i < n :: bufs[i] - BHEAD
  }

  /** Releases a list of different live buffers, in the order of the list. */
  method ReleaseAll(h: Heap, bufs: seq<int>)
    requires h.Valid() && forall i :: 0 <= i < |bufs| ==> bufs[i] != NULL && bufs[i] - BHEAD in h.Allocated()
    requires forall i, j :: 0 <= i < j < |bufs| ==> bufs[i] != bufs[j]
    modifies h
    ensures h.Valid() && h.pools == old(h.pools)
    ensures h.Allocated() == old(h.Allocated()) - Heads(bufs, |bufs|)
  {
    hide LiveMap, Represents, SamePayloads;
    ghost var live := h.Allocated();
    var n := 0;
    while n < |bufs|
      invariant 0 <= n <= |bufs| && h.Valid() && h.pools == old(h.pools)
      invariant h.Allocated() == live - Heads(bufs, n)
    {
      assert Heads(bufs, n + 1) == Heads(bufs, n) + {bufs[n] - BHEAD};
      h.Brel(bufs[n]);
      n := n + 1;
    }
  }

  /** Releasing every live buffer, in any order, gives each pool back as one block. */
  method Empty(h: Heap, bufs: seq<int>)
    requires h.Valid() && forall i :: 0 <= i < |bufs| ==> bufs[i] != NULL && bufs[i] - BHEAD in h.Allocated()
    requires forall i, j :: 0 <= i < j < |bufs| ==> bufs[i] != bufs[j]
    requires h.Allocated().Keys == Heads(bufs, |bufs|)
    modifies h
    ensures h.Valid() && h.pools == old(h.pools)
    ensures forall b :: b in h.pools ==> b in h.layout && h.layout[b] == Blk(h.pools[b] - 8, Free)
    ensures forall a :: a in h.layout ==> a in h.pools || IsSentinel(h.pools, a)
  {
    hide LiveMap, Represents, Wf;
    ReleaseAll(h, bufs);
    HeapWf(h);
    assert LiveMap(h.layout) == map[];
    AllReleased(h.layout, h.pools);
  }
}
