/** The block layout of a BGET heap, as a mathematical object.

    A layout maps the start address of every block (free, allocated, or the dummy
    sentinel at the end of a pool) to its size and kind.  `Tile` says that the blocks
    tile the pools exactly; `Wf` adds that no two free blocks touch.  The main results
    are that each operation keeps a layout well-formed, and that a well-formed layout is
    determined by the pools and the live blocks alone (`LayoutIsCanonical`). */
module BgetLayout {
  datatype Kind = Free | Live | End

  datatype Blk = Blk(size: int, kind: Kind)

  type Layout = map<int, Blk>

  /** Base address of each pool and its length, rounded down to a multiple of 8. */
  type Pools = map<int, int>

  /** The static list head occupies [FREELIST, FREELIST + 16); address 0 is NULL. */
  const FREELIST := 8
  const STATICS_END := 24

  ghost predicate Shape(l: Layout) {
    forall a :: a in l ==> STATICS_END <= a && if l[a].kind == End then l[a].size == 8 else 16 <= l[a].size
  }

  ghost predicate AlignedAt(l: Layout, a: int)
    requires a in l
  {
    a % 8 == 0 && l[a].size % 8 == 0
  }

  ghost predicate Aligned(l: Layout) {
    forall a {:trigger AlignedAt(l, a)} :: a in l ==> AlignedAt(l, a)
  }

  ghost predicate Disjoint(l: Layout) {
    forall a, b :: a in l && b in l && a < b ==> a + l[a].size <= b
  }

  /** The address after block a.  The invariants about neighbours are stated in terms of
      this function, so that they are used only where a neighbour is asked for. */
  ghost function Stop(l: Layout, a: int): (v: int)
    requires a in l
  {
    a + l[a].size
  }

  ghost predicate NextIn(l: Layout) {
    forall a {:trigger Stop(l, a)} :: a in l && l[a].kind != End ==> Stop(l, a) in l
  }

  ghost predicate IsPrev(l: Layout, p: int, a: int) {
    p in l && l[p].kind != End && Stop(l, p) == a
  }

  ghost predicate HasPrev(l: Layout, a: int) {
    exists p :: IsPrev(l, p, a)
  }

  ghost predicate PrevIn(l: Layout, ps: Pools) {
    forall a {:trigger HasPrev(l, a)} :: a in l ==> a in ps || HasPrev(l, a)
  }

  ghost predicate PoolAt(l: Layout, ps: Pools, b: int)
    requires b in ps
  {
    b in l && l[b].kind != End && b + ps[b] - 8 in l && l[b + ps[b] - 8].kind == End
  }

  ghost predicate PoolsIn(l: Layout, ps: Pools) {
    forall b {:trigger PoolAt(l, ps, b)} :: b in ps ==> PoolAt(l, ps, b)
  }

  ghost predicate PoolsApart(ps: Pools) {
    && (forall b :: b in ps ==> 24 <= ps[b] < 0x8000_0000)
    && forall b, d :: b in ps && d in ps && b < d ==> b + ps[b] <= d
  }

  ghost predicate IsSentinel(ps: Pools, e: int) {
    exists b :: b in ps && b + ps[b] - 8 == e
  }

  ghost predicate EndsIn(l: Layout, ps: Pools) {
    forall e {:trigger IsSentinel(ps, e)} :: e in l && l[e].kind == End ==> IsSentinel(ps, e)
  }

  ghost predicate NotBase(l: Layout, ps: Pools) {
    forall a {:trigger Stop(l, a)} :: a in l && l[a].kind != End ==> Stop(l, a) !in ps
  }

  /** Blocks have sane sizes, are aligned and do not overlap. */
  ghost predicate Blocks(l: Layout) {
    Shape(l) && Aligned(l) && Disjoint(l)
  }

  /** Each pool starts with a block, each block is followed by another one up to the
      sentinel, and nothing lies outside a pool. */
  ghost predicate Chained(l: Layout, ps: Pools) {
    NextIn(l) && PrevIn(l, ps) && PoolsApart(ps) && PoolsIn(l, ps) && EndsIn(l, ps) && NotBase(l, ps)
  }

  /** The blocks tile the pools. */
  ghost predicate Tile(l: Layout, ps: Pools) {
    Blocks(l) && Chained(l, ps)
  }

  /** Coalescing is complete: no free block is followed by a free block. */
  ghost predicate NoTouch(l: Layout) {
    forall a {:trigger Stop(l, a)} ::
      a in l && l[a].kind == Free && Stop(l, a) in l ==> l[Stop(l, a)].kind != Free
  }

  ghost predicate Wf(l: Layout, ps: Pools) {
    Tile(l, ps) && NoTouch(l)
  }

  /** The allocated blocks and their sizes. */
  ghost function LiveMap(l: Layout): (m: map<int, int>) {
    map a | a in l && l[a].kind == Live :: l[a].size
  }

  // ----- the three layout changes that bget and brel are made of -----

  ghost function SetKind(l: Layout, a: int, k: Kind): (l': Layout)
    requires a in l
  {
    l[a := Blk(l[a].size, k)]
  }

  /** Block p absorbs its successor q; the result is free. */
  ghost function Merge(l: Layout, p: int, q: int): (l': Layout)
    requires p in l && q in l
  {
    (l - {q})[p := Blk(l[p].size + l[q].size, Free)]
  }

  /** The last s bytes of free block b become a live block. */
  ghost function Split(l: Layout, b: int, s: int): (l': Layout)
    requires b in l
  {
    l[b := Blk(l[b].size - s, Free)][b + l[b].size - s := Blk(s, Live)]
  }

  ghost function AddPool(l: Layout, base: int, len: int): (r: Layout) {
    l[base := Blk(len - 8, Free)][base + len - 8 := Blk(8, End)]
  }

  /** Pools survive any change that keeps bases and sentinels what they are. */
  lemma PoolsStay(l: Layout, l': Layout, ps: Pools)
    requires PoolsIn(l, ps)
    requires forall a :: a in l && (a in ps || l[a].kind == End) ==>
      a in l' && (l'[a].kind == End <==> l[a].kind == End)
    ensures PoolsIn(l', ps)
  {
    forall b | b in ps ensures PoolAt(l', ps, b) {
      assert PoolAt(l, ps, b);
    }
  }

  lemma SetKindPrev(l: Layout, ps: Pools, a: int, k: Kind)
    requires PrevIn(l, ps) && a in l && l[a].kind != End && k != End
    ensures PrevIn(SetKind(l, a, k), ps)
  {
    var l' := SetKind(l, a, k);
    forall x | x in l' ensures x in ps || HasPrev(l', x) {
      if x !in ps {
        assert HasPrev(l, x);
        var p :| IsPrev(l, p, x);
        assert IsPrev(l', p, x);
      }
    }
  }

  lemma SetKindBlocks(l: Layout, a: int, k: Kind)
    requires Blocks(l) && a in l && l[a].kind != End && k != End
    ensures Blocks(SetKind(l, a, k))
  {
    var l' := SetKind(l, a, k);
    forall x | x in l' ensures AlignedAt(l', x) {
      assert AlignedAt(l, x);
    }
  }

  lemma SetKindNext(l: Layout, ps: Pools, a: int, k: Kind)
    requires NextIn(l) && NotBase(l, ps) && a in l && l[a].kind != End && k != End
    ensures NextIn(SetKind(l, a, k)) && NotBase(SetKind(l, a, k), ps)
  {
    var l' := SetKind(l, a, k);
    forall x | x in l' && l'[x].kind != End ensures Stop(l', x) in l' && Stop(l', x) !in ps {
      assert Stop(l', x) == Stop(l, x);
    }
  }

  lemma SetKindPools(l: Layout, ps: Pools, a: int, k: Kind)
    requires PoolsIn(l, ps) && EndsIn(l, ps) && a in l && l[a].kind != End && k != End
    ensures PoolsIn(SetKind(l, a, k), ps) && EndsIn(SetKind(l, a, k), ps)
  {
    PoolsStay(l, SetKind(l, a, k), ps);
  }

  lemma SetKindTiles(l: Layout, ps: Pools, a: int, k: Kind)
    requires Tile(l, ps) && a in l && l[a].kind != End && k != End
    ensures Tile(SetKind(l, a, k), ps)
  {
    hide Shape, Aligned, Disjoint, NextIn, PrevIn, PoolsApart, PoolsIn, EndsIn, NotBase;
    SetKindBlocks(l, a, k);
    SetKindPrev(l, ps, a, k);
    SetKindPools(l, ps, a, k);
    SetKindNext(l, ps, a, k);
  }

  lemma MergeAligned(l: Layout, p: int, q: int)
    requires Shape(l) && Aligned(l) && IsPrev(l, p, q) && q in l && l[q].kind != End && p != q
    ensures Shape(Merge(l, p, q)) && Aligned(Merge(l, p, q))
  {
    var l' := Merge(l, p, q);
    assert AlignedAt(l, q);
    forall x | x in l' ensures AlignedAt(l', x) {
      assert AlignedAt(l, x);
    }
  }

  lemma MergeDisjoint(l: Layout, p: int, q: int)
    requires Disjoint(l) && IsPrev(l, p, q) && q in l && p < q
    ensures Disjoint(Merge(l, p, q))
  {
    var l' := Merge(l, p, q);
    forall x, y | x in l' && y in l' && x < y ensures x + l'[x].size <= y {
      if x == p {
        assert q < y;
      }
    }
  }

  lemma SizePositive(l: Layout, a: int)
    requires Shape(l) && a in l
    ensures a < Stop(l, a) && STATICS_END <= a
  {
  }

  lemma MergeBlocks(l: Layout, p: int, q: int)
    requires Blocks(l) && IsPrev(l, p, q) && q in l && l[q].kind != End
    ensures Blocks(Merge(l, p, q))
  {
    hide Shape, Aligned, Disjoint;
    SizePositive(l, p);
    MergeAligned(l, p, q);
    MergeDisjoint(l, p, q);
  }

  lemma MergePrev(l: Layout, ps: Pools, p: int, q: int)
    requires PrevIn(l, ps) && IsPrev(l, p, q) && q in l && l[q].kind != End
    ensures PrevIn(Merge(l, p, q), ps)
  {
    var l' := Merge(l, p, q);
    forall x | x in l' ensures x in ps || HasPrev(l', x) {
      if x !in ps {
        assert HasPrev(l, x);
        var r :| IsPrev(l, r, x);
        assert IsPrev(l', if r == q then p else r, x);
      }
    }
  }

  /** Only one block ends at q. */
  lemma OnePrev(l: Layout, p: int, y: int, q: int)
    requires Disjoint(l) && p in l && y in l && Stop(l, p) == Stop(l, y) == q && p < q && y < q
    ensures p == y
  {
  }

  lemma MergeNext(l: Layout, ps: Pools, p: int, q: int)
    requires NextIn(l) && NotBase(l, ps) && Shape(l) && Disjoint(l) && IsPrev(l, p, q) && q in l && l[q].kind != End
    ensures NextIn(Merge(l, p, q)) && NotBase(Merge(l, p, q), ps)
  {
    hide Shape, Disjoint;
    var l' := Merge(l, p, q);
    SizePositive(l, p);
    SizePositive(l, q);
    forall x | x in l' && l'[x].kind != End ensures Stop(l', x) in l' && Stop(l', x) !in ps {
      var y := if x == p then q else x;
      assert Stop(l', x) == Stop(l, y);
      SizePositive(l, y);
      if Stop(l, y) == q {
        OnePrev(l, p, y, q);
      }
    }
  }

  lemma MergePools(l: Layout, ps: Pools, p: int, q: int)
    requires PoolsIn(l, ps) && EndsIn(l, ps) && NotBase(l, ps) && IsPrev(l, p, q) && q in l && l[q].kind != End
    ensures PoolsIn(Merge(l, p, q), ps) && EndsIn(Merge(l, p, q), ps)
  {
    assert Stop(l, p) !in ps;
    PoolsStay(l, Merge(l, p, q), ps);
  }

  lemma MergeTiles(l: Layout, ps: Pools, p: int, q: int)
    requires Tile(l, ps) && IsPrev(l, p, q) && q in l && l[q].kind != End
    ensures Tile(Merge(l, p, q), ps)
  {
    hide Shape, Aligned, Disjoint, NextIn, PrevIn, PoolsApart, PoolsIn, EndsIn, NotBase;
    MergeBlocks(l, p, q);
    MergePrev(l, ps, p, q);
    MergePools(l, ps, p, q);
    MergeNext(l, ps, p, q);
  }

  /** No block starts inside another one. */
  lemma InsideFree(l: Layout, b: int, c: int)
    requires Disjoint(l) && b in l && b < c < b + l[b].size
    ensures c !in l
  {
  }

  lemma SplitAligned(l: Layout, b: int, s: int)
    requires Shape(l) && Aligned(l) && b in l && l[b].kind == Free
    requires 16 <= s && s % 8 == 0 && s + 16 <= l[b].size
    ensures Shape(Split(l, b, s)) && Aligned(Split(l, b, s)) && (b + l[b].size - s) % 8 == 0
  {
    var l' := Split(l, b, s);
    assert AlignedAt(l, b);
    forall x | x in l' ensures AlignedAt(l', x) {
      assert x != b + l[b].size - s ==> AlignedAt(l, x);
    }
  }

  lemma SplitDisjoint(l: Layout, b: int, s: int)
    requires Disjoint(l) && b in l && 0 < s < l[b].size && b + l[b].size - s !in l
    ensures Disjoint(Split(l, b, s))
  {
    var l' := Split(l, b, s);
    var c := b + l[b].size - s;
    forall x, y | x in l' && y in l' && x < y ensures x + l'[x].size <= y {
      if x == c {
        assert b < y;
      }
    }
  }

  lemma SplitBlocks(l: Layout, b: int, s: int)
    requires Blocks(l) && b in l && l[b].kind == Free
    requires 16 <= s && s % 8 == 0 && s + 16 <= l[b].size
    ensures Blocks(Split(l, b, s))
    ensures b + l[b].size - s !in l && (b + l[b].size - s) % 8 == 0
  {
    hide Shape, Aligned, Disjoint;
    InsideFree(l, b, b + l[b].size - s);
    SplitAligned(l, b, s);
    SplitDisjoint(l, b, s);
  }

  lemma SplitPrev(l: Layout, ps: Pools, b: int, s: int)
    requires PrevIn(l, ps) && b in l && l[b].kind == Free && b + l[b].size - s !in l
    ensures PrevIn(Split(l, b, s), ps)
  {
    var l' := Split(l, b, s);
    var c := b + l[b].size - s;
    forall x | x in l' ensures x in ps || HasPrev(l', x) {
      if x == c {
        assert IsPrev(l', b, c);
      } else if x !in ps {
        assert HasPrev(l, x);
        var r :| IsPrev(l, r, x);
        assert IsPrev(l', if r == b then c else r, x);
      }
    }
  }

  lemma SplitNext(l: Layout, ps: Pools, b: int, s: int)
    requires NextIn(l) && NotBase(l, ps) && PoolsIn(l, ps) && b in l && l[b].kind == Free && b + l[b].size - s !in l
    ensures NextIn(Split(l, b, s)) && NotBase(Split(l, b, s), ps)
  {
    var l' := Split(l, b, s);
    var c := b + l[b].size - s;
    forall x | x in l' && l'[x].kind != End ensures Stop(l', x) in l' && Stop(l', x) !in ps {
      if x == b {
        assert c in ps ==> PoolAt(l, ps, c);
      } else {
        assert Stop(l', x) == Stop(l, if x == c then b else x);
      }
    }
  }

  lemma SplitPools(l: Layout, ps: Pools, b: int, s: int)
    requires PoolsIn(l, ps) && EndsIn(l, ps) && b in l && l[b].kind == Free && b + l[b].size - s !in l
    ensures PoolsIn(Split(l, b, s), ps) && EndsIn(Split(l, b, s), ps)
  {
    PoolsStay(l, Split(l, b, s), ps);
  }

  lemma SplitTiles(l: Layout, ps: Pools, b: int, s: int)
    requires Tile(l, ps) && b in l && l[b].kind == Free
    requires 16 <= s && s % 8 == 0 && s + 16 <= l[b].size
    ensures Tile(Split(l, b, s), ps)
    ensures b + l[b].size - s !in l
  {
    hide Shape, Aligned, Disjoint, NextIn, PrevIn, PoolsApart, PoolsIn, EndsIn, NotBase;
    SplitBlocks(l, b, s);
    SplitPrev(l, ps, b, s);
    SplitPools(l, ps, b, s);
    SplitNext(l, ps, b, s);
  }

  /** Different blocks do not overlap. */
  lemma Apart(l: Layout, b: int, a: int)
    requires Blocks(l) && b in l && a in l && a != b
    ensures 8 <= l[a].size && 8 <= l[b].size && (a + l[a].size <= b || b + l[b].size <= a)
  {
  }

  /** A block that ends where block b ends is block b. */
  lemma SameStop(l: Layout, b: int, p: int)
    requires Blocks(l) && b in l && p in l && Stop(l, p) == Stop(l, b)
    ensures p == b
  {
    hide Shape, Aligned, Disjoint;
    if p != b {
      Apart(l, b, p);
    }
  }

  lemma PositiveSize(l: Layout, p: int)
    requires Blocks(l) && p in l
    ensures p + 8 <= Stop(l, p)
  {
  }

  // ----- where blocks lie -----

  /** Every block lies inside one of the pools. */
  lemma {:induction false} BlockInPool(l: Layout, ps: Pools, a: int) returns (b: int)
    requires Tile(l, ps) && a in l
    ensures b in ps && b <= a && a + l[a].size <= b + ps[b]
    decreases a
  {
    if a in ps {
      b := a;
    } else {
      assert HasPrev(l, a);
      var p :| IsPrev(l, p, a);
      b := BlockInPool(l, ps, p);
    }
    assert PoolAt(l, ps, b);
  }

  lemma {:induction false} CoverFrom(l: Layout, ps: Pools, b: int, a: int, x: int) returns (c: int)
    requires Tile(l, ps) && b in ps && a in l && b <= a <= x < b + ps[b]
    ensures c in l && c <= x < c + l[c].size
    decreases b + ps[b] - a
  {
    assert PoolAt(l, ps, b);
    if x < a + l[a].size {
      c := a;
    } else if l[a].kind == End {
      assert IsSentinel(ps, a);
      var d :| d in ps && d + ps[d] - 8 == a;
      assert false;
    } else {
      c := CoverFrom(l, ps, b, Stop(l, a), x);
    }
  }

  /** The blocks of a layout tile its pools exactly: an address belongs to a block iff it
      belongs to a pool, and never to two blocks. */
  lemma TilesExactly(l: Layout, ps: Pools, x: int)
    requires Tile(l, ps)
    ensures (exists b :: b in ps && b <= x < b + ps[b]) <==> exists a :: a in l && a <= x < a + l[a].size
    ensures forall a, c :: a in l && c in l && a <= x < a + l[a].size && c <= x < c + l[c].size ==> a == c
  {
    if b :| b in ps && b <= x < b + ps[b] {
      assert PoolAt(l, ps, b);
      var a := CoverFrom(l, ps, b, b, x);
    }
    if a :| a in l && a <= x < a + l[a].size {
      var b := BlockInPool(l, ps, a);
    }
  }

  /** A region apart from the pools is apart from every block. */
  lemma OutsidePools(l: Layout, ps: Pools, base: int, len: int)
    requires Tile(l, ps) && 0 < len
    requires forall b :: b in ps ==> b + ps[b] <= base || base + len <= b
    ensures forall a :: a in l ==> a + l[a].size <= base || base + len <= a
  {
    forall a | a in l ensures a + l[a].size <= base || base + len <= a {
      var b := BlockInPool(l, ps, a);
    }
  }

  lemma AddPoolBounds(l: Layout, ps: Pools, base: int, len: int)
    requires PoolsIn(l, ps) && PoolsApart(ps) && 24 <= len < 0x8000_0000
    requires base !in l && base + len - 8 !in l
    requires forall b :: b in ps ==> b + ps[b] <= base || base + len <= b
    ensures PoolsIn(AddPool(l, base, len), ps[base := len]) && PoolsApart(ps[base := len])
  {
    var l', ps' := AddPool(l, base, len), ps[base := len];
    forall d | d in ps' ensures PoolAt(l', ps', d) {
      if d != base {
        assert PoolAt(l, ps, d);
        assert ps'[d] == ps[d];
      }
    }
  }

  lemma AddPoolPrev(l: Layout, ps: Pools, base: int, len: int)
    requires PrevIn(l, ps) && EndsIn(l, ps) && 24 <= len
    requires base !in l && base + len - 8 !in l && base !in ps
    ensures PrevIn(AddPool(l, base, len), ps[base := len]) && EndsIn(AddPool(l, base, len), ps[base := len])
  {
    var l', ps' := AddPool(l, base, len), ps[base := len];
    forall x | x in l' ensures x in ps' || HasPrev(l', x) {
      if x == base + len - 8 {
        assert IsPrev(l', base, x);
      } else if x !in ps' {
        assert HasPrev(l, x);
        var r :| IsPrev(l, r, x);
        assert IsPrev(l', r, x);
      }
    }
    forall e | e in l' && l'[e].kind == End ensures IsSentinel(ps', e) {
      if e == base + len - 8 {
        assert base in ps';
      } else {
        assert IsSentinel(ps, e);
        var b :| b in ps && b + ps[b] - 8 == e;
        assert b in ps' && b + ps'[b] - 8 == e;
      }
    }
  }

  lemma AddPoolAligned(l: Layout, base: int, len: int)
    requires Shape(l) && Aligned(l) && STATICS_END <= base && base % 8 == 0 && 24 <= len && len % 8 == 0
    ensures Shape(AddPool(l, base, len)) && Aligned(AddPool(l, base, len))
  {
    var l' := AddPool(l, base, len);
    forall x | x in l' ensures AlignedAt(l', x) {
      assert x != base && x != base + len - 8 ==> AlignedAt(l, x);
    }
  }

  lemma AddPoolDisjoint(l: Layout, base: int, len: int)
    requires Shape(l) && Disjoint(l) && 24 <= len
    requires forall a :: a in l ==> a + l[a].size <= base || base + len <= a
    ensures Disjoint(AddPool(l, base, len))
  {
  }

  lemma AddPoolNext(l: Layout, ps: Pools, base: int, len: int)
    requires NextIn(l) && NotBase(l, ps) && PoolsIn(l, ps) && 24 <= len && base !in l && base + len - 8 !in l
    ensures NextIn(AddPool(l, base, len)) && NotBase(AddPool(l, base, len), ps[base := len])
  {
    var l', end := AddPool(l, base, len), base + len - 8;
    forall x | x in l' && l'[x].kind != End ensures Stop(l', x) in l' && Stop(l', x) !in ps[base := len] {
      if x == base {
        assert end in ps ==> PoolAt(l, ps, end);
      } else {
        assert Stop(l', x) == Stop(l, x);
      }
    }
  }

  /** A region apart from the blocks holds none of their addresses. */
  lemma ApartMeansNew(l: Layout, base: int, len: int)
    requires Shape(l) && 24 <= len && forall a :: a in l ==> a + l[a].size <= base || base + len <= a
    ensures base !in l && base + len - 8 !in l
  {
  }

  lemma BaseIsNew(l: Layout, ps: Pools, base: int)
    requires PoolsIn(l, ps) && base !in l
    ensures base !in ps
  {
    assert base in ps ==> PoolAt(l, ps, base);
  }

  lemma AddPoolTiles(l: Layout, ps: Pools, base: int, len: int)
    requires Tile(l, ps)
    requires STATICS_END <= base && base % 8 == 0 && 24 <= len < 0x8000_0000 && len % 8 == 0
    requires forall b :: b in ps ==> b + ps[b] <= base || base + len <= b
    ensures Tile(AddPool(l, base, len), ps[base := len]) && base !in l && base + len - 8 !in l
  {
    hide Shape, Aligned, Disjoint, NextIn, PrevIn, PoolsApart, PoolsIn, EndsIn, NotBase;
    OutsidePools(l, ps, base, len);
    ApartMeansNew(l, base, len);
    BaseIsNew(l, ps, base);
    AddPoolBounds(l, ps, base, len);
    AddPoolPrev(l, ps, base, len);
    AddPoolAligned(l, base, len);
    AddPoolDisjoint(l, base, len);
    AddPoolNext(l, ps, base, len);
  }

  // ----- canonicity -----

  lemma FreeBlockAgrees(l1: Layout, l2: Layout, ps: Pools, a: int)
    requires Wf(l1, ps) && Wf(l2, ps) && LiveMap(l1) == LiveMap(l2)
    requires a in l1 && l1[a].kind == Free
    ensures a in l2 && l2[a] == l1[a]
  {
    LiveAgrees(l1, l2);
    LiveAgrees(l2, l1);
    EndAgrees(l1, l2, ps);
    EndAgrees(l2, l1, ps);
    // a starts a block of l2: it is a pool base or follows a live block
    if a in ps {
      assert PoolAt(l2, ps, a);
    } else {
      assert HasPrev(l1, a);
      var p :| IsPrev(l1, p, a);
      assert Stop(l1, p) == Stop(l2, p);
    }
    assert a in l2;
    assert l2[a].kind == Free;
    // both free blocks end where something that is not free starts
    var e1, e2 := Stop(l1, a), Stop(l2, a);
    assert l1[e1].kind != Free && l2[e2].kind != Free;
    assert e1 in l2 && e2 in l1;
  }

  lemma LiveAgrees(l1: Layout, l2: Layout)
    requires LiveMap(l1) == LiveMap(l2)
    ensures forall a :: a in l1 && l1[a].kind == Live ==> a in l2 && l2[a] == l1[a]
  {
    forall a | a in l1 && l1[a].kind == Live ensures a in l2 && l2[a] == l1[a] {
      assert a in LiveMap(l1) && LiveMap(l1)[a] == l1[a].size;
      assert a in LiveMap(l2);
    }
  }

  lemma EndAgrees(l1: Layout, l2: Layout, ps: Pools)
    requires Tile(l1, ps) && Tile(l2, ps)
    ensures forall a :: a in l1 && l1[a].kind == End ==> a in l2 && l2[a] == l1[a]
  {
    forall a | a in l1 && l1[a].kind == End ensures a in l2 && l2[a] == l1[a] {
      assert IsSentinel(ps, a);
      var b :| b in ps && b + ps[b] - 8 == a;
      assert PoolAt(l1, ps, b) && PoolAt(l2, ps, b);
    }
  }

  /** The layout is a function of the pools and the live blocks: the free blocks are exactly
      the maximal gaps.  Whatever sequence of calls led to them, equal live blocks mean equal
      layouts. */
  lemma LayoutIsCanonical(l1: Layout, l2: Layout, ps: Pools)
    requires Wf(l1, ps) && Wf(l2, ps) && LiveMap(l1) == LiveMap(l2)
    ensures l1 == l2
  {
    BlocksAgree(l1, l2, ps);
    BlocksAgree(l2, l1, ps);
    assert forall a :: a in l1 <==> a in l2;
    assert forall a :: a in l1 ==> l1[a] == l2[a];
    assert l1.Keys == l2.Keys;
  }

  lemma BlocksAgree(l1: Layout, l2: Layout, ps: Pools)
    requires Wf(l1, ps) && Wf(l2, ps) && LiveMap(l1) == LiveMap(l2)
    ensures forall a :: a in l1 ==> a in l2 && l2[a] == l1[a]
  {
    LiveAgrees(l1, l2);
    EndAgrees(l1, l2, ps);
    forall a | a in l1 && l1[a].kind == Free ensures a in l2 && l2[a] == l1[a] {
      FreeBlockAgrees(l1, l2, ps, a);
    }
  }

  // ----- bget and brel on layouts -----

  /** pf is what the prevfree word of block a must hold: the size of a free predecessor, or 0. */
  ghost predicate PrevFreeIs(l: Layout, a: int, pf: int) {
    if pf == 0 then forall p :: IsPrev(l, p, a) ==> l[p].kind != Free
    else IsPrev(l, a - pf, a) && l[a - pf].kind == Free
  }

  /** First half of brel: live block a becomes free, or joins its free predecessor. */
  ghost function JoinPrev(l: Layout, a: int, pf: int): (l': Layout)
    requires a in l && (pf != 0 ==> a - pf in l)
  {
    if pf == 0 then SetKind(l, a, Free) else Merge(SetKind(l, a, Free), a - pf, a)
  }

  /** Second half of brel: free block x absorbs a free successor. */
  ghost function JoinNext(l: Layout, x: int): (l': Layout)
    requires x in l
  {
    if Stop(l, x) in l && l[Stop(l, x)].kind == Free then Merge(l, x, Stop(l, x)) else l
  }

  /** Both halves. */
  ghost function Released(l: Layout, a: int, pf: int): (l': Layout)
    requires a in l && (pf != 0 ==> a - pf in l)
  {
    var l1 := JoinPrev(l, a, pf);
    if a - pf in l1 then JoinNext(l1, a - pf) else l1
  }

  lemma JoinPrevTiles(l: Layout, ps: Pools, a: int, pf: int)
    requires Tile(l, ps) && a in l && l[a].kind == Live && PrevFreeIs(l, a, pf)
    ensures Tile(JoinPrev(l, a, pf), ps)
  {
    SetKindTiles(l, ps, a, Free);
    if pf != 0 {
      var l0 := SetKind(l, a, Free);
      assert Stop(l0, a - pf) == Stop(l, a - pf);
      assert IsPrev(l0, a - pf, a);
      MergeTiles(l0, ps, a - pf, a);
    }
  }

  lemma JoinPrevShape(l: Layout, a: int, pf: int)
    requires Blocks(l) && a in l && l[a].kind == Live && PrevFreeIs(l, a, pf)
    ensures LiveMap(JoinPrev(l, a, pf)) == LiveMap(l) - {a}
    ensures var l1 := JoinPrev(l, a, pf); var x := a - pf; x in l1 && l1[x].kind == Free && Stop(l1, x) == Stop(l, a)
  {
  }

  /** The block that brel forms has no free predecessor. */
  lemma JoinPrevAlone(l: Layout, a: int, pf: int)
    requires Blocks(l) && NoTouch(l) && a in l && l[a].kind == Live && PrevFreeIs(l, a, pf)
    ensures PrevFreeIs(JoinPrev(l, a, pf), a - pf, 0)
  {
    var l1 := JoinPrev(l, a, pf);
    forall p | IsPrev(l1, p, a - pf) ensures l1[p].kind != Free {
      assert p != a - pf && p != a;
      assert Stop(l, p) == Stop(l1, p);
      assert IsPrev(l, p, a - pf);
    }
  }

  /** After the first half only x may touch a free successor. */
  lemma JoinPrevTouch(l: Layout, ps: Pools, a: int, pf: int, y: int)
    requires Wf(l, ps) && a in l && l[a].kind == Live && PrevFreeIs(l, a, pf)
    requires var l1 := JoinPrev(l, a, pf);
      y in l1 && y != a - pf && l1[y].kind == Free && Stop(l1, y) in l1
    ensures var l1 := JoinPrev(l, a, pf); l1[Stop(l1, y)].kind != Free
  {
    assert y in l && l[y].kind == Free && Stop(l, y) == Stop(JoinPrev(l, a, pf), y);
    assert IsPrev(l, y, Stop(l, y));
  }

  /** Releasing a live block keeps the layout well formed and removes exactly that block from
      the live ones. */
  lemma ReleaseWf(l: Layout, ps: Pools, a: int, pf: int)
    requires Wf(l, ps) && a in l && l[a].kind == Live && PrevFreeIs(l, a, pf)
    ensures Wf(Released(l, a, pf), ps)
    ensures LiveMap(Released(l, a, pf)) == LiveMap(l) - {a}
  {
    hide Shape, Aligned, Disjoint, Chained;
    var l1 := JoinPrev(l, a, pf);
    var x := a - pf;
    JoinPrevTiles(l, ps, a, pf);
    JoinPrevShape(l, a, pf);
    JoinNextTiles(l1, ps, x);
    forall y | y in l1 && y != x && l1[y].kind == Free && Stop(l1, y) in l1 ensures l1[Stop(l1, y)].kind != Free {
      JoinPrevTouch(l, ps, a, pf, y);
    }
    JoinPrevAlone(l, a, pf);
    JoinedNextFits(l, ps, a, pf);
    JoinNextTouch(l1, ps, x);
  }

  lemma JoinNextTiles(l1: Layout, ps: Pools, x: int)
    requires Tile(l1, ps) && x in l1 && l1[x].kind == Free
    ensures Tile(JoinNext(l1, x), ps) && LiveMap(JoinNext(l1, x)) == LiveMap(l1)
  {
    var n := Stop(l1, x);
    if l1[n].kind == Free {
      assert IsPrev(l1, x, n);
      MergeTiles(l1, ps, x, n);
    }
  }

  /** A free successor of the block that brel forms is itself not followed by a free block. */
  lemma JoinedNextFits(l: Layout, ps: Pools, a: int, pf: int)
    requires Wf(l, ps) && a in l && l[a].kind == Live && PrevFreeIs(l, a, pf)
    ensures a - pf in JoinPrev(l, a, pf)
    ensures var l1 := JoinPrev(l, a, pf); var n := Stop(l1, a - pf);
      n in l1 && l1[n].kind == Free && Stop(l1, n) in l1 ==> l1[Stop(l1, n)].kind != Free
  {
    JoinPrevShape(l, a, pf);
    var l1 := JoinPrev(l, a, pf);
    var n := Stop(l1, a - pf);
    if n in l1 && l1[n].kind == Free && Stop(l1, n) in l1 {
      JoinPrevTouch(l, ps, a, pf, n);
    }
  }

  lemma JoinNextTouch(l1: Layout, ps: Pools, x: int)
    requires Tile(l1, ps) && x in l1 && l1[x].kind == Free && PrevFreeIs(l1, x, 0)
    requires forall y {:trigger Stop(l1, y)} ::
      y in l1 && y != x && l1[y].kind == Free && Stop(l1, y) in l1 ==> l1[Stop(l1, y)].kind != Free
    ensures NoTouch(JoinNext(l1, x))
  {
    var l2 := JoinNext(l1, x);
    var n := Stop(l1, x);
    forall y | y in l2 && l2[y].kind == Free && Stop(l2, y) in l2 ensures l2[Stop(l2, y)].kind != Free {
      if y == x {
        assert l1[n].kind == Free ==> Stop(l2, x) == Stop(l1, n);
      } else {
        assert Stop(l1, y) == Stop(l2, y);
        assert IsPrev(l1, y, Stop(l1, y));
      }
    }
  }

  lemma SplitTouch(l: Layout, b: int, s: int)
    requires NoTouch(l) && NextIn(l) && b in l && l[b].kind == Free && b + l[b].size - s !in l
    ensures NoTouch(Split(l, b, s))
  {
    var l' := Split(l, b, s);
    forall y | y in l' && l'[y].kind == Free && Stop(l', y) in l' ensures l'[Stop(l', y)].kind != Free {
      if y != b {
        assert Stop(l, y) == Stop(l', y);
      }
    }
  }

  lemma SplitLive(l: Layout, b: int, s: int)
    requires b in l && l[b].kind == Free && b + l[b].size - s !in l
    ensures LiveMap(Split(l, b, s)) == LiveMap(l)[b + l[b].size - s := s]
  {
  }

  lemma SplitWf(l: Layout, ps: Pools, b: int, s: int)
    requires Wf(l, ps) && b in l && l[b].kind == Free
    requires 16 <= s && s % 8 == 0 && s + 16 <= l[b].size
    ensures Wf(Split(l, b, s), ps)
    ensures LiveMap(Split(l, b, s)) == LiveMap(l)[b + l[b].size - s := s]
  {
    hide Shape, Aligned, Disjoint, NextIn, PrevIn, PoolsApart, PoolsIn, EndsIn, NotBase, NoTouch, LiveMap;
    SplitTiles(l, ps, b, s);
    SplitTouch(l, b, s);
    SplitLive(l, b, s);
  }

  lemma TakeTouch(l: Layout, b: int)
    requires NoTouch(l) && b in l && l[b].kind == Free
    ensures NoTouch(SetKind(l, b, Live)) && LiveMap(SetKind(l, b, Live)) == LiveMap(l)[b := l[b].size]
  {
    var l' := SetKind(l, b, Live);
    forall y | y in l' && l'[y].kind == Free && Stop(l', y) in l' ensures l'[Stop(l', y)].kind != Free {
      assert Stop(l, y) == Stop(l', y);
    }
  }

  lemma TakeWf(l: Layout, ps: Pools, b: int)
    requires Wf(l, ps) && b in l && l[b].kind == Free
    ensures Wf(SetKind(l, b, Live), ps)
    ensures LiveMap(SetKind(l, b, Live)) == LiveMap(l)[b := l[b].size]
  {
    hide Shape, Aligned, Disjoint, NextIn, PrevIn, PoolsApart, PoolsIn, EndsIn, NotBase, NoTouch, LiveMap;
    SetKindTiles(l, ps, b, Live);
    TakeTouch(l, b);
  }

  lemma AddPoolTouch(l: Layout, base: int, len: int)
    requires NoTouch(l) && NextIn(l) && base !in l && base + len - 8 !in l
    ensures NoTouch(AddPool(l, base, len)) && LiveMap(AddPool(l, base, len)) == LiveMap(l)
  {
    var l' := AddPool(l, base, len);
    forall y | y in l' && l'[y].kind == Free && Stop(l', y) in l' ensures l'[Stop(l', y)].kind != Free {
      if y != base {
        assert Stop(l, y) == Stop(l', y);
      }
    }
  }

  lemma AddPoolWf(l: Layout, ps: Pools, base: int, len: int)
    requires Wf(l, ps)
    requires STATICS_END <= base && base % 8 == 0 && 24 <= len < 0x8000_0000 && len % 8 == 0
    requires forall b :: b in ps ==> b + ps[b] <= base || base + len <= b
    ensures Wf(AddPool(l, base, len), ps[base := len])
    ensures LiveMap(AddPool(l, base, len)) == LiveMap(l)
  {
    hide Shape, Aligned, Disjoint, NextIn, PrevIn, PoolsApart, PoolsIn, EndsIn, NotBase, NoTouch, LiveMap;
    AddPoolTiles(l, ps, base, len);
    AddPoolTouch(l, base, len);
  }
}
