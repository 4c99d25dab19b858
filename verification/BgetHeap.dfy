/** The BGET allocator (Third_Party/heap/bget.c with SizeQuant 8, BestFit and BufStats).

    `Heap` holds the RAM and the static counters of the C file.  Its ghost fields are the
    layout that the RAM represents, the pools it was given and the order of the free list.
    Addresses are byte addresses; the target is 32-bit, so a header is two words (8 bytes)
    and a free block has two link words behind its header. */
module BgetHeap {
  import opened Arith
  import opened BgetLayout
  import opened BgetBytes
  import opened BgetMemory

  const NULL := 0
  const BHEAD := 8
  const SIZEQ := 8
  const SIZEQUANT := 8

  /** Bytes taken from the heap for a request: at least room for the links, rounded up to the
      quantum, plus the header. */
  function Need(requested: int): (v: int) {
    (if requested < SIZEQ then SIZEQ else requested) / 8 * 8
      + (if (if requested < SIZEQ then SIZEQ else requested) % 8 == 0 then 0 else 8) + BHEAD
  }

  /** Node k of the free list is the first of the smallest free blocks that hold need bytes. */
  ghost predicate BestFit(l: Layout, r: seq<int>, k: int, need: int) {
    && 1 <= k < |r| && (forall j :: 1 <= j < |r| ==> r[j] in l)
    && need <= l[r[k]].size
    && forall j :: 1 <= j < |r| && need <= l[r[j]].size ==>
      l[r[k]].size <= l[r[j]].size && (j < k ==> l[r[k]].size < l[r[j]].size)
  }

  ghost predicate HasRoom(l: Layout, need: int) {
    exists a :: a in l && l[a].kind == Free && need <= l[a].size
  }

  /** A block of v bytes can serve a request: a multiple of 8 with room for two links, and for the
      payload and a header of 8 bytes. */
  predicate Serves(v: int, requested: int) {
    v % 8 == 0 && 16 <= v && requested + 8 <= v
  }

  /** Need is the smallest size that can serve a request. */
  lemma NeedIsLeast(requested: int)
    ensures Serves(Need(requested), requested) && forall v :: Serves(v, requested) ==> Need(requested) <= v
  {
  }

  /** A free block of l is z bytes long, enough for a request, and none that is enough is shorter. */
  ghost predicate LeastRoom(l: Layout, requested: int, z: int) {
    && requested + 8 <= z && (exists a :: a in l && l[a].kind == Free && l[a].size == z)
    && forall a :: a in l && l[a].kind == Free && requested + 8 <= l[a].size ==> z <= l[a].size
  }

  /** A request gets g bytes: all of the shortest free block that is enough, or the smallest size
      that can serve the request when more than 16 bytes stay free. */
  ghost predicate SizeGiven(l: Layout, requested: int, g: int) {
    exists z :: LeastRoom(l, requested, z)
      && Serves(g, requested) && (g == z || g + 16 < z)
      && forall v :: Serves(v, requested) ==> g <= v || (g == z && z <= v + 16)
  }

  /** No free block is long enough for a request and its header. */
  ghost predicate NoRoom(l: Layout, requested: int) {
    forall a :: a in l && l[a].kind == Free ==> l[a].size < requested + 8
  }

  /** bget gave the caller the tail of the best fitting block, or all of it when at most 16
      bytes would have been left. */
  ghost predicate Granted(l: Layout, r: seq<int>, need: int, buf: int, l': Layout) {
    exists k :: BestFit(l, r, k, need) && GrantedFrom(l, r[k], need, buf, l')
  }

  ghost predicate GrantedFrom(l: Layout, b: int, need: int, buf: int, l': Layout)
    requires b in l
  {
    if l[b].size - need > 16
    then buf == b + l[b].size - need + BHEAD && l' == Split(l, b, need)
    else buf == b + BHEAD && l' == SetKind(l, b, Live)
  }

  /** The n bytes at dst in m' are the n bytes at src in m. */
  ghost predicate SameContents(m: Mem, src: int, m': Mem, dst: int, n: int) {
    forall i {:trigger ByteAt(m, src, i)} {:trigger ByteAt(m', dst, i)} ::
      0 <= i < n ==> ByteAt(m', dst, i) == ByteAt(m, src, i)
  }

  /** m is the largest of the values. */
  ghost predicate IsMaximum(values: seq<int>, m: int) {
    m in values && forall i :: 0 <= i < |values| ==> values[i] <= m
  }

  /** The history ends with the current value and has the largest value as its maximum. */
  ghost predicate Recorded(history: seq<int>, now: int, largest: int) {
    history != [] && history[|history| - 1] == now && IsMaximum(history, largest)
  }

  /** One more value: the maximum follows it, or stays when the value is not above it. */
  lemma RecordMore(history: seq<int>, now: int, largest: int, next: int)
    requires Recorded(history, now, largest)
    ensures now <= largest && Recorded(history + [next], next, Max(largest, next))
    ensures next <= now ==> Recorded(history + [next], next, largest)
  {
    assert forall v :: v in history ==> v in history + [next];
    assert (history + [next])[|history|] == next;
  }

  class Heap {
    var mem: Mem
    var totalloc: int
    var maxalloc: int
    var numget: int
    var numrel: int

    ghost var layout: Layout
    ghost var pools: Pools
    ghost var ring: seq<int>
    /** Every value that totalloc has had, in order. */
    ghost var history: seq<int>

    ghost predicate Valid()
      reads this
    {
      && Represents(mem, layout, pools, ring)
      && totalloc == Bytes(layout, Live)
      && Recorded(history, totalloc, maxalloc)
      && Bytes(layout, Live) + Bytes(layout, Free) == Capacity(pools)
    }

    /** The allocated blocks, address of the block (not of its payload) to size. */
    ghost function Allocated(): (m: map<int, int>)
      reads this
    {
      LiveMap(layout)
    }

    constructor (ram: Mem)
      ensures Valid() && layout == map[] && pools == map[] && ring == [FREELIST]
      ensures totalloc == maxalloc == numget == numrel == 0 && history == [0]
    {
      mem := ram[FREELIST := 0][FREELIST + 4 := 0][FREELIST + 8 := FREELIST][FREELIST + 12 := FREELIST];
      totalloc, maxalloc, numget, numrel := 0, 0, 0, 0;
      layout, pools, ring, history := map[], map[], [FREELIST], [0];
    }

    method Bpool(base: int, len: int)
      requires Valid()
      requires STATICS_END <= base && base % 8 == 0 && 24 <= len < 0x8000_0000
      requires forall b :: b in pools ==> b + pools[b] <= base || base + len <= b
      modifies this
      ensures Valid() && pools == old(pools)[base := len / 8 * 8]
      ensures layout == AddPool(old(layout), base, len / 8 * 8) && ring == old(ring) + [base]
      ensures Allocated() == old(Allocated()) && SamePayloads(old(mem), mem, Allocated())
      ensures totalloc == old(totalloc) && maxalloc == old(maxalloc) && history == old(history)
      ensures numget == old(numget) && numrel == old(numrel)
    {
      hide Represents, SamePayloads, Bytes, Capacity, AddPool, Append, Recorded;
      ghost var mem0 := mem;
      var size := len / 8 * 8;
      var b := base;
      mem := mem[b := 0];
      mem := Append(mem, b);
      size := size - BHEAD;
      mem := mem[b + 4 := size];
      var bn := b + size;
      mem := mem[bn := size];
      mem := mem[bn + 4 := ESENT];
      ghost var full := size + 8;
      assert mem == PoolInit(mem0, base, full);
      PoolInitKeeps(mem0, layout, pools, ring, base, full);
      AddPoolStats(mem0, layout, pools, ring, base, full);
      layout, pools, ring := AddPool(layout, base, full), pools[base := full], ring + [base];
    }

    /** The scan of the free list: the first of the smallest blocks that hold size bytes. */
    method FindBest(size: int) returns (best: int, ghost k: int)
      requires Valid()
      ensures best == FREELIST <==> !HasRoom(layout, size)
      ensures best != FREELIST ==> BestFit(layout, ring, k, size) && best == ring[k]
    {
      hide Represents, Bytes, Capacity;
      RingIsFree(mem, layout, pools, ring);
      NodeFacts(mem, layout, pools, ring, 0);
      var b := Rd(mem, FREELIST + 8);
      best, k := FREELIST, 0;
      ghost var seen := 0;  // nodes 1..seen have been looked at
      while b != FREELIST
        invariant 0 <= seen < |ring| && b == ring[Nx(seen, |ring|)]
        invariant 0 <= k <= seen && best == ring[k]
        invariant k == 0 ==> forall j :: 0 < j <= seen ==> layout[ring[j]].size < size
        invariant k != 0 ==> size <= layout[ring[k]].size
        invariant k != 0 ==> forall j :: 0 < j <= seen && size <= layout[ring[j]].size ==>
          layout[ring[k]].size <= layout[ring[j]].size && (j < k ==> layout[ring[k]].size < layout[ring[j]].size)
        decreases |ring| - seen
      {
        NodeFacts(mem, layout, pools, ring, Nx(seen, |ring|));
        NodeFacts(mem, layout, pools, ring, k);
        if Rd(mem, b + 4) >= size {
          if best == FREELIST || Rd(mem, b + 4) < Rd(mem, best + 4) {
            best := b;
            k := seen + 1;
          }
        }
        b := Rd(mem, b + 8);
        seen := seen + 1;
      }
      NodeFacts(mem, layout, pools, ring, Nx(seen, |ring|));
      NodeFacts(mem, layout, pools, ring, k);
    }

    /** Hands out the last size bytes of free block b. */
    method Carve(b: int, size: int) returns (buf: int)
      requires Valid() && b in layout && layout[b].kind == Free
      requires 16 <= size && size % 8 == 0 && size + 16 < layout[b].size
      modifies this
      ensures Valid() && pools == old(pools) && ring == old(ring) && numrel == old(numrel)
      ensures layout == Split(old(layout), b, size) && buf == b + old(layout)[b].size - size + BHEAD
      ensures SamePayloads(old(mem), mem, old(Allocated()))
      ensures totalloc == old(totalloc) + size && maxalloc == Max(old(maxalloc), totalloc)
      ensures history == old(history) + [totalloc]
      ensures numget == (old(numget) + 1) % 0x1_0000_0000
    {
      hide Represents, Bytes, Capacity, Split, SamePayloads, LiveMap, Recorded;
      ghost var mem0 := mem;
      BlockSize(mem, layout, pools, ring, b);
      mem := mem[b + 4 := Rd(mem, b + 4) - size];
      var ba := b + Rd(mem, b + 4);
      var bn := ba + size;
      mem := mem[ba := Rd(mem, b + 4)];
      mem := mem[ba + 4 := -size];
      mem := mem[bn := 0];
      RecordMore(history, totalloc, maxalloc, totalloc + size);
      totalloc := totalloc + size;
      history := history + [totalloc];
      if totalloc > maxalloc {
        maxalloc := totalloc;
      }
      numget := (numget + 1) % 0x1_0000_0000;
      buf := ba + BHEAD;
      assert mem == GetSplit(mem0, b, size);
      GetSplitKeeps(mem0, layout, pools, ring, b, size);
      SplitStats(layout, b, size);
      layout := Split(layout, b, size);
    }

    /** Takes node k off the free list and hands out all of it. */
    method TakeWhole(b: int, ghost k: int) returns (buf: int)
      requires Valid() && 1 <= k < |ring| && ring[k] == b && b in layout && layout[b].kind == Free
      modifies this
      ensures Valid() && pools == old(pools) && ring == Without(old(ring), k) && numrel == old(numrel)
      ensures layout == SetKind(old(layout), b, Live) && buf == b + BHEAD
      ensures SamePayloads(old(mem), mem, old(Allocated()))
      ensures totalloc == old(totalloc) + old(layout)[b].size && maxalloc == Max(old(maxalloc), totalloc)
      ensures history == old(history) + [totalloc]
      ensures numget == (old(numget) + 1) % 0x1_0000_0000
    {
      hide Represents, Bytes, Capacity, SamePayloads, LiveMap, Unlink, Recorded;
      ghost var mem0 := mem;
      BlockSize(mem, layout, pools, ring, b);
      GetWholeKeeps(mem0, layout, pools, ring, k);
      TakeStats(layout, b);
      var ba := b + Rd(mem, b + 4);
      mem := Unlink(mem, b);
      assert Rd(mem, b + 4) == Rd(mem0, b + 4);
      RecordMore(history, totalloc, maxalloc, totalloc + Rd(mem, b + 4));
      totalloc := totalloc + Rd(mem, b + 4);
      history := history + [totalloc];
      if totalloc > maxalloc {
        maxalloc := totalloc;
      }
      numget := (numget + 1) % 0x1_0000_0000;
      mem := mem[b + 4 := -Rd(mem, b + 4)];
      mem := mem[ba := 0];
      buf := b + BHEAD;
      assert mem == GetWhole(mem0, b);
      layout, ring := SetKind(layout, b, Live), Without(ring, k);
    }

    method Bget(requested: int) returns (buf: int)
      requires Valid() && 0 <= requested <= 0x7FFF_FFF0
      modifies this
      ensures Valid() && pools == old(pools) && numrel == old(numrel)
      ensures buf == NULL <==> (requested == 0 || NoRoom(old(layout), requested))
      ensures buf == NULL ==>
        && mem == old(mem) && layout == old(layout) && ring == old(ring)
        && totalloc == old(totalloc) && maxalloc == old(maxalloc) && numget == old(numget) && history == old(history)
      ensures buf != NULL ==>
        && Granted(old(layout), old(ring), Need(requested), buf, layout)
        && buf % 8 == 0 && buf - BHEAD !in old(Allocated()) && buf - BHEAD in Allocated()
        && SizeGiven(old(layout), requested, Allocated()[buf - BHEAD])
        && Need(requested) <= Allocated()[buf - BHEAD] <= Need(requested) + 16
        && Allocated() == old(Allocated())[buf - BHEAD := Allocated()[buf - BHEAD]]
        && totalloc == old(totalloc) + Allocated()[buf - BHEAD] && maxalloc == Max(old(maxalloc), totalloc)
        && numget == (old(numget) + 1) % 0x1_0000_0000 && history == old(history) + [totalloc]
      ensures SamePayloads(old(mem), mem, old(Allocated()))
    {
      hide Represents, Bytes, Capacity, SetKind, Split, Recorded, BestFit, Granted, HasRoom, LiveMap, NoRoom, SizeGiven;
      var size := requested;
      if size == 0 {
        return NULL;
      }
      if size < SIZEQ {
        size := SIZEQ;
      }
      size := (size + (SIZEQUANT - 1)) / 8 * 8;
      size := size + BHEAD;
      NeedIs(requested, size);
      RoomIs(mem, layout, pools, ring, requested);
      var b;
      ghost var k;
      b, k := FindBest(size);
      if b == FREELIST {
        return NULL;
      }
      // the block the scan chose is big enough, so the second scan of the C code stops at once
      BestFitFacts(layout, ring, k, size);
      NodeFacts(mem, layout, pools, ring, k);
      ghost var m0, l0, r0 := mem, layout, ring;
      BlockSize(mem, layout, pools, ring, b);
      if Rd(mem, b + 4) - size > SIZEQ + BHEAD {
        SplitStats(layout, b, size);
        buf := Carve(b, size);
      } else {
        TakeStats(layout, b);
        buf := TakeWhole(b, k);
      }
      GrantedBest(l0, r0, k, size, buf, layout);
      GrantedSize(m0, l0, pools, r0, k, requested, Allocated()[buf - BHEAD]);
    }

    /** First half of brel: the block joins a free block in front of it, or goes on the list. */
    method JoinFront(block: int) returns (b: int)
      modifies this`mem
      ensures mem == RelPrev(old(mem), block) && b == block - Rd(old(mem), block)
    {
      hide Append;
      b := block;
      if Rd(mem, b) != 0 {
        var size := Rd(mem, b + 4);
        b := b - Rd(mem, b);
        mem := mem[b + 4 := Rd(mem, b + 4) - size];
      } else {
        mem := Append(mem, b);
        mem := mem[b + 4 := -Rd(mem, b + 4)];
      }
    }

    /** Second half: the block absorbs a free block behind it, and what follows is told. */
    method JoinBehind(b: int)
      modifies this`mem
      ensures mem == RelBack(RelNext(old(mem), b), b)
    {
      hide Unlink;
      var bn := b + Rd(mem, b + 4);
      if Rd(mem, bn + 4) > 0 {
        mem := Unlink(mem, bn);
        mem := mem[b + 4 := Rd(mem, b + 4) + Rd(mem, bn + 4)];
        bn := b + Rd(mem, b + 4);
      }
      mem := mem[bn := Rd(mem, b + 4)];
    }

    /** Releases a payload.  Only the block of that payload ceases to be allocated; the layout
        that results is the only well-formed one with the remaining blocks. */
    method Brel(buf: int)
      requires Valid() && (buf == NULL || buf - BHEAD in Allocated())
      modifies this
      ensures Valid() && pools == old(pools)
      ensures numrel == (old(numrel) + 1) % 0x1_0000_0000 && numget == old(numget) && maxalloc == old(maxalloc)
      ensures buf == NULL ==>
        && mem == old(mem) && layout == old(layout) && ring == old(ring)
        && totalloc == old(totalloc) && history == old(history)
      ensures buf != NULL ==>
        && Allocated() == old(Allocated()) - {buf - BHEAD}
        && totalloc == old(totalloc) - old(Allocated())[buf - BHEAD] && history == old(history) + [totalloc]
        && SamePayloads(old(mem), mem, Allocated())
        && buf - BHEAD in old(layout) && ReleasedRing(old(layout), old(ring), buf - BHEAD, ring)
    {
      hide Represents, Bytes, Capacity, Released, PrevFreeIs, RelPrev, RelNext, RelBack, SamePayloads, Recorded,
        ReleasedRing;
      numrel := (numrel + 1) % 0x1_0000_0000;
      if buf == NULL {
        return;
      }
      var b := buf - BHEAD;
      BlockSize(mem, layout, pools, ring, b);
      ghost var l', r' := ReleaseKeeps(mem, layout, pools, ring, b);
      ReleaseStats(mem, layout, pools, ring, b);
      RecordMore(history, totalloc, maxalloc, totalloc + Rd(mem, b + 4));
      totalloc := totalloc + Rd(mem, b + 4);
      history := history + [totalloc];
      b := JoinFront(b);
      JoinBehind(b);
      layout, ring := l', r';
    }

    /** The owner of a live block stores a word into its payload. */
    method Store(buf: int, w: int, value: int)
      requires Valid() && InPayload(Allocated(), buf - BHEAD, w)
      modifies this`mem
      ensures Valid() && mem == old(mem)[w := value]
      ensures SamePayloads(old(mem), mem, Allocated() - {buf - BHEAD})
    {
      PayloadStores(mem, mem[w := value], layout, pools, ring, buf - BHEAD);
      mem := mem[w := value];
    }

    /** memset(dst, 0, n) for whole words. */
    method Clear(dst: int, n: int)
      requires 0 <= n && n % 8 == 0
      modifies this`mem
      ensures forall w :: !(dst <= w < dst + n) ==> Rd(mem, w) == old(Rd(mem, w))
      ensures forall i :: 0 <= i < n / 4 ==> Rd(mem, dst + 4 * i) == 0
    {
      var q := 0;
      while q < n / 4
        invariant 0 <= q <= n / 4
        invariant forall w :: !(dst <= w < dst + n) ==> Rd(mem, w) == old(Rd(mem, w))
        invariant forall i :: 0 <= i < q ==> Rd(mem, dst + 4 * i) == 0
      {
        mem := mem[dst + 4 * q := 0];
        q := q + 1;
      }
    }

    /** memcpy(dst, src, n) between word-aligned regions that do not overlap. */
    method Copy(dst: int, src: int, n: int)
      requires 0 <= n && dst % 4 == 0 && src % 4 == 0 && (dst + n + 3 <= src || src + n + 3 <= dst)
      modifies this`mem
      ensures forall w :: !(dst <= w < dst + n) ==> Rd(mem, w) == old(Rd(mem, w))
      ensures SameContents(old(mem), src, mem, dst, n)
    {
      hide MergeLow, ByteAt, ByteOfWord;
      ghost var mem0 := mem;
      var q := 0;
      while q < n / 4
        invariant 0 <= q <= n / 4
        invariant forall w :: !(dst <= w < dst + 4 * q) ==> Rd(mem, w) == Rd(mem0, w)
        invariant forall i :: 0 <= i < q ==> Rd(mem, dst + 4 * i) == Rd(mem0, src + 4 * i)
      {
        mem := mem[dst + 4 * q := Rd(mem, src + 4 * q)];
        q := q + 1;
      }
      if n % 4 != 0 {
        mem := mem[dst + 4 * q := MergeLow(Rd(mem, dst + 4 * q), Rd(mem, src + 4 * q), n % 4)];
      }
      forall i | 0 <= i < n ensures ByteAt(mem, dst, i) == ByteAt(mem0, src, i) {
        if i / 4 < q {
          assert Rd(mem, dst + 4 * (i / 4)) == Rd(mem0, src + 4 * (i / 4));
          SameBytes(mem0, mem, dst, src, i);
        } else {
          MergeLowBytes(Rd(mem0, dst + 4 * q), Rd(mem0, src + 4 * q), n % 4, i % 4);
          ByteIndex(mem, dst, i);
          ByteIndex(mem0, src, i);
        }
      }
    }

    /** The end of bgetz: the whole payload of a live block is set to zero. */
    method ZeroPayload(buf: int)
      requires Valid() && buf - BHEAD in Allocated()
      modifies this`mem
      ensures Valid() && SamePayloads(old(mem), mem, Allocated() - {buf - BHEAD})
      ensures forall i :: 0 <= i < (Allocated()[buf - BHEAD] - BHEAD) / 4 ==> Rd(mem, buf + 4 * i) == 0
    {
      hide Represents, Bytes, Capacity, SamePayloads;
      ghost var mem1, b := mem, buf - BHEAD;
      TwoPayloads(mem, layout, pools, ring, b, b);
      var rsize := -Rd(mem, buf - BHEAD + 4);
      rsize := rsize - BHEAD;
      Clear(buf, rsize);
      PayloadStores(mem1, mem, layout, pools, ring, b);
    }

    method Bgetz(size: int) returns (buf: int)
      requires Valid() && 0 <= size <= 0x7FFF_FFF0
      modifies this
      ensures Valid() && pools == old(pools) && numrel == old(numrel)
      ensures buf == NULL <==> (size == 0 || NoRoom(old(layout), size))
      ensures buf == NULL ==>
        && mem == old(mem) && layout == old(layout) && ring == old(ring)
        && totalloc == old(totalloc) && maxalloc == old(maxalloc) && numget == old(numget) && history == old(history)
      ensures buf != NULL ==>
        && Granted(old(layout), old(ring), Need(size), buf, layout)
        && buf - BHEAD !in old(Allocated()) && buf - BHEAD in Allocated()
        && buf % 8 == 0 && SizeGiven(old(layout), size, Allocated()[buf - BHEAD])
        && Allocated() == old(Allocated())[buf - BHEAD := Allocated()[buf - BHEAD]]
        && totalloc == old(totalloc) + Allocated()[buf - BHEAD] && maxalloc == Max(old(maxalloc), totalloc)
        && numget == (old(numget) + 1) % 0x1_0000_0000 && history == old(history) + [totalloc]
        && (forall i :: 0 <= i < (Allocated()[buf - BHEAD] - BHEAD) / 4 ==> Rd(mem, buf + 4 * i) == 0)
      ensures SamePayloads(old(mem), mem, old(Allocated()))
    {
      hide Represents, Bytes, Capacity, Granted, NoRoom, SizeGiven, SamePayloads, Recorded, Need;
      ghost var mem0, live := mem, Allocated();
      buf := Bget(size);
      if buf != NULL {
        ghost var mem1 := mem;
        ZeroPayload(buf);
        SameTwice(mem0, mem1, mem, live, live, Allocated() - {buf - BHEAD});
      }
    }

    /** The end of bgetr: n bytes move from one live buffer to another, and the first is released. */
    method MoveAndRelease(nbuf: int, buf: int, n: int)
      requires Valid() && buf - BHEAD in Allocated() && nbuf - BHEAD in Allocated() && nbuf != buf
      requires 0 <= n <= Allocated()[nbuf - BHEAD] - BHEAD && n <= Allocated()[buf - BHEAD] - BHEAD
      modifies this
      ensures Valid() && pools == old(pools)
      ensures Allocated() == old(Allocated()) - {buf - BHEAD}
      ensures totalloc == old(totalloc) - old(Allocated())[buf - BHEAD] && maxalloc == old(maxalloc)
      ensures numget == old(numget) && numrel == (old(numrel) + 1) % 0x1_0000_0000
      ensures history == old(history) + [totalloc]
      ensures SamePayloads(old(mem), mem, old(Allocated()) - {buf - BHEAD} - {nbuf - BHEAD})
      ensures SameContents(old(mem), buf, mem, nbuf, n)
    {
      hide Represents, Bytes, Capacity, SamePayloads, SameContents, LiveMap, Recorded;
      ghost var mem1, more, na, b := mem, Allocated(), nbuf - BHEAD, buf - BHEAD;
      MovePlan(mem, layout, pools, ring, nbuf, buf, n);
      Copy(nbuf, buf, n);
      ghost var mem2 := mem;
      PayloadStores(mem1, mem2, layout, pools, ring, na);
      Brel(buf);
      SameTwice(mem1, mem2, mem, more - {b} - {na}, more - {na}, Allocated());
      ContentsKept(mem1, buf, mem2, mem, Allocated(), nbuf, n);
    }

    /** As much of the old buffer as fits the size goes to the new one; mem0 and live are the
        memory and the live blocks before the new one was allocated. */
    method MoveData(nbuf: int, buf: int, size: int, ghost mem0: Mem, ghost live: map<int, int>)
      requires Valid() && buf - BHEAD in live && nbuf - BHEAD in Allocated() && nbuf - BHEAD !in live
      requires Allocated() == live[nbuf - BHEAD := Allocated()[nbuf - BHEAD]] && SamePayloads(mem0, mem, live)
      requires 0 <= size <= Allocated()[nbuf - BHEAD] - BHEAD
      modifies this
      ensures Valid() && pools == old(pools)
      ensures Allocated() == old(Allocated()) - {buf - BHEAD}
      ensures totalloc == old(totalloc) - live[buf - BHEAD] && maxalloc == old(maxalloc)
      ensures numget == old(numget) && numrel == (old(numrel) + 1) % 0x1_0000_0000
      ensures history == old(history) + [totalloc]
      ensures SamePayloads(mem0, mem, live - {buf - BHEAD})
      ensures SameContents(mem0, buf, mem, nbuf, Min(size, live[buf - BHEAD] - BHEAD))
    {
      hide Represents, Bytes, Capacity, SamePayloads, SameContents, LiveMap, Min, Recorded;
      ghost var mem1, more, na := mem, Allocated(), nbuf - BHEAD;
      var b := buf - BHEAD;
      OldBlock(mem, layout, pools, ring, buf);
      var osize := -Rd(mem, b + 4);
      osize := osize - BHEAD;
      AtMost(size, osize);
      var n := Min(size, osize);
      MoveAndRelease(nbuf, buf, n);
      AfterMove(mem0, mem1, mem, live, more, buf, nbuf, n);
    }

    method Bgetr(buf: int, size: int) returns (nbuf: int)
      requires Valid() && 0 <= size <= 0x7FFF_FFF0
      requires buf == NULL || buf - BHEAD in Allocated()
      modifies this
      ensures Valid() && pools == old(pools)
      ensures nbuf == NULL <==> (size == 0 || NoRoom(old(layout), size))
      ensures nbuf == NULL ==>
        && mem == old(mem) && layout == old(layout) && ring == old(ring)
        && totalloc == old(totalloc) && maxalloc == old(maxalloc) && numget == old(numget) && numrel == old(numrel)
        && history == old(history)
      ensures nbuf != NULL ==>
        && (exists l1 :: Granted(old(layout), old(ring), Need(size), nbuf, l1))
        && nbuf - BHEAD !in old(Allocated()) && nbuf - BHEAD in Allocated()
        && SizeGiven(old(layout), size, Allocated()[nbuf - BHEAD])
        && Allocated() == old(Allocated())[nbuf - BHEAD := Allocated()[nbuf - BHEAD]] - {buf - BHEAD}
        && SamePayloads(old(mem), mem, old(Allocated()) - {buf - BHEAD})
        && maxalloc == Max(old(maxalloc), old(totalloc) + Allocated()[nbuf - BHEAD])
        && numget == (old(numget) + 1) % 0x1_0000_0000
      ensures nbuf != NULL && buf != NULL ==>
        && totalloc == old(totalloc) + Allocated()[nbuf - BHEAD] - old(Allocated())[buf - BHEAD]
        && numrel == (old(numrel) + 1) % 0x1_0000_0000
        && history == old(history) + [old(totalloc) + Allocated()[nbuf - BHEAD]] + [totalloc]
      ensures nbuf != NULL && buf == NULL ==>
        && totalloc == old(totalloc) + Allocated()[nbuf - BHEAD]
        && numrel == old(numrel) && history == old(history) + [totalloc]
      ensures nbuf != NULL && buf != NULL ==>
        SameContents(old(mem), buf, mem, nbuf, Min(size, old(Allocated())[buf - BHEAD] - BHEAD))
    {
      hide Represents, Bytes, Capacity, Granted, NoRoom, SizeGiven, SamePayloads, SameContents, Need, LiveMap, Min, Max,
        Recorded;
      ghost var mem0, live := mem, Allocated();
      nbuf := Bget(size);
      if nbuf == NULL {
        return NULL;
      }
      NeedCovers(size);
      if buf == NULL {
        NotNullBlock(mem, layout, pools, ring);
        assert buf - BHEAD !in live;
        assert live - {buf - BHEAD} == live && Allocated() - {buf - BHEAD} == Allocated();
        return nbuf;
      }
      MoveData(nbuf, buf, size, mem0, live);
    }

    /** Heap statistics: what is allocated and what is free make up all the pools can hold. */
    method Bstats() returns (curalloc: int, totfree: int, maxfree: int, nget: int, nrel: int)
      requires Valid()
      ensures nget == numget && nrel == numrel
      ensures curalloc == Bytes(layout, Live) && totfree == Bytes(layout, Free)
      ensures curalloc + totfree == Capacity(pools)
      ensures LargestFree(layout, maxfree)
    {
      hide Represents, Bytes, Capacity;
      RingIsFree(mem, layout, pools, ring);
      NodeFacts(mem, layout, pools, ring, 0);
      var b := Rd(mem, FREELIST + 8);
      nget, nrel, curalloc, totfree, maxfree := numget, numrel, totalloc, 0, -1;
      ghost var seen, big := 0, 0;
      while b != FREELIST
        invariant 0 <= seen < |ring| && b == ring[Nx(seen, |ring|)]
        invariant totfree == SumTo(layout, ring, seen)
        invariant if big == 0 then maxfree == -1 else 0 < big <= seen && layout[ring[big]].size == maxfree
        invariant forall j :: 0 < j <= seen ==> layout[ring[j]].size <= maxfree
        decreases |ring| - seen
      {
        NodeFacts(mem, layout, pools, ring, Nx(seen, |ring|));
        totfree := totfree + Rd(mem, b + 4);
        if Rd(mem, b + 4) > maxfree {
          maxfree := Rd(mem, b + 4);
          big := seen + 1;
        }
        b := Rd(mem, b + 8);
        seen := seen + 1;
      }
      NodeFacts(mem, layout, pools, ring, Nx(seen, |ring|));
      RingBytes(mem, layout, pools, ring);
      if big != 0 {
        ghost var a := ring[big];
        assert a in layout && layout[a].kind == Free && layout[a].size == maxfree;
      }
      forall a | a in layout && layout[a].kind == Free ensures layout[a].size <= maxfree {
        var j :| 0 <= j < |ring| && ring[j] == a;
        assert 0 < j <= seen;
      }
    }

    /** The largest of all values that totalloc has had. */
    method Bstatsmaxget() returns (m: int)
      requires Valid()
      ensures IsMaximum(history, m) && m == maxalloc
      ensures history != [] && history[|history| - 1] == Bytes(layout, Live)
    {
      m := maxalloc;
    }

    /** The pool validator, on any memory whose size words are right: it accepts a pool exactly when
        the neighbours of each free block link back to the block.  In a valid heap they do. */
    method Bpoolv(base: int) returns (ok: bool)
      requires Wf(layout, pools) && SizesOk(mem, layout) && base in pools
      ensures ok <==> LinkedTo(mem, layout, base, base + pools[base] - 8)
      ensures Valid() ==> ok
    {
      hide Represents, Bytes, Capacity, Wf, SizesOk, LinkedTo;
      var b := base;
      PoolStart(layout, pools, base);
      if Valid() {
        AllLinked(mem, layout, pools, ring, base);
      }
      NoneLinked(mem, layout, base);
      ghost var e := base + pools[base] - 8;
      while Rd(mem, b + 4) != ESENT
        invariant b in layout && base <= b <= e && LinkedTo(mem, layout, base, b)
        decreases e - b
      {
        PoolWalk(mem, layout, pools, base, b);
        var bs := Rd(mem, b + 4);
        if bs < 0 {
          bs := -bs;
        } else {
          if bs <= 0 {
            return false;
          }
          if Rd(mem, Rd(mem, b + 12) + 8) != b || Rd(mem, Rd(mem, b + 8) + 12) != b {
            return false;
          }
        }
        b := b + bs;
      }
      PoolEnds(mem, layout, pools, base, b);
      return true;
    }
  }

  /** The neighbours of free block a link back to it. */
  predicate LinksBack(m: Mem, a: int) {
    Rd(m, Rd(m, a + 12) + 8) == a && Rd(m, Rd(m, a + 8) + 12) == a
  }

  /** The free blocks from base on, up to e, are linked properly. */
  ghost predicate LinkedTo(m: Mem, l: Layout, base: int, e: int) {
    forall a :: a in l && base <= a < e && l[a].kind == Free ==> LinksBack(m, a)
  }

  lemma NoneLinked(m: Mem, l: Layout, base: int)
    ensures LinkedTo(m, l, base, base)
  {
  }

  lemma AllLinked(m: Mem, l: Layout, ps: Pools, r: seq<int>, base: int)
    requires Represents(m, l, ps, r) && base in ps
    ensures LinkedTo(m, l, base, base + ps[base] - 8)
  {
    hide Wf, SizesOk, BackOk;
    RingIsFree(m, l, ps, r);
    NodeFacts(m, l, ps, r, 0);
    forall a | a in l && l[a].kind == Free ensures LinksBack(m, a) {
      var i :| 0 <= i < |r| && r[i] == a;
      NodeFacts(m, l, ps, r, i);
      NodeFacts(m, l, ps, r, i - 1);
    }
  }

  /** m is the size of the largest free block, or -1 when there is none. */
  ghost predicate LargestFree(l: Layout, m: int) {
    && (forall a :: a in l && l[a].kind == Free ==> l[a].size <= m)
    && (m == -1 || exists a :: a in l && l[a].kind == Free && l[a].size == m)
  }

  lemma RingBytes(m: Mem, l: Layout, ps: Pools, r: seq<int>)
    requires Represents(m, l, ps, r)
    ensures |r| >= 1 && (forall i :: 1 <= i < |r| ==> r[i] in l) && SumTo(l, r, |r| - 1) == Bytes(l, Free)
  {
    SumToIsBytes(l, r, |r| - 1);
  }

  lemma PoolStart(l: Layout, ps: Pools, base: int)
    requires Wf(l, ps) && base in ps
    ensures base in l && base <= base + ps[base] - 8
  {
    assert PoolAt(l, ps, base);
  }

  /** What the validator reads at block b of a pool, and what it knows then. */
  lemma PoolWalk(m: Mem, l: Layout, ps: Pools, base: int, b: int)
    requires Wf(l, ps) && SizesOk(m, l) && base in ps && b in l && base <= b <= base + ps[base] - 8
    requires Rd(m, b + 4) != ESENT && LinkedTo(m, l, base, b)
    ensures l[b].kind != End && Rd(m, b + 4) != 0 && b + l[b].size in l
    ensures b < b + l[b].size <= base + ps[base] - 8
    ensures Rd(m, b + 4) == if l[b].kind == Free then l[b].size else -l[b].size
    ensures LinkedTo(m, l, base, b + l[b].size) <==> (l[b].kind == Free ==> LinksBack(m, b))
    ensures !LinkedTo(m, l, base, b + l[b].size) ==> !LinkedTo(m, l, base, base + ps[base] - 8)
  {
    assert PoolAt(l, ps, base);
    assert Stop(l, b) in l;
  }

  /** The validator stops at the end of the pool. */
  lemma PoolEnds(m: Mem, l: Layout, ps: Pools, base: int, b: int)
    requires Wf(l, ps) && SizesOk(m, l) && base in ps && b in l && base <= b <= base + ps[base] - 8
    requires Rd(m, b + 4) == ESENT
    ensures b == base + ps[base] - 8
  {
    var e := base + ps[base] - 8;
    assert PoolAt(l, ps, base);
    if l[b].kind == End {
      assert IsSentinel(ps, b);
      var d :| d in ps && d + ps[d] - 8 == b;
      assert d == base;
    }
  }

  lemma ReleaseStats(m: Mem, l: Layout, ps: Pools, r: seq<int>, a: int)
    requires Represents(m, l, ps, r) && a in l && l[a].kind == Live
    ensures PrevFreeIs(l, a, Rd(m, a))
    ensures var l' := Released(l, a, Rd(m, a));
      Bytes(l', Live) == Bytes(l, Live) - l[a].size && Bytes(l', Free) == Bytes(l, Free) + l[a].size
  {
    hide Bytes;
    assert PrevFreeIs(l, a, Rd(m, a));
    ReleaseBytes(l, a, Rd(m, a), Live);
    ReleaseBytes(l, a, Rd(m, a), Free);
  }

  lemma BestFitFacts(l: Layout, r: seq<int>, k: int, need: int)
    requires BestFit(l, r, k, need)
    ensures 1 <= k < |r| && r[k] in l && need <= l[r[k]].size
  {
  }

  lemma GrantedBest(l: Layout, r: seq<int>, k: int, need: int, buf: int, l': Layout)
    requires BestFit(l, r, k, need) && 1 <= k < |r| && r[k] in l && GrantedFrom(l, r[k], need, buf, l')
    ensures Granted(l, r, need, buf, l')
  {
  }

  /** Sizes are multiples of 8 and at least 16, so that 8 bytes for the header decide. */
  lemma RoomIs(m: Mem, l: Layout, ps: Pools, r: seq<int>, requested: int)
    requires Represents(m, l, ps, r)
    ensures HasRoom(l, Need(requested)) <==> !NoRoom(l, requested)
  {
    forall a | a in l && l[a].kind == Free ensures Need(requested) <= l[a].size <==> requested + 8 <= l[a].size {
      assert AlignedAt(l, a);
    }
  }

  lemma GrantedSize(m: Mem, l: Layout, ps: Pools, r: seq<int>, k: int, requested: int, g: int)
    requires Represents(m, l, ps, r) && BestFit(l, r, k, Need(requested))
    requires var z := l[r[k]].size; g == if z - Need(requested) > 16 then Need(requested) else z
    ensures SizeGiven(l, requested, g)
  {
    var z := l[r[k]].size;
    NeedIsLeast(requested);
    forall a | a in l && l[a].kind == Free && requested + 8 <= l[a].size ensures z <= l[a].size {
      assert AlignedAt(l, a);
    }
    assert AlignedAt(l, r[k]);
    assert LeastRoom(l, requested, z);
  }

  lemma NeedIs(requested: int, size: int)
    requires 0 < requested
    requires size == ((if requested < SIZEQ then SIZEQ else requested) + (SIZEQUANT - 1)) / 8 * 8 + BHEAD
    ensures size == Need(requested) && 16 <= size && size % 8 == 0 && requested + BHEAD <= size
  {
  }

  lemma AtMost(a: int, b: int)
    ensures Min(a, b) <= a && Min(a, b) <= b && (0 <= a && 0 <= b ==> 0 <= Min(a, b))
  {
  }

  lemma NeedCovers(requested: int)
    ensures requested + BHEAD <= Need(requested)
  {
  }

  lemma AddPoolStats(m: Mem, l: Layout, ps: Pools, r: seq<int>, base: int, len: int)
    requires Represents(m, l, ps, r) && 24 <= len
    requires forall b :: b in ps ==> b + ps[b] <= base || base + len <= b
    ensures Bytes(AddPool(l, base, len), Live) == Bytes(l, Live)
    ensures Bytes(AddPool(l, base, len), Free) == Bytes(l, Free) + len - 8
    ensures Capacity(ps[base := len]) == Capacity(ps) + len - 8
  {
    hide Bytes, Capacity;
    OutsidePools(l, ps, base, len);
    assert base !in ps;
    AddPoolBytes(l, ps, base, len, Live);
    AddPoolBytes(l, ps, base, len, Free);
  }

  lemma SplitStats(l: Layout, b: int, s: int)
    requires Blocks(l) && b in l && l[b].kind == Free
    requires 16 <= s && s % 8 == 0 && s + 16 <= l[b].size
    ensures var a := b + l[b].size - s; a % 8 == 0 && a !in LiveMap(l) && LiveMap(Split(l, b, s)) == LiveMap(l)[a := s]
    ensures Bytes(Split(l, b, s), Live) == Bytes(l, Live) + s
    ensures Bytes(Split(l, b, s), Free) == Bytes(l, Free) - s
  {
    hide Bytes, Shape, Aligned, Disjoint, LiveMap;
    SplitBlocks(l, b, s);
    SplitLive(l, b, s);
    NotLive(l, b + l[b].size - s);
    SplitBytes(l, b, s, Live);
    SplitBytes(l, b, s, Free);
  }

  lemma NotLive(l: Layout, a: int)
    requires a !in l
    ensures a !in LiveMap(l)
  {
  }

  lemma TakeStats(l: Layout, b: int)
    requires Blocks(l) && b in l && l[b].kind == Free
    ensures b % 8 == 0 && b !in LiveMap(l) && LiveMap(SetKind(l, b, Live)) == LiveMap(l)[b := l[b].size]
    ensures Bytes(SetKind(l, b, Live), Live) == Bytes(l, Live) + l[b].size
    ensures Bytes(SetKind(l, b, Live), Free) == Bytes(l, Free) - l[b].size
  {
    hide Bytes, Shape, Disjoint;
    assert AlignedAt(l, b);
    SetKindBytes(l, b, Live, Live);
    SetKindBytes(l, b, Live, Free);
  }

  lemma NotNullBlock(m: Mem, l: Layout, ps: Pools, r: seq<int>)
    requires Represents(m, l, ps, r)
    ensures NULL - BHEAD !in l && NULL - BHEAD !in LiveMap(l)
  {
  }

  /** Two different payloads are aligned and apart, so that the bytes of one can be copied to the
      other. */
  lemma MovePlan(m: Mem, l: Layout, ps: Pools, r: seq<int>, nbuf: int, buf: int, n: int)
    requires Represents(m, l, ps, r) && buf - BHEAD in LiveMap(l) && nbuf - BHEAD in LiveMap(l) && nbuf != buf
    requires 0 <= n <= LiveMap(l)[nbuf - BHEAD] - BHEAD && n <= LiveMap(l)[buf - BHEAD] - BHEAD
    ensures nbuf % 4 == 0 && buf % 4 == 0 && (nbuf + n + 3 <= buf || buf + n + 3 <= nbuf) && buf != NULL
  {
    hide Represents, LiveMap;
    NotNullBlock(m, l, ps, r);
    OldBlock(m, l, ps, r, nbuf);
    OldBlock(m, l, ps, r, buf);
    LiveApart(m, l, ps, r, nbuf - BHEAD, buf - BHEAD);
  }

  lemma LiveApart(m: Mem, l: Layout, ps: Pools, r: seq<int>, a: int, b: int)
    requires Represents(m, l, ps, r) && a in LiveMap(l) && b in LiveMap(l) && a != b
    ensures a + LiveMap(l)[a] <= b || b + LiveMap(l)[b] <= a
  {
    hide Shape, Aligned, Disjoint, SizesOk, BackOk, RingOk, LinksOk;
    Apart(l, a, b);
  }

  lemma OldBlock(m: Mem, l: Layout, ps: Pools, r: seq<int>, buf: int)
    requires Represents(m, l, ps, r) && buf - BHEAD in LiveMap(l)
    ensures buf % 4 == 0 && -Rd(m, buf - BHEAD + 4) == LiveMap(l)[buf - BHEAD] >= 16
  {
    hide Represents, LiveMap;
    TwoPayloads(m, l, ps, r, buf - BHEAD, buf - BHEAD);
    WordAligned(buf);
  }

  lemma WordAligned(buf: int)
    requires (buf - BHEAD) % 8 == 0
    ensures buf % 4 == 0
  {
  }

  lemma TwoPayloads(m: Mem, l: Layout, ps: Pools, r: seq<int>, a: int, b: int)
    requires Represents(m, l, ps, r) && a in LiveMap(l) && b in LiveMap(l)
    ensures a % 8 == 0 && b % 8 == 0 && LiveMap(l)[b] % 8 == 0
    ensures Rd(m, b + 4) == -LiveMap(l)[b] && 16 <= LiveMap(l)[b]
    ensures a == b || a + LiveMap(l)[a] <= b || b + LiveMap(l)[b] <= a
  {
    assert AlignedAt(l, a) && AlignedAt(l, b);
  }

  lemma ByteKept(m: Mem, m': Mem, live: map<int, int>, a: int, i: int)
    requires SamePayloads(m, m', live) && a in live && a % 4 == 0 && 0 <= i < live[a] - BHEAD
    ensures ByteAt(m', a + BHEAD, i) == ByteAt(m, a + BHEAD, i)
  {
    var x := a + BHEAD + i;
    assert InPayload(live, a, x - x % 4);
  }

  /** Contents survive what leaves the payload they were copied to alone. */
  lemma ContentsKept(m0: Mem, src: int, m1: Mem, m2: Mem, live: map<int, int>, dst: int, n: int)
    requires SameContents(m0, src, m1, dst, n) && SamePayloads(m1, m2, live)
    requires dst - BHEAD in live && dst % 4 == 0 && n <= live[dst - BHEAD] - BHEAD
    ensures SameContents(m0, src, m2, dst, n)
  {
    hide ByteAt, SamePayloads;
    forall i | 0 <= i < n ensures ByteAt(m2, dst, i) == ByteAt(m0, src, i) {
      ByteKept(m1, m2, live, dst - BHEAD, i);
    }
  }

  /** Contents copied out of a payload are those it had before it was left alone. */
  lemma AfterMove(mem0: Mem, mem1: Mem, mem2: Mem, live: map<int, int>, more: map<int, int>,
                  buf: int, nbuf: int, n: int)
    requires nbuf - BHEAD in more && nbuf - BHEAD !in live && more == live[nbuf - BHEAD := more[nbuf - BHEAD]]
    requires SamePayloads(mem0, mem1, live) && SamePayloads(mem1, mem2, more - {buf - BHEAD} - {nbuf - BHEAD})
    requires SameContents(mem1, buf, mem2, nbuf, n)
    requires buf - BHEAD in live && buf % 4 == 0 && n <= live[buf - BHEAD] - BHEAD
    ensures SamePayloads(mem0, mem2, live - {buf - BHEAD}) && SameContents(mem0, buf, mem2, nbuf, n)
  {
    hide SamePayloads, SameContents;
    SameTwice(mem0, mem1, mem2, live - {buf - BHEAD}, live, more - {buf - BHEAD} - {nbuf - BHEAD});
    ContentsFrom(mem0, mem1, live, buf, mem2, nbuf, n);
  }

  lemma ContentsFrom(m0: Mem, m1: Mem, live: map<int, int>, src: int, m2: Mem, dst: int, n: int)
    requires SameContents(m1, src, m2, dst, n) && SamePayloads(m0, m1, live)
    requires src - BHEAD in live && src % 4 == 0 && n <= live[src - BHEAD] - BHEAD
    ensures SameContents(m0, src, m2, dst, n)
  {
    hide ByteAt, SamePayloads;
    forall i | 0 <= i < n ensures ByteAt(m2, dst, i) == ByteAt(m0, src, i) {
      ByteKept(m0, m1, live, src - BHEAD, i);
    }
  }
}
