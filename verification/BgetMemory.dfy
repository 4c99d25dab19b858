/** How a BGET layout is stored in RAM: boundary tags in front of every block, the prevfree
    word behind every free block, and the circular doubly linked free list threaded through
    the free blocks.  Each lemma below says that one group of the stores made by bget, brel
    or bpool takes the representation of a layout to the representation of the next one. */
module BgetMemory {
  import opened BgetLayout

  /** RAM: byte address of an aligned 32-bit word to its value, as a signed number. */
  type Mem = map<int, int>

  function Rd(m: Mem, a: int): (v: int) {
    if a in m then m[a] else 0
  }

  /** The most negative 32-bit number, which marks the end of a pool. */
  const ESENT := -0x8000_0000

  ghost function SizeWord(k: Blk): (v: int) {
    match k.kind
    case Free => k.size
    case Live => -k.size
    case End => ESENT
  }

  // Word offsets: prevfree at 0, bsize at 4, flink at 8, blink at 12.

  ghost predicate SizesOk(m: Mem, l: Layout) {
    forall a :: a in l ==> Rd(m, a + 4) == SizeWord(l[a])
  }

  ghost predicate BackOk(m: Mem, l: Layout) {
    forall a {:trigger PrevFreeIs(l, a, Rd(m, a))} :: a in l ==> PrevFreeIs(l, a, Rd(m, a))
  }

  /** The same for every block but one. */
  ghost predicate BackOkBut(m: Mem, l: Layout, n: int) {
    forall a {:trigger PrevFreeIs(l, a, Rd(m, a))} :: a in l && a != n ==> PrevFreeIs(l, a, Rd(m, a))
  }

  /** The nodes of the free list in link order, the static head first: exactly the free
      blocks, once each. */
  ghost predicate RingOk(l: Layout, r: seq<int>) {
    && 1 <= |r| && r[0] == FREELIST
    && (forall i :: 1 <= i < |r| ==> r[i] in l && l[r[i]].kind == Free)
    && (forall i, j :: 0 <= i < j < |r| ==> r[i] != r[j])
    && forall a :: a in l && l[a].kind == Free ==> a in r
  }

  function Nx(i: int, n: int): (v: int) {
    if i + 1 == n then 0 else i + 1
  }

  ghost predicate LinkAt(m: Mem, r: seq<int>, i: int)
    requires 0 <= i < |r|
  {
    Rd(m, r[i] + 8) == r[Nx(i, |r|)] && Rd(m, r[Nx(i, |r|)] + 12) == r[i]
  }

  ghost predicate LinksOk(m: Mem, r: seq<int>) {
    forall i {:trigger LinkAt(m, r, i)} :: 0 <= i < |r| ==> LinkAt(m, r, i)
  }

  /** The 16-byte nodes do not overlap. */
  ghost predicate Spaced(r: seq<int>) {
    forall i, j :: 0 <= i < j < |r| ==> r[i] + 16 <= r[j] || r[j] + 16 <= r[i]
  }

  /** RAM m represents layout l of pools ps, with free list r. */
  ghost predicate Represents(m: Mem, l: Layout, ps: Pools, r: seq<int>) {
    Wf(l, ps) && SizesOk(m, l) && BackOk(m, l) && RingOk(l, r) && LinksOk(m, r)
  }

  /** The header of a block, word by word: the size of the block in front of it if that is free, and
      0 otherwise; then its own size, positive when it is free and negative when it is live, and
      the most negative number at the end of a pool. */
  lemma HeaderWords(m: Mem, l: Layout, ps: Pools, r: seq<int>, a: int)
    requires Represents(m, l, ps, r) && a in l
    ensures Rd(m, a + 4) ==
      if l[a].kind == Free then l[a].size else if l[a].kind == Live then -l[a].size else -0x8000_0000
    ensures forall p :: p in l && l[p].kind != End && p + l[p].size == a ==>
      Rd(m, a) == if l[p].kind == Free then l[p].size else 0
    ensures (forall p :: p in l && l[p].kind != End ==> p + l[p].size != a) ==> Rd(m, a) == 0
  {
    hide RingOk, LinksOk, NoTouch, Chained, Aligned;
    assert PrevFreeIs(l, a, Rd(m, a));
    forall p | p in l && l[p].kind != End && p + l[p].size == a
      ensures Rd(m, a) == if l[p].kind == Free then l[p].size else 0
    {
      assert IsPrev(l, p, a);
    }
  }

  lemma RingSpaced(l: Layout, r: seq<int>)
    requires Blocks(l) && RingOk(l, r)
    ensures Spaced(r)
  {
  }

  // ----- the free list -----

  /** Takes node b out of the list it is in. */
  function Unlink(m: Mem, b: int): (m': Mem) {
    var m1 := m[Rd(m, b + 12) + 8 := Rd(m, b + 8)];
    m1[Rd(m1, b + 8) + 12 := Rd(m1, b + 12)]
  }

  /** Chains block b at the tail of the free list. */
  function Append(m: Mem, b: int): (m': Mem) {
    var m1 := m[b + 8 := FREELIST];
    var m2 := m1[b + 12 := Rd(m1, FREELIST + 12)];
    var m3 := m2[FREELIST + 12 := b];
    m3[Rd(m3, b + 12) + 8 := b]
  }

  ghost function Without(r: seq<int>, k: int): (s: seq<int>)
    requires 0 <= k < |r|
  {
    r[..k] + r[k + 1..]
  }

  lemma UnlinkWords(m: Mem, r: seq<int>, k: int)
    requires LinksOk(m, r) && Spaced(r) && 1 <= k < |r|
    ensures Unlink(m, r[k]) == m[r[k - 1] + 8 := r[Nx(k, |r|)]][r[Nx(k, |r|)] + 12 := r[k - 1]]
  {
    assert LinkAt(m, r, k) && LinkAt(m, r, k - 1);
  }

  lemma NodesApart(r: seq<int>, i: int, j: int)
    requires Spaced(r) && 0 <= i < |r| && 0 <= j < |r|
    ensures i == j || r[i] + 16 <= r[j] || r[j] + 16 <= r[i]
  {
  }

  /** The link words of node j after node k was taken out. */
  lemma UnlinkNode(m: Mem, r: seq<int>, k: int, j: int)
    requires LinksOk(m, r) && Spaced(r) && 1 <= k < |r| && 0 <= j < |r|
    ensures Rd(Unlink(m, r[k]), r[j] + 8) == if j == k - 1 then r[Nx(k, |r|)] else r[Nx(j, |r|)]
    ensures Rd(Unlink(m, r[k]), r[Nx(j, |r|)] + 12) == if Nx(j, |r|) == Nx(k, |r|) then r[k - 1] else r[j]
  {
    UnlinkWords(m, r, k);
    hide Unlink, Spaced;
    assert LinkAt(m, r, j);
    NodesApart(r, j, k - 1);
    NodesApart(r, j, Nx(k, |r|));
    NodesApart(r, Nx(j, |r|), k - 1);
    NodesApart(r, Nx(j, |r|), Nx(k, |r|));
  }

  lemma UnlinkLinks(m: Mem, r: seq<int>, k: int)
    requires LinksOk(m, r) && Spaced(r) && 1 <= k < |r|
    ensures LinksOk(Unlink(m, r[k]), Without(r, k))
  {
    hide Unlink, Spaced;
    var m', r' := Unlink(m, r[k]), Without(r, k);
    forall i | 0 <= i < |r'| ensures LinkAt(m', r', i) {
      var j := if i < k then i else i + 1;
      UnlinkNode(m, r, k, j);
      UnlinkNode(m, r, k, k);
    }
  }

  lemma AppendWords(m: Mem, r: seq<int>, b: int)
    requires LinksOk(m, r) && Spaced(r + [b]) && 1 <= |r| && r[0] == FREELIST
    ensures Append(m, b) == m[b + 8 := FREELIST][b + 12 := r[|r| - 1]][FREELIST + 12 := b][r[|r| - 1] + 8 := b]
  {
    assert LinkAt(m, r, |r| - 1);
    assert (r + [b])[0] == FREELIST && (r + [b])[|r|] == b;
  }

  lemma AppendLinks(m: Mem, r: seq<int>, b: int)
    requires LinksOk(m, r) && Spaced(r + [b]) && 1 <= |r| && r[0] == FREELIST
    ensures LinksOk(Append(m, b), r + [b])
  {
    AppendWords(m, r, b);
    var m', r' := Append(m, b), r + [b];
    forall i | 0 <= i < |r'| ensures LinkAt(m', r', i) {
      assert r'[|r|] == b && r'[0] == FREELIST && r'[|r| - 1] == r[|r| - 1];
      if i < |r| {
        assert LinkAt(m, r, i);
        assert r'[i] == r[i];
        assert i < |r| - 1 ==> r'[i + 1] == r[i + 1];
      }
    }
  }

  /** Stores outside the link words leave the list alone. */
  lemma LinksFrame(m: Mem, m': Mem, r: seq<int>)
    requires LinksOk(m, r)
    requires forall i :: 0 <= i < |r| ==> Rd(m', r[i] + 8) == Rd(m, r[i] + 8) && Rd(m', r[i] + 12) == Rd(m, r[i] + 12)
    ensures LinksOk(m', r)
  {
    forall i | 0 <= i < |r| ensures LinkAt(m', r, i) {
      assert LinkAt(m, r, i);
    }
  }

  // ----- bget -----

  /** The stores of bget when it splits block b and hands out its last s bytes. */
  function GetSplit(m: Mem, b: int, s: int): (m': Mem) {
    var m1 := m[b + 4 := Rd(m, b + 4) - s];
    var ba := b + Rd(m, b + 4) - s;
    m1[ba := Rd(m1, b + 4)][ba + 4 := -s][ba + s := 0]
  }

  /** The stores of bget when it hands out the whole of block b. */
  function GetWhole(m: Mem, b: int): (m': Mem) {
    var m1 := Unlink(m, b);
    m1[b + 4 := -Rd(m1, b + 4)][b + Rd(m1, b + 4) := 0]
  }

  lemma GetSplitWords(m: Mem, b: int, s: int, size: int)
    requires Rd(m, b + 4) == size && 16 <= s && s + 16 <= size
    ensures forall w {:trigger Rd(GetSplit(m, b, s), w)} ::
      Rd(GetSplit(m, b, s), w) == if w == b + size then 0
                                  else if w == b + size - s + 4 then -s
                                  else if w == b + size - s || w == b + 4 then size - s
                                  else Rd(m, w)
  {
  }

  lemma GetSplitTags(m: Mem, l: Layout, b: int, s: int)
    requires Blocks(l) && SizesOk(m, l) && b in l && l[b].kind == Free
    requires 16 <= s && s + 16 <= l[b].size && b + l[b].size - s !in l
    ensures SizesOk(GetSplit(m, b, s), Split(l, b, s))
  {
    hide Shape, Aligned, Disjoint, GetSplit;
    var m', l' := GetSplit(m, b, s), Split(l, b, s);
    GetSplitWords(m, b, s, l[b].size);
    forall a | a in l' ensures Rd(m', a + 4) == SizeWord(l'[a]) {
      if a != b && a in l {
        Apart(l, b, a);
      }
    }
  }

  lemma GetSplitBack(m: Mem, l: Layout, b: int, s: int)
    requires Blocks(l) && SizesOk(m, l) && BackOk(m, l) && b in l && l[b].kind == Free
    requires 16 <= s && s + 16 <= l[b].size && b + l[b].size - s !in l
    ensures BackOk(GetSplit(m, b, s), Split(l, b, s))
  {
    hide Shape, Aligned, Disjoint, GetSplit;
    var m', l' := GetSplit(m, b, s), Split(l, b, s);
    var ba, bn := b + l[b].size - s, b + l[b].size;
    GetSplitWords(m, b, s, l[b].size);
    forall a | a in l' ensures PrevFreeIs(l', a, Rd(m', a)) {
      if a == ba {
        assert IsPrev(l', b, ba);
      } else if a == bn {
        SplitBehind(l, b, s);
      } else {
        if a != b {
          Apart(l, b, a);
        }
        PrevFreeSplit(l, b, s, a, Rd(m, a));
      }
    }
  }

  /** Behind the part handed out there is no free predecessor. */
  lemma SplitBehind(l: Layout, b: int, s: int)
    requires Blocks(l) && b in l && 16 <= s && s + 16 <= l[b].size && b + l[b].size - s !in l
    ensures PrevFreeIs(Split(l, b, s), b + l[b].size, 0)
  {
    hide Shape, Aligned, Disjoint;
    var l' := Split(l, b, s);
    forall p | IsPrev(l', p, b + l[b].size) ensures l'[p].kind != Free {
      if p != b && p != b + l[b].size - s {
        assert Stop(l, p) == Stop(l', p);
        SameStop(l, b, p);
      }
    }
  }

  lemma PrevFreeSplit(l: Layout, b: int, s: int, a: int, pf: int)
    requires Blocks(l) && b in l && l[b].kind == Free
    requires 16 <= s && s + 16 <= l[b].size && b + l[b].size - s !in l
    requires a in l && a != b + l[b].size && PrevFreeIs(l, a, pf)
    ensures PrevFreeIs(Split(l, b, s), a, pf)
  {
    var l' := Split(l, b, s);
    if pf == 0 {
      forall p | IsPrev(l', p, a) ensures l'[p].kind != Free {
        assert p != b && p != b + l[b].size - s;
        assert IsPrev(l, p, a);
      }
    } else {
      assert Stop(l, b) != a;
      assert IsPrev(l', a - pf, a);
    }
  }

  /** The free list is the same set of blocks after a split. */
  lemma SplitRing(l: Layout, b: int, s: int, r: seq<int>)
    requires RingOk(l, r) && b in l && l[b].kind == Free && b + l[b].size - s !in l && s != l[b].size
    ensures RingOk(Split(l, b, s), r)
  {
    var l' := Split(l, b, s);
    forall a | a in l' && l'[a].kind == Free ensures a in r {
      assert a in l && l[a].kind == Free;
    }
  }

  lemma GetSplitLinks(m: Mem, l: Layout, b: int, s: int, r: seq<int>)
    requires Blocks(l) && SizesOk(m, l) && RingOk(l, r) && LinksOk(m, r) && b in l && l[b].kind == Free
    requires 16 <= s && s + 16 <= l[b].size && b + l[b].size - s !in l
    ensures LinksOk(GetSplit(m, b, s), r)
  {
    assert Rd(m, b + 4) == l[b].size;
    forall i | 0 <= i < |r|
      ensures var m' := GetSplit(m, b, s); Rd(m', r[i] + 8) == Rd(m, r[i] + 8) && Rd(m', r[i] + 12) == Rd(m, r[i] + 12)
    {
      NodeClear(l, r, i, b);
    }
    LinksFrame(m, GetSplit(m, b, s), r);
  }

  /** The link words of node i are clear of the tag of any block a, and of whatever lies
      behind the first 16 bytes of a. */
  lemma NodeClear(l: Layout, r: seq<int>, i: int, a: int)
    requires Blocks(l) && RingOk(l, r) && 0 <= i < |r| && a in l
    ensures r[i] + 16 <= a || r[i] == a || a + l[a].size <= r[i]
  {
  }

  // ----- changes of the list as a whole -----

  lemma TakenRing(l: Layout, l': Layout, r: seq<int>, k: int)
    requires RingOk(l, r) && 1 <= k < |r|
    requires forall a :: (a in l' && l'[a].kind == Free) <==> (a in l && l[a].kind == Free && a != r[k])
    ensures RingOk(l', Without(r, k))
  {
    var r' := Without(r, k);
    forall a | a in l' && l'[a].kind == Free ensures a in r' {
      var i :| 0 <= i < |r| && r[i] == a;
      assert r'[if i < k then i else i - 1] == a;
    }
  }

  lemma AddedRing(l: Layout, l': Layout, r: seq<int>, b: int)
    requires RingOk(l, r) && b != FREELIST && (b in l ==> l[b].kind != Free)
    requires forall a :: (a in l' && l'[a].kind == Free) <==> (a == b || (a in l && l[a].kind == Free))
    ensures RingOk(l', r + [b])
  {
    forall a | a in l' && l'[a].kind == Free ensures a in r + [b] {
      assert a == b ==> (r + [b])[|r|] == a;
    }
  }

  ghost predicate TagsSame(m: Mem, m': Mem, l: Layout) {
    forall a :: a in l ==> Rd(m', a) == Rd(m, a) && Rd(m', a + 4) == Rd(m, a + 4)
  }

  lemma UnlinkTags(m: Mem, l: Layout, r: seq<int>, k: int)
    requires Blocks(l) && RingOk(l, r) && LinksOk(m, r) && 1 <= k < |r|
    ensures TagsSame(m, Unlink(m, r[k]), l)
  {
    RingSpaced(l, r);
    UnlinkWords(m, r, k);
    forall a | a in l
      ensures Rd(Unlink(m, r[k]), a) == Rd(m, a) && Rd(Unlink(m, r[k]), a + 4) == Rd(m, a + 4)
    {
      NodeClear(l, r, k - 1, a);
      NodeClear(l, r, Nx(k, |r|), a);
    }
  }

  lemma AppendTags(m: Mem, l: Layout, r: seq<int>, b: int)
    requires Blocks(l) && RingOk(l, r) && LinksOk(m, r) && Spaced(r + [b])
    requires forall a :: a in l ==> b + 16 <= a || b == a || a + l[a].size <= b
    ensures TagsSame(m, Append(m, b), l)
  {
    AppendWords(m, r, b);
    forall a | a in l
      ensures Rd(Append(m, b), a) == Rd(m, a) && Rd(Append(m, b), a + 4) == Rd(m, a + 4)
    {
      NodeClear(l, r, |r| - 1, a);
    }
  }

  /** Unlinking node k changes nothing but the list. */
  lemma UnlinkKeeps(m: Mem, l: Layout, l': Layout, r: seq<int>, k: int)
    requires Blocks(l) && RingOk(l, r) && LinksOk(m, r) && 1 <= k < |r|
    requires forall a :: (a in l' && l'[a].kind == Free) <==> (a in l && l[a].kind == Free && a != r[k])
    ensures TagsSame(m, Unlink(m, r[k]), l)
    ensures RingOk(l', Without(r, k)) && LinksOk(Unlink(m, r[k]), Without(r, k))
  {
    RingSpaced(l, r);
    UnlinkLinks(m, r, k);
    UnlinkTags(m, l, r, k);
    TakenRing(l, l', r, k);
  }

  /** Stores into the tags of blocks x and y leave the list alone. */
  lemma HeaderStores(l: Layout, r: seq<int>, m1: Mem, m': Mem, x: int, y: int)
    requires Blocks(l) && RingOk(l, r) && LinksOk(m1, r) && x in l && y in l
    requires forall w :: w != x && w != x + 4 && w != y && w != y + 4 ==> Rd(m', w) == Rd(m1, w)
    ensures LinksOk(m', r)
  {
    forall i | 0 <= i < |r| ensures Rd(m', r[i] + 8) == Rd(m1, r[i] + 8) && Rd(m', r[i] + 12) == Rd(m1, r[i] + 12) {
      NodeClear(l, r, i, x);
      NodeClear(l, r, i, y);
    }
    LinksFrame(m1, m', r);
  }

  lemma GetWholeWords(m: Mem, b: int, size: int)
    requires Rd(Unlink(m, b), b + 4) == size && 8 <= size
    ensures forall w {:trigger Rd(GetWhole(m, b), w)} ::
      Rd(GetWhole(m, b), w) == if w == b + size then 0 else if w == b + 4 then -size else Rd(Unlink(m, b), w)
  {
    hide Unlink;
  }

  lemma PositiveFree(l: Layout, b: int)
    requires Blocks(l) && b in l && l[b].kind == Free
    ensures 16 <= l[b].size
  {
  }

  lemma GetWholeTags(m: Mem, l: Layout, b: int)
    requires Blocks(l) && SizesOk(m, l) && BackOk(m, l) && TagsSame(m, Unlink(m, b), l)
    requires b in l && l[b].kind == Free && 16 <= l[b].size
    ensures SizesOk(GetWhole(m, b), SetKind(l, b, Live)) && BackOk(GetWhole(m, b), SetKind(l, b, Live))
    ensures forall w :: w != b + 4 && w != Stop(l, b) ==> Rd(GetWhole(m, b), w) == Rd(Unlink(m, b), w)
  {
    hide Shape, Aligned, Disjoint, Unlink, GetWhole;
    var m', l' := GetWhole(m, b), SetKind(l, b, Live);
    GetWholeWords(m, b, l[b].size);
    forall a | a in l' ensures Rd(m', a + 4) == SizeWord(l'[a]) && PrevFreeIs(l', a, Rd(m', a)) {
      if a != b {
        Apart(l, b, a);
      }
      if a == Stop(l, b) {
        NewlyLive(l, b);
      } else {
        PrevFreeSetKind(l, b, Live, a, Rd(m, a));
      }
    }
  }

  /** Behind a block that becomes live there is no free predecessor. */
  lemma NewlyLive(l: Layout, b: int)
    requires Blocks(l) && b in l
    ensures PrevFreeIs(SetKind(l, b, Live), Stop(l, b), 0)
  {
    hide Shape, Aligned, Disjoint;
    var l' := SetKind(l, b, Live);
    forall p | IsPrev(l', p, Stop(l, b)) ensures l'[p].kind != Free {
      assert Stop(l', p) == Stop(l, p);
      SameStop(l, b, p);
    }
  }

  lemma PrevFreeSetKind(l: Layout, b: int, k: Kind, a: int, pf: int)
    requires b in l && k != End && a != Stop(l, b) && PrevFreeIs(l, a, pf) && l[b].kind != End
    ensures PrevFreeIs(SetKind(l, b, k), a, pf)
  {
    var l' := SetKind(l, b, k);
    if pf == 0 {
      forall p | IsPrev(l', p, a) ensures l'[p].kind != Free {
        assert IsPrev(l, p, a);
      }
    } else {
      assert IsPrev(l', a - pf, a);
    }
  }

  lemma PrevFreeMerge(l: Layout, p: int, q: int, a: int, pf: int)
    requires Blocks(l) && IsPrev(l, p, q) && q in l && l[q].kind != End
    requires a != q && a != Stop(l, q) && PrevFreeIs(l, a, pf)
    ensures PrevFreeIs(Merge(l, p, q), a, pf)
  {
    var l' := Merge(l, p, q);
    if pf == 0 {
      forall x | IsPrev(l', x, a) ensures l'[x].kind != Free {
        assert x != p && IsPrev(l, x, a);
      }
    } else {
      assert a - pf != p && a - pf != q;
      assert IsPrev(l', a - pf, a);
    }
  }

  // ----- brel -----

  /** First stores of brel: block a joins the free block in front of it, or goes on the list. */
  function RelPrev(m: Mem, a: int): (m': Mem) {
    if Rd(m, a) != 0 then
      var p := a - Rd(m, a);
      m[p + 4 := Rd(m, p + 4) - Rd(m, a + 4)]
    else
      var m1 := Append(m, a);
      m1[a + 4 := -Rd(m1, a + 4)]
  }

  /** Then block x absorbs the block n behind it if that one is free. */
  function RelNext(m: Mem, x: int): (m': Mem) {
    var n := x + Rd(m, x + 4);
    if Rd(m, n + 4) > 0 then
      var m1 := Unlink(m, n);
      m1[x + 4 := Rd(m1, x + 4) + Rd(m1, n + 4)]
    else m
  }

  /** Finally the block behind x is told the size of x. */
  function RelBack(m: Mem, x: int): (m': Mem) {
    m[x + Rd(m, x + 4) := Rd(m, x + 4)]
  }

  /** The state between the steps of brel: free block x is in place and on the list, but the
      block behind it may be free and does not know about x yet. */
  ghost predicate Releasing(m: Mem, l: Layout, ps: Pools, r: seq<int>, x: int) {
    && Tile(l, ps) && SizesOk(m, l) && RingOk(l, r) && LinksOk(m, r)
    && x in l && l[x].kind == Free && BackOkBut(m, l, Stop(l, x))
  }

  /** The free list is the same after a live block joins a free one. */
  lemma JoinedRing(l: Layout, a: int, pf: int, r: seq<int>)
    requires Blocks(l) && RingOk(l, r) && a in l && l[a].kind == Live && pf != 0 && PrevFreeIs(l, a, pf)
    ensures RingOk(JoinPrev(l, a, pf), r)
  {
    hide Shape, Aligned, Disjoint;
    var l' := JoinPrev(l, a, pf);
    forall x | x in l' && l'[x].kind == Free ensures x in r {
      assert x in l && l[x].kind == Free;
    }
  }

  lemma RelPrevJoinKeeps(m: Mem, l: Layout, ps: Pools, r: seq<int>, a: int)
    requires Represents(m, l, ps, r) && a in l && l[a].kind == Live && Rd(m, a) != 0
    ensures PrevFreeIs(l, a, Rd(m, a))
    ensures Releasing(RelPrev(m, a), JoinPrev(l, a, Rd(m, a)), ps, r, a - Rd(m, a))
  {
    hide Shape, Aligned, Disjoint, RelPrev, RingOk, LinksOk, SizesOk, BackOkBut, JoinPrev;
    var pf := Rd(m, a);
    assert PrevFreeIs(l, a, pf);
    var p := a - pf;
    JoinPrevTiles(l, ps, a, pf);
    JoinPrevShape(l, a, pf);
    JoinedRing(l, a, pf, r);
    RelPrevJoinBack(m, l, a);
    RelPrevJoinWords(m, a);
    HeaderStores(l, r, m, RelPrev(m, a), p, p);
  }

  lemma RelPrevJoinWords(m: Mem, a: int)
    requires Rd(m, a) != 0
    ensures var p := a - Rd(m, a);
      forall w {:trigger Rd(RelPrev(m, a), w)} ::
        Rd(RelPrev(m, a), w) == if w == p + 4 then Rd(m, p + 4) - Rd(m, a + 4) else Rd(m, w)
  {
  }

  /** Joining a live block with the free block in front of it, as two changes of the layout. */
  lemma JoinedBack(l: Layout, p: int, a: int, y: int, pf: int)
    requires Blocks(l) && IsPrev(l, p, a) && a in l && l[a].kind == Live && l[p].kind == Free
    requires y != a && y != Stop(l, a) && PrevFreeIs(l, y, pf)
    ensures PrevFreeIs(Merge(SetKind(l, a, Free), p, a), y, pf)
  {
    hide Shape, Aligned, Disjoint, PrevFreeIs;
    var l0 := SetKind(l, a, Free);
    PositiveSize(l, p);
    SetKindBlocks(l, a, Free);
    PrevFreeSetKind(l, a, Free, y, pf);
    assert Stop(l0, p) == Stop(l, p) && Stop(l0, a) == Stop(l, a);
    PrevFreeMerge(l0, p, a, y, pf);
  }

  lemma RelPrevJoinBack(m: Mem, l: Layout, a: int)
    requires Blocks(l) && SizesOk(m, l) && BackOk(m, l)
    requires a in l && l[a].kind == Live && Rd(m, a) != 0 && PrevFreeIs(l, a, Rd(m, a))
    ensures var l' := JoinPrev(l, a, Rd(m, a));
      SizesOk(RelPrev(m, a), l') && BackOkBut(RelPrev(m, a), l', Stop(l, a))
  {
    hide Shape, Aligned, Disjoint, RelPrev;
    var pf := Rd(m, a);
    var p := a - pf;
    var m', l' := RelPrev(m, a), JoinPrev(l, a, pf);
    PositiveSize(l, p);
    RelPrevJoinWords(m, a);
    forall y | y in l' ensures Rd(m', y + 4) == SizeWord(l'[y]) {
    }
    forall y | y in l' && y != Stop(l, a) ensures PrevFreeIs(l', y, Rd(m', y)) {
      if y != p {
        Apart(l, p, y);
      }
      JoinedBack(l, p, a, y, Rd(m, y));
    }
  }

  lemma RelPrevAloneKeeps(m: Mem, l: Layout, ps: Pools, r: seq<int>, a: int)
    requires Represents(m, l, ps, r) && a in l && l[a].kind == Live && Rd(m, a) == 0
    ensures PrevFreeIs(l, a, 0)
    ensures Releasing(RelPrev(m, a), JoinPrev(l, a, 0), ps, r + [a], a)
  {
    assert PrevFreeIs(l, a, Rd(m, a));
    var l' := JoinPrev(l, a, 0);
    JoinPrevTiles(l, ps, a, 0);
    AddedRing(l, l', r, a);
    RingSpaced(l', r + [a]);
    AppendLinks(m, r, a);
    AppendTags(m, l, r, a);
    RelPrevAloneTags(m, l, a);
    HeaderStores(l', r + [a], Append(m, a), RelPrev(m, a), a, a);
  }

  lemma RelPrevAloneWords(m: Mem, a: int)
    requires Rd(m, a) == 0
    ensures forall w {:trigger Rd(RelPrev(m, a), w)} ::
      Rd(RelPrev(m, a), w) == if w == a + 4 then -Rd(Append(m, a), a + 4) else Rd(Append(m, a), w)
  {
    hide Append;
  }

  lemma RelPrevAloneTags(m: Mem, l: Layout, a: int)
    requires SizesOk(m, l) && BackOk(m, l) && TagsSame(m, Append(m, a), l)
    requires Blocks(l) && a in l && l[a].kind == Live && Rd(m, a) == 0
    ensures SizesOk(RelPrev(m, a), JoinPrev(l, a, 0)) && BackOkBut(RelPrev(m, a), JoinPrev(l, a, 0), Stop(l, a))
    ensures forall w :: w != a + 4 ==> Rd(RelPrev(m, a), w) == Rd(Append(m, a), w)
  {
    hide Shape, Aligned, Disjoint, RelPrev, Append;
    var m', l' := RelPrev(m, a), JoinPrev(l, a, 0);
    RelPrevAloneWords(m, a);
    forall y | y in l' ensures Rd(m', y + 4) == SizeWord(l'[y]) {
    }
    forall y | y in l' && y != Stop(l, a) ensures PrevFreeIs(l', y, Rd(m', y)) {
      if y != a {
        Apart(l, a, y);
      }
      PrevFreeSetKind(l, a, Free, y, Rd(m, y));
    }
  }

  lemma RelNextJoinKeeps(m: Mem, l: Layout, ps: Pools, r: seq<int>, x: int, k: int)
    requires Releasing(m, l, ps, r, x) && 1 <= k < |r| && r[k] == Stop(l, x)
    ensures Releasing(RelNext(m, x), JoinNext(l, x), ps, Without(r, k), x)
  {
    var n := r[k];
    var l' := JoinNext(l, x);
    assert IsPrev(l, x, n);
    MergeTiles(l, ps, x, n);
    UnlinkKeeps(m, l, l', r, k);
    RelNextJoinTags(m, l, x, n);
    HeaderStores(l', Without(r, k), Unlink(m, n), RelNext(m, x), x, x);
  }

  lemma RelNextJoinWords(m: Mem, x: int, n: int, xs: int, ns: int)
    requires Rd(m, x + 4) == xs && n == x + xs && Rd(m, n + 4) == ns && 0 < ns
    requires Rd(Unlink(m, n), x + 4) == xs && Rd(Unlink(m, n), n + 4) == ns
    ensures forall w {:trigger Rd(RelNext(m, x), w)} ::
      Rd(RelNext(m, x), w) == if w == x + 4 then xs + ns else Rd(Unlink(m, n), w)
  {
    hide Unlink;
  }

  lemma RelNextJoinTags(m: Mem, l: Layout, x: int, n: int)
    requires Blocks(l) && SizesOk(m, l) && TagsSame(m, Unlink(m, n), l) && BackOkBut(m, l, n)
    requires IsPrev(l, x, n) && l[x].kind == Free && n in l && l[n].kind == Free
    ensures SizesOk(RelNext(m, x), Merge(l, x, n))
    ensures BackOkBut(RelNext(m, x), Merge(l, x, n), Stop(Merge(l, x, n), x))
    ensures forall w :: w != x + 4 ==> Rd(RelNext(m, x), w) == Rd(Unlink(m, n), w)
  {
    hide Shape, Aligned, Disjoint, RelNext, Unlink, BackOkBut;
    var m', l' := RelNext(m, x), Merge(l, x, n);
    PositiveSize(l, n);
    RelNextJoinWords(m, x, n, l[x].size, l[n].size);
    forall y | y in l' ensures Rd(m', y + 4) == SizeWord(l'[y]) {
    }
    forall y | y in l ensures Rd(m', y) == Rd(m, y) {
      if y != x {
        Apart(l, x, y);
      }
    }
    MergeBack(m, m', l, x, n);
  }

  lemma MergeBack(m: Mem, m': Mem, l: Layout, x: int, n: int)
    requires Blocks(l) && BackOkBut(m, l, n) && IsPrev(l, x, n) && n in l && l[n].kind == Free
    requires forall y :: y in l ==> Rd(m', y) == Rd(m, y)
    ensures BackOkBut(m', Merge(l, x, n), Stop(Merge(l, x, n), x))
  {
    hide Shape, Aligned, Disjoint;
    var l' := Merge(l, x, n);
    assert Stop(l, n) == Stop(l', x);
    forall y | y in l' && y != Stop(l', x) ensures PrevFreeIs(l', y, Rd(m', y)) {
      PrevFreeMerge(l, x, n, y, Rd(m, y));
    }
  }

  lemma RelBackKeeps(m: Mem, l: Layout, ps: Pools, r: seq<int>, x: int)
    requires Releasing(m, l, ps, r, x) && NoTouch(l)
    ensures Represents(RelBack(m, x), l, ps, r)
  {
    assert Stop(l, x) in l;
    RelBackTags(m, l, x);
    HeaderStores(l, r, m, RelBack(m, x), Stop(l, x), Stop(l, x));
  }

  lemma RelBackWords(m: Mem, x: int, size: int)
    requires Rd(m, x + 4) == size
    ensures forall w {:trigger Rd(RelBack(m, x), w)} :: Rd(RelBack(m, x), w) == if w == x + size then size else Rd(m, w)
  {
  }

  lemma RelBackTags(m: Mem, l: Layout, x: int)
    requires Blocks(l) && SizesOk(m, l) && x in l && l[x].kind == Free && BackOkBut(m, l, Stop(l, x))
    ensures SizesOk(RelBack(m, x), l) && BackOk(RelBack(m, x), l)
    ensures forall w :: w != Stop(l, x) ==> Rd(RelBack(m, x), w) == Rd(m, w)
  {
    hide Shape, Aligned, Disjoint, PrevFreeIs, RelBack;
    var m', n := RelBack(m, x), Stop(l, x);
    RelBackWords(m, x, l[x].size);
    forall y | y in l ensures Rd(m', y + 4) == SizeWord(l[y]) {
      if y != x {
        Apart(l, x, y);
      } else {
        PositiveSize(l, x);
      }
    }
    forall y | y in l ensures PrevFreeIs(l, y, Rd(m', y)) {
      if y == n {
        ToldSize(l, x);
      }
    }
  }

  lemma ToldSize(l: Layout, x: int)
    requires Blocks(l) && x in l && l[x].kind == Free
    ensures PrevFreeIs(l, Stop(l, x), l[x].size)
  {
    assert IsPrev(l, x, Stop(l, x));
  }

  // ----- bpool -----

  /** The stores of bpool for a region of len bytes at base. */
  function PoolInit(m: Mem, base: int, len: int): (res: Mem) {
    var m1 := Append(m[base := 0], base);
    m1[base + 4 := len - 8][base + len - 8 := len - 8][base + len - 4 := ESENT]
  }

  lemma PoolLinks(m: Mem, l: Layout, r: seq<int>, base: int, len: int)
    requires Blocks(l) && RingOk(l, r) && LinksOk(m, r) && 24 <= len && STATICS_END <= base
    requires forall a :: a in l ==> a + l[a].size <= base || base + len <= a
    requires Spaced(r + [base])
    ensures LinksOk(PoolInit(m, base, len), r + [base])
  {
    var m0 := m[base := 0];
    var m1 := Append(m0, base);
    var m', r' := PoolInit(m, base, len), r + [base];
    LinksFrame(m, m0, r);
    AppendLinks(m0, r, base);
    LinksFrame(m1, m', r');
  }

  /** The words of the pool that bpool writes. */
  lemma PoolNewTags(m: Mem, r: seq<int>, base: int, len: int)
    requires LinksOk(m, r) && 1 <= |r| && r[0] == FREELIST && 24 <= len && STATICS_END <= base && Spaced(r + [base])
    requires forall i :: 0 <= i < |r| ==> r[i] + 16 <= base || base + len <= r[i]
    ensures var m' := PoolInit(m, base, len);
      && Rd(m', base) == 0 && Rd(m', base + 4) == len - 8
      && Rd(m', base + len - 8) == len - 8 && Rd(m', base + len - 4) == ESENT
  {
    var m0 := m[base := 0];
    LinksFrame(m, m0, r);
    AppendWords(m0, r, base);
    hide Append, LinksOk, Spaced;
    assert (r + [base])[|r| - 1] == r[|r| - 1] && (r + [base])[|r|] == base;
  }

  lemma PoolTags(m: Mem, l: Layout, r: seq<int>, base: int, len: int)
    requires Blocks(l) && SizesOk(m, l) && BackOk(m, l) && RingOk(l, r) && LinksOk(m, r)
    requires 24 <= len && STATICS_END <= base && Spaced(r + [base])
    requires forall a :: a in l ==> a + l[a].size <= base || base + len <= a
    requires NotBase(AddPool(l, base, len), map[base := len])
    ensures SizesOk(PoolInit(m, base, len), AddPool(l, base, len))
    ensures BackOk(PoolInit(m, base, len), AddPool(l, base, len))
  {
    hide Shape, Aligned, Disjoint, LinksOk, Spaced, PoolInit, BackOk, NotBase, RingOk;
    NodesOutside(l, r, base, len);
    PoolNewTags(m, r, base, len);
    PoolOldTags(m, l, r, base, len);
    BlocksOutside(l, base, len);
    PoolBack(m, PoolInit(m, base, len), l, base, len);
  }

  lemma BlocksOutside(l: Layout, base: int, len: int)
    requires Blocks(l) && 24 <= len && forall a :: a in l ==> a + l[a].size <= base || base + len <= a
    ensures base !in l && base + len - 8 !in l
  {
  }

  /** The list head and the free blocks are outside a region that is outside all blocks. */
  lemma NodesOutside(l: Layout, r: seq<int>, base: int, len: int)
    requires Blocks(l) && RingOk(l, r) && STATICS_END <= base
    requires forall a :: a in l ==> a + l[a].size <= base || base + len <= a
    ensures 1 <= |r| && r[0] == FREELIST && forall i :: 0 <= i < |r| ==> r[i] + 16 <= base || base + len <= r[i]
  {
  }

  lemma PoolWords(m: Mem, base: int, len: int)
    requires 24 <= len
    ensures forall w {:trigger Rd(PoolInit(m, base, len), w)} ::
      w != base + 4 && w != base + len - 8 && w != base + len - 4 ==>
        Rd(PoolInit(m, base, len), w) == Rd(Append(m[base := 0], base), w)
  {
    hide Append;
  }

  lemma PoolOldTags(m: Mem, l: Layout, r: seq<int>, base: int, len: int)
    requires Blocks(l) && RingOk(l, r) && LinksOk(m, r)
    requires 24 <= len && STATICS_END <= base && Spaced(r + [base])
    requires forall a :: a in l ==> a + l[a].size <= base || base + len <= a
    ensures TagsSame(m, PoolInit(m, base, len), l)
  {
    hide Aligned, Disjoint, PoolInit, Append;
    var m0 := m[base := 0];
    NodesOutside(l, r, base, len);
    LinksFrame(m, m0, r);
    AppendTags(m0, l, r, base);
    PoolWords(m, base, len);
    forall y | y in l
      ensures Rd(PoolInit(m, base, len), y) == Rd(m, y) && Rd(PoolInit(m, base, len), y + 4) == Rd(m, y + 4)
    {
      assert y + 8 <= y + l[y].size;
    }
  }

  lemma PoolBack(m: Mem, m': Mem, l: Layout, base: int, len: int)
    requires BackOk(m, l) && 24 <= len && base !in l && base + len - 8 !in l
    requires NotBase(AddPool(l, base, len), map[base := len])
    requires Rd(m', base) == 0 && Rd(m', base + len - 8) == len - 8
    requires forall y :: y in l ==> Rd(m', y) == Rd(m, y)
    ensures BackOk(m', AddPool(l, base, len))
  {
    var l' := AddPool(l, base, len);
    forall y | y in l' ensures PrevFreeIs(l', y, Rd(m', y)) {
      if y == base + len - 8 {
        assert IsPrev(l', base, y);
      } else if y != base {
        var pf := Rd(m, y);
        assert PrevFreeIs(l, y, pf);
        if pf == 0 {
          forall p | IsPrev(l', p, y) ensures l'[p].kind != Free {
            assert IsPrev(l, p, y);
          }
        } else {
          assert IsPrev(l', y - pf, y);
        }
      }
    }
  }

  // ----- what the stores leave alone: the payloads of live blocks -----

  /** Word w belongs to the payload of live block a. */
  ghost predicate InPayload(live: map<int, int>, a: int, w: int) {
    a in live && a + 8 <= w < a + live[a]
  }

  ghost predicate SamePayloads(m: Mem, m': Mem, live: map<int, int>) {
    forall a, w {:trigger InPayload(live, a, w)} :: InPayload(live, a, w) ==> Rd(m', w) == Rd(m, w)
  }

  /** Address w is outside every live payload of l. */
  ghost predicate Outside(l: Layout, w: int) {
    forall a {:trigger InPayload(LiveMap(l), a, w)} :: !InPayload(LiveMap(l), a, w)
  }

  lemma TagOutside(l: Layout, x: int)
    requires Blocks(l) && x in l
    ensures Outside(l, x) && Outside(l, x + 4)
  {
    forall a, w | x <= w <= x + 4 ensures !InPayload(LiveMap(l), a, w) {
    }
  }

  lemma FreeOutside(l: Layout, x: int, w: int)
    requires Blocks(l) && x in l && l[x].kind != Live && x <= w < x + l[x].size
    ensures Outside(l, w)
  {
  }

  lemma NodeOutside(l: Layout, r: seq<int>, i: int)
    requires Blocks(l) && RingOk(l, r) && 0 <= i < |r|
    ensures Outside(l, r[i] + 8) && Outside(l, r[i] + 12)
  {
    forall a, w | r[i] <= w < r[i] + 16 ensures !InPayload(LiveMap(l), a, w) {
    }
  }

  lemma SameTwice(m0: Mem, m1: Mem, m2: Mem, live: map<int, int>, live1: map<int, int>, live2: map<int, int>)
    requires SamePayloads(m0, m1, live1) && SamePayloads(m1, m2, live2)
    requires forall a :: a in live ==> a in live1 && live1[a] == live[a] && a in live2 && live2[a] == live[a]
    ensures SamePayloads(m0, m2, live)
  {
    forall a, w | InPayload(live, a, w) ensures Rd(m2, w) == Rd(m0, w) {
      assert InPayload(live1, a, w) && InPayload(live2, a, w);
    }
  }

  lemma StoreOutside(m: Mem, l: Layout, w: int, v: int)
    requires Outside(l, w)
    ensures SamePayloads(m, m[w := v], LiveMap(l))
  {
  }

  lemma SameThrough(m0: Mem, m1: Mem, m2: Mem, live: map<int, int>)
    requires SamePayloads(m0, m1, live) && SamePayloads(m1, m2, live)
    ensures SamePayloads(m0, m2, live)
  {
  }

  /** Two stores outside the payloads. */
  lemma StoreTwice(m: Mem, l: Layout, w1: int, v1: int, w2: int, v2: int)
    requires Outside(l, w1) && Outside(l, w2)
    ensures SamePayloads(m, m[w1 := v1][w2 := v2], LiveMap(l))
  {
    hide Outside, SamePayloads, LiveMap;
    StoreOutside(m, l, w1, v1);
    StoreOutside(m[w1 := v1], l, w2, v2);
    SameThrough(m, m[w1 := v1], m[w1 := v1][w2 := v2], LiveMap(l));
  }

  lemma UnlinkQuiet(m: Mem, l: Layout, r: seq<int>, k: int)
    requires Blocks(l) && RingOk(l, r) && LinksOk(m, r) && 1 <= k < |r|
    ensures SamePayloads(m, Unlink(m, r[k]), LiveMap(l))
  {
    hide Outside, SamePayloads, LiveMap, Shape, Aligned, Disjoint, RingOk, LinksOk, Spaced, Unlink;
    RingSpaced(l, r);
    UnlinkWords(m, r, k);
    NodeOutside(l, r, k - 1);
    NodeOutside(l, r, Nx(k, |r|));
    StoreTwice(m, l, r[k - 1] + 8, r[Nx(k, |r|)], r[Nx(k, |r|)] + 12, r[k - 1]);
  }

  lemma AppendQuiet(m: Mem, l: Layout, r: seq<int>, b: int)
    requires Blocks(l) && RingOk(l, r + [b]) && LinksOk(m, r) && 1 <= |r| && r[0] == FREELIST
    ensures SamePayloads(m, Append(m, b), LiveMap(l))
  {
    hide Outside, SamePayloads, LiveMap, Shape, Aligned, Disjoint, RingOk, LinksOk, Spaced, Append;
    var r' := r + [b];
    assert r'[0] == FREELIST && r'[|r| - 1] == r[|r| - 1] && r'[|r|] == b;
    RingSpaced(l, r');
    AppendWords(m, r, b);
    NodeOutside(l, r', 0);
    NodeOutside(l, r', |r| - 1);
    NodeOutside(l, r', |r|);
    var m2 := m[b + 8 := FREELIST][b + 12 := r[|r| - 1]];
    StoreTwice(m, l, b + 8, FREELIST, b + 12, r[|r| - 1]);
    StoreTwice(m2, l, FREELIST + 12, b, r[|r| - 1] + 8, b);
    SameThrough(m, m2, Append(m, b), LiveMap(l));
  }

  lemma GetSplitQuiet(m: Mem, l: Layout, b: int, s: int)
    requires Blocks(l) && SizesOk(m, l) && b in l && l[b].kind == Free && Stop(l, b) in l
    requires 16 <= s && s + 16 <= l[b].size
    ensures SamePayloads(m, GetSplit(m, b, s), LiveMap(l))
  {
    var ba := b + l[b].size - s;
    TagOutside(l, b);
    FreeOutside(l, b, ba);
    FreeOutside(l, b, ba + 4);
    TagOutside(l, Stop(l, b));
  }

  lemma GetWholeQuiet(m: Mem, l: Layout, r: seq<int>, k: int)
    requires Blocks(l) && SizesOk(m, l) && RingOk(l, r) && LinksOk(m, r) && 1 <= k < |r| && Stop(l, r[k]) in l
    ensures SamePayloads(m, GetWhole(m, r[k]), LiveMap(l))
  {
    UnlinkQuiet(m, l, r, k);
    UnlinkTags(m, l, r, k);
    TagOutside(l, r[k]);
    TagOutside(l, Stop(l, r[k]));
  }

  lemma RelPrevQuiet(m: Mem, l: Layout, r: seq<int>, a: int)
    requires Blocks(l) && SizesOk(m, l) && BackOk(m, l) && RingOk(l, r) && LinksOk(m, r)
    requires a in l && l[a].kind == Live && PrevFreeIs(l, a, Rd(m, a))
    ensures SamePayloads(m, RelPrev(m, a), LiveMap(l) - {a})
  {
    if Rd(m, a) != 0 {
      TagOutside(l, a - Rd(m, a));
    } else {
      RelPrevAloneQuiet(m, l, r, a);
    }
  }

  lemma RelPrevAloneQuiet(m: Mem, l: Layout, r: seq<int>, a: int)
    requires Blocks(l) && RingOk(l, r) && LinksOk(m, r) && a in l && l[a].kind == Live && Rd(m, a) == 0
    ensures SamePayloads(m, RelPrev(m, a), LiveMap(l) - {a})
  {
    hide Outside, SamePayloads, LiveMap, Shape, Aligned, Disjoint, RingOk, LinksOk, Append;
    var l0, m1 := SetKind(l, a, Free), Append(m, a);
    SetKindBlocks(l, a, Free);
    BecomesFree(l, r, a);
    AppendQuiet(m, l0, r, a);
    TagOutside(l0, a);
    StoreOutside(m1, l0, a + 4, -Rd(m1, a + 4));
    SameThrough(m, m1, RelPrev(m, a), LiveMap(l0));
  }

  lemma BecomesFree(l: Layout, r: seq<int>, a: int)
    requires Blocks(l) && RingOk(l, r) && a in l && l[a].kind == Live
    ensures RingOk(SetKind(l, a, Free), r + [a]) && LiveMap(SetKind(l, a, Free)) == LiveMap(l) - {a}
    ensures 1 <= |r| && r[0] == FREELIST
  {
    hide Aligned, Disjoint;
    AddedRing(l, SetKind(l, a, Free), r, a);
  }

  lemma RelNextQuiet(m: Mem, l: Layout, r: seq<int>, x: int, k: int)
    requires Blocks(l) && RingOk(l, r) && LinksOk(m, r) && x in l && l[x].kind == Free
    requires 1 <= k < |r| && SizesOk(m, l) && r[k] == Stop(l, x)
    ensures SamePayloads(m, RelNext(m, x), LiveMap(l))
  {
    UnlinkQuiet(m, l, r, k);
    TagOutside(l, x);
  }

  lemma RelBackQuiet(m: Mem, l: Layout, ps: Pools, x: int)
    requires Tile(l, ps) && SizesOk(m, l) && x in l && l[x].kind == Free
    ensures SamePayloads(m, RelBack(m, x), LiveMap(l))
  {
    TagOutside(l, Stop(l, x));
  }

  lemma PoolInitQuiet(m: Mem, l: Layout, r: seq<int>, base: int, len: int)
    requires Blocks(AddPool(l, base, len)) && RingOk(AddPool(l, base, len), r + [base]) && LinksOk(m, r)
    requires 1 <= |r| && r[0] == FREELIST && 24 <= len && base !in l && base + len - 8 !in l
    requires forall i :: 0 <= i < |r| ==> r[i] + 16 <= base || base + len <= r[i]
    ensures SamePayloads(m, PoolInit(m, base, len), LiveMap(l))
  {
    hide Outside, SamePayloads, LiveMap, Shape, Aligned, Disjoint, RingOk, LinksOk, Append;
    var l', m0 := AddPool(l, base, len), m[base := 0];
    var m1 := Append(m0, base);
    var m2 := m1[base + 4 := len - 8];
    NoNewLive(l, base, len);
    LinksFrame(m, m0, r);
    TagOutside(l', base);
    TagOutside(l', base + len - 8);
    StoreOutside(m, l', base, 0);
    AppendQuiet(m0, l', r, base);
    SameThrough(m, m0, m1, LiveMap(l'));
    StoreOutside(m1, l', base + 4, len - 8);
    SameThrough(m, m1, m2, LiveMap(l'));
    StoreTwice(m2, l', base + len - 8, len - 8, base + len - 4, ESENT);
    SameThrough(m, m2, PoolInit(m, base, len), LiveMap(l'));
  }

  lemma NoNewLive(l: Layout, base: int, len: int)
    requires base !in l && base + len - 8 !in l
    ensures LiveMap(AddPool(l, base, len)) == LiveMap(l)
  {
  }

  // ----- the effect of each call as a whole -----

  lemma GetSplitKeeps(m: Mem, l: Layout, ps: Pools, r: seq<int>, b: int, s: int)
    requires Represents(m, l, ps, r) && b in l && l[b].kind == Free
    requires 16 <= s && s % 8 == 0 && s + 16 <= l[b].size
    ensures Represents(GetSplit(m, b, s), Split(l, b, s), ps, r)
    ensures SamePayloads(m, GetSplit(m, b, s), LiveMap(l))
  {
    SplitBlocks(l, b, s);
    SplitWf(l, ps, b, s);
    GetSplitTags(m, l, b, s);
    GetSplitBack(m, l, b, s);
    SplitRing(l, b, s, r);
    GetSplitLinks(m, l, b, s, r);
    assert Stop(l, b) in l;
    GetSplitQuiet(m, l, b, s);
  }

  lemma GetWholeKeeps(m: Mem, l: Layout, ps: Pools, r: seq<int>, k: int)
    requires Represents(m, l, ps, r) && 1 <= k < |r|
    ensures Represents(GetWhole(m, r[k]), SetKind(l, r[k], Live), ps, Without(r, k))
    ensures SamePayloads(m, GetWhole(m, r[k]), LiveMap(l))
    ensures TagsSame(m, Unlink(m, r[k]), l)
  {
    var b := r[k];
    var l' := SetKind(l, b, Live);
    TakeWf(l, ps, b);
    UnlinkKeeps(m, l, l', r, k);
    PositiveFree(l, b);
    GetWholeTags(m, l, b);
    assert Stop(l, b) in l';
    GetWholeQuiet(m, l, r, k);
    HeaderStores(l', Without(r, k), Unlink(m, b), GetWhole(m, b), b, Stop(l, b));
  }

  lemma PoolInitKeeps(m: Mem, l: Layout, ps: Pools, r: seq<int>, base: int, len: int)
    requires Represents(m, l, ps, r)
    requires STATICS_END <= base && base % 8 == 0 && 24 <= len < 0x8000_0000 && len % 8 == 0
    requires forall b :: b in ps ==> b + ps[b] <= base || base + len <= b
    ensures Represents(PoolInit(m, base, len), AddPool(l, base, len), ps[base := len], r + [base])
    ensures LiveMap(AddPool(l, base, len)) == LiveMap(l) && SamePayloads(m, PoolInit(m, base, len), LiveMap(l))
  {
    var m0 := m[base := 0];
    var m1 := Append(m0, base);
    var m', l', r' := PoolInit(m, base, len), AddPool(l, base, len), r + [base];
    AddPoolWf(l, ps, base, len);
    OutsidePools(l, ps, base, len);
    AddedRing(l, l', r, base);
    RingSpaced(l', r');
    PoolLinks(m, l, r, base, len);
    PoolInitQuiet(m, l, r, base, len);
    PoolTags(m, l, r, base, len);
  }


  /** The free list without node n if n is a free block, and as it is otherwise. */
  ghost predicate Dropped(l: Layout, r: seq<int>, n: int, r': seq<int>) {
    if n in l && l[n].kind == Free then exists k :: 1 <= k < |r| && r[k] == n && r' == Without(r, k) else r' == r
  }

  /** The free list after block a was released: a goes to the end of it unless a free block is in
      front of a, and a free block behind a leaves it. */
  ghost predicate ReleasedRing(l: Layout, r: seq<int>, a: int, r': seq<int>)
    requires a in l
  {
    var r1 := if exists p :: IsPrev(l, p, a) && l[p].kind == Free then r else r + [a];
    Dropped(l, r1, a + l[a].size, r')
  }

  /** The three groups of stores of brel take RAM from one layout to the next. */
  lemma ReleaseKeeps(m: Mem, l: Layout, ps: Pools, r: seq<int>, a: int) returns (l': Layout, r': seq<int>)
    requires Represents(m, l, ps, r) && a in l && l[a].kind == Live
    ensures PrevFreeIs(l, a, Rd(m, a)) && l' == Released(l, a, Rd(m, a))
    ensures var m' := RelBack(RelNext(RelPrev(m, a), a - Rd(m, a)), a - Rd(m, a));
      Represents(m', l', ps, r') && SamePayloads(m, m', LiveMap(l'))
    ensures LiveMap(l') == LiveMap(l) - {a} && ReleasedRing(l, r, a, r')
  {
    hide SizesOk, RingOk, LinksOk, Shape, Aligned, Disjoint, NoTouch, RelPrev, RelNext, RelBack, SamePayloads, Dropped;
    var pf := Rd(m, a);
    var x := a - pf;
    assert PrevFreeIs(l, a, pf);
    RelPrevQuiet(m, l, r, a);
    var m1, l1, r1 := RelPrev(m, a), JoinPrev(l, a, pf), if pf == 0 then r + [a] else r;
    if pf != 0 {
      RelPrevJoinKeeps(m, l, ps, r, a);
    } else {
      RelPrevAloneKeeps(m, l, ps, r, a);
    }
    JoinPrevShape(l, a, pf);
    r' := NextKeeps(m1, l1, ps, r1, x);
    BehindSame(l, a, pf, r1, r');
    var m2 := RelNext(m1, x);
    l' := JoinNext(l1, x);
    ReleaseWf(l, ps, a, pf);
    RelBackKeeps(m2, l', ps, r', x);
    RelBackQuiet(m2, l', ps, x);
    SameTwice(m, m1, m2, LiveMap(l'), LiveMap(l'), LiveMap(l'));
    SameTwice(m, m2, RelBack(m2, x), LiveMap(l'), LiveMap(l'), LiveMap(l'));
  }

  lemma RingHas(l: Layout, r: seq<int>, a: int) returns (k: nat)
    requires RingOk(l, r) && STATICS_END <= a && a in l && l[a].kind == Free
    ensures 1 <= k < |r| && r[k] == a
  {
    k :| k < |r| && r[k] == a;
  }

  lemma NextKeeps(m: Mem, l: Layout, ps: Pools, r: seq<int>, x: int) returns (r': seq<int>)
    requires Releasing(m, l, ps, r, x)
    ensures Releasing(RelNext(m, x), JoinNext(l, x), ps, r', x)
    ensures SamePayloads(m, RelNext(m, x), LiveMap(l)) && LiveMap(JoinNext(l, x)) == LiveMap(l)
    ensures Dropped(l, r, Stop(l, x), r')
  {
    hide Shape, Aligned, Disjoint, LinksOk, RingOk, Unlink, BackOkBut, LiveMap, SamePayloads;
    var n := Stop(l, x);
    JoinNextTiles(l, ps, x);
    BehindIs(m, l, ps, r, x);
    if l[n].kind == Free {
      PositiveSize(l, n);
      var k := RingHas(l, r, n);
      r' := Without(r, k);
      RelNextJoinKeeps(m, l, ps, r, x, k);
      RelNextQuiet(m, l, r, x, k);
    } else {
      r' := r;
      SameAtOnce(m, LiveMap(l));
    }
  }

  /** Joining a free block in front of it does not change what is behind a block. */
  lemma BehindSame(l: Layout, a: int, pf: int, r1: seq<int>, r': seq<int>)
    requires Blocks(l) && a in l && l[a].kind == Live && PrevFreeIs(l, a, pf)
    requires var l1 := JoinPrev(l, a, pf); a - pf in l1 && Dropped(l1, r1, Stop(l1, a - pf), r')
    ensures Dropped(l, r1, a + l[a].size, r')
    ensures (exists p :: IsPrev(l, p, a) && l[p].kind == Free) <==> pf != 0
  {
    if pf != 0 {
      assert IsPrev(l, a - pf, a);
    }
  }

  /** The block behind x and its size word. */
  lemma BehindIs(m: Mem, l: Layout, ps: Pools, r: seq<int>, x: int)
    requires Releasing(m, l, ps, r, x)
    ensures var n := Stop(l, x);
      && n in l && STATICS_END <= n && x + Rd(m, x + 4) == n && (l[n].kind != Free ==> Rd(m, n + 4) <= 0)
  {
    hide LinksOk, RingOk, BackOkBut, Disjoint, Aligned;
    assert Rd(m, Stop(l, x) + 4) == SizeWord(l[Stop(l, x)]);
  }

  lemma SameAtOnce(m: Mem, live: map<int, int>)
    ensures SamePayloads(m, m, live)
  {
  }

  /** What the scans of the free list read at node i. */
  lemma NodeFacts(m: Mem, l: Layout, ps: Pools, r: seq<int>, i: int)
    requires Represents(m, l, ps, r) && 0 <= i < |r|
    ensures Rd(m, r[i] + 8) == r[Nx(i, |r|)] && Rd(m, r[Nx(i, |r|)] + 12) == r[i]
    ensures r[i] == FREELIST <==> i == 0
    ensures i != 0 ==> r[i] in l && l[r[i]].kind == Free && Rd(m, r[i] + 4) == l[r[i]].size && 16 <= l[r[i]].size
  {
    assert LinkAt(m, r, i);
  }

  lemma RingIsFree(m: Mem, l: Layout, ps: Pools, r: seq<int>)
    requires Represents(m, l, ps, r)
    ensures 1 <= |r| && forall a :: a in l && l[a].kind == Free <==> a != FREELIST && a in r
    ensures forall i :: 0 < i < |r| ==> r[i] in l && l[r[i]].kind == Free
  {
  }

  /** The address after n forward links from the list head. */
  function Walk(m: Mem, n: nat): (a: int) {
    if n == 0 then FREELIST else Rd(m, Walk(m, n - 1) + 8)
  }

  /** Address a is met behind the head, before n links are followed. */
  ghost predicate Visited(m: Mem, n: nat, a: int) {
    exists i: nat :: 0 < i < n && Walk(m, i) == a
  }

  lemma {:induction false} WalkFollows(m: Mem, l: Layout, ps: Pools, r: seq<int>, n: nat)
    requires Represents(m, l, ps, r) && n <= |r|
    ensures 1 <= |r| && Walk(m, n) == if n == |r| then FREELIST else r[n]
  {
    hide Wf, SizesOk, BackOk;
    if n > 0 {
      WalkFollows(m, l, ps, r, n - 1);
      assert LinkAt(m, r, n - 1);
    }
  }

  /** Following the forward links in memory from the list head visits exactly the free blocks,
      once each, and comes back to the head; each backward link undoes the forward link. */
  lemma ListIsFree(m: Mem, l: Layout, ps: Pools, r: seq<int>)
    requires Represents(m, l, ps, r)
    ensures 1 <= |r| && Walk(m, |r|) == FREELIST
    ensures forall a :: a in l && l[a].kind == Free <==> Visited(m, |r|, a)
    ensures forall i: nat, j: nat :: i < j < |r| ==> Walk(m, i) != Walk(m, j)
    ensures forall n: nat :: n < |r| ==> Rd(m, Walk(m, n + 1) + 12) == Walk(m, n)
  {
    hide Wf, SizesOk, BackOk, Walk;
    WalkFollows(m, l, ps, r, |r|);
    forall n: nat | n < |r| ensures Walk(m, n) == r[n] && Rd(m, Walk(m, n + 1) + 12) == Walk(m, n) {
      WalkFollows(m, l, ps, r, n);
      WalkFollows(m, l, ps, r, n + 1);
      assert LinkAt(m, r, n);
    }
    forall a ensures a in l && l[a].kind == Free <==> Visited(m, |r|, a) {
      if a in l && l[a].kind == Free {
        FreeOnList(m, l, ps, r, a);
        var n: nat :| n < |r| && r[n] == a;
        assert 0 < n && Walk(m, n) == a;
      }
      if n: nat :| 0 < n < |r| && Walk(m, n) == a {
        assert r[n] == a;
      }
    }
  }

  lemma FreeOnList(m: Mem, l: Layout, ps: Pools, r: seq<int>, a: int)
    requires Represents(m, l, ps, r) && a in l && l[a].kind == Free
    ensures 1 <= |r| && r[0] == FREELIST != a && exists n :: 0 <= n < |r| && r[n] == a
  {
  }

  lemma BlockSize(m: Mem, l: Layout, ps: Pools, r: seq<int>, a: int)
    requires Represents(m, l, ps, r) && a in l
    ensures Rd(m, a + 4) == SizeWord(l[a]) && Blocks(l)
  {
  }

  lemma RepresentsWf(m: Mem, l: Layout, ps: Pools, r: seq<int>)
    requires Represents(m, l, ps, r)
    ensures Wf(l, ps)
  {
  }

  // ----- stores of the client -----

  /** A live block's owner may overwrite its payload. */
  lemma PayloadStores(m: Mem, m': Mem, l: Layout, ps: Pools, r: seq<int>, a: int)
    requires Represents(m, l, ps, r) && a in LiveMap(l)
    requires forall w :: !(a + 8 <= w < a + LiveMap(l)[a]) ==> Rd(m', w) == Rd(m, w)
    ensures Represents(m', l, ps, r) && SamePayloads(m, m', LiveMap(l) - {a})
  {
    forall x | x in l ensures Rd(m', x) == Rd(m, x) && Rd(m', x + 4) == Rd(m, x + 4) {
      TagOutside(l, x);
      assert !InPayload(LiveMap(l), a, x) && !InPayload(LiveMap(l), a, x + 4);
    }
    forall i | 0 <= i < |r| ensures Rd(m', r[i] + 8) == Rd(m, r[i] + 8) && Rd(m', r[i] + 12) == Rd(m, r[i] + 12) {
      NodeOutside(l, r, i);
      assert !InPayload(LiveMap(l), a, r[i] + 8) && !InPayload(LiveMap(l), a, r[i] + 12);
    }
    LinksFrame(m, m', r);
    forall x | x in l ensures PrevFreeIs(l, x, Rd(m', x)) {
      assert PrevFreeIs(l, x, Rd(m, x));
    }
    forall x, w | InPayload(LiveMap(l) - {a}, x, w) ensures Rd(m', w) == Rd(m, w) {
      assert x in l && a in l && x != a;
    }
  }

  // ----- bytes of a word -----

  function Pow256(k: int): (v: int)
    requires 0 <= k <= 3
  {
    if k == 0 then 1 else if k == 1 then 0x100 else if k == 2 then 0x1_0000 else 0x100_0000
  }

  function Unsigned(w: int): (v: int) {
    w % 0x1_0000_0000
  }

  function Signed(u: int): (v: int) {
    if u < 0x8000_0000 then u else u - 0x1_0000_0000
  }

  /** Byte k of a word, least significant first. */
  function ByteOfWord(w: int, k: int): (v: int)
    requires 0 <= k <= 3
  {
    Unsigned(w) / Pow256(k) % 0x100
  }

  /** Byte i of the buffer at address base. */
  function ByteAt(m: Mem, base: int, i: int): (v: int) {
    ByteOfWord(Rd(m, base + i - (base + i) % 4), (base + i) % 4)
  }

  lemma ByteIndex(m: Mem, base: int, i: int)
    requires base % 4 == 0
    ensures ByteAt(m, base, i) == ByteOfWord(Rd(m, base + 4 * (i / 4)), i % 4)
  {
    assert (base + i) % 4 == i % 4;
  }

  /** The word with the low k bytes of incoming and the other bytes of stale. */
  function MergeLow(stale: int, incoming: int, k: int): (v: int)
    requires 1 <= k <= 3
  {
    Signed(Unsigned(stale) / Pow256(k) * Pow256(k) + Unsigned(incoming) % Pow256(k))
  }

  lemma LowDigit(x: int, y: int)
    ensures (x * 0x100 + y) % 0x100 == y % 0x100
  {
  }

  lemma ByteOfLow(hi: int, lo: int, k: int, i: int)
    requires 0 <= i < k <= 3
    ensures (hi * Pow256(k) + lo) / Pow256(i) % 0x100 == lo / Pow256(i) % 0x100
  {
    var x := hi * Pow256(k - 1 - i);
    LowDigit(x, lo / Pow256(i));
    assert (hi * Pow256(k) + lo) / Pow256(i) == x * 0x100 + lo / Pow256(i) by {
      if i == 1 {
        assert (x * 0x1_0000 + lo) / 0x100 == x * 0x100 + lo / 0x100;
      } else if i == 2 {
        assert (x * 0x100_0000 + lo) / 0x1_0000 == x * 0x100 + lo / 0x1_0000;
      }
    }
  }

  lemma MergeRange(stale: int, incoming: int, k: int)
    requires 1 <= k <= 3
    ensures 0 <= Unsigned(stale) / Pow256(k) * Pow256(k) + Unsigned(incoming) % Pow256(k) < 0x1_0000_0000
  {
    var a, b := Unsigned(incoming), Unsigned(stale);
    if k == 1 {
      assert b / 0x100 <= 0xFF_FFFF;
    } else if k == 2 {
      assert b / 0x1_0000 <= 0xFFFF;
    } else {
      assert b / 0x100_0000 <= 0xFF;
    }
  }

  lemma SignedUnsigned(u: int)
    requires 0 <= u < 0x1_0000_0000
    ensures Unsigned(Signed(u)) == u
  {
  }

  lemma MergeLowBytes(stale: int, incoming: int, k: int, i: int)
    requires 1 <= k <= 3 && 0 <= i < k
    ensures ByteOfWord(MergeLow(stale, incoming, k), i) == ByteOfWord(incoming, i)
  {
    hide Unsigned, Signed;
    var p := Pow256(k);
    var a, b := Unsigned(incoming), Unsigned(stale);
    MergeRange(stale, incoming, k);
    SignedUnsigned(b / p * p + a % p);
    ByteOfLow(b / p, a % p, k, i);
    ByteOfLow(a / p, a % p, k, i);
    assert a / p * p + a % p == a;
  }

  lemma SameBytes(m: Mem, m': Mem, dst: int, src: int, i: int)
    requires dst % 4 == 0 && src % 4 == 0
    requires Rd(m', dst + 4 * (i / 4)) == Rd(m, src + 4 * (i / 4))
    ensures ByteAt(m', dst, i) == ByteAt(m, src, i)
  {
    ByteIndex(m', dst, i);
    ByteIndex(m, src, i);
  }
}
