/** Byte counts over a BGET layout, and how the calls change them. */
module BgetBytes {
  import opened BgetLayout

  ghost function Weight(k: Blk, kind: Kind): (v: int) {
    if k.kind == kind then k.size else 0
  }

  /** Total size of the blocks of one kind. */
  ghost function Bytes(l: Layout, kind: Kind): (v: int)
    decreases |l|
  {
    if a :| a in l then Weight(l[a], kind) + Bytes(l - {a}, kind) else 0
  }

  /** What a pool can hold: its length without the end sentinel, summed over the pools. */
  ghost function Capacity(ps: Pools): (v: int)
    decreases |ps|
  {
    if b :| b in ps then ps[b] - 8 + Capacity(ps - {b}) else 0
  }

  lemma {:induction false} BytesWithout(l: Layout, kind: Kind, a: int)
    requires a in l
    ensures Bytes(l, kind) == Weight(l[a], kind) + Bytes(l - {a}, kind)
    decreases |l|
  {
    var c :| c in l && Bytes(l, kind) == Weight(l[c], kind) + Bytes(l - {c}, kind);
    if c != a {
      BytesWithout(l - {c}, kind, a);
      BytesWithout(l - {a}, kind, c);
      assert l - {c} - {a} == l - {a} - {c};
    }
  }

  lemma BytesPut(l: Layout, kind: Kind, a: int, v: Blk)
    ensures Bytes(l[a := v], kind) == Weight(v, kind) + Bytes(l, kind) - (if a in l then Weight(l[a], kind) else 0)
  {
    BytesWithout(l[a := v], kind, a);
    if a in l {
      BytesWithout(l, kind, a);
      assert l[a := v] - {a} == l - {a};
    } else {
      assert l[a := v] - {a} == l;
    }
  }

  lemma {:induction false} CapacityWithout(ps: Pools, b: int)
    requires b in ps
    ensures Capacity(ps) == ps[b] - 8 + Capacity(ps - {b})
    decreases |ps|
  {
    var c :| c in ps && Capacity(ps) == ps[c] - 8 + Capacity(ps - {c});
    if c != b {
      CapacityWithout(ps - {c}, b);
      CapacityWithout(ps - {b}, c);
      assert ps - {c} - {b} == ps - {b} - {c};
    }
  }

  lemma SplitBytes(l: Layout, b: int, s: int, kind: Kind)
    requires b in l && l[b].kind == Free && b + l[b].size - s !in l && s < l[b].size
    ensures Bytes(Split(l, b, s), kind) ==
            Bytes(l, kind) + (if kind == Live then s else if kind == Free then -s else 0)
  {
    var l1 := l[b := Blk(l[b].size - s, Free)];
    BytesPut(l, kind, b, Blk(l[b].size - s, Free));
    BytesPut(l1, kind, b + l[b].size - s, Blk(s, Live));
  }

  lemma SetKindBytes(l: Layout, a: int, k: Kind, kind: Kind)
    requires a in l
    ensures Bytes(SetKind(l, a, k), kind) ==
            Bytes(l, kind) - Weight(l[a], kind) + Weight(Blk(l[a].size, k), kind)
  {
    BytesPut(l, kind, a, Blk(l[a].size, k));
  }

  lemma MergeBytes(l: Layout, p: int, q: int, kind: Kind)
    requires p in l && q in l && p != q && l[p].kind == Free && l[q].kind == Free
    ensures Bytes(Merge(l, p, q), kind) == Bytes(l, kind)
  {
    BytesWithout(l, kind, q);
    BytesPut(l - {q}, kind, p, Blk(l[p].size + l[q].size, Free));
  }

  lemma ReleaseBytes(l: Layout, a: int, pf: int, kind: Kind)
    requires Blocks(l) && a in l && l[a].kind == Live && PrevFreeIs(l, a, pf)
    ensures Bytes(Released(l, a, pf), kind) ==
            Bytes(l, kind) + (if kind == Live then -l[a].size else if kind == Free then l[a].size else 0)
  {
    hide Bytes, Shape, Aligned, Disjoint, LiveMap;
    var l0 := SetKind(l, a, Free);
    SetKindBytes(l, a, Free, kind);
    PositiveSize(l, a);
    if pf != 0 {
      PositiveSize(l, a - pf);
      MergeBytes(l0, a - pf, a, kind);
    }
    JoinPrevShape(l, a, pf);
    var l1, x := JoinPrev(l, a, pf), a - pf;
    if Stop(l1, x) in l1 && l1[Stop(l1, x)].kind == Free {
      MergeBytes(l1, x, Stop(l1, x), kind);
    }
  }

  lemma AddPoolBytes(l: Layout, ps: Pools, base: int, len: int, kind: Kind)
    requires base !in l && base + len - 8 !in l && base !in ps && 24 <= len
    ensures Bytes(AddPool(l, base, len), kind) ==
            Bytes(l, kind) + (if kind == Free then len - 8 else if kind == End then 8 else 0)
    ensures Capacity(ps[base := len]) == Capacity(ps) + len - 8
  {
    BytesPut(l, kind, base, Blk(len - 8, Free));
    BytesPut(l[base := Blk(len - 8, Free)], kind, base + len - 8, Blk(8, End));
    CapacityWithout(ps[base := len], base);
    assert ps[base := len] - {base} == ps;
  }

  // ----- the free list visits every free byte once -----

  /** Total size of the blocks at nodes 1 to n of the list r. */
  ghost function SumTo(l: Layout, r: seq<int>, n: nat): (v: int)
    requires n < |r| && forall i :: 1 <= i <= n ==> r[i] in l
  {
    if n == 0 then 0 else SumTo(l, r, n - 1) + l[r[n]].size
  }

  lemma {:induction false} NoneOfKind(l: Layout, kind: Kind)
    requires forall a :: a in l ==> l[a].kind != kind
    ensures Bytes(l, kind) == 0
    decreases |l|
  {
    if c :| c in l {
      BytesWithout(l, kind, c);
      NoneOfKind(l - {c}, kind);
    }
  }

  lemma {:induction false} SumToWithout(l: Layout, r: seq<int>, n: nat, a: int)
    requires n < |r| && forall i :: 1 <= i <= n ==> r[i] in l && r[i] != a
    ensures SumTo(l - {a}, r, n) == SumTo(l, r, n)
  {
    if n != 0 {
      SumToWithout(l, r, n - 1, a);
    }
  }

  /** A list that visits exactly the free blocks, once each, sums to the free bytes. */
  lemma {:induction false} SumToIsBytes(l: Layout, r: seq<int>, n: nat)
    requires n < |r| && forall i :: 1 <= i <= n ==> r[i] in l && l[r[i]].kind == Free
    requires forall i, j :: 1 <= i < j <= n ==> r[i] != r[j]
    requires forall a :: a in l && l[a].kind == Free ==> exists i :: 1 <= i <= n && r[i] == a
    ensures SumTo(l, r, n) == Bytes(l, Free)
  {
    if n == 0 {
      NoneOfKind(l, Free);
    } else {
      BytesWithout(l, Free, r[n]);
      SumToWithout(l, r, n - 1, r[n]);
      SumToIsBytes(l - {r[n]}, r, n - 1);
    }
  }
}
