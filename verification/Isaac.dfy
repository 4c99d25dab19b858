/** The ISAAC generator of ZBar (Third_Party/ZBAR/src/isaac.c): its context, seeding, drawing
    words and drawing numbers below a bound. */
module Isaac {
  import opened Arith
  import opened IsaacState
  import opened IsaacInit

  // ----- drawing, as a function of the context -----

  /** The transition state and how many words of the last update are left to draw. */
  datatype Context = Context(state: State, n: nat)

  ghost predicate ContextOk(c: Context) {
    |c.state.m| == ISAAC_SZ && c.n <= ISAAC_SZ
  }

  /** The next word: the words of an update are handed out last one first. */
  function Drawn(c: Context): (w: Word)
    requires |c.state.m| == ISAAC_SZ && c.n <= ISAAC_SZ
  {
    if c.n == 0 then Output(c.state, ISAAC_SZ - 1) else Output(Undo(c.state), c.n - 1)
  }

  function AfterDraw(c: Context): (d: Context)
    requires |c.state.m| == ISAAC_SZ && c.n <= ISAAC_SZ
    ensures |d.state.m| == ISAAC_SZ && d.n < ISAAC_SZ
  {
    if c.n == 0 then Context(Update(c.state), ISAAC_SZ - 1) else Context(c.state, c.n - 1)
  }

  /** The context after k draws. */
  function AfterDraws(c: Context, k: nat): (d: Context)
    requires |c.state.m| == ISAAC_SZ && c.n <= ISAAC_SZ
    ensures |d.state.m| == ISAAC_SZ && d.n <= ISAAC_SZ
  {
    if k == 0 then c else AfterDraw(AfterDraws(c, k - 1))
  }

  // ----- rejection sampling -----

  /** The test of isaac_next_uint: a draw is kept unless its group of n values would reach past
      2^32, which shows as an overflow. */
  function Accepts(r: Word, n: Word): (b: bool)
    requires 0 < n
  {
    var d := r - r % n;
    !((d + n - 1) % 0x1_0000_0000 < d)
  }

  /** Kept draws are those below the largest multiple of n that is at most 2^32. */
  lemma AcceptsIff(r: Word, n: Word)
    requires 0 < n
    ensures Accepts(r, n) <==> r < 0x1_0000_0000 / n * n
  {
    var q, v := r / n, r % n;
    var t, u := 0x1_0000_0000 / n, 0x1_0000_0000 % n;
    assert r == q * n + v && 0x1_0000_0000 == t * n + u;
    if q < t {
      MulLess(q, t, n);
    } else {
      MulMono(t, q, n);
    }
  }

  /** No draw is ever dropped exactly for the bounds that divide 2^32. */
  lemma AlwaysKept(n: Word)
    requires 0 < n
    ensures (forall r: Word :: Accepts(r, n)) <==> 0x1_0000_0000 % n == 0
  {
    hide Accepts;
    var t, u := Divide(0x1_0000_0000, n);
    forall r: Word ensures Accepts(r, n) <==> r < t * n {
      AcceptsIff(r, n);
    }
    if u > 0 {
      assert !Accepts(t * n, n);
    }
  }

  /** The number of values in k groups of n. */
  function Span(k: nat, n: nat): (m: nat) {
    k * n
  }

  lemma SpanStep(k: nat, n: nat)
    ensures Span(0, n) == 0 && Span(k + 1, n) == Span(k, n) + n
  {
    assert (k + 1) * n == k * n + n;
  }

  /** The draws of residue v in the first k groups of n values. */
  function Residues(n: Word, v: Word, k: nat): (s: set<int>)
    requires v < n
  {
    if k == 0 then {} else Residues(n, v, k - 1) + {Span(k - 1, n) + v}
  }

  function Residue(r: int, n: Word): (v: int)
    requires 0 < n
  {
    r % n
  }

  /** The k-th group of n values: one of them has residue v. */
  lemma GroupResidue(n: Word, k: nat, r: int)
    requires Span(k, n) <= r < Span(k, n) + n
    ensures Residue(r, n) == r - Span(k, n)
  {
    DivModUnique(r, n, k, r - Span(k, n));
  }

  lemma {:induction false} ResiduesAre(n: Word, v: Word, k: nat)
    requires v < n
    ensures forall r :: r in Residues(n, v, k) <==> 0 <= r < Span(k, n) && Residue(r, n) == v
  {
    hide Span, Residue;
    if k == 0 {
      SpanStep(0, n);
    } else {
      ResiduesAre(n, v, k - 1);
      SpanStep(k - 1, n);
      ghost var low := Span(k - 1, n);
      forall r: int | low <= r < low + n ensures Residue(r, n) == r - low {
        GroupResidue(n, k - 1, r);
      }
    }
  }

  lemma {:induction false} ResiduesCount(n: Word, v: Word, k: nat)
    requires v < n
    ensures |Residues(n, v, k)| == k
  {
    hide Span, Residue;
    if k > 0 {
      ResiduesCount(n, v, k - 1);
      ResiduesAre(n, v, k - 1);
      assert Span(k - 1, n) + v !in Residues(n, v, k - 1);
    }
  }

  /** Rejection sampling is unbiased: every value below n has the same number of kept draws. */
  lemma Unbiased(n: Word, v: Word)
    requires v < n
    ensures |set r: Word | Accepts(r, n) && r % n == v| == 0x1_0000_0000 / n
  {
    hide Accepts;
    var k := 0x1_0000_0000 / n;
    assert Span(k, n) <= 0x1_0000_0000;
    ResiduesAre(n, v, k);
    ResiduesCount(n, v, k);
    forall r: Word ensures Accepts(r, n) && r % n == v <==> r in Residues(n, v, k) {
      AcceptsIff(r, n);
    }
    assert (set r: Word | Accepts(r, n) && r % n == v) == Residues(n, v, k);
  }

  /** Draw k from context c is dropped by the sampler. */
  ghost predicate Dropped(c: Context, n: Word, k: nat)
    requires ContextOk(c) && 0 < n
  {
    !Accepts(Drawn(AfterDraws(c, k)), n)
  }

  // ----- the generator -----

  /** One line of isaac_mix in place. */
  method MixAt(x: array<Word>, i: nat)
    requires x.Length == 8 && i < 8
    modifies x
    ensures x[..] == MixStep(old(x[..]), i)
  {
    hide XorShifted, Add, MixShift;
    x[i] := XorShifted(x[i], x[(i + 1) % 8], MixShift(i));
    x[(i + 3) % 8] := Add(x[(i + 3) % 8], x[i]);
    x[(i + 1) % 8] := Add(x[(i + 1) % 8], x[(i + 2) % 8]);
  }

  /** isaac_mix. */
  method MixInPlace(x: array<Word>)
    requires x.Length == 8
    modifies x
    ensures x[..] == Mix(old(x[..]))
  {
    hide MixStep;
    ghost var x0 := x[..];
    var i := 0;
    while i < 8
      invariant 0 <= i <= 8 && i % 2 == 0 && x[..] == Mixed(x0, i)
    {
      MixAt(x, i);
      i := i + 1;
      MixAt(x, i);
      i := i + 1;
    }
  }

  /** One pass of isaac_init: absorbs src and writes to dst, which may be the same array. */
  method AbsorbPass(x: array<Word>, src: array<Word>, dst: array<Word>)
    requires x.Length == 8 && src.Length == dst.Length == ISAAC_SZ && x != src && x != dst
    modifies x, dst
    ensures dst[..] == Absorb(old(x[..]), old(src[..]), ISAAC_SZ / 8)
    ensures x[..] == LastGroup(old(x[..]), dst[..])
  {
    hide Mix, AddWords, Group, Absorb, LastGroup;
    ghost var x0, w := x[..], src[..];
    AbsorbNone(x0, w);
    var k := 0;
    while k < ISAAC_SZ / 8
      invariant 0 <= k <= ISAAC_SZ / 8
      invariant dst[..8 * k] == Absorb(x0, w, k) && x[..] == LastGroup(x0, dst[..8 * k])
      invariant src[8 * k..] == w[8 * k..]
    {
      ghost var done := dst[..8 * k];
      AbsorbNext(x0, w, k);
      AddGroup(x, src, w, k);
      MixInPlace(x);
      forall j | 0 <= j < 8 {
        dst[8 * k + j] := x[j];
      }
      assert dst[..8 * k + 8] == done + x[..];
      assert forall i :: 8 * k + 8 <= i < ISAAC_SZ ==> src[i] == w[8 * k..][i - 8 * k];
      k := k + 1;
    }
    assert dst[..8 * k] == dst[..];
  }

  lemma AbsorbNone(x: seq<Word>, w: seq<Word>)
    requires |x| == 8
    ensures Absorb(x, w, 0) == [] && LastGroup(x, []) == x
  {
  }

  /** Adds the eight words of group k to x. */
  method AddGroup(x: array<Word>, src: array<Word>, ghost w: seq<Word>, k: nat)
    requires x.Length == 8 && x != src && 8 * k + 8 <= src.Length == |w| && src[8 * k..] == w[8 * k..]
    modifies x
    ensures x[..] == AddWords(old(x[..]), Group(w, k))
  {
    hide Add;
    ghost var x0 := x[..];
    assert forall j :: 0 <= j < 8 ==> src[8 * k + j] == src[8 * k..][j] == w[8 * k..][j] == Group(w, k)[j];
    for j := 0 to 8
      invariant forall i :: 0 <= i < j ==> x[i] == Add(x0[i], Group(w, k)[i])
      invariant forall i :: j <= i < 8 ==> x[i] == x0[i]
    {
      x[j] := Add(x[j], src[8 * k + j]);
    }
  }

  class Generator {
    var n: nat
    const r: array<Word>
    const m: array<Word>
    var a: Word
    var b: Word
    var c: Word

    ghost predicate Shape()
      reads this
    {
      r.Length == m.Length == ISAAC_SZ && r != m && n <= ISAAC_SZ
    }

    ghost function Current(): (t: State)
      reads this, m
    {
      State(m[..], a, b, c)
    }

    ghost function Ctx(): (r: Context)
      reads this, m
    {
      Context(Current(), n)
    }

    /** The draw buffer holds the words of the last update, so it is determined by the rest. */
    ghost predicate Valid()
      reads this, m, r
    {
      && Shape()
      && forall i :: 0 <= i < ISAAC_SZ ==> r[i] == Output(Undo(Current()), i)
    }

    /** One of the 256 steps of isaac_update. */
    method UpdateStep(a0: Word, b0: Word, i: nat) returns (a1: Word, b1: Word)
      requires Shape() && i < ISAAC_SZ
      modifies m, r
      ensures r[..] == old(r[..])[i := b1]
      ensures forall z: Word {:trigger State(m[..], a1, b1, z)} ::
        State(m[..], a1, b1, z) == Step(State(old(m[..]), a0, b0, z), i)
    {
      hide Stir, Add, LowIndex, HighIndex;
      ghost var m0 := m[..];
      var x := m[i];
      a1 := Add(Stir(i % 4, a0), m[Opposite(i)]);
      var y := Add(Add(m[LowIndex(x)], a1), b0);
      m[i] := y;
      assert m[..] == m0[i := y];
      b1 := Add(m[HighIndex(y)], x);
      r[i] := b1;
    }

    /** isaac_update. */
    method Update()
      requires Shape()
      modifies this, m, r
      ensures Valid() && Ctx() == Context(IsaacState.Update(old(Current())), ISAAC_SZ)
    {
      hide Step, Steps, Add, Started, Undo, Output;
      ghost var s0 := Current();
      ghost var s1 := Started(s0);
      StartedIs(s0);
      c := Add(c, 1);
      var a', b' := a, Add(b, c);
      var i := 0;
      while i < ISAAC_SZ
        invariant 0 <= i <= ISAAC_SZ && Shape() && c == s1.c
        invariant State(m[..], a', b', c) == Steps(s1, i)
        invariant forall j :: 0 <= j < i ==> r[j] == Output(s0, j)
      {
        ghost var r0 := r[..];
        StepsNext(s0, i);
        a', b' := UpdateStep(a', b', i);
        assert State(m[..], a', b', c) == Steps(s1, i + 1);
        assert forall j :: 0 <= j < ISAAC_SZ ==> r[..][j] == r[j];
        i := i + 1;
      }
      b, a, n := b', a', ISAAC_SZ;
      UpdateIsBijection(s0);
    }

    /** isaac_init. */
    constructor (seed: seq<Byte>)
      ensures Valid() && fresh(r) && fresh(m) && Ctx() == Context(Seeded(seed), ISAAC_SZ)
    {
      hide Mix, Absorb, LastGroup, Undo, Output, IsaacState.Update, SeedWords, Scattered, Seeded, MixedTimes,
        StartWords;
      var words := new Word[ISAAC_SZ](_ => 0);
      var mm := new Word[ISAAC_SZ](_ => 0);
      a, b, c, n := 0, 0, 0, 0;
      r, m := words, mm;
      new;
      var x := new Word[8](_ => GOLDEN);
      ghost var x0 := x[..];
      assert x0 == [GOLDEN, GOLDEN, GOLDEN, GOLDEN, GOLDEN, GOLDEN, GOLDEN, GOLDEN];
      MixTimesNext(x0, 0);
      for i := 0 to 4
        invariant fresh(x) && x[..] == MixedTimes(x0, i)
        invariant Shape() && a == b == c == n == 0
      {
        MixTimesNext(x0, i);
        MixInPlace(x);
      }
      LoadSeed(r, seed);
      AbsorbPass(x, r, m);
      AbsorbPass(x, m, m);
      SeededIs(seed, x0);
      Update();
    }

    /** isaac_next_uint32. */
    method NextUint32() returns (v: Word)
      requires Valid()
      modifies this, m, r
      ensures Valid() && v == Drawn(old(Ctx())) && Ctx() == AfterDraw(old(Ctx()))
    {
      hide IsaacState.Update, Undo, Output;
      if n == 0 {
        UpdateIsBijection(Current());
        Update();
      }
      n := n - 1;
      v := r[n];
    }

    /** isaac_next_uint: the first draw that is kept, reduced modulo the bound.  The loop ends if
        any draw is kept, say one of the first limit draws; otherwise it would never end. */
    method NextUint(bound: Word, ghost limit: nat) returns (v: Word, ghost k: nat)
      requires Valid() && 0 < bound && exists j :: 0 <= j < limit && !Dropped(Ctx(), bound, j)
      modifies this, m, r
      ensures Valid() && ContextOk(old(Ctx())) && Ctx() == AfterDraws(old(Ctx()), k + 1)
      ensures !Dropped(old(Ctx()), bound, k) && forall j :: 0 <= j < k ==> Dropped(old(Ctx()), bound, j)
      ensures v == Drawn(AfterDraws(old(Ctx()), k)) % bound < bound
    {
      hide Drawn, AfterDraw, Undo, Output;
      ghost var c0 := Ctx();
      k := 0;
      while true
        invariant Valid() && Ctx() == AfterDraws(c0, k)
        invariant forall j :: 0 <= j < k ==> Dropped(c0, bound, j)
        decreases limit - k
      {
        var r := NextUint32();
        v := r % bound;
        var d := r - v;
        if !((d + bound - 1) % 0x1_0000_0000 < d) {
          return;
        }
        k := k + 1;
      }
    }
  }

  lemma StartedIs(s: State)
    requires |s.m| == ISAAC_SZ
    ensures Started(s) == State(s.m, s.a, Add(s.b, Add(s.c, 1)), Add(s.c, 1))
    ensures Started(s) == Steps(Started(s), 0)
  {
  }

  lemma StepsNext(s: State, i: nat)
    requires |s.m| == ISAAC_SZ && i < ISAAC_SZ
    ensures Steps(Started(s), i + 1) == Step(Steps(Started(s), i), i)
    ensures Output(s, i) == Steps(Started(s), i + 1).b
  {
  }

  function MixedTimes(x: seq<Word>, k: nat): (y: seq<Word>)
    requires |x| == 8
    ensures |y| == 8
  {
    if k == 0 then x else Mix(MixedTimes(x, k - 1))
  }

  lemma MixTimesNext(x: seq<Word>, k: nat)
    requires |x| == 8
    ensures MixedTimes(x, k + 1) == Mix(MixedTimes(x, k)) && MixedTimes(x, 0) == x
  {
  }

  lemma SeededIs(seed: seq<Byte>, x: seq<Word>)
    requires x == [GOLDEN, GOLDEN, GOLDEN, GOLDEN, GOLDEN, GOLDEN, GOLDEN, GOLDEN]
    ensures MixedTimes(x, 4) == StartWords()
    ensures Seeded(seed) == IsaacState.Update(State(Scattered(SeedWords(seed)), 0, 0, 0))
    ensures var m := Absorb(StartWords(), SeedWords(seed), ISAAC_SZ / 8);
      Scattered(SeedWords(seed)) == Absorb(LastGroup(StartWords(), m), m, ISAAC_SZ / 8)
  {
    hide Mix, Absorb, LastGroup, SeedWord;
    MixTimesNext(x, 0);
    MixTimesNext(x, 1);
    MixTimesNext(x, 2);
    MixTimesNext(x, 3);
  }

  /** The seed loop of isaac_init: whole words, a partial word, and zeros. */
  method LoadSeed(r: array<Word>, seed: seq<Byte>)
    requires r.Length == ISAAC_SZ
    modifies r
    ensures r[..] == SeedWords(seed)
  {
    var nseed := if |seed| > ISAAC_SEED_SZ_MAX then ISAAC_SEED_SZ_MAX else |seed|;
    var i := 0;
    while i < nseed / 4
      invariant 0 <= i <= nseed / 4
      invariant forall j :: 0 <= j < i ==> r[j] == SeedWord(seed, j)
    {
      r[i] := (seed[4 * i + 3] as int) * 0x100_0000 + (seed[4 * i + 2] as int) * 0x1_0000
        + (seed[4 * i + 1] as int) * 0x100 + seed[4 * i];
      i := i + 1;
    }
    if nseed % 4 != 0 {
      r[i] := seed[4 * i];
      var j := 1;
      while j < nseed % 4
        invariant 1 <= j <= nseed % 4
        invariant r[i] == seed[4 * i] + (if j > 1 then (seed[4 * i + 1] as int) * 0x100 else 0)
                                      + (if j > 2 then (seed[4 * i + 2] as int) * 0x1_0000 else 0)
        invariant forall k :: 0 <= k < i ==> r[k] == SeedWord(seed, k)
      {
        r[i] := r[i] + (seed[4 * i + j] as int) * (if j == 1 then 0x100 else 0x1_0000);
        j := j + 1;
      }
      i := i + 1;
    }
    while i < ISAAC_SZ
      invariant 0 <= i <= ISAAC_SZ && nseed <= 4 * i
      invariant forall j :: 0 <= j < i ==> r[j] == SeedWord(seed, j)
    {
      r[i] := 0;
      i := i + 1;
    }
  }
}
