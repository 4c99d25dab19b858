/** The steps of isaac_update, isaac_mix and isaac_init in numbers: shifts as products and
    quotients, array places as remainders, exclusive or of numbers. */
module IsaacWords {
  import opened Arith
  import opened BitStrings
  import opened IsaacState
  import opened IsaacInit
  import Isaac

  // ----- exclusive or with a shifted word -----

  lemma XorIs(v: Word, c: Bits)
    requires |c| == 32
    ensures WordOf(XorBits(WordBits(v), c)) == Xor(v, WordOf(c))
  {
    hide BitsOf, NumOf, Pow2, Xor;
    var w := WordOf(c);
    WordBitsInverse(v, c);
    XorBitsOf(v, w, 32);
    assert XorBits(WordBits(v), c) == BitsOf(Xor(v, w), 32);
    Pow2Values();
    XorLess(v, w, 32);
    NumOfBits(Xor(v, w), 32);
  }

  /** v ^ w << d is exclusive or with w times 2^d. */
  lemma XorLeftIs(v: Word, w: Word, d: nat, p: nat, h: nat)
    requires d <= 32 && Pow2(d) == p && h == w * p % 0x1_0000_0000
    ensures XorShifted(v, w, d) == Xor(v, h)
  {
    hide WordBits, WordOf, Shift, XorBits, Xor, Pow2;
    XorIs(v, Shift(WordBits(w), d));
    ShiftLeft(w, d);
  }

  /** v ^ w >> d is exclusive or with w divided by 2^d. */
  lemma XorRightIs(v: Word, w: Word, d: nat, p: nat, h: nat)
    requires d <= 32 && 0 < p == Pow2(d) && h == w / p
    ensures XorShifted(v, w, 0 - d) == Xor(v, h)
  {
    hide WordBits, WordOf, Shift, XorBits, Xor, Pow2;
    XorIs(v, Shift(WordBits(w), 0 - d));
    ShiftRight(w, d);
  }

  lemma Powers()
    ensures Pow2(2) == 4 && Pow2(4) == 0x10 && Pow2(6) == 0x40 && Pow2(8) == 0x100 && Pow2(9) == 0x200
    ensures Pow2(10) == 0x400 && Pow2(11) == 0x800 && Pow2(13) == 0x2000 && Pow2(16) == 0x1_0000
  {
    assert Pow2(4) == 16;
    Pow2Add(4, 4);
    Pow2Add(8, 5);
    Pow2Add(8, 8);
    assert Pow2(5) == 32;
    assert Pow2(11) == 8 * Pow2(8);
  }

  /** Addition modulo 2^32. */
  function Plus(p: int, q: int): (w: Word) {
    (p + q) % 0x1_0000_0000
  }

  // ----- isaac_update -----

  /** What a is combined with: a << 13, a >> 6, a << 2 and a >> 16 in turn. */
  function Stirred(i: nat, a: Word): (w: Word) {
    if i % 4 == 0 then a * 0x2000 % 0x1_0000_0000
    else if i % 4 == 1 then a / 0x40
    else if i % 4 == 2 then a * 4 % 0x1_0000_0000
    else a / 0x1_0000
  }

  /** Step i of isaac_update. */
  ghost predicate IsStep(s: State, i: nat, t: State) {
    && |s.m| == |t.m| == 256 && i < 256
    && var x := s.m[i];
       var y := t.m[i];
       && t.a == Plus(Xor(s.a, Stirred(i, s.a)), s.m[(i + 128) % 256])
       && y == Plus(s.m[x / 4 % 256], t.a + s.b)
       && t.m == s.m[i := y]
       && t.b == Plus(t.m[y / 1024 % 256], x)
       && t.c == s.c
  }

  lemma StirIs(i: nat, a: Word)
    ensures Stir(i % 4, a) == Xor(a, Stirred(i, a))
  {
    hide XorShifted, Xor, Pow2;
    Powers();
    XorLeftIs(a, a, 13, 0x2000, a * 0x2000 % 0x1_0000_0000);
    XorRightIs(a, a, 6, 0x40, a / 0x40);
    XorLeftIs(a, a, 2, 4, a * 4 % 0x1_0000_0000);
    XorRightIs(a, a, 16, 0x1_0000, a / 0x1_0000);
  }

  lemma StepIs(s: State, i: nat)
    requires |s.m| == 256 && i < 256
    ensures IsStep(s, i, Step(s, i))
  {
    hide Stir, Stirred, Xor;
    StirIs(i, s.a);
    AddThree(s.m[LowIndex(s.m[i])], Step(s, i).a, s.b);
    OppositeIs(i);
  }

  lemma AddThree(p: Word, q: Word, r: Word)
    ensures Add(Add(p, q), r) == Plus(p, q + r)
  {
  }

  lemma OppositeIs(i: nat)
    requires i < 256
    ensures Opposite(i) == (i + 128) % 256
  {
  }

  /** isaac_update: the counter grows and is added to b; 256 steps; the words of the draw buffer
      are the values of b behind the steps. */
  lemma UpdateIs(s: State) returns (run: seq<State>)
    requires |s.m| == 256
    ensures |run| == 257
    ensures var c := Plus(s.c, 1); run[0] == State(s.m, s.a, Plus(s.b, c), c)
    ensures forall i :: 0 <= i < 256 ==> IsStep(run[i], i, run[i + 1])
    ensures Update(s) == run[256] && forall i :: 0 <= i < 256 ==> Output(s, i) == run[i + 1].b
  {
    hide Step, Steps, IsStep;
    run := seq(257, i requires 0 <= i < 257 => Steps(Started(s), i));
    Isaac.StartedIs(s);
    forall i | 0 <= i < 256 ensures IsStep(run[i], i, run[i + 1]) && Output(s, i) == run[i + 1].b {
      Isaac.StepsNext(s, i);
      StepIs(run[i], i);
    }
  }

  /** The words of an update are drawn from the last one to the first. */
  lemma {:induction false} DrawOrder(s: State, k: nat)
    requires |s.m| == 256 && k < 256
    ensures Isaac.Drawn(Isaac.AfterDraws(Isaac.Context(s, 0), k)) == Output(s, 255 - k)
    ensures Isaac.AfterDraws(Isaac.Context(s, 0), k + 1) == Isaac.Context(Update(s), 255 - k)
  {
    hide Update, Undo, Output;
    var c := Isaac.Context(s, 0);
    assert Isaac.AfterDraws(c, k + 1) == Isaac.AfterDraw(Isaac.AfterDraws(c, k));
    if k == 0 {
      assert Isaac.AfterDraws(c, 0) == c;
    } else {
      DrawOrder(s, k - 1);
      UpdateIsBijection(s);
    }
  }

  // ----- isaac_mix -----

  /** What word i is combined with: the next word, shifted by 11, 2, 8, 16, 10, 4, 8 and 9 to the
      left and to the right in turn. */
  function Turned(i: nat, w: Word): (r: Word) {
    if i == 0 then w * 0x800 % 0x1_0000_0000 else if i == 1 then w / 4
    else if i == 2 then w * 0x100 % 0x1_0000_0000 else if i == 3 then w / 0x1_0000
    else if i == 4 then w * 0x400 % 0x1_0000_0000 else if i == 5 then w / 0x10
    else if i == 6 then w * 0x100 % 0x1_0000_0000 else w / 0x200
  }

  /** Step i of isaac_mix: word i is combined with the next one, and two more words are added to. */
  ghost predicate IsMixStep(x: seq<Word>, i: nat, y: seq<Word>) {
    && |x| == |y| == 8 && i < 8
    && y[i] == Xor(x[i], Turned(i, x[(i + 1) % 8]))
    && y[(i + 3) % 8] == Plus(x[(i + 3) % 8], y[i])
    && y[(i + 1) % 8] == Plus(x[(i + 1) % 8], x[(i + 2) % 8])
    && forall j :: 0 <= j < 8 && j != i && j != (i + 1) % 8 && j != (i + 3) % 8 ==> y[j] == x[j]
  }

  lemma TurnIs(i: nat, v: Word, w: Word)
    requires i < 8
    ensures XorShifted(v, w, MixShift(i)) == Xor(v, Turned(i, w))
  {
    hide XorShifted, Xor, Pow2;
    Powers();
    XorLeftIs(v, w, 11, 0x800, w * 0x800 % 0x1_0000_0000);
    XorRightIs(v, w, 2, 4, w / 4);
    XorLeftIs(v, w, 8, 0x100, w * 0x100 % 0x1_0000_0000);
    XorRightIs(v, w, 16, 0x1_0000, w / 0x1_0000);
    XorLeftIs(v, w, 10, 0x400, w * 0x400 % 0x1_0000_0000);
    XorRightIs(v, w, 4, 0x10, w / 0x10);
    XorRightIs(v, w, 9, 0x200, w / 0x200);
  }

  lemma MixStepIs(x: seq<Word>, i: nat)
    requires |x| == 8 && i < 8
    ensures IsMixStep(x, i, MixStep(x, i))
  {
    hide XorShifted, MixShift, Turned, Xor;
    TurnIs(i, x[i], x[(i + 1) % 8]);
    var i1, i2, i3 := (i + 1) % 8, (i + 2) % 8, (i + 3) % 8;
    assert i != i1 && i != i2 && i != i3 && i1 != i2 && i1 != i3 && i2 != i3;
  }

  /** isaac_mix: the eight steps in order. */
  lemma MixIs(x: seq<Word>) returns (run: seq<seq<Word>>)
    requires |x| == 8
    ensures |run| == 9 && run[0] == x && run[8] == Mix(x)
    ensures forall i :: 0 <= i < 8 ==> IsMixStep(run[i], i, run[i + 1])
  {
    hide MixStep, IsMixStep;
    run := seq(9, i requires 0 <= i < 9 => Mixed(x, i));
    forall i | 0 <= i < 8 ensures IsMixStep(run[i], i, run[i + 1]) {
      MixStepIs(run[i], i);
    }
  }

  // ----- isaac_init -----

  /** Byte i of a seed, zero if it is missing. */
  function SeedByte(seed: seq<Byte>, i: nat): (b: nat) {
    if i < |seed| then seed[i] else 0
  }

  /** The words of a seed hold its bytes, lowest first. */
  lemma SeedWordIs(seed: seq<Byte>, i: nat)
    requires i < 256
    ensures var w := SeedWords(seed)[i];
      && w % 0x100 == SeedByte(seed, 4 * i) && w / 0x100 % 0x100 == SeedByte(seed, 4 * i + 1)
      && w / 0x1_0000 % 0x100 == SeedByte(seed, 4 * i + 2) && w / 0x100_0000 == SeedByte(seed, 4 * i + 3)
  {
    var low, high := ByteAt(seed, 4 * i) + 0x100 * ByteAt(seed, 4 * i + 1),
      ByteAt(seed, 4 * i + 2) + 0x100 * ByteAt(seed, 4 * i + 3);
    assert SeedWords(seed)[i] == SeedWord(seed, i);
    TwoDigits(ByteAt(seed, 4 * i), ByteAt(seed, 4 * i + 1));
    TwoDigits(ByteAt(seed, 4 * i + 2), ByteAt(seed, 4 * i + 3));
    TwoHalves(low, high);
  }

  lemma TwoDigits(p: Byte, q: Byte)
    ensures var n := p + 0x100 * (q as int); n % 0x100 == p && n / 0x100 == q && 0 <= n < 0x1_0000
  {
  }

  lemma TwoHalves(low: nat, high: nat)
    requires low < 0x1_0000 && high < 0x1_0000
    ensures var w := low + 0x1_0000 * high;
      && w % 0x100 == low % 0x100 && w / 0x100 % 0x100 == low / 0x100
      && w / 0x1_0000 % 0x100 == high % 0x100 && w / 0x100_0000 == high / 0x100
  {
    var w := low + 0x1_0000 * high;
    assert w / 0x100 == low / 0x100 + 0x100 * high;
    assert w / 0x1_0000 == high;
  }

  /** One pass: each group of eight words is added to the eight words written before it, or to the
      initial ones; the sums are mixed and written. */
  lemma AbsorbIs(x: seq<Word>, w: seq<Word>, k: nat) returns (sums: seq<Word>)
    requires |x| == 8 && |w| == 256 && k < 32
    ensures |sums| == 8 && Absorb(x, w, 32)[8 * k..8 * k + 8] == Mix(sums)
    ensures forall j :: 0 <= j < 8 ==>
      sums[j] == Plus(if k == 0 then x[j] else Absorb(x, w, 32)[8 * k - 8 + j], w[8 * k + j])
  {
    hide Mix, Absorb;
    AbsorbPrefix(x, w, k, 32);
    AbsorbPrefix(x, w, k + 1, 32);
    AbsorbNext(x, w, k);
    sums := AddWords(LastGroup(x, Absorb(x, w, k)), Group(w, k));
    Isaac.AbsorbNone(x, w);
  }

  lemma {:induction false} AbsorbPrefix(x: seq<Word>, w: seq<Word>, k: nat, n: nat)
    requires |x| == 8 && k <= n && 8 * n <= |w|
    ensures Absorb(x, w, n)[..8 * k] == Absorb(x, w, k)
    decreases n
  {
    hide Mix, AddWords, LastGroup;
    if k < n {
      AbsorbPrefix(x, w, k, n - 1);
    }
  }

  /** isaac_init: four rounds of mixing from the golden ratio, two passes, and an update. */
  lemma SeededIs(seed: seq<Byte>) returns (start: seq<Word>, once: seq<Word>, twice: seq<Word>)
    ensures var g := 0x9E3779B9; |start| == 8 && start == Mix(Mix(Mix(Mix([g, g, g, g, g, g, g, g]))))
    ensures once == Absorb(start, SeedWords(seed), 32)
    ensures |once| == 256 && twice == Absorb(once[248..], once, 32)
    ensures |twice| == 256 && Seeded(seed) == Update(State(twice, 0, 0, 0))
  {
    hide Mix, Absorb, Update;
    start := StartWords();
    once := Absorb(start, SeedWords(seed), 32);
    twice := Absorb(once[248..], once, 32);
  }
}
