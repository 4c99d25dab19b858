/** The state transition of the ISAAC generator (isaac_update) and its inverse.

    The transition runs 256 steps over an array of 256 words.  Each step reads the array at
    places that depend on the data, overwrites one word, and moves the accumulators a and b.
    It is a bijection: the step can be undone although the word it overwrote is gone. */
module IsaacState {
  import opened Arith
  import opened BitStrings

  /** A 32-bit word. */
  type Word = w: int | 0 <= w < 0x1_0000_0000

  const ISAAC_SZ: nat := 256

  // ----- arithmetic of words -----

  /** Addition wraps around. */
  function Add(p: Word, q: Word): (w: Word) {
    (p + q) % 0x1_0000_0000
  }

  function Sub(p: Word, q: Word): (w: Word) {
    (p - q) % 0x1_0000_0000
  }

  lemma AddSub(p: Word, q: Word)
    ensures Sub(Add(p, q), q) == p && Add(Sub(p, q), q) == p && Sub(Add(q, p), q) == p && Add(q, Sub(p, q)) == p
  {
  }

  function WordBits(w: Word): (b: Bits)
    ensures |b| == 32
  {
    BitsOf(w, 32)
  }

  function WordOf(b: Bits): (w: Word)
    requires |b| == 32
  {
    BitsOfNum(b);
    Pow2Values();
    NumOf(b)
  }

  lemma WordBitsInverse(w: Word, b: Bits)
    requires |b| == 32
    ensures WordOf(WordBits(w)) == w && WordBits(WordOf(b)) == b
  {
    Pow2Values();
    NumOfBits(w, 32);
    BitsOfNum(b);
  }

  /** The bits moved by d places, to the left when d is positive; zeros come in. */
  function Shift(b: Bits, d: int): (c: Bits)
    requires |b| == 32
    ensures |c| == 32
  {
    seq(32, i requires 0 <= i < 32 => 0 <= i + d < 32 && b[i + d])
  }

  function XorBits(b: Bits, c: Bits): (x: Bits)
    requires |b| == |c| == 32
    ensures |x| == 32
  {
    seq(32, i requires 0 <= i < 32 => b[i] != c[i])
  }

  /** v ^ (w << d), or v ^ (w >> -d) when d is negative. */
  function XorShifted(v: Word, w: Word, d: int): (r: Word) {
    WordOf(XorBits(WordBits(v), Shift(WordBits(w), d)))
  }

  lemma XorShiftedTwice(v: Word, w: Word, d: int)
    ensures XorShifted(XorShifted(v, w, d), w, d) == v
  {
    hide BitsOf, NumOf, WordBits, WordOf;
    var b, c := WordBits(v), Shift(WordBits(w), d);
    WordBitsInverse(v, XorBits(b, c));
    assert XorBits(XorBits(b, c), c) == b;
  }

  lemma {:induction false} ZeroBits(n: nat)
    ensures forall i :: 0 <= i < n ==> !BitsOf(0, n)[i]
  {
    if n > 0 {
      ZeroBits(n - 1);
    }
  }

  /** Moving the bits to the left multiplies by a power of two and drops what overflows. */
  lemma ShiftLeft(w: Word, d: nat)
    requires d <= 32
    ensures WordOf(Shift(WordBits(w), d)) == w * Pow2(d) % 0x1_0000_0000
  {
    hide BitsOf, NumOf, WordOf, Pow2;
    var p := Pow2(32 - d);
    var hi, lo := w / p, w % p;
    assert w == hi * p + lo;
    BitsJoin(hi, d, lo, 32 - d);
    Pow2Add(32 - d, d);
    Pow2Values();
    MulLess(lo, p, Pow2(d));
    BitsJoin(lo, 32 - d, 0, d);
    ZeroBits(d);
    assert Shift(WordBits(w), d) == BitsOf(lo * Pow2(d), 32);
    WordBitsInverse(lo * Pow2(d), WordBits(w));
    Distribute(hi, p, lo, Pow2(d));
    DivModUnique(w * Pow2(d), 0x1_0000_0000, hi, lo * Pow2(d));
  }

  lemma Distribute(hi: nat, p: nat, lo: nat, q: nat)
    ensures (hi * p + lo) * q == hi * (p * q) + lo * q
  {
  }

  /** Moving the bits to the right divides by a power of two. */
  lemma ShiftRight(w: Word, d: nat)
    requires d <= 32
    ensures WordOf(Shift(WordBits(w), 0 - d)) == w / Pow2(d)
  {
    hide BitsOf, NumOf, WordOf, Pow2;
    var hi, lo := w / Pow2(d), w % Pow2(d);
    assert w == hi * Pow2(d) + lo;
    BitsJoin(hi, 32 - d, lo, d);
    ZeroBits(d);
    QuotientInside(hi, Pow2(d), w);
    Pow2Add(32 - d, d);
    Pow2Values();
    if hi >= Pow2(32 - d) {
      MulMono(Pow2(32 - d), hi, Pow2(d));
    }
    BitsJoin(0, d, hi, 32 - d);
    assert Shift(WordBits(w), 0 - d) == BitsOf(hi, 32);
    WordBitsInverse(hi, WordBits(w));
  }

  lemma QuotientInside(hi: nat, p: nat, w: Word)
    requires 0 < p && hi * p <= w
    ensures hi < 0x1_0000_0000
  {
    MulMono(1, p, hi);
  }

  // ----- xor of a word with its own shifted copy -----

  /** b ^ (b << d). */
  function Fold(b: Bits, d: int): (c: Bits)
    requires |b| == 32
    ensures |c| == 32
  {
    XorBits(b, Shift(b, d))
  }

  /** Folding twice by d is folding once by 2 d. */
  lemma FoldTwice(b: Bits, d: int)
    requires |b| == 32
    ensures Fold(Fold(b, d), d) == Fold(b, 2 * d)
  {
    var c := Fold(b, d);
    forall i | 0 <= i < 32 ensures Fold(c, d)[i] == Fold(b, 2 * d)[i] {
      assert c[i] == (b[i] != (0 <= i + d < 32 && b[i + d]));
    }
  }

  /** The inverse of folding: folds by d, 2 d, 4 d and so on, as long as anything moves. */
  function Unfold(b: Bits, d: int): (c: Bits)
    requires |b| == 32 && d != 0
    ensures |c| == 32
    decreases 32 - Magnitude(d)
  {
    if Magnitude(d) >= 32 then b else Unfold(Fold(b, d), 2 * d)
  }

  function Magnitude(d: int): (n: nat) {
    if d < 0 then -d else d
  }

  lemma {:induction false} UnfoldFold(b: Bits, d: int)
    requires |b| == 32 && d != 0
    ensures Unfold(Fold(b, d), d) == b
    decreases 32 - Magnitude(d)
  {
    hide XorBits, Shift;
    if Magnitude(d) >= 32 {
      FoldFar(b, d);
    } else {
      FoldTwice(b, d);
      UnfoldFold(b, 2 * d);
    }
  }

  lemma FoldFar(b: Bits, d: int)
    requires |b| == 32 && Magnitude(d) >= 32
    ensures Fold(b, d) == b
  {
  }

  lemma {:induction false} FoldUnfold(b: Bits, d: int)
    requires |b| == 32 && d != 0
    ensures Fold(Unfold(b, d), d) == b
    decreases 32 - Magnitude(d)
  {
    hide XorBits, Shift, Fold;
    if Magnitude(d) >= 32 {
      FoldFar(b, d);
    } else {
      var u := Unfold(Fold(b, d), 2 * d);
      FoldUnfold(Fold(b, d), 2 * d);
      FoldTwice(u, d);
      UnfoldFold(Fold(u, d), d);
      UnfoldFold(b, d);
    }
  }

  // ----- the words of one step -----

  /** How far the accumulator is shifted in a step: 13 left, 6 right, 2 left and 16 right in turn. */
  function StirBy(k: nat): (d: int)
    ensures d != 0
  {
    if k == 0 then 13 else if k == 1 then -6 else if k == 2 then 2 else -16
  }

  /** a ^ (a << 13), a ^ (a >> 6), a ^ (a << 2) or a ^ (a >> 16). */
  function Stir(k: nat, a: Word): (w: Word) {
    XorShifted(a, a, StirBy(k))
  }

  function Unstir(k: nat, v: Word): (w: Word) {
    WordOf(Unfold(WordBits(v), StirBy(k)))
  }

  lemma UnstirStir(k: nat, a: Word)
    ensures Unstir(k, Stir(k, a)) == a && Stir(k, Unstir(k, a)) == a
  {
    hide WordOf, WordBits, Unfold, XorBits, Shift;
    var b, d := WordBits(a), StirBy(k);
    WordBitsInverse(a, Fold(b, d));
    UnfoldFold(b, d);
    WordBitsInverse(a, Unfold(b, d));
    FoldUnfold(b, d);
  }

  function LowIndex(x: Word): (i: nat)
    ensures i < ISAAC_SZ
  {
    x / 4 % ISAAC_SZ
  }

  function HighIndex(y: Word): (i: nat)
    ensures i < ISAAC_SZ
  {
    y / 1024 % ISAAC_SZ
  }

  /** The word half the array away. */
  function Opposite(i: nat): (j: nat)
    requires i < ISAAC_SZ
    ensures j < ISAAC_SZ && j != i
  {
    if i < ISAAC_SZ / 2 then i + ISAAC_SZ / 2 else i - ISAAC_SZ / 2
  }

  // ----- one step and its inverse -----

  /** What a transition reads and writes; the draw buffer is not part of it. */
  datatype State = State(m: seq<Word>, a: Word, b: Word, c: Word)

  function Step(s: State, i: nat): (t: State)
    requires |s.m| == ISAAC_SZ && i < ISAAC_SZ
    ensures |t.m| == ISAAC_SZ && t.c == s.c
  {
    var x := s.m[i];
    var a := Add(Stir(i % 4, s.a), s.m[Opposite(i)]);
    var y := Add(Add(s.m[LowIndex(x)], a), s.b);
    var m := s.m[i := y];
    State(m, a, Add(m[HighIndex(y)], x), s.c)
  }

  function StepBack(t: State, i: nat): (s: State)
    requires |t.m| == ISAAC_SZ && i < ISAAC_SZ
    ensures |s.m| == ISAAC_SZ && s.c == t.c
  {
    var y := t.m[i];
    var x := Sub(t.b, t.m[HighIndex(y)]);
    var m := t.m[i := x];
    State(m, Unstir(i % 4, Sub(t.a, m[Opposite(i)])), Sub(y, Add(m[LowIndex(x)], t.a)), t.c)
  }

  lemma StepBackStep(s: State, i: nat)
    requires |s.m| == ISAAC_SZ && i < ISAAC_SZ
    ensures StepBack(Step(s, i), i) == s
  {
    hide Stir, Unstir, LowIndex, HighIndex, Add, Sub;
    var t := Step(s, i);
    var x, y := s.m[i], t.m[i];
    AddSub(x, t.m[HighIndex(y)]);
    assert t.m[i := x] == s.m;
    AddSub(Stir(i % 4, s.a), s.m[Opposite(i)]);
    UnstirStir(i % 4, s.a);
    AddSub(s.b, Add(s.m[LowIndex(x)], t.a));
  }

  lemma StepStepBack(t: State, i: nat)
    requires |t.m| == ISAAC_SZ && i < ISAAC_SZ
    ensures Step(StepBack(t, i), i) == t
  {
    hide Stir, Unstir, LowIndex, HighIndex, Add, Sub;
    var s := StepBack(t, i);
    var x, y := s.m[i], t.m[i];
    AddSub(t.b, t.m[HighIndex(y)]);
    UnstirStir(i % 4, Sub(t.a, s.m[Opposite(i)]));
    AddSub(t.a, s.m[Opposite(i)]);
    AddSub(y, Add(s.m[LowIndex(x)], t.a));
    assert s.m[i := y] == t.m;
  }

  // ----- the whole transition -----

  /** The first n steps. */
  function Steps(s: State, n: nat): (t: State)
    requires |s.m| == ISAAC_SZ && n <= ISAAC_SZ
    ensures |t.m| == ISAAC_SZ && t.c == s.c
  {
    if n == 0 then s else Step(Steps(s, n - 1), n - 1)
  }

  function StepsBack(t: State, n: nat): (s: State)
    requires |t.m| == ISAAC_SZ && n <= ISAAC_SZ
    ensures |s.m| == ISAAC_SZ && s.c == t.c
    decreases n
  {
    if n == 0 then t else StepsBack(StepBack(t, n - 1), n - 1)
  }

  lemma {:induction false} StepsBackSteps(s: State, n: nat)
    requires |s.m| == ISAAC_SZ && n <= ISAAC_SZ
    ensures StepsBack(Steps(s, n), n) == s
  {
    hide Step, StepBack;
    if n > 0 {
      StepBackStep(Steps(s, n - 1), n - 1);
      StepsBackSteps(s, n - 1);
    }
  }

  lemma {:induction false} StepsStepsBack(t: State, n: nat)
    requires |t.m| == ISAAC_SZ && n <= ISAAC_SZ
    ensures Steps(StepsBack(t, n), n) == t
    decreases n
  {
    hide Step, StepBack;
    if n > 0 {
      StepsStepsBack(StepBack(t, n - 1), n - 1);
      StepStepBack(t, n - 1);
    }
  }

  /** The counter moves and is added to b before the first step. */
  function Started(s: State): (r: State) {
    State(s.m, s.a, Add(s.b, Add(s.c, 1)), Add(s.c, 1))
  }

  /** isaac_update. */
  function Update(s: State): (t: State)
    requires |s.m| == ISAAC_SZ
    ensures |t.m| == ISAAC_SZ
  {
    Steps(Started(s), ISAAC_SZ)
  }

  /** The state before an update. */
  function Undo(t: State): (s: State)
    requires |t.m| == ISAAC_SZ
    ensures |s.m| == ISAAC_SZ
  {
    var s := StepsBack(t, ISAAC_SZ);
    State(s.m, s.a, Sub(s.b, s.c), Sub(s.c, 1))
  }

  /** isaac_update is a bijection on states: Undo is its inverse on both sides. */
  lemma UpdateIsBijection(s: State)
    requires |s.m| == ISAAC_SZ
    ensures Undo(Update(s)) == s && Update(Undo(s)) == s
  {
    hide Steps, StepsBack, Add, Sub;
    StepsBackSteps(Started(s), ISAAC_SZ);
    AddSub(s.b, Add(s.c, 1));
    AddSub(s.c, 1);
    StepsStepsBack(s, ISAAC_SZ);
    var u := StepsBack(s, ISAAC_SZ);
    AddSub(u.b, s.c);
    assert Started(Undo(s)) == u;
  }

  /** n updates in a row. */
  function Updated(s: State, n: nat): (t: State)
    requires |s.m| == ISAAC_SZ
    ensures |t.m| == ISAAC_SZ
  {
    if n == 0 then s else Update(Updated(s, n - 1))
  }

  /** No two states ever merge, however often they are updated. */
  lemma {:induction false} StatesNeverMerge(s: State, t: State, n: nat)
    requires |s.m| == |t.m| == ISAAC_SZ && s != t
    ensures Updated(s, n) != Updated(t, n)
  {
    hide Update, Undo;
    if n > 0 {
      StatesNeverMerge(s, t, n - 1);
      UpdateIsBijection(Updated(s, n - 1));
      UpdateIsBijection(Updated(t, n - 1));
    }
  }

  /** The word that step i leaves for the caller is the accumulator b. */
  function Output(s: State, i: nat): (w: Word)
    requires |s.m| == ISAAC_SZ && i < ISAAC_SZ
  {
    Steps(Started(s), i + 1).b
  }
}
