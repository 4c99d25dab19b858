/** Seeding of the ISAAC generator (isaac_mix, isaac_init): the mixing of eight words is a
    bijection, and two seeds give the same generator exactly when they are equal after being cut
    to 1024 bytes and filled up with zero bytes. */
module IsaacInit {
  import opened Arith
  import opened IsaacState

  const ISAAC_SEED_SZ_MAX: nat := 4 * ISAAC_SZ

  const GOLDEN: Word := 0x9E3779B9

  // ----- isaac_mix -----

  /** The shifts of the eight mixing steps, left ones positive. */
  function MixShift(i: nat): (v: int) {
    if i == 0 then 11 else if i == 1 then -2 else if i == 2 then 8 else if i == 3 then -16
    else if i == 4 then 10 else if i == 5 then -4 else if i == 6 then 8 else -9
  }

  /** One mixing step on words i to i + 3, counted around the array. */
  function MixStep(x: seq<Word>, i: nat): (y: seq<Word>)
    requires |x| == 8 && i < 8
    ensures |y| == 8
  {
    var x1 := x[i := XorShifted(x[i], x[(i + 1) % 8], MixShift(i))];
    var x2 := x1[(i + 3) % 8 := Add(x1[(i + 3) % 8], x1[i])];
    x2[(i + 1) % 8 := Add(x2[(i + 1) % 8], x2[(i + 2) % 8])]
  }

  function UnmixStep(y: seq<Word>, i: nat): (x: seq<Word>)
    requires |y| == 8 && i < 8
    ensures |x| == 8
  {
    var x2 := y[(i + 1) % 8 := Sub(y[(i + 1) % 8], y[(i + 2) % 8])];
    var x1 := x2[(i + 3) % 8 := Sub(x2[(i + 3) % 8], x2[i])];
    x1[i := XorShifted(x1[i], x1[(i + 1) % 8], MixShift(i))]
  }

  lemma MixStepInverse(x: seq<Word>, i: nat)
    requires |x| == 8 && i < 8
    ensures UnmixStep(MixStep(x, i), i) == x && MixStep(UnmixStep(x, i), i) == x
  {
    hide XorShifted, Add, Sub, MixShift;
    var i1, i2, i3 := (i + 1) % 8, (i + 2) % 8, (i + 3) % 8;
    assert i != i1 && i != i2 && i != i3 && i1 != i2 && i1 != i3 && i2 != i3;
    var s := XorShifted(x[i], x[i1], MixShift(i));
    XorShiftedTwice(x[i], x[i1], MixShift(i));
    AddSub(x[i3], s);
    AddSub(x[i1], x[i2]);
    AddSub(x[i3], x[i]);
    XorShiftedTwice(x[i], Sub(x[i1], x[i2]), MixShift(i));
  }

  function Mixed(x: seq<Word>, n: nat): (y: seq<Word>)
    requires |x| == 8 && n <= 8
    ensures |y| == 8
  {
    if n == 0 then x else MixStep(Mixed(x, n - 1), n - 1)
  }

  function Unmixed(y: seq<Word>, n: nat): (x: seq<Word>)
    requires |y| == 8 && n <= 8
    ensures |x| == 8
    decreases n
  {
    if n == 0 then y else Unmixed(UnmixStep(y, n - 1), n - 1)
  }

  lemma {:induction false} MixedInverse(x: seq<Word>, n: nat)
    requires |x| == 8 && n <= 8
    ensures Unmixed(Mixed(x, n), n) == x && Mixed(Unmixed(x, n), n) == x
    decreases n
  {
    hide MixStep, UnmixStep;
    if n > 0 {
      MixStepInverse(Mixed(x, n - 1), n - 1);
      MixedInverse(x, n - 1);
      MixedInverse(UnmixStep(x, n - 1), n - 1);
      MixStepInverse(x, n - 1);
    }
  }

  function Mix(x: seq<Word>): (y: seq<Word>)
    requires |x| == 8
    ensures |y| == 8
  {
    Mixed(x, 8)
  }

  function Unmix(y: seq<Word>): (x: seq<Word>)
    requires |y| == 8
    ensures |x| == 8
  {
    Unmixed(y, 8)
  }

  /** isaac_mix is a bijection on eight words. */
  lemma MixIsBijection(x: seq<Word>)
    requires |x| == 8
    ensures Unmix(Mix(x)) == x && Mix(Unmix(x)) == x
  {
    hide Mixed, Unmixed;
    MixedInverse(x, 8);
  }

  // ----- absorbing an array, eight words at a time -----

  function AddWords(x: seq<Word>, w: seq<Word>): (s: seq<Word>)
    requires |x| == |w|
    ensures |s| == |x|
  {
    seq(|x|, j requires 0 <= j < |x| => Add(x[j], w[j]))
  }

  function SubWords(x: seq<Word>, w: seq<Word>): (s: seq<Word>)
    requires |x| == |w|
    ensures |s| == |x|
  {
    seq(|x|, j requires 0 <= j < |x| => Sub(x[j], w[j]))
  }

  lemma SubAddWords(x: seq<Word>, w: seq<Word>)
    requires |x| == |w|
    ensures SubWords(AddWords(x, w), x) == w
  {
    hide Add, Sub;
    forall j | 0 <= j < |x| ensures Sub(Add(x[j], w[j]), x[j]) == w[j] {
      AddSub(w[j], x[j]);
    }
  }

  /** Words 8 k to 8 k + 7. */
  function Group(w: seq<Word>, k: nat): (g: seq<Word>)
    requires 8 * k + 8 <= |w|
    ensures |g| == 8
  {
    w[8 * k..8 * k + 8]
  }

  /** The last eight words written, or the initial ones. */
  function LastGroup(x: seq<Word>, y: seq<Word>): (g: seq<Word>)
    requires |x| == 8 && (y == [] || |y| >= 8)
    ensures |g| == 8
  {
    if y == [] then x else y[|y| - 8..]
  }

  /** The first n groups of eight words: each is added to the mixing words, which are mixed and
      written out. */
  function Absorb(x: seq<Word>, w: seq<Word>, n: nat): (y: seq<Word>)
    requires |x| == 8 && 8 * n <= |w|
    ensures |y| == 8 * n
  {
    if n == 0 then [] else
      var y := Absorb(x, w, n - 1);
      y + Mix(AddWords(LastGroup(x, y), Group(w, n - 1)))
  }

  lemma AbsorbNext(x: seq<Word>, w: seq<Word>, k: nat)
    requires |x| == 8 && 8 * k + 8 <= |w|
    ensures Absorb(x, w, k + 1) == Absorb(x, w, k) + Mix(AddWords(LastGroup(x, Absorb(x, w, k)), Group(w, k)))
    ensures LastGroup(x, Absorb(x, w, k + 1)) == Mix(AddWords(LastGroup(x, Absorb(x, w, k)), Group(w, k)))
  {
    hide Mix, AddWords, Group;
  }

  lemma GroupDetermined(g: seq<Word>, a: seq<Word>, b: seq<Word>)
    requires |g| == |a| == |b| == 8 && Mix(AddWords(g, a)) == Mix(AddWords(g, b))
    ensures a == b
  {
    hide Mix, Unmix, AddWords, SubWords;
    MixIsBijection(AddWords(g, a));
    MixIsBijection(AddWords(g, b));
    SubAddWords(g, a);
    SubAddWords(g, b);
  }

  lemma LastGroupSame(x: seq<Word>, z: seq<Word>, y: seq<Word>)
    requires |x| == |z| == 8 && (|y| >= 8 || (y == [] && x == z))
    ensures LastGroup(x, y) == LastGroup(z, y)
  {
  }

  lemma TailsEqual(y: seq<Word>, p: seq<Word>, z: seq<Word>, q: seq<Word>)
    requires |y| == |z| && y + p == z + q
    ensures y == z && p == q
  {
    assert y == (y + p)[..|y|] && z == (z + q)[..|y|];
    assert p == (y + p)[|y|..] && q == (z + q)[|y|..];
  }

  /** What was written determines the absorbed words: all groups but the first whatever the
      initial mixing words were, and the first one given them. */
  lemma {:induction false} AbsorbedGroups(x: seq<Word>, w: seq<Word>, z: seq<Word>, v: seq<Word>, n: nat)
    requires |x| == |z| == 8 && 8 * n <= |w| && 8 * n <= |v| && Absorb(x, w, n) == Absorb(z, v, n)
    ensures forall k :: 0 < k < n ==> Group(w, k) == Group(v, k)
    ensures x == z && n > 0 ==> Group(w, 0) == Group(v, 0)
  {
    hide Mix, AddWords, Group, Absorb, LastGroup;
    if n > 0 {
      AbsorbNext(x, w, n - 1);
      AbsorbNext(z, v, n - 1);
      var y, u := Absorb(x, w, n - 1), Absorb(z, v, n - 1);
      TailsEqual(y, Mix(AddWords(LastGroup(x, y), Group(w, n - 1))),
                 u, Mix(AddWords(LastGroup(z, u), Group(v, n - 1))));
      AbsorbedGroups(x, w, z, v, n - 1);
      if n > 1 || x == z {
        LastGroupSame(x, z, y);
        GroupDetermined(LastGroup(x, y), Group(w, n - 1), Group(v, n - 1));
      }
    }
  }

  lemma GroupsMakeAll(w: seq<Word>, v: seq<Word>, n: nat)
    requires |w| == |v| == 8 * n && forall k :: 0 <= k < n ==> Group(w, k) == Group(v, k)
    ensures w == v
  {
    forall i | 0 <= i < |w| ensures w[i] == v[i] {
      assert Group(w, i / 8)[i % 8] == w[i] && Group(v, i / 8)[i % 8] == v[i];
    }
  }

  // ----- seeds -----

  /** Byte i of a seed; zero behind its end. */
  function ByteAt(seed: seq<Byte>, i: nat): (b: Byte) {
    if i < |seed| then seed[i] else 0
  }

  /** Seeds that agree when cut to 1024 bytes and filled up with zeros. */
  ghost predicate SameSeed(p: seq<Byte>, q: seq<Byte>) {
    forall i :: 0 <= i < ISAAC_SEED_SZ_MAX ==> ByteAt(p, i) == ByteAt(q, i)
  }

  /** Word i of a seed, lowest byte first. */
  function SeedWord(seed: seq<Byte>, i: nat): (w: Word) {
    ByteAt(seed, 4 * i) + 0x100 * ByteAt(seed, 4 * i + 1)
      + 0x1_0000 * ByteAt(seed, 4 * i + 2) + 0x100_0000 * ByteAt(seed, 4 * i + 3)
  }

  function SeedWords(seed: seq<Byte>): (r: seq<Word>)
    ensures |r| == ISAAC_SZ
  {
    seq(ISAAC_SZ, i requires 0 <= i < ISAAC_SZ => SeedWord(seed, i))
  }

  /** The mixing words after the four initial rounds. */
  function StartWords(): (x: seq<Word>)
    ensures |x| == 8
  {
    Mix(Mix(Mix(Mix([GOLDEN, GOLDEN, GOLDEN, GOLDEN, GOLDEN, GOLDEN, GOLDEN, GOLDEN]))))
  }

  /** The array after both passes over it. */
  function Scattered(r: seq<Word>): (m: seq<Word>)
    requires |r| == ISAAC_SZ
    ensures |m| == ISAAC_SZ
  {
    var m := Absorb(StartWords(), r, ISAAC_SZ / 8);
    Absorb(LastGroup(StartWords(), m), m, ISAAC_SZ / 8)
  }

  /** The state that isaac_init leaves. */
  function Seeded(seed: seq<Byte>): (s: State)
    ensures |s.m| == ISAAC_SZ
  {
    Update(State(Scattered(SeedWords(seed)), 0, 0, 0))
  }

  lemma LowByte(a: Byte, b: nat, c: Byte, d: nat)
    requires a + 0x100 * b == c + 0x100 * d
    ensures a == c && b == d
  {
  }

  lemma FourBytes(p0: Byte, p1: Byte, p2: Byte, p3: Byte, q0: Byte, q1: Byte, q2: Byte, q3: Byte)
    requires p0 + 0x100 * (p1 as int) + 0x1_0000 * (p2 as int) + 0x100_0000 * (p3 as int)
          == q0 + 0x100 * (q1 as int) + 0x1_0000 * (q2 as int) + 0x100_0000 * (q3 as int)
    ensures p0 == q0 && p1 == q1 && p2 == q2 && p3 == q3
  {
    var u2: nat, v2: nat := p2 + 0x100 * (p3 as int), q2 + 0x100 * (q3 as int);
    LowByte(p0, p1 + 0x100 * u2, q0, q1 + 0x100 * v2);
    LowByte(p1, u2, q1, v2);
    LowByte(p2, p3, q2, q3);
  }

  lemma SeedWordBytes(p: seq<Byte>, q: seq<Byte>, i: nat)
    requires SeedWord(p, i) == SeedWord(q, i)
    ensures forall j :: 4 * i <= j < 4 * i + 4 ==> ByteAt(p, j) == ByteAt(q, j)
  {
    hide ByteAt;
    FourBytes(ByteAt(p, 4 * i), ByteAt(p, 4 * i + 1), ByteAt(p, 4 * i + 2), ByteAt(p, 4 * i + 3),
              ByteAt(q, 4 * i), ByteAt(q, 4 * i + 1), ByteAt(q, 4 * i + 2), ByteAt(q, 4 * i + 3));
  }

  lemma SeedWordsSame(p: seq<Byte>, q: seq<Byte>)
    ensures SeedWords(p) == SeedWords(q) <==> SameSeed(p, q)
  {
    hide SeedWord, ByteAt;
    if SeedWords(p) == SeedWords(q) {
      forall j | 0 <= j < ISAAC_SEED_SZ_MAX ensures ByteAt(p, j) == ByteAt(q, j) {
        assert SeedWords(p)[j / 4] == SeedWords(q)[j / 4];
        SeedWordBytes(p, q, j / 4);
      }
    }
    if SameSeed(p, q) {
      forall i | 0 <= i < ISAAC_SZ ensures SeedWord(p, i) == SeedWord(q, i) {
        WordFromBytes(p, q, i);
      }
    }
  }

  lemma WordFromBytes(p: seq<Byte>, q: seq<Byte>, i: nat)
    requires SameSeed(p, q) && i < ISAAC_SZ
    ensures SeedWord(p, i) == SeedWord(q, i)
  {
    hide ByteAt;
  }

  lemma ScatteredInjective(r: seq<Word>, t: seq<Word>)
    requires |r| == |t| == ISAAC_SZ && Scattered(r) == Scattered(t)
    ensures r == t
  {
    hide StartWords, Absorb, Group;
    var x := StartWords();
    var m, n := Absorb(x, r, ISAAC_SZ / 8), Absorb(x, t, ISAAC_SZ / 8);
    AbsorbedGroups(LastGroup(x, m), m, LastGroup(x, n), n, ISAAC_SZ / 8);
    LastIsGroup(x, m);
    LastIsGroup(x, n);
    GroupsMakeAll(m, n, ISAAC_SZ / 8);
    AbsorbedGroups(x, r, x, t, ISAAC_SZ / 8);
    GroupsMakeAll(r, t, ISAAC_SZ / 8);
  }

  lemma LastIsGroup(x: seq<Word>, m: seq<Word>)
    requires |x| == 8 && |m| == ISAAC_SZ
    ensures LastGroup(x, m) == Group(m, ISAAC_SZ / 8 - 1)
  {
  }

  /** Two seeds start the same generator exactly when they agree on their first 1024 bytes,
      missing bytes counting as zero. */
  lemma SeedDeterminesState(p: seq<Byte>, q: seq<Byte>)
    ensures Seeded(p) == Seeded(q) <==> SameSeed(p, q)
  {
    hide Scattered, SeedWords, Update, Undo, SameSeed;
    SeedWordsSame(p, q);
    UpdateIsBijection(State(Scattered(SeedWords(p)), 0, 0, 0));
    UpdateIsBijection(State(Scattered(SeedWords(q)), 0, 0, 0));
    if Seeded(p) == Seeded(q) {
      ScatteredInjective(SeedWords(p), SeedWords(q));
    }
  }
}
