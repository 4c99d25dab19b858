/** The shipped JPEG tables and the bits of an MCU in numbers: the code words of T.81 tables K.3 to
    K.6, the appended bits of a value, and a scan written out. */
module JpegCodeWords {
  import opened Arith
  import opened BitStrings
  import opened JpegHuffman
  import opened JpegBlocks
  import opened JpegScan
  import opened JpegTables
  import opened JpegTableData

  // ----- appended bits -----

  /** A positive value is appended as it is, a negative one as the complement of its magnitude. */
  lemma AppendedBits(v: int, n: nat)
    requires v != 0 && n == Category(Abs(v))
    ensures 1 <= n && Pow2(n - 1) <= Abs(v) < Pow2(n)
    ensures VliBits(v, n) == if v > 0 then v else Pow2(n) - 1 - Abs(v)
  {
    hide Pow2;
    CategoryBounds(Abs(v));
    if v > 0 {
      ModSmall(v, Pow2(n));
    } else {
      ModShift(v - 1, Pow2(n));
    }
  }

  // ----- code words -----

  lemma {:induction false} SizesPrefix(bits: seq<nat>, i: nat, j: nat)
    requires i <= j <= |bits|
    ensures Sizes(bits, i) <= Sizes(bits, j)
  {
    if i < j {
      SizesPrefix(bits, i, j - 1);
    }
  }

  lemma {:induction false} TakenSame(l: seq<nat>, k: nat, m: nat, n: nat)
    requires Sorted(l) && k + m <= |l| && 1 <= n <= 16 && forall i :: k <= i < k + m ==> l[i] == n
    ensures Taken(l, k + m) == Taken(l, k) + m * Pow2(16 - n)
  {
    if m > 0 {
      TakenSame(l, k, m - 1, n);
      assert m * Pow2(16 - n) == (m - 1) * Pow2(16 - n) + Pow2(16 - n);
    }
  }

  lemma TableAt(s: Spec, t: Table, k: nat)
    requires SpecOk(s) && TableFor(s, t) && k < Before(s.bits, 16)
    ensures var l := Sizes(s.bits, 16);
      && k < |s.vals| && Sorted(l) && t.size[s.vals[k]] == l[k]
      && t.code[s.vals[k]] * Pow2(16 - l[k]) == Taken(l, k)
  {
    hide Pow2, CodeAt, Taken, KraftSum, Sizes;
    CodeScaled(Sizes(s.bits, 16), k);
  }

  lemma TakenOfPrefix(p: seq<nat>, l: seq<nat>)
    requires Sorted(p) && Sorted(l) && p <= l
    ensures Taken(l, |p|) == Taken(p, |p|)
  {
    hide Taken, Sorted;
    var t := l[|p|..];
    assert p + t == l;
    TakenPrefix(p, t, |p|);
  }

  /** What the code words shorter than n take up. */
  lemma TakenByShorter(bits: seq<nat>, n: nat)
    requires |bits| == 16 && 1 <= n <= 16
    ensures var l := Sizes(bits, 16);
      Sorted(l) && Before(bits, n - 1) <= |l| && Taken(l, Before(bits, n - 1)) == KraftSum(bits, n - 1)
  {
    hide Taken, KraftSum, Sizes, Before, Sorted;
    SizesPrefix(bits, n - 1, 16);
    SizesSorted(bits, n - 1);
    SizesSorted(bits, 16);
    TakenIsKraft(bits, n - 1);
    TakenOfPrefix(Sizes(bits, n - 1), Sizes(bits, 16));
  }

  /** What the code words before the m-th one of length n take up. */
  lemma TakenBefore(bits: seq<nat>, n: nat, m: nat)
    requires |bits| == 16 && 1 <= n <= 16 && m < bits[n - 1]
    ensures var l, k := Sizes(bits, 16), Before(bits, n - 1) + m;
      k < |l| && l[k] == n && Sorted(l) && Taken(l, k) == KraftSum(bits, n - 1) + m * Pow2(16 - n)
  {
    hide Pow2, Taken, KraftSum, Sizes, Before, Sorted;
    var l, b := Sizes(bits, 16), Before(bits, n - 1);
    SizesStep(bits, n);
    forall i | b <= i <= b + m ensures i < |l| && l[i] == n {
      SizeIs(bits, 16, i, n);
    }
    SizeIs(bits, 16, b + m, n);
    TakenByShorter(bits, n);
    TakenSame(l, b, m, n);
  }

  /** Symbol sym has code word c of n bits. */
  predicate Word(t: Table, sym: Byte, n: nat, c: nat)
    requires TableShape(t)
  {
    t.size[sym] == n && t.code[sym] == c
  }

  /** The code words of length n, from the sums over the shorter ones: the m-th has symbol sym. */
  lemma WordIs(s: Spec, t: Table, n: nat, b: nat, k: nat, m: nat, sym: Byte, c: nat)
    requires SpecOk(s) && TableFor(s, t) && 1 <= n <= 16 && m < s.bits[n - 1]
    requires Before(s.bits, n - 1) == b && KraftSum(s.bits, n - 1) == k
    requires b + m < |s.vals| && s.vals[b + m] == sym && k + m * Pow2(16 - n) == c * Pow2(16 - n)
    ensures TableShape(t) && Word(t, sym, n, c)
  {
    hide Before, KraftSum, Pow2, Sizes, Taken;
    TakenBefore(s.bits, n, m);
    TableAt(s, t, b + m);
    SameFactor(t.code[sym], c, Pow2(16 - n));
  }

  lemma SameFactor(a: nat, b: nat, p: nat)
    requires a * p == b * p && 0 < p
    ensures a == b
  {
    if a < b {
      MulLess(a, b, p);
    } else if b < a {
      MulLess(b, a, p);
    }
  }

  /** The sums of a BITS list up to length n, from those up to n - 1: c codes of weight p more. */
  lemma Sums(l: seq<nat>, n: nat, c: nat, p: nat, b: nat, k: nat)
    requires |l| == 16 && 1 <= n <= 16 && l[n - 1] == c && Pow2(16 - n) == p
    requires Before(l, n - 1) == b && KraftSum(l, n - 1) == k
    ensures Before(l, n) == b + c && KraftSum(l, n) == k + c * p
  {
  }

  lemma LumaDcSums()
    ensures |LUMA_DC_LEN| == 16
    ensures Before(LUMA_DC_LEN, 1) == 0 && KraftSum(LUMA_DC_LEN, 1) == 0x0
    ensures Before(LUMA_DC_LEN, 2) == 1 && KraftSum(LUMA_DC_LEN, 2) == 0x4000
    ensures Before(LUMA_DC_LEN, 3) == 6 && KraftSum(LUMA_DC_LEN, 3) == 0xE000
    ensures Before(LUMA_DC_LEN, 4) == 7 && KraftSum(LUMA_DC_LEN, 4) == 0xF000
    ensures Before(LUMA_DC_LEN, 5) == 8 && KraftSum(LUMA_DC_LEN, 5) == 0xF800
    ensures Before(LUMA_DC_LEN, 6) == 9 && KraftSum(LUMA_DC_LEN, 6) == 0xFC00
    ensures Before(LUMA_DC_LEN, 7) == 10 && KraftSum(LUMA_DC_LEN, 7) == 0xFE00
    ensures Before(LUMA_DC_LEN, 8) == 11 && KraftSum(LUMA_DC_LEN, 8) == 0xFF00
  {
    hide Before, KraftSum, Pow2;
    SmallPowers();
    NoSums(LUMA_DC_LEN);
    Sums(LUMA_DC_LEN, 1, 0, 0x8000, 0, 0x0);
    Sums(LUMA_DC_LEN, 2, 1, 0x4000, 0, 0x0);
    Sums(LUMA_DC_LEN, 3, 5, 0x2000, 1, 0x4000);
    Sums(LUMA_DC_LEN, 4, 1, 0x1000, 6, 0xE000);
    Sums(LUMA_DC_LEN, 5, 1, 0x800, 7, 0xF000);
    Sums(LUMA_DC_LEN, 6, 1, 0x400, 8, 0xF800);
    Sums(LUMA_DC_LEN, 7, 1, 0x200, 9, 0xFC00);
    Sums(LUMA_DC_LEN, 8, 1, 0x100, 10, 0xFE00);
  }

  lemma LumaDcWords0(t: Table)
    requires SpecOk(DEFAULT_SPECS.lumaDc) && TableFor(DEFAULT_SPECS.lumaDc, t)
    ensures TableShape(t) && Word(t, 0, 2, 0) && Word(t, 1, 3, 2) && Word(t, 2, 3, 3) && Word(t, 3, 3, 4)
  {
    hide Before, KraftSum, Pow2, TableFor, SpecOk, Word, Taken;
    var s := DEFAULT_SPECS.lumaDc;
    SmallPowers();
    LumaDcSums();
    WordIs(s, t, 2, 0, 0x0, 0, 0, 0);
    WordIs(s, t, 3, 1, 0x4000, 0, 1, 2);
    WordIs(s, t, 3, 1, 0x4000, 1, 2, 3);
    WordIs(s, t, 3, 1, 0x4000, 2, 3, 4);
  }

  lemma LumaDcWords1(t: Table)
    requires SpecOk(DEFAULT_SPECS.lumaDc) && TableFor(DEFAULT_SPECS.lumaDc, t)
    ensures TableShape(t) && Word(t, 4, 3, 5) && Word(t, 5, 3, 6) && Word(t, 6, 4, 0xE) && Word(t, 7, 5, 0x1E)
  {
    hide Before, KraftSum, Pow2, TableFor, SpecOk, Word, Taken;
    var s := DEFAULT_SPECS.lumaDc;
    SmallPowers();
    LumaDcSums();
    WordIs(s, t, 3, 1, 0x4000, 3, 4, 5);
    WordIs(s, t, 3, 1, 0x4000, 4, 5, 6);
    WordIs(s, t, 4, 6, 0xE000, 0, 6, 0xE);
    WordIs(s, t, 5, 7, 0xF000, 0, 7, 0x1E);
  }

  lemma LumaDcWords2(t: Table)
    requires SpecOk(DEFAULT_SPECS.lumaDc) && TableFor(DEFAULT_SPECS.lumaDc, t)
    ensures TableShape(t) && Word(t, 8, 6, 0x3E) && Word(t, 9, 7, 0x7E) && Word(t, 10, 8, 0xFE) && Word(t, 11, 9, 0x1FE)
  {
    hide Before, KraftSum, Pow2, TableFor, SpecOk, Word, Taken;
    var s := DEFAULT_SPECS.lumaDc;
    SmallPowers();
    LumaDcSums();
    WordIs(s, t, 6, 8, 0xF800, 0, 8, 0x3E);
    WordIs(s, t, 7, 9, 0xFC00, 0, 9, 0x7E);
    WordIs(s, t, 8, 10, 0xFE00, 0, 10, 0xFE);
    WordIs(s, t, 9, 11, 0xFF00, 0, 11, 0x1FE);
  }

  /** T.81 table K.3: 00, 010, 011, 100, 101, 110, and then a one more for each further category. */
  lemma LumaDcWords(t: Table)
    requires SpecOk(DEFAULT_SPECS.lumaDc) && TableFor(DEFAULT_SPECS.lumaDc, t)
    ensures TableShape(t)
    ensures Word(t, 0, 2, 0) && Word(t, 1, 3, 2) && Word(t, 2, 3, 3) && Word(t, 3, 3, 4) && Word(t, 4, 3, 5)
    ensures Word(t, 5, 3, 6) && Word(t, 6, 4, 0xE) && Word(t, 7, 5, 0x1E) && Word(t, 8, 6, 0x3E)
    ensures Word(t, 9, 7, 0x7E) && Word(t, 10, 8, 0xFE) && Word(t, 11, 9, 0x1FE)
  {
    hide Before, KraftSum, Pow2, TableFor, SpecOk, Word;
    LumaDcWords0(t);
    LumaDcWords1(t);
    LumaDcWords2(t);
  }

  lemma NoSums(l: seq<nat>)
    ensures Before(l, 0) == 0 && KraftSum(l[..0], 0) == 0 && (|l| <= 16 ==> KraftSum(l, 0) == 0)
  {
  }

  lemma ChromaDcSums()
    ensures |CHROMA_DC_LEN| == 16
    ensures Before(CHROMA_DC_LEN, 1) == 0 && KraftSum(CHROMA_DC_LEN, 1) == 0x0
    ensures Before(CHROMA_DC_LEN, 2) == 3 && KraftSum(CHROMA_DC_LEN, 2) == 0xC000
    ensures Before(CHROMA_DC_LEN, 3) == 4 && KraftSum(CHROMA_DC_LEN, 3) == 0xE000
    ensures Before(CHROMA_DC_LEN, 4) == 5 && KraftSum(CHROMA_DC_LEN, 4) == 0xF000
    ensures Before(CHROMA_DC_LEN, 5) == 6 && KraftSum(CHROMA_DC_LEN, 5) == 0xF800
    ensures Before(CHROMA_DC_LEN, 6) == 7 && KraftSum(CHROMA_DC_LEN, 6) == 0xFC00
    ensures Before(CHROMA_DC_LEN, 7) == 8 && KraftSum(CHROMA_DC_LEN, 7) == 0xFE00
    ensures Before(CHROMA_DC_LEN, 8) == 9 && KraftSum(CHROMA_DC_LEN, 8) == 0xFF00
    ensures Before(CHROMA_DC_LEN, 9) == 10 && KraftSum(CHROMA_DC_LEN, 9) == 0xFF80
    ensures Before(CHROMA_DC_LEN, 10) == 11 && KraftSum(CHROMA_DC_LEN, 10) == 0xFFC0
  {
    hide Before, KraftSum, Pow2;
    SmallPowers();
    NoSums(CHROMA_DC_LEN);
    Sums(CHROMA_DC_LEN, 1, 0, 0x8000, 0, 0x0);
    Sums(CHROMA_DC_LEN, 2, 3, 0x4000, 0, 0x0);
    Sums(CHROMA_DC_LEN, 3, 1, 0x2000, 3, 0xC000);
    Sums(CHROMA_DC_LEN, 4, 1, 0x1000, 4, 0xE000);
    Sums(CHROMA_DC_LEN, 5, 1, 0x800, 5, 0xF000);
    Sums(CHROMA_DC_LEN, 6, 1, 0x400, 6, 0xF800);
    Sums(CHROMA_DC_LEN, 7, 1, 0x200, 7, 0xFC00);
    Sums(CHROMA_DC_LEN, 8, 1, 0x100, 8, 0xFE00);
    Sums(CHROMA_DC_LEN, 9, 1, 0x80, 9, 0xFF00);
    Sums(CHROMA_DC_LEN, 10, 1, 0x40, 10, 0xFF80);
  }

  lemma ChromaDcWords0(t: Table)
    requires SpecOk(DEFAULT_SPECS.chromaDc) && TableFor(DEFAULT_SPECS.chromaDc, t)
    ensures TableShape(t) && Word(t, 0, 2, 0) && Word(t, 1, 2, 1) && Word(t, 2, 2, 2) && Word(t, 3, 3, 6)
  {
    hide Before, KraftSum, Pow2, TableFor, SpecOk, Word, Taken;
    var s := DEFAULT_SPECS.chromaDc;
    SmallPowers();
    ChromaDcSums();
    WordIs(s, t, 2, 0, 0x0, 0, 0, 0);
    WordIs(s, t, 2, 0, 0x0, 1, 1, 1);
    WordIs(s, t, 2, 0, 0x0, 2, 2, 2);
    WordIs(s, t, 3, 3, 0xC000, 0, 3, 6);
  }

  lemma ChromaDcWords1(t: Table)
    requires SpecOk(DEFAULT_SPECS.chromaDc) && TableFor(DEFAULT_SPECS.chromaDc, t)
    ensures TableShape(t) && Word(t, 4, 4, 0xE) && Word(t, 5, 5, 0x1E) && Word(t, 6, 6, 0x3E) && Word(t, 7, 7, 0x7E)
  {
    hide Before, KraftSum, Pow2, TableFor, SpecOk, Word, Taken;
    var s := DEFAULT_SPECS.chromaDc;
    SmallPowers();
    ChromaDcSums();
    WordIs(s, t, 4, 4, 0xE000, 0, 4, 0xE);
    WordIs(s, t, 5, 5, 0xF000, 0, 5, 0x1E);
    WordIs(s, t, 6, 6, 0xF800, 0, 6, 0x3E);
    WordIs(s, t, 7, 7, 0xFC00, 0, 7, 0x7E);
  }

  lemma ChromaDcWords2(t: Table)
    requires SpecOk(DEFAULT_SPECS.chromaDc) && TableFor(DEFAULT_SPECS.chromaDc, t)
    ensures TableShape(t)
    ensures Word(t, 8, 8, 0xFE) && Word(t, 9, 9, 0x1FE) && Word(t, 10, 10, 0x3FE) && Word(t, 11, 11, 0x7FE)
  {
    hide Before, KraftSum, Pow2, TableFor, SpecOk, Word, Taken;
    var s := DEFAULT_SPECS.chromaDc;
    SmallPowers();
    ChromaDcSums();
    WordIs(s, t, 8, 8, 0xFE00, 0, 8, 0xFE);
    WordIs(s, t, 9, 9, 0xFF00, 0, 9, 0x1FE);
    WordIs(s, t, 10, 10, 0xFF80, 0, 10, 0x3FE);
    WordIs(s, t, 11, 11, 0xFFC0, 0, 11, 0x7FE);
  }

  /** T.81 table K.4: 00, 01, 10, 110 and then a one more for each further category. */
  lemma ChromaDcWords(t: Table)
    requires SpecOk(DEFAULT_SPECS.chromaDc) && TableFor(DEFAULT_SPECS.chromaDc, t)
    ensures TableShape(t)
    ensures Word(t, 0, 2, 0) && Word(t, 1, 2, 1) && Word(t, 2, 2, 2) && Word(t, 3, 3, 6) && Word(t, 4, 4, 0xE)
    ensures Word(t, 5, 5, 0x1E) && Word(t, 6, 6, 0x3E) && Word(t, 7, 7, 0x7E) && Word(t, 8, 8, 0xFE)
    ensures Word(t, 9, 9, 0x1FE) && Word(t, 10, 10, 0x3FE) && Word(t, 11, 11, 0x7FE)
  {
    hide Before, KraftSum, Pow2, TableFor, SpecOk, Word;
    ChromaDcWords0(t);
    ChromaDcWords1(t);
    ChromaDcWords2(t);
  }

  lemma LumaAcSums()
    ensures |LUMA_AC_LEN| == 16
    ensures Before(LUMA_AC_LEN, 1) == 0 && KraftSum(LUMA_AC_LEN, 1) == 0x0
    ensures Before(LUMA_AC_LEN, 2) == 2 && KraftSum(LUMA_AC_LEN, 2) == 0x8000
    ensures Before(LUMA_AC_LEN, 3) == 3 && KraftSum(LUMA_AC_LEN, 3) == 0xA000
    ensures Before(LUMA_AC_LEN, 4) == 6 && KraftSum(LUMA_AC_LEN, 4) == 0xD000
    ensures Before(LUMA_AC_LEN, 10) == 28 && KraftSum(LUMA_AC_LEN, 10) == 0xFEC0
  {
    hide Before, KraftSum, Pow2;
    SmallPowers();
    NoSums(LUMA_AC_LEN);
    Sums(LUMA_AC_LEN, 1, 0, 0x8000, 0, 0x0);
    Sums(LUMA_AC_LEN, 2, 2, 0x4000, 0, 0x0);
    Sums(LUMA_AC_LEN, 3, 1, 0x2000, 2, 0x8000);
    Sums(LUMA_AC_LEN, 4, 3, 0x1000, 3, 0xA000);
    Sums(LUMA_AC_LEN, 5, 3, 0x800, 6, 0xD000);
    Sums(LUMA_AC_LEN, 6, 2, 0x400, 9, 0xE800);
    Sums(LUMA_AC_LEN, 7, 4, 0x200, 11, 0xF000);
    Sums(LUMA_AC_LEN, 8, 3, 0x100, 15, 0xF800);
    Sums(LUMA_AC_LEN, 9, 5, 0x80, 18, 0xFB00);
    Sums(LUMA_AC_LEN, 10, 5, 0x40, 23, 0xFD80);
  }

  /** T.81 table K.5, in part: end of block 1010, sixteen zeros 11111111001, and short runs. */
  lemma LumaAcWords(t: Table)
    requires SpecOk(DEFAULT_SPECS.lumaAc) && TableFor(DEFAULT_SPECS.lumaAc, t)
    ensures TableShape(t)
    ensures Word(t, 0x00, 4, 0xA) && Word(t, 0xF0, 11, 0x7F9)
    ensures Word(t, 0x01, 2, 0) && Word(t, 0x02, 2, 1) && Word(t, 0x03, 3, 4) && Word(t, 0x04, 4, 0xB)
    ensures Word(t, 0x11, 4, 0xC) && Word(t, 0x12, 5, 0x1B)
  {
    hide Before, KraftSum, Pow2, TableFor, SpecOk, Word, LumaAc;
    var s := DEFAULT_SPECS.lumaAc;
    SmallPowers();
    LumaAcSums();
    LumaAcSymbols();
    WordIs(s, t, 2, 0, 0x0, 0, 0x01, 0);
    WordIs(s, t, 2, 0, 0x0, 1, 0x02, 1);
    WordIs(s, t, 3, 2, 0x8000, 0, 0x03, 4);
    WordIs(s, t, 4, 3, 0xA000, 0, 0x00, 0xA);
    WordIs(s, t, 4, 3, 0xA000, 1, 0x04, 0xB);
    WordIs(s, t, 4, 3, 0xA000, 2, 0x11, 0xC);
    WordIs(s, t, 5, 6, 0xD000, 1, 0x12, 0x1B);
    WordIs(s, t, 11, 28, 0xFEC0, 3, 0xF0, 0x7F9);
  }

  lemma LumaAcSymbols()
    ensures LUMA_AC_VALS[0] == 0x01 && LUMA_AC_VALS[1] == 0x02 && LUMA_AC_VALS[2] == 0x03 && LUMA_AC_VALS[3] == 0x00
    ensures LUMA_AC_VALS[4] == 0x04 && LUMA_AC_VALS[5] == 0x11 && LUMA_AC_VALS[7] == 0x12 && LUMA_AC_VALS[31] == 0xF0
  {
    assert LumaAc(0, 0) == 0x01 && LumaAc(0, 1) == 0x02 && LumaAc(0, 2) == 0x03 && LumaAc(0, 3) == 0x00;
    assert LumaAc(0, 4) == 0x04 && LumaAc(0, 5) == 0x11 && LumaAc(0, 7) == 0x12 && LumaAc(1, 15) == 0xF0;
  }

  lemma ChromaAcSums()
    ensures |CHROMA_AC_LEN| == 16
    ensures Before(CHROMA_AC_LEN, 1) == 0 && KraftSum(CHROMA_AC_LEN, 1) == 0x0
    ensures Before(CHROMA_AC_LEN, 2) == 2 && KraftSum(CHROMA_AC_LEN, 2) == 0x8000
    ensures Before(CHROMA_AC_LEN, 3) == 3 && KraftSum(CHROMA_AC_LEN, 3) == 0xA000
    ensures Before(CHROMA_AC_LEN, 9) == 27 && KraftSum(CHROMA_AC_LEN, 9) == 0xFD80
  {
    hide Before, KraftSum, Pow2;
    SmallPowers();
    NoSums(CHROMA_AC_LEN);
    Sums(CHROMA_AC_LEN, 1, 0, 0x8000, 0, 0x0);
    Sums(CHROMA_AC_LEN, 2, 2, 0x4000, 0, 0x0);
    Sums(CHROMA_AC_LEN, 3, 1, 0x2000, 2, 0x8000);
    Sums(CHROMA_AC_LEN, 4, 2, 0x1000, 3, 0xA000);
    Sums(CHROMA_AC_LEN, 5, 4, 0x800, 5, 0xC000);
    Sums(CHROMA_AC_LEN, 6, 4, 0x400, 9, 0xE000);
    Sums(CHROMA_AC_LEN, 7, 3, 0x200, 13, 0xF000);
    Sums(CHROMA_AC_LEN, 8, 4, 0x100, 16, 0xF600);
    Sums(CHROMA_AC_LEN, 9, 7, 0x80, 20, 0xFA00);
  }

  /** T.81 table K.6, in part: end of block 00, sixteen zeros 1111111010, and short runs. */
  lemma ChromaAcWords(t: Table)
    requires SpecOk(DEFAULT_SPECS.chromaAc) && TableFor(DEFAULT_SPECS.chromaAc, t)
    ensures TableShape(t)
    ensures Word(t, 0x00, 2, 0) && Word(t, 0xF0, 10, 0x3FA)
    ensures Word(t, 0x01, 2, 1) && Word(t, 0x02, 3, 4) && Word(t, 0x03, 4, 0xA) && Word(t, 0x11, 4, 0xB)
  {
    hide Before, KraftSum, Pow2, TableFor, SpecOk, Word, ChromaAc;
    var s := DEFAULT_SPECS.chromaAc;
    SmallPowers();
    ChromaAcSums();
    ChromaAcSymbols();
    WordIs(s, t, 2, 0, 0x0, 0, 0x00, 0);
    WordIs(s, t, 2, 0, 0x0, 1, 0x01, 1);
    WordIs(s, t, 3, 2, 0x8000, 0, 0x02, 4);
    WordIs(s, t, 4, 3, 0xA000, 0, 0x03, 0xA);
    WordIs(s, t, 4, 3, 0xA000, 1, 0x11, 0xB);
    WordIs(s, t, 10, 27, 0xFD80, 4, 0xF0, 0x3FA);
  }

  lemma ChromaAcSymbols()
    ensures CHROMA_AC_VALS[0] == 0x00 && CHROMA_AC_VALS[1] == 0x01 && CHROMA_AC_VALS[2] == 0x02
    ensures CHROMA_AC_VALS[3] == 0x03 && CHROMA_AC_VALS[4] == 0x11 && CHROMA_AC_VALS[31] == 0xF0
  {
    assert ChromaAc(0, 0) == 0x00 && ChromaAc(0, 1) == 0x01 && ChromaAc(0, 2) == 0x02 && ChromaAc(0, 3) == 0x03;
    assert ChromaAc(0, 4) == 0x11 && ChromaAc(1, 15) == 0xF0;
  }

  // ----- a scan written out -----

  /** A bit string from its digits. */
  function Digits(s: string): (b: Bits)
    ensures |b| == |s| && forall i :: 0 <= i < |s| ==> b[i] == (s[i] == '1')
  {
    seq(|s|, i requires 0 <= i < |s| => s[i] == '1')
  }

  lemma WordBits(t: Table, sym: Byte, n: nat, c: nat, s: string)
    requires TableShape(t) && Word(t, sym, n, c) && BitsOf(c, n) == Digits(s)
    ensures SymbolBits(t, sym) == Digits(s)
  {
  }

  lemma ShortBits()
    ensures BitsOf(0, 1) == Digits("0") && BitsOf(1, 1) == Digits("1") && BitsOf(0, 2) == Digits("00")
    ensures BitsOf(1, 2) == Digits("01") && BitsOf(2, 3) == Digits("010")
    ensures BitsOf(10, 4) == Digits("1010") && BitsOf(27, 5) == Digits("11011")
  {
    hide BitsOf;
    NoBits(0);
    NextBit(0, 0, false, "", "0");
    NextBit(0, 0, true, "", "1");
    NextBit(0, 1, false, "0", "00");
    NextBit(0, 1, true, "0", "01");
    NextBit(1, 1, true, "1", "11");
    NextBit(1, 2, false, "01", "010");
    NextBit(1, 1, false, "1", "10");
    NextBit(2, 2, true, "10", "101");
    NextBit(5, 3, false, "101", "1010");
    NextBit(3, 2, false, "11", "110");
    NextBit(6, 3, true, "110", "1101");
    NextBit(13, 4, true, "1101", "11011");
  }

  lemma NoBits(v: nat)
    ensures BitsOf(v, 0) == Digits("")
  {
  }

  lemma NextBit(v: nat, n: nat, b: bool, s: string, t: string)
    requires BitsOf(v, n) == Digits(s) && t == s + (if b then "1" else "0")
    ensures BitsOf(2 * v + (if b then 1 else 0), n + 1) == Digits(t)
  {
    hide BitsOf;
    BitsStep(2 * v + (if b then 1 else 0), n + 1);
  }

  /** A block with DC value dc, and v at place 2 in zig-zag order. */
  function Block(dc: int, v: int): (du: seq<int>)
    ensures |du| == 64
  {
    [dc, 0, v] + Repeat(0, 61)
  }

  const SAMPLE: Mcu := Mcu(Block(1, -2), Block(1, 0), Block(-1, 0))

  lemma SmallCategories()
    ensures Category(Abs(1)) == 1 && Category(Abs(-1)) == 1 && Category(Abs(-2)) == 2
    ensures VliBits(1, 1) == 1 && VliBits(-1, 1) == 0 && VliBits(-2, 2) == 1
  {
    assert Pow2(1) == 2 && Pow2(2) == 4;
    assert Category(1) == 1 && Category(2) == 1 + Category(1);
  }

  lemma BlockIsOk(dc: int, v: int, pred: int)
    requires -1 <= dc <= 1 && -1 <= pred <= 1 && -2 <= v <= 0
    ensures BlockOk(Block(dc, v), pred) && LastNonZero(Block(dc, v), 63) == if v == 0 then 0 else 2
    ensures var du := Block(dc, v); du[0] == dc && du[1] == 0 && du[2] == v
  {
    hide LastNonZero;
    LastFound(Block(dc, v), if v == 0 then 0 else 2);
  }

  /** The AC bits of a block with nothing but zeros, or with -2 behind one zero. */
  lemma SampleAc(t: Table, dc: int, v: int)
    requires TableShape(t) && -1 <= dc <= 1 && (v == 0 || v == -2) && AcFits(Block(dc, v))
    ensures v == 0 ==> AcBits(t, Block(dc, v), 1, 0, 0) == SymbolBits(t, 0)
    ensures v == -2 ==> AcBits(t, Block(dc, v), 1, 0, 2) == ValueBits(t, 1, -2) + SymbolBits(t, 0)
  {
    hide ValueBits, SymbolBits, Category, Repeat;
    BlockIsOk(dc, v, 0);
    SmallCategories();
    var du := Block(dc, v);
    if v == -2 {
      AcUnfold(t, du, 1, 0, 2);
      AcUnfold(t, du, 2, 1, 2);
      AcUnfold(t, du, 3, 0, 2);
    } else {
      AcUnfold(t, du, 1, 0, 0);
    }
  }

  lemma SampleLuma(dc: Table, ac: Table)
    requires SpecOk(DEFAULT_SPECS.lumaDc) && TableFor(DEFAULT_SPECS.lumaDc, dc)
    requires SpecOk(DEFAULT_SPECS.lumaAc) && TableFor(DEFAULT_SPECS.lumaAc, ac)
    ensures TableShape(dc) && TableShape(ac) && BlockOk(Block(1, -2), 0) && BlockOk(Block(1, -2), 1)
    ensures BlockBits(dc, ac, Block(1, -2), 0) == Digits("0101") + (Digits("1101101") + Digits("1010"))
    ensures BlockBits(dc, ac, Block(1, -2), 1) == Digits("00") + (Digits("1101101") + Digits("1010"))
  {
    hide SpecOk, TableFor, BitsOf, SymbolBits, Category, VliBits, LastNonZero, AcBits, Abs, Repeat, Block;
    LumaDcWords(dc);
    LumaAcWords(ac);
    ShortBits();
    SmallCategories();
    BlockIsOk(1, -2, 0);
    BlockIsOk(1, -2, 1);
    BlockCategories(Block(1, -2), 0);
    SampleAc(ac, 1, -2);
    WordBits(dc, 0, 2, 0, "00");
    WordBits(dc, 1, 3, 2, "010");
    WordBits(ac, 0, 4, 10, "1010");
    WordBits(ac, 0x12, 5, 27, "11011");
    assert Digits("010") + Digits("1") == Digits("0101");
    assert Digits("11011") + Digits("01") == Digits("1101101");
  }

  lemma SampleChroma(dc: Table, ac: Table)
    requires SpecOk(DEFAULT_SPECS.chromaDc) && TableFor(DEFAULT_SPECS.chromaDc, dc)
    requires SpecOk(DEFAULT_SPECS.chromaAc) && TableFor(DEFAULT_SPECS.chromaAc, ac)
    ensures TableShape(dc) && TableShape(ac) && BlockOk(Block(1, 0), 0) && BlockOk(Block(1, 0), 1)
    ensures BlockOk(Block(-1, 0), 0) && BlockOk(Block(-1, 0), -1)
    ensures BlockBits(dc, ac, Block(1, 0), 0) == Digits("01100")
    ensures BlockBits(dc, ac, Block(-1, 0), 0) == Digits("01000")
    ensures BlockBits(dc, ac, Block(1, 0), 1) == BlockBits(dc, ac, Block(-1, 0), -1) == Digits("0000")
  {
    hide SpecOk, TableFor, BitsOf, SymbolBits, Category, VliBits, LastNonZero, AcBits, Abs, Repeat, Block;
    ChromaDcWords(dc);
    ChromaAcWords(ac);
    ShortBits();
    SmallCategories();
    BlockIsOk(1, 0, 0);
    BlockIsOk(1, 0, 1);
    BlockIsOk(-1, 0, 0);
    BlockIsOk(-1, 0, -1);
    BlockCategories(Block(1, 0), 0);
    BlockCategories(Block(-1, 0), 0);
    SampleAc(ac, 1, 0);
    SampleAc(ac, -1, 0);
    WordBits(dc, 0, 2, 0, "00");
    WordBits(dc, 1, 2, 1, "01");
    WordBits(ac, 0, 2, 0, "00");
    assert Digits("01") + Digits("1") + Digits("00") == Digits("01100");
    assert Digits("01") + Digits("0") + Digits("00") == Digits("01000");
    assert Digits("00") + Digits("00") == Digits("0000");
  }

  /** The bits of two equal MCUs.  The luma block: category 1 (010) and its bit 1, a run of one zero
      and category 2 (11011) with 01 for -2, end of block (1010).  The chroma blocks: category 1
      (01) with 1 for 1 and 0 for -1, end of block (00).  The second time all DC differences are
      zero. */
  lemma SampleScan(t: Tables)
    requires SpecsOk(DEFAULT_SPECS) && TablesFor(DEFAULT_SPECS, t)
    ensures Shaped(t) && McuOk(SAMPLE, Preds(0, 0, 0)) && McuOk(SAMPLE, PredsOf(SAMPLE))
    ensures McuBits(t, SAMPLE, Preds(0, 0, 0))
         == Digits("0101") + (Digits("1101101") + Digits("1010")) + (Digits("01100") + Digits("01000"))
    ensures McuBits(t, SAMPLE, PredsOf(SAMPLE))
         == Digits("00") + (Digits("1101101") + Digits("1010")) + (Digits("0000") + Digits("0000"))
  {
    hide SpecOk, TableFor, DcSymbols, AcSymbols, BlockBits, Word, BitsOf;
    TablesShaped(DEFAULT_SPECS, t);
    SampleLuma(t.lumaDc, t.lumaAc);
    SampleChroma(t.chromaDc, t.chromaAc);
  }
}
