/** Canonical Huffman tables of JPEG: derivation from the BITS and HUFFVAL lists (T.81 section
    C.2), as tjei_huff_expand does it, and the decoding procedure of T.81 section F.2.2.3. */
module JpegHuffman {
  import opened Arith
  import opened BitStrings

  /** BITS[i] is the number of codes of length i + 1; HUFFVAL lists the symbols by code length. */
  datatype Spec = Spec(bits: seq<nat>, vals: seq<Byte>)

  // ----- code sizes -----

  /** How many codes have length at most i. */
  function Before(bits: seq<nat>, i: nat): (n: nat)
    requires i <= |bits|
  {
    if i == 0 then 0 else Before(bits, i - 1) + bits[i - 1]
  }

  /** The sizes of the codes of length at most i, in order. */
  function Sizes(bits: seq<nat>, i: nat): (l: seq<nat>)
    requires i <= |bits|
    ensures |l| == Before(bits, i)
  {
    if i == 0 then [] else Sizes(bits, i - 1) + Repeat(i, bits[i - 1])
  }

  /** The code that is k-th in order has length j, the one with Before(j - 1) <= k < Before(j). */
  lemma {:induction false} SizeAt(bits: seq<nat>, i: nat, k: nat)
    requires i <= |bits| && k < Before(bits, i)
    ensures var j := Sizes(bits, i)[k]; 1 <= j <= i && Before(bits, j - 1) <= k < Before(bits, j)
  {
    hide Sizes, Before;
    SizesStep(bits, i);
    if k < Before(bits, i - 1) {
      SizeAt(bits, i - 1, k);
    }
  }

  lemma SizesStep(bits: seq<nat>, i: nat)
    requires i <= |bits|
    ensures i == 0 ==> Before(bits, i) == 0
    ensures i > 0 ==>
      && Before(bits, i) == Before(bits, i - 1) + bits[i - 1]
      && (forall k :: 0 <= k < Before(bits, i - 1) ==> Sizes(bits, i)[k] == Sizes(bits, i - 1)[k])
      && forall k :: Before(bits, i - 1) <= k < Before(bits, i) ==> Sizes(bits, i)[k] == i
  {
  }

  lemma {:induction false} BeforeGrows(bits: seq<nat>, i: nat, j: nat)
    requires i <= j <= |bits|
    ensures Before(bits, i) <= Before(bits, j)
  {
    if i < j {
      BeforeGrows(bits, i, j - 1);
    }
  }

  lemma BeforeOrder(bits: seq<nat>, i: nat, j: nat)
    requires i <= |bits| && j <= |bits|
    ensures i < j ==> Before(bits, i) <= Before(bits, j - 1)
  {
    if i < j {
      BeforeGrows(bits, i, j - 1);
    }
  }

  lemma SizeIs(bits: seq<nat>, i: nat, k: nat, j: nat)
    requires i <= |bits| && 1 <= j <= i && Before(bits, j - 1) <= k < Before(bits, j)
    ensures k < Before(bits, i) && Sizes(bits, i)[k] == j
  {
    BeforeGrows(bits, j, i);
    SizeAt(bits, i, k);
    var t := Sizes(bits, i)[k];
    BeforeOrder(bits, t, j);
    BeforeOrder(bits, j, t);
  }

  /** Code sizes in non-decreasing order, between 1 and 16. */
  ghost predicate Sorted(l: seq<nat>) {
    && (forall i :: 0 <= i < |l| ==> 1 <= l[i] <= 16)
    && forall i, j :: 0 <= i < j < |l| ==> l[i] <= l[j]
  }

  lemma SizesSorted(bits: seq<nat>, i: nat)
    requires i <= |bits| <= 16
    ensures Sorted(Sizes(bits, i))
  {
    forall k | 0 <= k < Before(bits, i) ensures 1 <= Sizes(bits, i)[k] <= i {
      SizeAt(bits, i, k);
    }
    forall j, k | 0 <= j < k < Before(bits, i) ensures Sizes(bits, i)[j] <= Sizes(bits, i)[k] {
      SizeAt(bits, i, j);
      SizeAt(bits, i, k);
      BeforeOrder(bits, Sizes(bits, i)[k], Sizes(bits, i)[j]);
    }
  }

  // ----- codes (T.81 figure C.2) -----

  /** c with d zero bits behind it. */
  function Shifted(c: nat, d: nat): (n: nat) {
    c * Pow2(d)
  }

  lemma ShiftedTwice(c: nat, d: nat, e: nat)
    ensures Shifted(Shifted(c, d), e) == Shifted(c, d + e)
  {
    Pow2Add(d, e);
    Scale(c, Pow2(d), Pow2(e));
  }

  lemma ShiftedMono(a: nat, b: nat, d: nat)
    requires a <= b
    ensures Shifted(a, d) <= Shifted(b, d)
  {
    MulMono(a, b, Pow2(d));
  }

  /** The k-th code: codes of equal length count up, and a longer code starts at twice the next
      free value per additional bit. */
  function CodeAt(l: seq<nat>, k: nat): (n: nat)
    requires k < |l| && forall i, j :: 0 <= i < j < |l| ==> l[i] <= l[j]
  {
    if k == 0 then 0 else Shifted(CodeAt(l, k - 1) + 1, l[k] - l[k - 1])
  }

  /** What the codes before k take up of the 2^16 code words of length 16. */
  ghost function Taken(l: seq<nat>, k: nat): (n: nat)
    requires k <= |l| && Sorted(l)
  {
    if k == 0 then 0 else Taken(l, k - 1) + Pow2(16 - l[k - 1])
  }

  /** The Kraft sum of a BITS list, scaled by 2^16. */
  function KraftSum(bits: seq<nat>, i: nat): (n: nat)
    requires i <= |bits| <= 16
  {
    if i == 0 then 0 else KraftSum(bits, i - 1) + bits[i - 1] * Pow2(16 - i)
  }

  ghost predicate Kraft(bits: seq<nat>) {
    |bits| == 16 && KraftSum(bits, 16) <= 0x1_0000
  }

  lemma {:induction false} TakenAppend(l: seq<nat>, x: nat, n: nat, m: nat)
    requires Sorted(l + Repeat(x, n)) && Sorted(l) && m <= n && 1 <= x <= 16
    ensures Taken(l + Repeat(x, n), |l| + m) == Taken(l, |l|) + m * Pow2(16 - x)
  {
    var r := l + Repeat(x, n);
    if m == 0 {
      TakenPrefix(l, Repeat(x, n), |l|);
    } else {
      TakenAppend(l, x, n, m - 1);
      assert r[|l| + m - 1] == x;
      assert m * Pow2(16 - x) == (m - 1) * Pow2(16 - x) + Pow2(16 - x);
    }
  }

  lemma {:induction false} TakenPrefix(l: seq<nat>, t: seq<nat>, k: nat)
    requires Sorted(l + t) && Sorted(l) && k <= |l|
    ensures Taken(l + t, k) == Taken(l, k)
  {
    if k > 0 {
      TakenPrefix(l, t, k - 1);
    }
  }

  lemma {:induction false} TakenIsKraft(bits: seq<nat>, i: nat)
    requires i <= |bits| <= 16
    ensures Sorted(Sizes(bits, i)) && Taken(Sizes(bits, i), Before(bits, i)) == KraftSum(bits, i)
  {
    SizesSorted(bits, i);
    if i > 0 {
      TakenIsKraft(bits, i - 1);
      TakenAppend(Sizes(bits, i - 1), i, bits[i - 1], bits[i - 1]);
    }
  }

  /** Scaled to 16 bits, a code starts where the codes before it end. */
  lemma {:induction false} CodeScaled(l: seq<nat>, k: nat)
    requires Sorted(l) && k < |l|
    ensures Shifted(CodeAt(l, k), 16 - l[k]) == Taken(l, k)
  {
    if k > 0 {
      CodeScaled(l, k - 1);
      ShiftedTwice(CodeAt(l, k - 1) + 1, l[k] - l[k - 1], 16 - l[k]);
      ShiftedNext(CodeAt(l, k - 1), 16 - l[k - 1]);
    }
  }

  lemma ShiftedNext(c: nat, d: nat)
    ensures Shifted(c + 1, d) == Shifted(c, d) + Pow2(d)
  {
  }

  lemma Scale(c: nat, p: nat, q: nat)
    ensures c * p * q == c * (p * q)
  {
  }

  lemma {:induction false} TakenGrows(l: seq<nat>, j: nat, k: nat)
    requires Sorted(l) && j <= k <= |l|
    ensures Taken(l, j) <= Taken(l, k)
  {
    if j < k {
      TakenGrows(l, j, k - 1);
    }
  }

  /** Under the Kraft inequality every code fits in its length. */
  lemma CodeFits(bits: seq<nat>, k: nat)
    requires Kraft(bits) && k < Before(bits, 16)
    ensures Sorted(Sizes(bits, 16)) && CodeAt(Sizes(bits, 16), k) < Pow2(Sizes(bits, 16)[k]) <= 0x1_0000
  {
    hide Pow2, CodeAt, Sizes, Before, KraftSum;
    TakenIsKraft(bits, 16);
    var l := Sizes(bits, 16);
    var c, s := CodeAt(l, k), 16 - l[k];
    CodeScaled(l, k);
    TakenGrows(l, k + 1, |l|);
    Pow2Add(l[k], s);
    Pow2Values();
    Pow2Grows(l[k], 16);
    if c >= Pow2(l[k]) {
      MulMono(Pow2(l[k]), c, Pow2(s));
    }
  }

  /** Later codes lie above all extensions of earlier ones. */
  lemma {:induction false} CodeAbove(l: seq<nat>, j: nat, k: nat)
    requires Sorted(l) && j < k < |l|
    ensures Shifted(CodeAt(l, j) + 1, l[k] - l[j]) <= CodeAt(l, k)
  {
    hide Shifted;
    if j < k - 1 {
      CodeAbove(l, j, k - 1);
      ShiftedTwice(CodeAt(l, j) + 1, l[k - 1] - l[j], l[k] - l[k - 1]);
      ShiftedMono(Shifted(CodeAt(l, j) + 1, l[k - 1] - l[j]), CodeAt(l, k - 1) + 1, l[k] - l[k - 1]);
    }
  }

  /** Codes of equal length are consecutive numbers. */
  lemma {:induction false} EqualLengthConsecutive(l: seq<nat>, j: nat, k: nat)
    requires Sorted(l) && j <= k < |l| && l[j] == l[k]
    ensures CodeAt(l, k) == CodeAt(l, j) + (k - j)
  {
    if j < k {
      assert l[j] <= l[k - 1] <= l[k];
      EqualLengthConsecutive(l, j, k - 1);
    }
  }

  /** No code is a prefix of another one. */
  lemma PrefixFree(bits: seq<nat>, j: nat, k: nat)
    requires Kraft(bits) && j < k < Before(bits, 16)
    ensures var l := Sizes(bits, 16);
      && Sorted(l)
      && !(BitsOf(CodeAt(l, j), l[j]) <= BitsOf(CodeAt(l, k), l[k]))
      && !(BitsOf(CodeAt(l, k), l[k]) <= BitsOf(CodeAt(l, j), l[j]))
  {
    hide CodeAt, Pow2, BitsOf, NumOf, Sizes, Before, KraftSum;
    CodeFits(bits, j);
    CodeFits(bits, k);
    var l := Sizes(bits, 16);
    var p := Pow2(l[k] - l[j]);
    var c := CodeAt(l, k);
    CodeAbove(l, j, k);
    var hi, lo := Divide(c, p);
    HighPart(l, j, k, hi, lo);
    BitsJoin(hi, l[j], lo, l[k] - l[j]);
    NumOfBits(hi, l[j]);
    NumOfBits(CodeAt(l, j), l[j]);
    var short, long := BitsOf(CodeAt(l, j), l[j]), BitsOf(c, l[k]);
    assert long[..l[j]] == BitsOf(hi, l[j]);
    assert short != long[..l[j]];
    if short <= long {
      PrefixIsTake(short, long);
    }
    if long <= short {
      PrefixIsTake(long, short);
    }
  }

  lemma PrefixIsTake(s: Bits, t: Bits)
    requires s <= t
    ensures s == t[..|s|] && (|s| == |t| ==> s == t)
  {
  }

  /** The first l[j] bits of code k, as a number, exceed code j. */
  lemma HighPart(l: seq<nat>, j: nat, k: nat, hi: nat, lo: nat)
    requires Sorted(l) && j < k < |l| && CodeAt(l, k) < Pow2(l[k])
    requires CodeAt(l, k) == hi * Pow2(l[k] - l[j]) + lo && lo < Pow2(l[k] - l[j])
    ensures CodeAt(l, j) < hi < Pow2(l[j])
  {
    hide CodeAt, Pow2;
    CodeAbove(l, j, k);
    QuotientAtLeast(CodeAt(l, j) + 1, Pow2(l[k] - l[j]), hi, lo);
    Pow2Add(l[j], l[k] - l[j]);
    QuotientBelow(Pow2(l[j]), Pow2(l[k] - l[j]), hi, lo);
  }

  lemma QuotientAtLeast(c: nat, p: nat, hi: nat, lo: nat)
    requires c * p <= hi * p + lo && lo < p
    ensures c <= hi
  {
    if hi < c {
      MulLess(hi, c, p);
    }
  }

  lemma QuotientBelow(c: nat, p: nat, hi: nat, lo: nat)
    requires hi * p + lo < c * p
    ensures hi < c
  {
    if c <= hi {
      MulMono(c, hi, p);
    }
  }

  // ----- the derived encoder table -----

  /** The pair of lists ehuffsize and ehuffcode, indexed by symbol. */
  datatype Table = Table(size: seq<nat>, code: seq<nat>)

  /** A usable specification: 16 counts within the Kraft bound, as many symbols as codes, no
      symbol twice. */
  ghost predicate SpecOk(s: Spec) {
    && Kraft(s.bits) && 1 <= |s.vals| == Before(s.bits, 16) <= 256
    && forall i, j :: 0 <= i < j < |s.vals| ==> s.vals[i] != s.vals[j]
  }

  ghost predicate TableFor(s: Spec, t: Table)
    requires SpecOk(s)
  {
    && |t.size| == 257 && |t.code| == 256 && Sorted(Sizes(s.bits, 16))
    && forall k {:trigger s.vals[k]} :: 0 <= k < |s.vals| ==>
      t.size[s.vals[k]] == Sizes(s.bits, 16)[k] && t.code[s.vals[k]] == CodeAt(Sizes(s.bits, 16), k)
  }

  /** The bits the encoder writes for a symbol. */
  function SymbolBits(t: Table, sym: Byte): (b: Bits)
    requires |t.size| == 257 && |t.code| == 256
  {
    BitsOf(t.code[sym], t.size[sym])
  }

  /** tjei_huff_get_code_lengths: the size list, closed by a zero. */
  method GetCodeLengths(huffsize: array<nat>, bits: seq<nat>)
    requires huffsize.Length == 257 && |bits| == 16 && Before(bits, 16) <= 256
    modifies huffsize
    ensures huffsize[..Before(bits, 16)] == Sizes(bits, 16)
    ensures huffsize[Before(bits, 16)] == 0
  {
    var k := 0;
    for i := 0 to 16
      invariant k == Before(bits, i) <= 256 && huffsize[..k] == Sizes(bits, i)
      invariant i > 0 ==> huffsize[k] == 0
    {
      BeforeGrows(bits, i + 1, 16);
      for j := 0 to bits[i]
        invariant k == Before(bits, i) + j && huffsize[..k] == Sizes(bits, i) + Repeat(i + 1, j)
      {
        huffsize[k] := i + 1;
        k := k + 1;
        assert huffsize[..k] == huffsize[..k - 1] + [i + 1];
        assert huffsize[..k] == Sizes(bits, i) + Repeat(i + 1, j + 1);
      }
      huffsize[k] := 0;
    }
  }

  lemma FirstCode(l: seq<nat>)
    requires Sorted(l) && l != []
    ensures CodeAt(l, 0) == 0
  {
  }

  /** The free value behind code k - 1, shifted to the length of code k, is code k and stays
      within 16 bits. */
  lemma NextCode(bits: seq<nat>, k: nat)
    requires Kraft(bits) && 0 < k < Before(bits, 16)
    ensures var l := Sizes(bits, 16);
      && Sorted(l) && CodeAt(l, k) == Shifted(CodeAt(l, k - 1) + 1, l[k] - l[k - 1]) < 0x1_0000
      && CodeAt(l, k - 1) + 1 < 0x1_0000
      && (l[k] == l[k - 1] ==> CodeAt(l, k) == CodeAt(l, k - 1) + 1)
  {
    CodeFits(bits, k);
    hide Sizes, Before, KraftSum;
    var l := Sizes(bits, 16);
    ShiftedGrows(CodeAt(l, k - 1) + 1, l[k] - l[k - 1]);
  }

  lemma ShiftedGrows(c: nat, d: nat)
    ensures c <= Shifted(c, d) && Shifted(c, 0) == c
  {
    MulMono(1, Pow2(d), c);
  }

  lemma ShiftStep(c: nat, d: nat, e: nat)
    requires d < e && Shifted(c, e) < 0x1_0000
    ensures Shifted(c, d) * 2 % 0x1_0000 == Shifted(c, d + 1)
  {
    Pow2Grows(d + 1, e);
    DoubleFits(c, Pow2(d), Pow2(e));
  }

  lemma DoubleFits(c: nat, p: nat, q: nat)
    requires 2 * p <= q && c * q < 0x1_0000
    ensures c * p * 2 == c * (2 * p) < 0x1_0000
  {
    MulMono(2 * p, q, c);
  }

  lemma KraftShape(bits: seq<nat>)
    requires Kraft(bits)
    ensures |bits| == 16 && Sorted(Sizes(bits, 16))
    ensures var l := Sizes(bits, 16);
      (forall i :: 0 <= i < |l| ==> 1 <= l[i] <= 16) && forall i, j :: 0 <= i < j < |l| ==> l[i] <= l[j]
  {
    SizesSorted(bits, 16);
  }

  /** tjei_huff_get_codes: the code of every entry of the size list, in 16-bit arithmetic. */
  method GetCodes(codes: array<nat>, huffsize: array<nat>, bits: seq<nat>)
    requires codes.Length == 256 && huffsize.Length == 257 && Kraft(bits) && 1 <= Before(bits, 16) <= 256
    requires huffsize[..Before(bits, 16)] == Sizes(bits, 16) && huffsize[Before(bits, 16)] == 0 && codes != huffsize
    modifies codes
    ensures Sorted(Sizes(bits, 16))
    ensures forall k :: 0 <= k < Before(bits, 16) ==> codes[k] == CodeAt(Sizes(bits, 16), k)
  {
    hide *;
    KraftShape(bits);
    ghost var l, n := Sizes(bits, 16), Before(bits, 16);
    assert forall i :: 0 <= i < n ==> huffsize[i] == l[i] by {
      assert forall i :: 0 <= i < n ==> huffsize[..n][i] == huffsize[i];
    }
    var code: nat, k: nat, sz: nat := 0, 0, huffsize[0];
    FirstCode(l);
    while true
      invariant 0 <= k < n && sz == l[k] && code == CodeAt(l, k)
      invariant forall i :: 0 <= i < k ==> codes[i] == CodeAt(l, i)
      decreases n - k
    {
      k, code := RunOfCodes(codes, huffsize, bits, k, code, sz);
      if huffsize[k] == 0 {
        return;
      }
      NextCode(bits, k);
      code, sz := NextSizeInUse(huffsize, code, sz, k, CodeAt(l, k - 1) + 1, l[k], l[k] - l[k - 1]);
    }
  }

  /** The first inner loop: a run of codes of size sz. */
  method RunOfCodes(codes: array<nat>, huffsize: array<nat>, bits: seq<nat>, k0: nat, code0: nat, sz: nat)
    returns (k: nat, code: nat)
    requires codes.Length == 256 && huffsize.Length == 257 && Kraft(bits) && 1 <= Before(bits, 16) <= 256
    requires codes != huffsize && k0 < Before(bits, 16) && huffsize[Before(bits, 16)] == 0 && Sorted(Sizes(bits, 16))
    requires forall i :: 0 <= i < Before(bits, 16) ==> huffsize[i] == Sizes(bits, 16)[i] && 1 <= huffsize[i]
    requires sz == huffsize[k0] && code0 == CodeAt(Sizes(bits, 16), k0)
    requires forall i :: 0 <= i < k0 ==> codes[i] == CodeAt(Sizes(bits, 16), i)
    modifies codes
    ensures k0 < k <= Before(bits, 16) && Sizes(bits, 16)[k - 1] == sz != huffsize[k]
    ensures code == (CodeAt(Sizes(bits, 16), k - 1) + 1) % 0x1_0000
    ensures forall i :: 0 <= i < k ==> codes[i] == CodeAt(Sizes(bits, 16), i)
  {
    hide *;
    KraftShape(bits);
    ghost var l, n := Sizes(bits, 16), Before(bits, 16);
    codes[k0] := code0;
    k, code := k0 + 1, (code0 + 1) % 0x1_0000;
    while huffsize[k] == sz
      invariant k0 < k <= n && sz == l[k - 1] && code == (CodeAt(l, k - 1) + 1) % 0x1_0000
      invariant forall i :: 0 <= i < k ==> codes[i] == CodeAt(l, i)
      decreases n - k
    {
      NextCode(bits, k);
      codes[k] := code;
      k, code := k + 1, (code + 1) % 0x1_0000;
    }
  }

  /** The last loop of tjei_huff_get_codes: up to the next size in use, d places away. */
  method NextSizeInUse(huffsize: array<nat>, code0: nat, sz0: nat, k: nat, ghost c: nat, ghost size: nat, ghost d: nat)
    returns (code: nat, sz: nat)
    requires k < huffsize.Length && huffsize[k] == size == sz0 + d && 0 < d && code0 == c && Shifted(c, d) < 0x1_0000
    ensures sz == size && code == Shifted(c, d)
  {
    hide Shifted;
    ShiftedGrows(c, 0);
    ShiftStep(c, 0, d);
    code, sz := code0 * 2 % 0x1_0000, sz0 + 1;
    while huffsize[k] != sz
      invariant sz0 < sz <= size && code == Shifted(c, sz - sz0)
      decreases size - sz
    {
      ShiftStep(c, sz - sz0, d);
      code, sz := code * 2 % 0x1_0000, sz + 1;
    }
  }

  /** tjei_huff_get_extended: size and code of each symbol, indexed by symbol. */
  method GetExtended(ehuffsize: array<nat>, ehuffcode: array<nat>, vals: seq<Byte>,
                     huffsize: array<nat>, huffcode: array<nat>)
    requires ehuffsize.Length == 257 && ehuffcode.Length == 256 && 1 <= |vals| <= 256
    requires huffsize.Length == 257 && huffcode.Length == 256
    requires ehuffsize != ehuffcode && ehuffsize != huffsize && ehuffsize != huffcode
    requires ehuffcode != huffsize && ehuffcode != huffcode
    requires forall i, j :: 0 <= i < j < |vals| ==> vals[i] != vals[j]
    modifies ehuffsize, ehuffcode
    ensures forall k {:trigger vals[k]} :: 0 <= k < |vals| ==>
      ehuffsize[vals[k]] == huffsize[k] && ehuffcode[vals[k]] == huffcode[k]
  {
    var k := 0;
    while k < |vals|
      invariant 0 <= k <= |vals|
      invariant forall i {:trigger vals[i]} :: 0 <= i < k ==>
        ehuffsize[vals[i]] == huffsize[i] && ehuffcode[vals[i]] == huffcode[i]
    {
      var val := vals[k];
      ehuffcode[val] := huffcode[k];
      ehuffsize[val] := huffsize[k];
      k := k + 1;
    }
  }

  /** One table of tjei_huff_expand. */
  method Expand(s: Spec) returns (t: Table)
    requires SpecOk(s)
    ensures TableFor(s, t)
  {
    hide CodeAt, Sizes, Before, KraftSum, Pow2;
    var huffsize, huffcode := new nat[257](_ => 0), new nat[256](_ => 0);
    var ehuffsize, ehuffcode := new nat[257](_ => 0), new nat[256](_ => 0);
    GetCodeLengths(huffsize, s.bits);
    GetCodes(huffcode, huffsize, s.bits);
    GetExtended(ehuffsize, ehuffcode, s.vals, huffsize, huffcode);
    t := Table(ehuffsize[..], ehuffcode[..]);
    forall k {:trigger s.vals[k]} | 0 <= k < |s.vals|
      ensures t.size[s.vals[k]] == Sizes(s.bits, 16)[k] && t.code[s.vals[k]] == CodeAt(Sizes(s.bits, 16), k)
    {
      assert huffsize[..|s.vals|][k] == huffsize[k];
    }
  }

  // ----- decoding (T.81 figures F.15 and F.16) -----

  function MinCode(bits: seq<nat>, i: nat): (n: nat)
    requires |bits| == 16 && 1 <= i <= 16 && bits[i - 1] > 0 && Sorted(Sizes(bits, 16))
  {
    BeforeGrows(bits, i, 16);
    CodeAt(Sizes(bits, 16), Before(bits, i - 1))
  }

  /** The largest code of length i, or -1 when there is none. */
  function MaxCode(bits: seq<nat>, i: nat): (v: int)
    requires |bits| == 16 && 1 <= i <= 16 && Sorted(Sizes(bits, 16))
  {
    if bits[i - 1] == 0 then -1
    else
      BeforeGrows(bits, i, 16);
      CodeAt(Sizes(bits, 16), Before(bits, i) - 1)
  }

  datatype Decoded<T> = Fail | Got(value: T, rest: Bits)

  /** Reads one symbol; i bits with value code have been read. */
  function DecodeFrom(s: Spec, code: nat, i: nat, b: Bits): (r: Decoded<Byte>)
    requires |s.bits| == 16 && i <= 16 && Sorted(Sizes(s.bits, 16))
    decreases 16 - i
  {
    if i > 0 && code <= MaxCode(s.bits, i) then
      var j := Before(s.bits, i - 1) + (code - MinCode(s.bits, i));
      if 0 <= j < |s.vals| then Got(s.vals[j], b) else Fail
    else if i == 16 || b == [] then Fail
    else DecodeFrom(s, 2 * code + (if b[0] then 1 else 0), i + 1, b[1..])
  }

  function DecodeSymbol(s: Spec, b: Bits): (r: Decoded<Byte>)
    requires |s.bits| == 16 && Sorted(Sizes(s.bits, 16))
  {
    DecodeFrom(s, 0, 0, b)
  }

  /** While only part of code k has been read, the value read is above every code of that length. */
  lemma NotYet(s: Spec, k: nat, i: nat, c: nat, lo: nat)
    requires SpecOk(s) && k < |s.vals| && Sorted(Sizes(s.bits, 16))
    requires 1 <= i < Sizes(s.bits, 16)[k] && lo < Pow2(Sizes(s.bits, 16)[k] - i)
    requires CodeAt(Sizes(s.bits, 16), k) == Shifted(c, Sizes(s.bits, 16)[k] - i) + lo
    ensures MaxCode(s.bits, i) < c
  {
    hide Sizes, CodeAt, Shifted, Pow2, KraftSum;
    var l := Sizes(s.bits, 16);
    if s.bits[i - 1] > 0 {
      var j := Before(s.bits, i) - 1;
      BeforeGrows(s.bits, i, 16);
      SizeIs(s.bits, 16, j, i);
      assert j < k;
      CodeAbove(l, j, k);
      ShiftedQuotient(CodeAt(l, j) + 1, l[k] - i, c, lo);
    }
  }

  lemma ShiftedQuotient(a: nat, d: nat, c: nat, lo: nat)
    requires Shifted(a, d) <= Shifted(c, d) + lo && lo < Pow2(d)
    ensures a <= c
  {
    QuotientAtLeast(a, Pow2(d), c, lo);
  }

  /** At its own length, code k is found and gives the k-th symbol. */
  lemma FoundAt(s: Spec, k: nat, b: Bits)
    requires SpecOk(s) && k < |s.vals| && Sorted(Sizes(s.bits, 16))
    ensures DecodeFrom(s, CodeAt(Sizes(s.bits, 16), k), Sizes(s.bits, 16)[k], b) == Got(s.vals[k], b)
  {
    hide CodeAt, KraftSum, Sizes, MaxCode, MinCode, Before, Sorted;
    MinMax(s, k);
  }

  /** Code k lies between the smallest and the largest code of its length, k - first above the
      smallest. */
  lemma MinMax(s: Spec, k: nat)
    requires SpecOk(s) && k < |s.vals| && Sorted(Sizes(s.bits, 16))
    ensures var i := Sizes(s.bits, 16)[k]; var c := CodeAt(Sizes(s.bits, 16), k);
      && 1 <= i <= 16 && s.bits[i - 1] > 0 && c <= MaxCode(s.bits, i)
      && Before(s.bits, i - 1) + (c - MinCode(s.bits, i)) == k
  {
    hide CodeAt, KraftSum, Sizes, Sorted;
    var l := Sizes(s.bits, 16);
    var i := l[k];
    SizeAt(s.bits, 16, k);
    BeforeGrows(s.bits, i, 16);
    var first, last := Before(s.bits, i - 1), Before(s.bits, i) - 1;
    SizeIs(s.bits, 16, first, i);
    SizeIs(s.bits, 16, last, i);
    EqualLengthConsecutive(l, first, k);
    EqualLengthConsecutive(l, k, last);
  }

  /** A code that is not complete: one more bit is read. */
  lemma DecodeOn(s: Spec, code: nat, i: nat, b: Bits)
    requires |s.bits| == 16 && Sorted(Sizes(s.bits, 16)) && i <= 16 && (i == 0 || MaxCode(s.bits, i) < code)
    ensures DecodeFrom(s, code, i, b) ==
      if i == 16 || b == [] then Fail else DecodeFrom(s, 2 * code + (if b[0] then 1 else 0), i + 1, b[1..])
  {
    hide MaxCode, MinCode, Before, Sizes, Sorted;
  }

  lemma DecodeStep(s: Spec, c: nat, i: nat, bit: nat, tail: Bits)
    requires |s.bits| == 16 && Sorted(Sizes(s.bits, 16)) && i < 16 && bit <= 1
    requires i > 0 ==> MaxCode(s.bits, i) < c
    ensures DecodeFrom(s, c, i, [bit == 1] + tail) == DecodeFrom(s, 2 * c + bit, i + 1, tail)
  {
    hide MaxCode, MinCode, Before, Sizes, Sorted, DecodeFrom;
    var b := [bit == 1] + tail;
    DecodeOn(s, c, i, b);
    assert b[0] == (bit == 1) && b[1..] == tail;
  }

  lemma {:induction false} DecodeReads(s: Spec, k: nat, i: nat, c: nat, lo: nat, rest: Bits)
    requires SpecOk(s) && k < |s.vals| && Sorted(Sizes(s.bits, 16))
    requires i <= Sizes(s.bits, 16)[k] && lo < Pow2(Sizes(s.bits, 16)[k] - i)
    requires CodeAt(Sizes(s.bits, 16), k) == Shifted(c, Sizes(s.bits, 16)[k] - i) + lo
    ensures DecodeFrom(s, c, i, BitsOf(lo, Sizes(s.bits, 16)[k] - i) + rest) == Got(s.vals[k], rest)
    decreases Sizes(s.bits, 16)[k] - i
  {
    hide CodeAt, KraftSum, Sizes, MaxCode, MinCode, BitsOf, Shifted, DecodeFrom, Pow2;
    var n := Sizes(s.bits, 16)[k] - i;
    var b := BitsOf(lo, n) + rest;
    if n == 0 {
      ShiftedGrows(c, 0);
      NoBits(lo);
      assert lo == 0;
      assert b == rest;
      FoundAt(s, k, rest);
    } else {
      if i > 0 {
        NotYet(s, k, i, c, lo);
      }
      var bit, low := TopBit(lo, n, c);
      assert b == [bit == 1] + (BitsOf(low, n - 1) + rest);
      DecodeStep(s, c, i, bit, BitsOf(low, n - 1) + rest);
      DecodeReads(s, k, i + 1, 2 * c + bit, low, rest);
    }
  }

  lemma NoBits(lo: nat)
    ensures BitsOf(lo, 0) == [] && Pow2(0) == 1
  {
  }

  /** Splits the top bit off an n-bit number. */
  lemma TopBit(lo: nat, n: nat, c: nat) returns (bit: nat, low: nat)
    requires 0 < n && lo < Pow2(n)
    ensures bit <= 1 && low < Pow2(n - 1)
    ensures BitsOf(lo, n) == [bit == 1] + BitsOf(low, n - 1)
    ensures Shifted(c, n) + lo == Shifted(2 * c + bit, n - 1) + low
  {
    hide Shifted, BitsOf, Pow2;
    bit, low := HighBit(lo, n);
    BitsJoin(bit, 1, low, n - 1);
    OneBit(bit);
    ShiftedBit(c, bit, n);
  }

  lemma HighBit(lo: nat, n: nat) returns (bit: nat, low: nat)
    requires 0 < n && lo < Pow2(n)
    ensures bit <= 1 && low < Pow2(n - 1) && lo == bit * Pow2(n - 1) + low
  {
    var p := Pow2(n - 1);
    bit, low := if lo < p then 0 else 1, if lo < p then lo else lo - p;
  }

  lemma OneBit(bit: nat)
    requires bit <= 1
    ensures BitsOf(bit, 1) == [bit == 1]
  {
  }

  lemma ShiftedBit(c: nat, bit: nat, n: nat)
    requires 0 < n && bit <= 1
    ensures Shifted(c, n) + bit * Pow2(n - 1) == Shifted(2 * c + bit, n - 1)
  {
    ShiftedTwice(c, 1, n - 1);
    assert Shifted(c, 1) == 2 * c;
    if bit == 1 {
      ShiftedNext(2 * c, n - 1);
    }
  }

  /** The decoder of T.81 reads back every symbol that the derived encoder table writes. */
  lemma SymbolRoundTrip(s: Spec, t: Table, sym: Byte, rest: Bits)
    requires SpecOk(s) && TableFor(s, t) && sym in s.vals
    ensures DecodeSymbol(s, SymbolBits(t, sym) + rest) == Got(sym, rest)
  {
    hide CodeAt, KraftSum, Sizes, BitsOf, DecodeFrom, Shifted;
    var k :| 0 <= k < |s.vals| && s.vals[k] == sym;
    CodeFits(s.bits, k);
    var c := CodeAt(Sizes(s.bits, 16), k);
    NothingRead(c, Sizes(s.bits, 16)[k]);
    DecodeReads(s, k, 0, 0, c, rest);
  }

  lemma NothingRead(c: nat, n: nat)
    ensures c == Shifted(0, n) + c
  {
  }
}
