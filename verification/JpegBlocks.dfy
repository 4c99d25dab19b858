/** Coding of one block of 64 quantised coefficients in zig-zag order, and its decoder.

    The encoder side follows the integer half of tjei_encode_and_write_MCU; the decoder is the
    one of T.81 sections F.2.2.1 (DC) and F.2.2.2 (AC). */
module JpegBlocks {
  import opened Arith
  import opened BitStrings
  import opened JpegHuffman

  function Abs(v: int): (n: nat) {
    if v < 0 then -v else v
  }

  // ----- variable-length integers -----

  /** The number of bits of v, the magnitude category of T.81. */
  function Category(v: nat): (n: nat) {
    if v == 0 then 0 else 1 + Category(v / 2)
  }

  lemma {:induction false} CategoryBounds(v: nat)
    requires 0 < v
    ensures 0 < Category(v) && Pow2(Category(v) - 1) <= v < Pow2(Category(v))
  {
    if v > 1 {
      CategoryBounds(v / 2);
    }
  }

  lemma {:induction false} CategoryAtMost(v: nat, n: nat)
    requires v < Pow2(n)
    ensures Category(v) <= n
  {
    if v > 0 {
      CategoryAtMost(v / 2, n - 1);
    }
  }

  /** The appended bits for a value of category n: the value itself, or the low n bits of the
      value minus one when it is negative (T.81 section F.1.2.1.1). */
  function VliBits(v: int, n: nat): (r: nat) {
    (if v < 0 then v - 1 else v) % Pow2(n)
  }

  /** EXTEND of T.81 section F.2.2.1. */
  function Extend(v: int, n: nat): (r: int)
    requires 0 < n
  {
    if v < Pow2(n - 1) then v - Pow2(n) + 1 else v
  }

  lemma VliRoundTrip(v: int)
    requires v != 0
    ensures 0 < Category(Abs(v))
    ensures VliBits(v, Category(Abs(v))) < Pow2(Category(Abs(v)))
    ensures Extend(VliBits(v, Category(Abs(v))), Category(Abs(v))) == v
  {
    CategoryBounds(Abs(v));
    var n := Category(Abs(v));
    var p := Pow2(n);
    if v > 0 {
      ModSmall(v, p);
    } else {
      ModSmall(v - 1 + p, p);
      ModShift(v - 1, p);
    }
  }

  lemma ModSmall(a: nat, m: nat)
    requires a < m
    ensures a % m == a
  {
  }

  lemma ModShift(a: int, m: nat)
    requires 0 < m && 0 <= a + m < m
    ensures a % m == a + m
  {
    var q, r := a / m, a % m;
    assert a == q * m + r;
    assert (-q) * m == -(q * m);
    if q >= 0 {
      MulMono(0, q, m);
    } else if q <= -2 {
      MulMono(2, -q, m);
    }
  }

  /** tjei_calculate_variable_length_int. */
  method VariableLengthInt(value: int) returns (bits: nat, n: nat)
    requires Abs(value) < 0x1_0000
    ensures value != 0 ==> n == Category(Abs(value)) <= 16 && bits == VliBits(value, n) && bits < Pow2(n)
    ensures value == 0 ==> n == 1 && bits == 0
  {
    hide Pow2;
    var abs, val := value, value;
    if value < 0 {
      abs := -abs;
      val := val - 1;
    }
    n := 1;
    abs := abs / 2;
    while abs != 0
      invariant 0 <= abs
      invariant value != 0 ==> n + Category(abs) == Category(Abs(value))
      invariant value == 0 ==> abs == 0 && n == 1
    {
      n := n + 1;
      abs := abs / 2;
    }
    bits := val % Pow2(n);
    if value != 0 {
      VliFits(value);
    }
  }

  lemma VliFits(v: int)
    requires v != 0 && Abs(v) < 0x1_0000
    ensures Category(Abs(v)) <= 16 && VliBits(v, Category(Abs(v))) < Pow2(Category(Abs(v)))
  {
    Pow2Values();
    CategoryAtMost(Abs(v), 16);
    VliRoundTrip(v);
  }

  // ----- the bits of a block -----

  /** Position of the last non-zero AC coefficient among 1..i, or 0. */
  function LastNonZero(du: seq<int>, i: nat): (k: nat)
    requires i < |du|
    ensures k <= i && (k > 0 ==> du[k] != 0) && forall j :: k < j <= i ==> du[j] == 0
  {
    if i == 0 then 0 else if du[i] != 0 then i else LastNonZero(du, i - 1)
  }

  ghost predicate TableShape(t: Table) {
    |t.size| == 257 && |t.code| == 256
  }

  /** A symbol followed by the appended bits of a non-zero value. */
  ghost function ValueBits(t: Table, run: nat, v: int): (b: Bits)
    requires TableShape(t) && run < 16 && v != 0 && Category(Abs(v)) < 16
  {
    SymbolBits(t, 16 * run + Category(Abs(v))) + BitsOf(VliBits(v, Category(Abs(v))), Category(Abs(v)))
  }

  ghost function DcBits(t: Table, diff: int): (b: Bits)
    requires TableShape(t) && Category(Abs(diff)) < 16
  {
    if diff == 0 then SymbolBits(t, 0) else ValueBits(t, 0, diff)
  }

  const EOB: Byte := 0x00
  const ZRL: Byte := 0xF0

  /** The AC bits from coefficient i on, when the z coefficients before it were zeros that have
      not been coded yet. */
  ghost function AcBits(t: Table, du: seq<int>, i: nat, z: nat, last: nat): (b: Bits)
    requires TableShape(t) && |du| == 64 && last < 64 && z < 16
    requires forall j :: 0 < j < 64 ==> Category(Abs(du[j])) < 16
    decreases 64 - i
  {
    if i > last || i == 0 then (if last != 63 then SymbolBits(t, EOB) else [])
    else if du[i] == 0 then
      if z == 15 then SymbolBits(t, ZRL) + AcBits(t, du, i + 1, 0, last)
      else AcBits(t, du, i + 1, z + 1, last)
    else ValueBits(t, z, du[i]) + AcBits(t, du, i + 1, 0, last)
  }

  /** Coefficients the default tables can code. */
  ghost predicate BlockOk(du: seq<int>, pred: int) {
    && |du| == 64 && Abs(du[0] - pred) <= 2047
    && forall j :: 0 < j < 64 ==> Abs(du[j]) <= 1023
  }

  lemma BlockCategories(du: seq<int>, pred: int)
    requires BlockOk(du, pred)
    ensures Category(Abs(du[0] - pred)) <= 11
    ensures forall j :: 0 < j < 64 ==> Category(Abs(du[j])) <= 10
  {
    Pow2Ten();
    CategoryAtMost(Abs(du[0] - pred), 11);
    forall j | 0 < j < 64 ensures Category(Abs(du[j])) <= 10 {
      CategoryAtMost(Abs(du[j]), 10);
    }
  }

  lemma Pow2Ten()
    ensures Pow2(10) == 1024 && Pow2(11) == 2048
  {
    assert Pow2(5) == 32;
    Pow2Add(5, 5);
  }

  /** All bits of a block: the DC difference to the predecessor, then the AC coefficients. */
  ghost function BlockBits(dc: Table, ac: Table, du: seq<int>, pred: int): (b: Bits)
    requires TableShape(dc) && TableShape(ac) && BlockOk(du, pred)
  {
    BlockCategories(du, pred);
    DcBits(dc, du[0] - pred) + AcBits(ac, du, 1, 0, LastNonZero(du, 63))
  }

  // ----- the decoder -----

  function Receive(b: Bits, n: nat): (r: Decoded<nat>) {
    if |b| < n then Fail else Got(NumOf(b[..n]), b[n..])
  }

  ghost predicate Decodes(s: Spec) {
    |s.bits| == 16 && Sorted(Sizes(s.bits, 16))
  }

  /** T.81 section F.2.2.1: the DC difference. */
  ghost function DecodeDc(s: Spec, b: Bits): (r: Decoded<int>)
    requires Decodes(s)
  {
    match DecodeSymbol(s, b)
    case Fail => Fail
    case Got(t, rest) =>
      if t == 0 then Got(0, rest)
      else match Receive(rest, t)
        case Fail => Fail
        case Got(v, rest') => Got(Extend(v, t), rest')
  }

  /** T.81 section F.2.2.2: the coefficients behind those in zz. */
  ghost function DecodeAc(s: Spec, b: Bits, zz: seq<int>): (x: Decoded<seq<int>>)
    requires Decodes(s) && |zz| <= 63
    decreases 64 - |zz|
  {
    match DecodeSymbol(s, b)
    case Fail => Fail
    case Got(rs, rest) =>
      var r, n := rs / 16, rs % 16;
      if n == 0 then
        if r == 15 then
          if |zz| + 16 <= 63 then DecodeAc(s, rest, zz + Repeat(0, 16)) else Fail
        else Got(zz + Repeat(0, 64 - |zz|), rest)
      else if |zz| + r > 63 then Fail
      else
        match Receive(rest, n)
        case Fail => Fail
        case Got(v, rest') =>
          var zz' := zz + Repeat(0, r) + [Extend(v, n)];
          if |zz'| == 64 then Got(zz', rest') else DecodeAc(s, rest', zz')
  }

  ghost function DecodeBlock(dc: Spec, ac: Spec, b: Bits, pred: int): (r: Decoded<seq<int>>)
    requires Decodes(dc) && Decodes(ac)
  {
    match DecodeDc(dc, b)
    case Fail => Fail
    case Got(diff, rest) => DecodeAc(ac, rest, [pred + diff])
  }

  // ----- decoding what was encoded -----

  ghost predicate DcSymbols(s: Spec) {
    forall n: Byte :: n <= 11 ==> n in s.vals
  }

  ghost predicate AcSymbols(s: Spec) {
    EOB in s.vals && ZRL in s.vals && forall c: Byte :: 1 <= c % 16 <= 10 ==> c in s.vals
  }

  lemma SpecDecodes(s: Spec)
    requires SpecOk(s)
    ensures Decodes(s)
  {
    SizesSorted(s.bits, 16);
  }

  lemma ReceiveBits(v: nat, n: nat, rest: Bits)
    requires v < Pow2(n)
    ensures Receive(BitsOf(v, n) + rest, n) == Got(v, rest)
  {
    NumOfBits(v, n);
    assert (BitsOf(v, n) + rest)[..n] == BitsOf(v, n);
    assert (BitsOf(v, n) + rest)[n..] == rest;
  }

  lemma DcRoundTrip(s: Spec, t: Table, diff: int, rest: Bits)
    requires SpecOk(s) && TableFor(s, t) && DcSymbols(s) && Category(Abs(diff)) <= 11
    ensures Decodes(s) && DecodeDc(s, DcBits(t, diff) + rest) == Got(diff, rest)
  {
    SizesSorted(s.bits, 16);
    if diff == 0 {
      SymbolRoundTrip(s, t, 0, rest);
    } else {
      var n := Category(Abs(diff));
      var tail := BitsOf(VliBits(diff, n), n);
      VliRoundTrip(diff);
      assert DcBits(t, diff) + rest == SymbolBits(t, n) + (tail + rest);
      SymbolRoundTrip(s, t, n, tail + rest);
      ReceiveBits(VliBits(diff, n), n, rest);
    }
  }

  /** One step of the AC decoder over a run of z zeros and a non-zero value. */
  lemma ValueStep(s: Spec, t: Table, zz: seq<int>, z: nat, v: int, rest: Bits)
    requires SpecOk(s) && TableFor(s, t) && AcSymbols(s) && Decodes(s)
    requires v != 0 && Category(Abs(v)) <= 10 && z < 16 && |zz| + z <= 63
    ensures DecodeAc(s, ValueBits(t, z, v) + rest, zz) ==
            if |zz| + z == 63 then Got(zz + Repeat(0, z) + [v], rest) else DecodeAc(s, rest, zz + Repeat(0, z) + [v])
  {
    VliRoundTrip(v);
    var n := Category(Abs(v));
    RunSize(z, n);
    assert (16 * z + n) in s.vals;
    hide SymbolBits, DecodeSymbol, Receive, Extend, VliBits, Category, BitsOf, SpecOk, TableFor, AcSymbols, Sorted,
      Sizes, Abs;
    var tail := BitsOf(VliBits(v, n), n);
    assert ValueBits(t, z, v) + rest == SymbolBits(t, 16 * z + n) + (tail + rest);
    SymbolRoundTrip(s, t, 16 * z + n, tail + rest);
    ReceiveBits(VliBits(v, n), n, rest);
  }

  lemma RunSize(r: nat, n: nat)
    requires n < 16
    ensures (16 * r + n) / 16 == r && (16 * r + n) % 16 == n
  {
  }

  lemma ZrlStep(s: Spec, t: Table, zz: seq<int>, rest: Bits)
    requires SpecOk(s) && TableFor(s, t) && AcSymbols(s) && Decodes(s) && |zz| + 16 <= 63
    ensures DecodeAc(s, SymbolBits(t, ZRL) + rest, zz) == DecodeAc(s, rest, zz + Repeat(0, 16))
  {
    hide SymbolBits, DecodeSymbol;
    SymbolRoundTrip(s, t, ZRL, rest);
  }

  lemma EobStep(s: Spec, t: Table, zz: seq<int>, rest: Bits)
    requires SpecOk(s) && TableFor(s, t) && AcSymbols(s) && Decodes(s) && |zz| <= 63
    ensures DecodeAc(s, SymbolBits(t, EOB) + rest, zz) == Got(zz + Repeat(0, 64 - |zz|), rest)
  {
    hide SymbolBits, DecodeSymbol;
    SymbolRoundTrip(s, t, EOB, rest);
  }

  lemma Assoc(a: Bits, b: Bits, c: Bits)
    ensures a + b + c == a + (b + c)
  {
  }

  /** Zeros of the block behind its first a coefficients. */
  lemma ZerosFill(du: seq<int>, a: nat, n: nat)
    requires a + n <= |du| && forall j :: a <= j < a + n ==> du[j] == 0
    ensures du[..a] + Repeat(0, n) == du[..a + n]
  {
  }

  ghost predicate AcReady(s: Spec, t: Table, du: seq<int>) {
    SpecOk(s) && TableFor(s, t) && AcSymbols(s) && Decodes(s) && AcFits(du)
  }

  ghost predicate IsLast(du: seq<int>, last: nat) {
    last < 64 == |du| && (last > 0 ==> du[last] != 0) && forall j :: last < j < 64 ==> du[j] == 0
  }

  ghost predicate AcFits(du: seq<int>) {
    |du| == 64 && forall j :: 0 < j < 64 ==> Category(Abs(du[j])) <= 10
  }

  lemma AcReadyFacts(s: Spec, t: Table, du: seq<int>)
    requires AcReady(s, t, du)
    ensures TableShape(t) && AcFits(du) && Decodes(s) && |du| == 64
    ensures forall j :: 0 < j < 64 ==> Category(Abs(du[j])) <= 10
  {
  }

  lemma LastFacts(du: seq<int>, last: nat)
    requires IsLast(du, last)
    ensures last < 64 == |du| && (last > 0 ==> du[last] != 0)
  {
  }

  /** The AC decoder returns the block whose coefficients from i on were encoded, z zeros being
      still uncoded. */
  lemma {:induction false} AcRoundTrip(s: Spec, t: Table, du: seq<int>, i: nat, z: nat, last: nat, rest: Bits)
    requires AcReady(s, t, du)
    requires IsLast(du, last) && z < 16 && z < i <= last + 1 && i <= 63 && (i == last + 1 ==> z == 0)
    requires forall j :: i - z <= j < i ==> du[j] == 0
    ensures DecodeAc(s, AcBits(t, du, i, z, last) + rest, du[..i - z]) == Got(du, rest)
    decreases 64 - i
  {
    hide *;
    AcReadyFacts(s, t, du);
    LastFacts(du, last);
    if i > last {
      AcEnd(s, t, du, i, last, rest);
    } else if du[i] != 0 {
      AcValue(s, t, du, i, z, last, rest);
      if i < 63 {
        AcRoundTrip(s, t, du, i + 1, 0, last, rest);
      }
    } else if z == 15 {
      AcLongRun(s, t, du, i, last, rest);
      AcRoundTrip(s, t, du, i + 1, 0, last, rest);
    } else {
      AcSkip(t, du, i, z, last);
      AcRoundTrip(s, t, du, i + 1, z + 1, last, rest);
    }
  }

  lemma AcSkip(t: Table, du: seq<int>, i: nat, z: nat, last: nat)
    requires TableShape(t) && AcFits(du) && 0 < i <= last < 64 && z < 15 && du[i] == 0
    ensures AcBits(t, du, i, z, last) == AcBits(t, du, i + 1, z + 1, last)
  {
  }

  lemma AcEnd(s: Spec, t: Table, du: seq<int>, i: nat, last: nat, rest: Bits)
    requires AcReady(s, t, du) && IsLast(du, last) && i == last + 1 <= 63
    ensures DecodeAc(s, AcBits(t, du, i, 0, last) + rest, du[..i]) == Got(du, rest)
  {
    hide DecodeAc, SymbolBits;
    EobStep(s, t, du[..i], rest);
    ZerosFill(du, i, 64 - i);
    assert du[..64] == du;
  }

  lemma AcLongRun(s: Spec, t: Table, du: seq<int>, i: nat, last: nat, rest: Bits)
    requires AcReady(s, t, du) && 15 < i <= last < 64 && i < 63 && forall j :: i - 15 <= j <= i ==> du[j] == 0
    ensures DecodeAc(s, AcBits(t, du, i, 15, last) + rest, du[..i - 15])
         == DecodeAc(s, AcBits(t, du, i + 1, 0, last) + rest, du[..i + 1])
  {
    hide DecodeAc, SymbolBits;
    var more := AcBits(t, du, i + 1, 0, last);
    Assoc(SymbolBits(t, ZRL), more, rest);
    ZrlStep(s, t, du[..i - 15], more + rest);
    ZerosFill(du, i - 15, 16);
  }

  lemma AcValue(s: Spec, t: Table, du: seq<int>, i: nat, z: nat, last: nat, rest: Bits)
    requires AcReady(s, t, du) && z < 16 && z < i <= last < 64 && du[i] != 0
    requires forall j :: i - z <= j < i ==> du[j] == 0
    ensures DecodeAc(s, AcBits(t, du, i, z, last) + rest, du[..i - z])
         == if i == 63 then Got(du, rest) else DecodeAc(s, AcBits(t, du, i + 1, 0, last) + rest, du[..i + 1])
  {
    hide DecodeAc, SymbolBits, ValueBits;
    var more := AcBits(t, du, i + 1, 0, last);
    Assoc(ValueBits(t, z, du[i]), more, rest);
    ValueStep(s, t, du[..i - z], z, du[i], more + rest);
    ZerosFill(du, i - z, z);
    assert du[..i] + [du[i]] == du[..i + 1];
    if i == 63 {
      assert last == 63 && more == [] && more + rest == rest;
      assert du[..64] == du;
    }
  }

  /** Decoding the bits of a block gives back the block. */
  lemma BlockRoundTrip(dcs: Spec, acs: Spec, dc: Table, ac: Table, du: seq<int>, pred: int, rest: Bits)
    requires SpecOk(dcs) && SpecOk(acs) && TableFor(dcs, dc) && TableFor(acs, ac)
    requires DcSymbols(dcs) && AcSymbols(acs) && BlockOk(du, pred)
    ensures Decodes(dcs) && Decodes(acs)
    ensures DecodeBlock(dcs, acs, BlockBits(dc, ac, du, pred) + rest, pred) == Got(du, rest)
  {
    hide *;
    var last := BlockFacts(dcs, acs, dc, ac, du, pred);
    var dcBits, acBits := DcBits(dc, du[0] - pred), AcBits(ac, du, 1, 0, last);
    Assoc(dcBits, acBits, rest);
    DcRoundTrip(dcs, dc, du[0] - pred, acBits + rest);
    AcRoundTrip(acs, ac, du, 1, 0, last, rest);
    BlockDecoded(dcs, acs, dcBits + acBits + rest, pred, du[0] - pred, acBits + rest);
    assert du[..1] == [pred + (du[0] - pred)];
  }

  lemma BlockDecoded(dcs: Spec, acs: Spec, b: Bits, pred: int, diff: int, rest: Bits)
    requires Decodes(dcs) && Decodes(acs) && DecodeDc(dcs, b) == Got(diff, rest)
    ensures DecodeBlock(dcs, acs, b, pred) == DecodeAc(acs, rest, [pred + diff])
  {
    hide DecodeDc, DecodeAc, Decodes;
  }

  lemma BlockFacts(dcs: Spec, acs: Spec, dc: Table, ac: Table, du: seq<int>, pred: int) returns (last: nat)
    requires SpecOk(dcs) && SpecOk(acs) && TableFor(dcs, dc) && TableFor(acs, ac)
    requires DcSymbols(dcs) && AcSymbols(acs) && BlockOk(du, pred)
    ensures Decodes(dcs) && Decodes(acs) && TableShape(dc) && TableShape(ac) && AcReady(acs, ac, du) && AcFits(du)
    ensures |du| == 64 && IsLast(du, last) && last < 64 && Category(Abs(du[0] - pred)) <= 11
    ensures forall j :: 0 < j < 64 ==> Category(Abs(du[j])) <= 10
    ensures BlockBits(dc, ac, du, pred) == DcBits(dc, du[0] - pred) + AcBits(ac, du, 1, 0, last)
  {
    SpecDecodes(dcs);
    SpecDecodes(acs);
    BlockCategories(du, pred);
    last := LastNonZero(du, 63);
  }
}
