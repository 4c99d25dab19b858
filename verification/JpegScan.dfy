/** The entropy-coded scan: the encoder of tiny_jpeg.c from quantised coefficients to bytes,
    and the proof that a T.81 decoder reads back every block. */
module JpegScan {
  import opened Arith
  import opened BitStrings
  import opened JpegBits
  import opened JpegHuffman
  import opened JpegBlocks
  import opened JpegWriter

  /** One block of each component, in zig-zag order. */
  datatype Mcu = Mcu(y: seq<int>, b: seq<int>, r: seq<int>)

  /** The DC coefficients that the next differences refer to. */
  datatype Preds = Preds(y: int, b: int, r: int)

  datatype Tables = Tables(lumaDc: Table, lumaAc: Table, chromaDc: Table, chromaAc: Table)

  datatype Specs = Specs(lumaDc: Spec, lumaAc: Spec, chromaDc: Spec, chromaAc: Spec)

  /** Specifications that have a code for every symbol the encoder uses. */
  ghost predicate SpecsOk(s: Specs) {
    && SpecOk(s.lumaDc) && SpecOk(s.lumaAc) && SpecOk(s.chromaDc) && SpecOk(s.chromaAc)
    && DcSymbols(s.lumaDc) && AcSymbols(s.lumaAc) && DcSymbols(s.chromaDc) && AcSymbols(s.chromaAc)
  }

  ghost predicate TablesFor(s: Specs, t: Tables)
    requires SpecsOk(s)
  {
    && TableFor(s.lumaDc, t.lumaDc) && TableFor(s.lumaAc, t.lumaAc)
    && TableFor(s.chromaDc, t.chromaDc) && TableFor(s.chromaAc, t.chromaAc)
  }

  ghost predicate Shaped(t: Tables) {
    TableShape(t.lumaDc) && TableShape(t.lumaAc) && TableShape(t.chromaDc) && TableShape(t.chromaAc)
  }

  ghost predicate McuOk(m: Mcu, p: Preds) {
    BlockOk(m.y, p.y) && BlockOk(m.b, p.b) && BlockOk(m.r, p.r)
  }

  function PredsOf(m: Mcu): (x: Preds)
    requires |m.y| == |m.b| == |m.r| == 64
  {
    Preds(m.y[0], m.b[0], m.r[0])
  }

  ghost predicate ScanOk(ms: seq<Mcu>, p: Preds) {
    ms == [] || (McuOk(ms[0], p) && ScanOk(ms[1..], PredsOf(ms[0])))
  }

  ghost function PredsAfter(ms: seq<Mcu>, p: Preds): (r: Preds)
    requires ScanOk(ms, p)
  {
    if ms == [] then p else PredsAfter(ms[1..], PredsOf(ms[0]))
  }

  ghost function McuBits(t: Tables, m: Mcu, p: Preds): (c: Bits)
    requires Shaped(t) && McuOk(m, p)
  {
    BlockBits(t.lumaDc, t.lumaAc, m.y, p.y)
      + (BlockBits(t.chromaDc, t.chromaAc, m.b, p.b) + BlockBits(t.chromaDc, t.chromaAc, m.r, p.r))
  }

  ghost function ScanBits(t: Tables, ms: seq<Mcu>, p: Preds): (b: Bits)
    requires Shaped(t) && ScanOk(ms, p)
  {
    if ms == [] then [] else McuBits(t, ms[0], p) + ScanBits(t, ms[1..], PredsOf(ms[0]))
  }

  // ----- the decoder -----

  ghost predicate AllDecode(s: Specs) {
    Decodes(s.lumaDc) && Decodes(s.lumaAc) && Decodes(s.chromaDc) && Decodes(s.chromaAc)
  }

  ghost function DecodeMcu(s: Specs, b: Bits, p: Preds): (x: Decoded<Mcu>)
    requires AllDecode(s)
  {
    match DecodeBlock(s.lumaDc, s.lumaAc, b, p.y)
    case Fail => Fail
    case Got(y, b1) =>
      match DecodeBlock(s.chromaDc, s.chromaAc, b1, p.b)
      case Fail => Fail
      case Got(u, b2) =>
        match DecodeBlock(s.chromaDc, s.chromaAc, b2, p.r)
        case Fail => Fail
        case Got(v, b3) => Got(Mcu(y, u, v), b3)
  }

  ghost function DecodeScan(s: Specs, n: nat, b: Bits, p: Preds): (x: Decoded<seq<Mcu>>)
    requires AllDecode(s)
  {
    if n == 0 then Got([], b)
    else match DecodeMcu(s, b, p)
      case Fail => Fail
      case Got(m, rest) =>
        if |m.y| == |m.b| == |m.r| == 64 then
          match DecodeScan(s, n - 1, rest, PredsOf(m))
          case Fail => Fail
          case Got(ms, rest') => Got([m] + ms, rest')
        else Fail
  }

  lemma McuRoundTrip(s: Specs, t: Tables, m: Mcu, p: Preds, rest: Bits)
    requires SpecsOk(s) && TablesFor(s, t) && McuOk(m, p)
    ensures Shaped(t) && AllDecode(s) && DecodeMcu(s, McuBits(t, m, p) + rest, p) == Got(m, rest)
  {
    hide BlockBits, DecodeBlock, SpecOk, TableFor, DcSymbols, AcSymbols, Decodes, TableShape, BlockOk;
    SpecsDecode(s);
    TablesShaped(s, t);
    var bitsY := BlockBits(t.lumaDc, t.lumaAc, m.y, p.y);
    var bitsB := BlockBits(t.chromaDc, t.chromaAc, m.b, p.b);
    var bitsR := BlockBits(t.chromaDc, t.chromaAc, m.r, p.r);
    assert McuBits(t, m, p) + rest == bitsY + (bitsB + (bitsR + rest));
    BlockRoundTrip(s.lumaDc, s.lumaAc, t.lumaDc, t.lumaAc, m.y, p.y, bitsB + (bitsR + rest));
    BlockRoundTrip(s.chromaDc, s.chromaAc, t.chromaDc, t.chromaAc, m.b, p.b, bitsR + rest);
    BlockRoundTrip(s.chromaDc, s.chromaAc, t.chromaDc, t.chromaAc, m.r, p.r, rest);
  }

  lemma SpecsDecode(s: Specs)
    requires SpecsOk(s)
    ensures AllDecode(s)
  {
    SpecDecodes(s.lumaDc);
    SpecDecodes(s.lumaAc);
    SpecDecodes(s.chromaDc);
    SpecDecodes(s.chromaAc);
  }

  lemma TablesShaped(s: Specs, t: Tables)
    requires SpecsOk(s) && TablesFor(s, t)
    ensures Shaped(t)
  {
  }

  /** Any scan: decoding the bits of the MCUs gives back the MCUs. */
  lemma {:induction false} ScanRoundTrip(s: Specs, t: Tables, ms: seq<Mcu>, p: Preds, rest: Bits)
    requires SpecsOk(s) && TablesFor(s, t) && ScanOk(ms, p)
    ensures Shaped(t) && AllDecode(s) && DecodeScan(s, |ms|, ScanBits(t, ms, p) + rest, p) == Got(ms, rest)
    decreases |ms|
  {
    hide SpecsOk, TablesFor, AllDecode, Shaped, McuBits, DecodeMcu;
    SpecsDecode(s);
    TablesShaped(s, t);
    if ms == [] {
      assert ScanBits(t, ms, p) + rest == rest;
    } else {
      var more := ScanBits(t, ms[1..], PredsOf(ms[0]));
      Assoc(McuBits(t, ms[0], p), more, rest);
      McuRoundTrip(s, t, ms[0], p, more + rest);
      ScanRoundTrip(s, t, ms[1..], PredsOf(ms[0]), rest);
      assert [ms[0]] + ms[1..] == ms;
    }
  }

  /** Appending one MCU to a scan. */
  lemma {:induction false} ScanSnoc(t: Tables, ms: seq<Mcu>, m: Mcu, p: Preds)
    requires Shaped(t) && ScanOk(ms, p) && McuOk(m, PredsAfter(ms, p))
    ensures ScanOk(ms + [m], p) && PredsAfter(ms + [m], p) == PredsOf(m)
    ensures ScanBits(t, ms + [m], p) == ScanBits(t, ms, p) + McuBits(t, m, PredsAfter(ms, p))
    decreases |ms|
  {
    hide Shaped, McuBits, BlockOk;
    BlockLengths(m, PredsAfter(ms, p));
    var all := ms + [m];
    if ms == [] {
      assert all[0] == m && all[1..] == [];
    } else {
      BlockLengths(ms[0], p);
      assert all[0] == ms[0] && all[1..] == ms[1..] + [m];
      ScanSnoc(t, ms[1..], m, PredsOf(ms[0]));
    }
  }

  lemma BlockLengths(m: Mcu, p: Preds)
    requires McuOk(m, p)
    ensures |m.y| == |m.b| == |m.r| == 64
  {
  }

  // ----- the encoder -----

  lemma SymbolFits(s: Spec, t: Table, sym: Byte)
    requires SpecOk(s) && TableFor(s, t) && sym in s.vals
    ensures TableShape(t) && 1 <= t.size[sym] <= 16 && t.code[sym] < Pow2(t.size[sym])
  {
    var k :| 0 <= k < |s.vals| && s.vals[k] == sym;
    CodeFits(s.bits, k);
  }

  /** Writes the code of a symbol. */
  method WriteSymbol(w: Writer, ghost s: Spec, t: Table, sym: Byte)
    requires w.Valid() && SpecOk(s) && TableFor(s, t) && sym in s.vals
    modifies w, w.buffer
    ensures w.Valid() && w.header == old(w.header) && TableShape(t)
    ensures w.Pushed() == old(w.Pushed()) + SymbolBits(t, sym)
  {
    hide SpecOk, TableFor, Pow2;
    SymbolFits(s, t, sym);
    w.WriteBits(t.size[sym], t.code[sym]);
  }

  /** Writes a symbol for a run and the category of a value, then the value. */
  method WriteValue(w: Writer, ghost s: Spec, t: Table, run: nat, value: int)
    requires w.Valid() && SpecOk(s) && TableFor(s, t) && run < 16 && value != 0
    requires Category(Abs(value)) < 16 && (16 * run + Category(Abs(value))) in s.vals
    modifies w, w.buffer
    ensures w.Valid() && w.header == old(w.header) && TableShape(t)
    ensures w.Pushed() == old(w.Pushed()) + ValueBits(t, run, value)
  {
    hide SpecOk, TableFor, Pow2, VliBits, SymbolBits, BitsOf, Category;
    ghost var before := w.Pushed();
    SmallCategory(value);
    var bits, n := VariableLengthInt(value);
    var sym1 := 16 * run + n;
    WriteSymbol(w, s, t, sym1);
    w.WriteBits(n, bits);
    Assoc(before, SymbolBits(t, sym1), BitsOf(bits, n));
  }

  lemma SmallCategory(v: int)
    requires v != 0 && Category(Abs(v)) < 16
    ensures Abs(v) < 0x1_0000 && 1 <= Category(Abs(v))
  {
    CategoryBounds(Abs(v));
    Pow2Grows(Category(Abs(v)), 16);
    Pow2Values();
  }

  /** The DC part of tjei_encode_and_write_MCU. */
  method EncodeDc(w: Writer, ghost s: Spec, t: Table, diff: int)
    requires w.Valid() && SpecOk(s) && TableFor(s, t) && DcSymbols(s) && Category(Abs(diff)) <= 11
    modifies w, w.buffer
    ensures w.Valid() && w.header == old(w.header) && TableShape(t)
    ensures w.Pushed() == old(w.Pushed()) + DcBits(t, diff)
  {
    hide SpecOk, TableFor, Category, ValueBits, SymbolBits;
    if diff != 0 {
      WriteValue(w, s, t, 0, diff);
    } else {
      WriteSymbol(w, s, t, 0);
    }
  }

  /** The AC part: runs of zeros, values, and the end-of-block symbol. */
  method EncodeAc(w: Writer, ghost s: Spec, t: Table, du: seq<int>)
    requires w.Valid() && AcReady(s, t, du)
    modifies w, w.buffer
    ensures w.Valid() && w.header == old(w.header) && TableShape(t) && AcFits(du)
    ensures w.Pushed() == old(w.Pushed()) + AcBits(t, du, 1, 0, LastNonZero(du, 63))
  {
    hide *;
    AcReadyFacts(s, t, du);
    AcReadyParts(s, t, du);
    ghost var start, last0 := w.Pushed(), LastNonZero(du, 63);
    ghost var whole := AcBits(t, du, 1, 0, last0);
    var last := 0;
    var i := 63;
    while i > 0
      invariant 0 <= i <= 63 && last == 0 && forall j :: i < j < 64 ==> du[j] == 0
    {
      if du[i] != 0 {
        last := i;
        break;
      }
      i := i - 1;
    }
    LastFound(du, last);
    i := 1;
    while i <= last
      invariant 1 <= i <= last + 1
      invariant w.Valid() && w.header == old(w.header)
      invariant w.Pushed() + AcBits(t, du, i, 0, last) == start + whole
    {
      var zeroCount := 0;
      while du[i] == 0
        invariant 1 <= i <= last && 0 <= zeroCount < 16
        invariant w.Valid() && w.header == old(w.header)
        invariant w.Pushed() + AcBits(t, du, i, zeroCount, last) == start + whole
        decreases last - i
      {
        ghost var before := w.Pushed();
        AcUnfold(t, du, i, zeroCount, last);
        zeroCount := zeroCount + 1;
        i := i + 1;
        if zeroCount == 16 {
          WriteSymbol(w, s, t, ZRL);
          zeroCount := 0;
          Assoc(before, SymbolBits(t, ZRL), AcBits(t, du, i, 0, last));
        }
      }
      ghost var before := w.Pushed();
      AcUnfold(t, du, i, zeroCount, last);
      ValueSymbol(s, t, du, i, zeroCount);
      WriteValue(w, s, t, zeroCount, du[i]);
      Assoc(before, ValueBits(t, zeroCount, du[i]), AcBits(t, du, i + 1, 0, last));
      i := i + 1;
    }
    AcUnfold(t, du, i, 0, last);
    if last != 63 {
      WriteSymbol(w, s, t, EOB);
    }
  }

  lemma LastFound(du: seq<int>, last: nat)
    requires |du| == 64 && last < 64 && (last > 0 ==> du[last] != 0) && forall j :: last < j < 64 ==> du[j] == 0
    ensures IsLast(du, last) && LastNonZero(du, 63) == last
  {
  }

  lemma AcReadyParts(s: Spec, t: Table, du: seq<int>)
    requires AcReady(s, t, du)
    ensures SpecOk(s) && TableFor(s, t) && EOB in s.vals && ZRL in s.vals
  {
  }

  lemma ValueSymbol(s: Spec, t: Table, du: seq<int>, i: nat, z: nat)
    requires AcReady(s, t, du) && 0 < i < 64 && du[i] != 0 && z < 16
    ensures Category(Abs(du[i])) < 16 && (16 * z + Category(Abs(du[i]))) in s.vals
  {
    CategoryBounds(Abs(du[i]));
    RunSize(z, Category(Abs(du[i])));
  }

  /** The recursion of AcBits, one step. */
  lemma AcUnfold(t: Table, du: seq<int>, i: nat, z: nat, last: nat)
    requires TableShape(t) && AcFits(du) && IsLast(du, last) && z < 16 && 0 < i
    ensures i > last ==> AcBits(t, du, i, z, last) == if last != 63 then SymbolBits(t, EOB) else []
    ensures i <= last && du[i] == 0 ==> i < last
    ensures i <= last && du[i] == 0 && z == 15 ==>
      AcBits(t, du, i, z, last) == SymbolBits(t, ZRL) + AcBits(t, du, i + 1, 0, last)
    ensures i <= last && du[i] == 0 && z < 15 ==> AcBits(t, du, i, z, last) == AcBits(t, du, i + 1, z + 1, last)
    ensures i <= last && du[i] != 0 ==>
      AcBits(t, du, i, z, last) == ValueBits(t, z, du[i]) + AcBits(t, du, i + 1, 0, last)
  {
  }

  /** The integer half of tjei_encode_and_write_MCU: one block, given the previous DC value. */
  method EncodeBlock(w: Writer, ghost dcs: Spec, ghost acs: Spec, dc: Table, ac: Table, du: seq<int>, pred: int)
    returns (newPred: int)
    requires w.Valid() && SpecOk(dcs) && SpecOk(acs) && TableFor(dcs, dc) && TableFor(acs, ac)
    requires DcSymbols(dcs) && AcSymbols(acs) && BlockOk(du, pred)
    modifies w, w.buffer
    ensures w.Valid() && w.header == old(w.header) && TableShape(dc) && TableShape(ac)
    ensures newPred == du[0] && w.Pushed() == old(w.Pushed()) + BlockBits(dc, ac, du, pred)
  {
    hide AcReady, AcBits, DcBits, BlockBits, SpecOk, TableFor, DcSymbols, AcSymbols, BlockOk, Decodes, LastNonZero,
      Category;
    ghost var start := w.Pushed();
    ghost var last := BlockFacts(dcs, acs, dc, ac, du, pred);
    LastIsUnique(du, last);
    var diff := du[0] - pred;
    newPred := du[0];
    EncodeDc(w, dcs, dc, diff);
    EncodeAc(w, acs, ac, du);
    Assoc(start, DcBits(dc, diff), AcBits(ac, du, 1, 0, last));
  }

  lemma LastIsUnique(du: seq<int>, last: nat)
    requires IsLast(du, last)
    ensures LastNonZero(du, 63) == last
  {
  }

  lemma NothingScanned(t: Tables, p: Preds)
    requires Shaped(t)
    ensures ScanOk([], p) && PredsAfter([], p) == p && ScanBits(t, [], p) == []
  {
  }

  /** The encoder context of tiny_jpeg.c: tables, writer and the three DC predictors. */
  class ScanEncoder {
    const w: Writer
    const t: Tables
    var predY: int
    var predB: int
    var predR: int

    ghost const s: Specs
    /** The MCUs encoded since the start of the scan. */
    ghost var mcus: seq<Mcu>

    ghost predicate Valid()
      reads this, w, w.buffer
    {
      && w.Valid() && SpecsOk(s) && TablesFor(s, t) && Shaped(t)
      && ScanOk(mcus, Preds(0, 0, 0)) && PredsAfter(mcus, Preds(0, 0, 0)) == Preds(predY, predB, predR)
      && w.Pushed() == ScanBits(t, mcus, Preds(0, 0, 0))
    }

    constructor (specs: Specs)
      requires SpecsOk(specs)
      ensures Valid() && fresh(w) && fresh(w.buffer) && s == specs && mcus == [] && w.header == [] && w.Written() == []
    {
      hide SpecOk, TableFor, DcSymbols, AcSymbols, Shaped, ScanOk, PredsAfter, ScanBits;
      var t0 := Expand(specs.lumaDc);
      var t1 := Expand(specs.lumaAc);
      var t2 := Expand(specs.chromaDc);
      var t3 := Expand(specs.chromaAc);
      var writer := new Writer();
      w, t, s := writer, Tables(t0, t1, t2, t3), specs;
      predY, predB, predR := 0, 0, 0;
      mcus := [];
      TablesShaped(specs, Tables(t0, t1, t2, t3));
      NothingScanned(Tables(t0, t1, t2, t3), Preds(0, 0, 0));
    }

    /** One MCU: a block of each component, each with its own predictor. */
    method EncodeMcu(m: Mcu)
      requires Valid() && McuOk(m, Preds(predY, predB, predR))
      modifies this, w, w.buffer
      ensures Valid() && mcus == old(mcus) + [m] && w.header == old(w.header)
      ensures |m.y| == |m.b| == |m.r| == 64 && Preds(predY, predB, predR) == PredsOf(m)
    {
      hide BlockBits, SpecOk, TableFor, DcSymbols, AcSymbols, BlockOk, ScanOk, PredsAfter, ScanBits, McuBits,
        TableShape;
      ghost var p := Preds(predY, predB, predR);
      BlockLengths(m, p);
      McuBitsAre(t, m, p, w.Pushed());
      predY := EncodeBlock(w, s.lumaDc, s.lumaAc, t.lumaDc, t.lumaAc, m.y, predY);
      predB := EncodeBlock(w, s.chromaDc, s.chromaAc, t.chromaDc, t.chromaAc, m.b, predB);
      predR := EncodeBlock(w, s.chromaDc, s.chromaAc, t.chromaDc, t.chromaAc, m.r, predR);
      ScanSnoc(t, mcus, m, Preds(0, 0, 0));
      mcus := mcus + [m];
    }

    /** The block loop of jpeg_encode_run over one strip of the image. */
    method Run(strip: seq<Mcu>)
      requires Valid() && ScanOk(strip, Preds(predY, predB, predR))
      modifies this, w, w.buffer
      ensures Valid() && mcus == old(mcus) + strip && w.header == old(w.header)
    {
      hide *;
      assert strip[0..] == strip;
      var x := 0;
      while x < |strip|
        invariant 0 <= x <= |strip| && Valid() && mcus == old(mcus) + strip[..x] && w.header == old(w.header)
        invariant ScanOk(strip[x..], Preds(predY, predB, predR))
      {
        assert strip[x..][0] == strip[x] && strip[x..][1..] == strip[x + 1..];
        ScanOkStep(strip[x..], Preds(predY, predB, predR));
        EncodeMcu(strip[x]);
        x := x + 1;
      }
    }
  }

  lemma ScanOkStep(ms: seq<Mcu>, p: Preds)
    requires ms != [] && ScanOk(ms, p)
    ensures McuOk(ms[0], p) && |ms[0].y| == |ms[0].b| == |ms[0].r| == 64 && ScanOk(ms[1..], PredsOf(ms[0]))
  {
  }

  lemma McuBitsAre(t: Tables, m: Mcu, p: Preds, start: Bits)
    requires Shaped(t) && McuOk(m, p)
    ensures start + McuBits(t, m, p) ==
      start + BlockBits(t.lumaDc, t.lumaAc, m.y, p.y) + BlockBits(t.chromaDc, t.chromaAc, m.b, p.b)
            + BlockBits(t.chromaDc, t.chromaAc, m.r, p.r)
  {
    hide BlockBits, BlockOk;
  }

  /** Whole-scan round trip: in every state the encoder can reach, unstuffing the bytes written
      since the header and appending the pending bits gives a bit string from which the decoder
      of T.81 recovers exactly the MCUs that were encoded. */
  lemma ScanReadable(e: ScanEncoder)
    requires e.Valid()
    ensures AllDecode(e.s) && e.w.header <= e.w.Written() && NoMarkers(e.w.Written()[|e.w.header|..])
    ensures DecodeScan(e.s, |e.mcus|,
              BytesBits(Unstuffed(e.w.Written()[|e.w.header|..])) + TopBits(e.w.bitbuffer, e.w.location),
              Preds(0, 0, 0)) == Got(e.mcus, [])
  {
    hide SpecsOk, TablesFor, ScanOk, ScanBits, DecodeScan, AllDecode, Shaped, BytesBits, TopBits, Stuffed, Unstuffed;
    var scan := e.w.Written()[|e.w.header|..];
    assert scan == Stuffed(e.w.raw);
    UnstuffStuffed(e.w.raw);
    StuffedHasNoMarkers(e.w.raw);
    var b := ScanBits(e.t, e.mcus, Preds(0, 0, 0));
    assert b + [] == b;
    ScanRoundTrip(e.s, e.t, e.mcus, Preds(0, 0, 0), []);
  }
}
