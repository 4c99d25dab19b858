/** The end of an image, jpeg_encode_end: it writes the EOI marker and hands over the last chunk,
    but does not write out the bits that still wait in the bit buffer.  The finished file is
    therefore decodable exactly when no bit is waiting. */
module JpegEnd {
  import opened Arith
  import opened BitStrings
  import opened JpegBits
  import opened JpegHuffman
  import opened JpegBlocks
  import opened JpegWriter
  import opened JpegScan
  import opened JpegTables
  import opened JpegTableData

  const EOI: seq<Byte> := [0xFF, 0xD9]

  // ----- a decoder that succeeds does not look at the bits behind what it reads -----

  function More<T>(d: Decoded<T>, x: Bits): (r: Decoded<T>) {
    match d
    case Fail => Fail
    case Got(v, rest) => Got(v, rest + x)
  }

  /** A code that is complete: the bits behind it are not looked at. */
  lemma SymbolHit(s: Spec, code: nat, i: nat, b: Bits, c: Bits)
    requires Decodes(s) && 0 < i <= 16 && code <= MaxCode(s.bits, i) && DecodeFrom(s, code, i, b).Got?
    ensures DecodeFrom(s, code, i, b).rest == b && DecodeFrom(s, code, i, c) == Got(DecodeFrom(s, code, i, b).value, c)
  {
    hide MaxCode, MinCode, Before, Sizes;
  }

  lemma {:induction false} SymbolMore(s: Spec, code: nat, i: nat, b: Bits, x: Bits)
    requires Decodes(s) && i <= 16 && DecodeFrom(s, code, i, b).Got?
    ensures DecodeFrom(s, code, i, b + x) == More(DecodeFrom(s, code, i, b), x)
    decreases 16 - i
  {
    hide MaxCode, MinCode, Before, Sizes, DecodeFrom, Sorted;
    if i > 0 && code <= MaxCode(s.bits, i) {
      SymbolHit(s, code, i, b, b + x);
    } else {
      DecodeOn(s, code, i, b);
      DecodeOn(s, code, i, b + x);
      assert (b + x)[0] == b[0] && (b + x)[1..] == b[1..] + x;
      SymbolMore(s, 2 * code + (if b[0] then 1 else 0), i + 1, b[1..], x);
    }
  }

  lemma ReceiveMore(b: Bits, n: nat, x: Bits)
    requires Receive(b, n).Got?
    ensures Receive(b + x, n) == More(Receive(b, n), x)
  {
    assert (b + x)[..n] == b[..n] && (b + x)[n..] == b[n..] + x;
  }

  lemma DcMore(s: Spec, b: Bits, x: Bits)
    requires Decodes(s) && DecodeDc(s, b).Got?
    ensures DecodeDc(s, b + x) == More(DecodeDc(s, b), x)
  {
    hide DecodeFrom, Receive, Extend;
    SymbolMore(s, 0, 0, b, x);
    var d := DecodeSymbol(s, b);
    if d.value != 0 {
      ReceiveMore(d.rest, d.value, x);
    }
  }

  lemma {:induction false} AcMore(s: Spec, b: Bits, zz: seq<int>, x: Bits)
    requires Decodes(s) && |zz| <= 63 && DecodeAc(s, b, zz).Got?
    ensures DecodeAc(s, b + x, zz) == More(DecodeAc(s, b, zz), x)
    decreases 64 - |zz|
  {
    hide DecodeFrom, Receive, Extend, Sizes;
    SymbolMore(s, 0, 0, b, x);
    var d := DecodeSymbol(s, b);
    var r, n := d.value / 16, d.value % 16;
    if n == 0 {
      if r == 15 {
        AcMore(s, d.rest, zz + Repeat(0, 16), x);
      }
    } else {
      ReceiveMore(d.rest, n, x);
      var v := Receive(d.rest, n);
      var zz' := zz + Repeat(0, r) + [Extend(v.value, n)];
      if |zz'| < 64 {
        AcMore(s, v.rest, zz', x);
      }
    }
  }

  lemma BlockMore(dc: Spec, ac: Spec, b: Bits, pred: int, x: Bits)
    requires Decodes(dc) && Decodes(ac) && DecodeBlock(dc, ac, b, pred).Got?
    ensures DecodeBlock(dc, ac, b + x, pred) == More(DecodeBlock(dc, ac, b, pred), x)
  {
    hide DecodeDc, DecodeAc, Decodes;
    DcMore(dc, b, x);
    var d := DecodeDc(dc, b);
    AcMore(ac, d.rest, [pred + d.value], x);
  }

  lemma McuMore(s: Specs, b: Bits, p: Preds, x: Bits)
    requires AllDecode(s) && DecodeMcu(s, b, p).Got?
    ensures DecodeMcu(s, b + x, p) == More(DecodeMcu(s, b, p), x)
  {
    hide DecodeBlock, Decodes;
    BlockMore(s.lumaDc, s.lumaAc, b, p.y, x);
    var d := DecodeBlock(s.lumaDc, s.lumaAc, b, p.y);
    BlockMore(s.chromaDc, s.chromaAc, d.rest, p.b, x);
    var e := DecodeBlock(s.chromaDc, s.chromaAc, d.rest, p.b);
    BlockMore(s.chromaDc, s.chromaAc, e.rest, p.r, x);
  }

  /** More bits behind a scan that decodes are left over. */
  lemma {:induction false} ScanMore(s: Specs, n: nat, b: Bits, p: Preds, x: Bits)
    requires AllDecode(s) && DecodeScan(s, n, b, p).Got?
    ensures DecodeScan(s, n, b + x, p) == More(DecodeScan(s, n, b, p), x)
  {
    hide DecodeMcu, AllDecode;
    if n > 0 {
      McuMore(s, b, p, x);
      var d := DecodeMcu(s, b, p);
      ScanMore(s, n - 1, d.rest, PredsOf(d.value), x);
    }
  }

  // ----- the finished file -----

  /** The entropy-coded segment at the start of s: everything up to the first 0xFF that no zero
      byte follows. */
  function Segment(s: seq<Byte>): (t: seq<Byte>)
    ensures t <= s
  {
    if s == [] then []
    else if s[0] != 0xFF then [s[0]] + Segment(s[1..])
    else if |s| > 1 && s[1] == 0 then [s[0], s[1]] + Segment(s[2..])
    else []
  }

  /** The segment of stuffed data in front of a marker is the data. */
  lemma {:induction false} SegmentEnds(s: seq<Byte>)
    requires NoMarkers(s)
    ensures Segment(s + EOI) == s
    decreases |s|
  {
    if s == [] {
      assert s + EOI == EOI;
    } else if s[0] == 0xFF {
      assert ZeroFollows(s, 0);
      assert (s + EOI)[2..] == s[2..] + EOI;
      NoMarkersTail(s, 2);
      SegmentEnds(s[2..]);
    } else {
      assert (s + EOI)[1..] == s[1..] + EOI;
      NoMarkersTail(s, 1);
      SegmentEnds(s[1..]);
    }
  }

  /** What a decoder makes of a file with n MCUs behind a header: it cuts the segment at the next
      marker, removes the stuffing and decodes. */
  ghost function DecodeFile(s: Specs, n: nat, header: seq<Byte>, file: seq<Byte>): (r: Decoded<seq<Mcu>>)
    requires AllDecode(s)
  {
    if header <= file
    then DecodeScan(s, n, BytesBits(Unstuffed(Segment(file[|header|..]))), Preds(0, 0, 0))
    else Fail
  }

  /** All bytes written, with EOI behind them, decode to the MCUs when no bit is waiting, and do
      not decode at all otherwise. */
  lemma FinishedFile(e: ScanEncoder)
    requires e.Valid()
    ensures AllDecode(e.s)
    ensures DecodeFile(e.s, |e.mcus|, e.w.header, e.w.Written() + EOI)
         == if e.w.location == 0 then Got(e.mcus, []) else Fail
  {
    hide DecodeScan, AllDecode, BytesBits, Unstuffed, BitsOf, Stuffed, ScanBits, SpecsOk, TablesFor, ScanOk, Shaped,
      Segment, NoMarkers;
    ScanReadable(e);
    var scan := e.w.Written()[|e.w.header|..];
    assert (e.w.Written() + EOI)[|e.w.header|..] == scan + EOI;
    SegmentEnds(scan);
    var b := BytesBits(Unstuffed(scan));
    var x := TopBits(e.w.bitbuffer, e.w.location);
    assert |x| == e.w.location;
    if e.w.location == 0 {
      assert b + x == b;
    } else if DecodeScan(e.s, |e.mcus|, b, Preds(0, 0, 0)).Got? {
      ScanMore(e.s, |e.mcus|, b, Preds(0, 0, 0), x);
      assert false;
    }
  }

  /** jpeg_encode_end: the file that has been delivered then, all chunks together, decodes to the
      MCUs if and only if no bit was waiting. */
  method EncodeEnd(e: ScanEncoder)
    requires e.Valid()
    modifies e.w`count, e.w`delivered, e.w.buffer
    ensures e.w.count == 0 && Concat(e.w.delivered) == old(e.w.Written()) + [0xFF, 0xD9]
    ensures forall i :: 0 <= i < |e.w.delivered| - 1 ==> |e.w.delivered[i]| == 1023
    ensures AllDecode(e.s)
    ensures DecodeFile(e.s, |e.mcus|, e.w.header, Concat(e.w.delivered))
         == if e.w.location == 0 then Got(e.mcus, []) else Fail
  {
    hide DecodeFile, AllDecode, SpecsOk, TablesFor, ScanOk, ScanBits, Stuffed, Shaped;
    FinishedFile(e);
    e.w.Write(EOI);
    if e.w.count > 0 {
      ghost var before := e.w.delivered;
      e.w.delivered := e.w.delivered + [e.w.buffer[..e.w.count]];
      assert e.w.delivered[..|e.w.delivered| - 1] == before;
      e.w.count := 0;
    }
  }

  /** No bit is waiting exactly when the bits of the scan fill whole bytes. */
  lemma WaitingBits(e: ScanEncoder)
    requires e.Valid()
    ensures e.w.location == |ScanBits(e.t, e.mcus, Preds(0, 0, 0))| % 8
  {
    hide ScanBits, SpecsOk, TablesFor, ScanOk, Shaped;
    ByteCount(e.w.raw);
    EightAndLess(|e.w.raw|, e.w.location);
  }

  lemma EightAndLess(n: nat, l: nat)
    requires l < 8
    ensures (8 * n + l) % 8 == l
  {
  }

  lemma {:induction false} ByteCount(s: seq<Byte>)
    ensures |BytesBits(s)| == 8 * |s|
  {
    if s != [] {
      ByteCount(s[..|s| - 1]);
    }
  }

  /** Where the symbol 0 stands in the shipped specifications. */
  lemma ZeroPlaces()
    ensures DC_VALS[0] == 0 && Before(LUMA_DC_LEN, 1) == 0 < Before(LUMA_DC_LEN, 2)
    ensures Before(CHROMA_DC_LEN, 1) == 0 < Before(CHROMA_DC_LEN, 2)
    ensures LUMA_AC_VALS[3] == 0 && Before(LUMA_AC_LEN, 3) == 3 < Before(LUMA_AC_LEN, 4)
    ensures CHROMA_AC_VALS[0] == 0 && Before(CHROMA_AC_LEN, 1) == 0 < Before(CHROMA_AC_LEN, 2)
  {
    assert LumaAc(0, 3) == 0;
    assert ChromaAc(0, 0) == 0;
    assert Before(LUMA_AC_LEN, 2) == 2;
  }

  /** The shipped tables code a zero DC difference and an end of block with 2 + 4 bits for
      luma and 2 + 2 for chroma. */
  lemma ZeroSizes(t: Tables)
    requires SpecsOk(DEFAULT_SPECS) && TablesFor(DEFAULT_SPECS, t)
    ensures Shaped(t)
    ensures t.lumaDc.size[0] == 2 && t.lumaAc.size[0] == 4 && t.chromaDc.size[0] == 2 && t.chromaAc.size[0] == 2
  {
    hide Before, SpecOk, TableFor, LumaAc, ChromaAc, DcSymbols, AcSymbols;
    ZeroPlaces();
    ZeroSize(DEFAULT_SPECS.lumaDc, t.lumaDc, 0, 2);
    ZeroSize(DEFAULT_SPECS.lumaAc, t.lumaAc, 3, 4);
    ZeroSize(DEFAULT_SPECS.chromaDc, t.chromaDc, 0, 2);
    ZeroSize(DEFAULT_SPECS.chromaAc, t.chromaAc, 0, 2);
  }

  lemma ZeroSize(s: Spec, t: Table, k: nat, n: nat)
    requires SpecOk(s) && TableFor(s, t) && k < |s.vals| && s.vals[k] == 0
    requires 1 <= n <= 16 == |s.bits| && Before(s.bits, n - 1) <= k < Before(s.bits, n)
    ensures TableShape(t) && t.size[0] == n
  {
    hide KraftSum, Before;
    SizeIs(s.bits, 16, k, n);
    assert t.size[s.vals[k]] == Sizes(s.bits, 16)[k];
  }

  ghost predicate AllZero(du: seq<int>) {
    |du| == 64 && forall i :: 0 <= i < 64 ==> du[i] == 0
  }

  lemma FlatBlock(dc: Table, ac: Table, du: seq<int>)
    requires TableShape(dc) && TableShape(ac) && AllZero(du)
    ensures BlockOk(du, 0) && |BlockBits(dc, ac, du, 0)| == dc.size[0] + ac.size[0]
  {
    hide BitsOf;
    BlockCategories(du, 0);
    assert LastNonZero(du, 63) == 0;
  }

  /** A flat grey image of one MCU: all its coefficients are zero and 14 bits are pushed.  The
      last 6 of them are missing from the finished file, which does not decode. */
  method FlatImage(m: Mcu) returns (e: ScanEncoder)
    requires AllZero(m.y) && AllZero(m.b) && AllZero(m.r)
    ensures e.mcus == [m] && e.s == DEFAULT_SPECS && e.w.location == 6 && AllDecode(e.s)
    ensures DecodeFile(e.s, 1, e.w.header, Concat(e.w.delivered)) == Fail
  {
    hide *;
    e := NewEncoder();
    FlatMcu(e, m);
    e.EncodeMcu(m);
    WaitingBits(e);
    OneMcu(e, m);
    EncodeEnd(e);
  }

  lemma FlatMcu(e: ScanEncoder, m: Mcu)
    requires e.Valid() && e.s == DEFAULT_SPECS && e.mcus == [] && AllZero(m.y) && AllZero(m.b) && AllZero(m.r)
    ensures Preds(e.predY, e.predB, e.predR) == Preds(0, 0, 0) && McuOk(m, Preds(0, 0, 0))
    ensures Shaped(e.t) && |McuBits(e.t, m, Preds(0, 0, 0))| == 14
  {
    hide SpecsOk, BlockBits, BlockOk, TablesFor, TableShape, AllZero;
    EmptyScan(e);
    ZeroSizes(e.t);
    FlatBlock(e.t.lumaDc, e.t.lumaAc, m.y);
    FlatBlock(e.t.chromaDc, e.t.chromaAc, m.b);
    FlatBlock(e.t.chromaDc, e.t.chromaAc, m.r);
  }

  lemma EmptyScan(e: ScanEncoder)
    requires e.Valid() && e.mcus == []
    ensures SpecsOk(e.s) && TablesFor(e.s, e.t) && Preds(e.predY, e.predB, e.predR) == Preds(0, 0, 0)
  {
    hide SpecsOk, TablesFor, ScanBits, TableShape;
  }

  lemma OneMcu(e: ScanEncoder, m: Mcu)
    requires e.Valid() && e.mcus == [m]
    ensures Shaped(e.t) && McuOk(m, Preds(0, 0, 0))
    ensures ScanBits(e.t, e.mcus, Preds(0, 0, 0)) == McuBits(e.t, m, Preds(0, 0, 0))
  {
    hide SpecsOk, BlockBits, BlockOk, McuBits;
    BlockLengths(m, Preds(0, 0, 0));
    var none: seq<Mcu> := e.mcus[1..];
    assert none == [];
    assert ScanBits(e.t, none, PredsOf(m)) == [];
  }
}
