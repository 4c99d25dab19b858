/** The four Huffman specifications that tiny_jpeg.c ships (T.81 tables K.3 to K.6), and the
    proof that they are usable: within the Kraft bound, without repeated symbols, and with a
    code for everything the encoder writes.  So the scan round trip holds of the shipped
    encoder without a hypothesis about its tables. */
module JpegTables {
  import opened Arith
  import opened JpegHuffman
  import opened JpegBlocks
  import opened JpegScan
  import opened JpegTableData

  const LUMA_DC_LEN: seq<nat> := [0, 1, 5, 1, 1, 1, 1, 1, 1, 0, 0, 0, 0, 0, 0, 0]
  const LUMA_AC_LEN: seq<nat> := [0, 2, 1, 3, 3, 2, 4, 3, 5, 5, 4, 4, 0, 0, 1, 0x7d]
  const CHROMA_DC_LEN: seq<nat> := [0, 3, 1, 1, 1, 1, 1, 1, 1, 1, 1, 0, 0, 0, 0, 0]
  const CHROMA_AC_LEN: seq<nat> := [0, 2, 1, 2, 4, 4, 3, 4, 7, 5, 4, 4, 0, 1, 2, 0x77]

  const DC_VALS: seq<Byte> := seq(12, k => k)
  const LUMA_AC_VALS: seq<Byte> := seq(162, k requires 0 <= k => LumaAc(k / 16, k % 16))
  const CHROMA_AC_VALS: seq<Byte> := seq(162, k requires 0 <= k => ChromaAc(k / 16, k % 16))

  const DEFAULT_SPECS: Specs := Specs(
    Spec(LUMA_DC_LEN, DC_VALS), Spec(LUMA_AC_LEN, LUMA_AC_VALS),
    Spec(CHROMA_DC_LEN, DC_VALS), Spec(CHROMA_AC_LEN, CHROMA_AC_VALS))

  lemma LumaAcOk()
    ensures AcSymbols(Spec(LUMA_AC_LEN, LUMA_AC_VALS))
    ensures forall i, j :: 0 <= i < j < 162 ==> LUMA_AC_VALS[i] != LUMA_AC_VALS[j]
  {
    hide LumaAc, LumaAcAt;
    forall c: Byte | 1 <= c % 16 <= 10 || c == EOB || c == ZRL ensures c in LUMA_AC_VALS {
      LumaAcHas(c / 16, c % 16);
      assert LUMA_AC_VALS[LumaAcAt(c / 16, c % 16)] == c;
    }
    forall i, j | 0 <= i < j < 162 ensures LUMA_AC_VALS[i] != LUMA_AC_VALS[j] {
      LumaAcPlaced(i / 16, i % 16);
      LumaAcPlaced(j / 16, j % 16);
    }
  }

  lemma ChromaAcOk()
    ensures AcSymbols(Spec(CHROMA_AC_LEN, CHROMA_AC_VALS))
    ensures forall i, j :: 0 <= i < j < 162 ==> CHROMA_AC_VALS[i] != CHROMA_AC_VALS[j]
  {
    hide ChromaAc, ChromaAcAt;
    forall c: Byte | 1 <= c % 16 <= 10 || c == EOB || c == ZRL ensures c in CHROMA_AC_VALS {
      ChromaAcHas(c / 16, c % 16);
      assert CHROMA_AC_VALS[ChromaAcAt(c / 16, c % 16)] == c;
    }
    forall i, j | 0 <= i < j < 162 ensures CHROMA_AC_VALS[i] != CHROMA_AC_VALS[j] {
      ChromaAcPlaced(i / 16, i % 16);
      ChromaAcPlaced(j / 16, j % 16);
    }
  }

  /** The number of codes and the Kraft sum of a size list, written out. */
  lemma SizeListSums(l: seq<nat>)
    requires |l| == 16
    ensures Before(l, 16) == l[0] + l[1] + l[2] + l[3] + l[4] + l[5] + l[6] + l[7]
                           + l[8] + l[9] + l[10] + l[11] + l[12] + l[13] + l[14] + l[15]
    ensures KraftSum(l, 16) ==
      l[0] * 0x8000 + l[1] * 0x4000 + l[2] * 0x2000 + l[3] * 0x1000
      + l[4] * 0x800 + l[5] * 0x400 + l[6] * 0x200 + l[7] * 0x100
      + l[8] * 0x80 + l[9] * 0x40 + l[10] * 0x20 + l[11] * 0x10 + l[12] * 8 + l[13] * 4 + l[14] * 2 + l[15]
  {
    hide Pow2;
    SmallPowers();
    SumsStep(l, 2);
    SumsStep(l, 4);
    SumsStep(l, 6);
    SumsStep(l, 8);
    SumsStep(l, 10);
    SumsStep(l, 12);
    SumsStep(l, 14);
    SumsStep(l, 16);
    assert Before(l, 0) == 0 && KraftSum(l, 0) == 0;
  }

  lemma SumsStep(l: seq<nat>, i: nat)
    requires |l| == 16 && 2 <= i <= 16
    ensures Before(l, i) == Before(l, i - 2) + l[i - 2] + l[i - 1]
    ensures KraftSum(l, i) == KraftSum(l, i - 2) + l[i - 2] * Pow2(17 - i) + l[i - 1] * Pow2(16 - i)
  {
    assert Before(l, i - 1) == Before(l, i - 2) + l[i - 2];
    assert KraftSum(l, i - 1) == KraftSum(l, i - 2) + l[i - 2] * Pow2(17 - i);
  }

  lemma SmallPowers()
    ensures Pow2(0) == 1 && Pow2(1) == 2 && Pow2(2) == 4 && Pow2(3) == 8 && Pow2(4) == 0x10 && Pow2(5) == 0x20
    ensures Pow2(6) == 0x40 && Pow2(7) == 0x80 && Pow2(8) == 0x100 && Pow2(9) == 0x200 && Pow2(10) == 0x400
    ensures Pow2(11) == 0x800 && Pow2(12) == 0x1000 && Pow2(13) == 0x2000 && Pow2(14) == 0x4000 && Pow2(15) == 0x8000
  {
    assert Pow2(4) == 0x10;
    assert Pow2(8) == 0x100;
    assert Pow2(12) == 0x1000;
  }

  lemma DcOk(lens: seq<nat>)
    requires |lens| == 16 && Before(lens, 16) == 12 && KraftSum(lens, 16) <= 0x1_0000
    ensures SpecOk(Spec(lens, DC_VALS)) && DcSymbols(Spec(lens, DC_VALS))
  {
    hide KraftSum, Before;
    forall n: Byte | n <= 11 ensures n in DC_VALS {
      assert DC_VALS[n] == n;
    }
  }

  lemma AcOk(lens: seq<nat>, vals: seq<Byte>)
    requires |lens| == 16 && Before(lens, 16) == 162 && KraftSum(lens, 16) <= 0x1_0000
    requires |vals| == 162 && forall i, j :: 0 <= i < j < 162 ==> vals[i] != vals[j]
    ensures SpecOk(Spec(lens, vals))
  {
    hide KraftSum, Before;
  }

  /** The shipped specifications satisfy what the round trip asks for. */
  lemma DefaultSpecsOk()
    ensures SpecsOk(DEFAULT_SPECS)
  {
    hide KraftSum, Before, LumaAc, ChromaAc, LumaAcAt, ChromaAcAt, AcSymbols, DcSymbols, SpecOk;
    SizeListSums(LUMA_DC_LEN);
    SizeListSums(LUMA_AC_LEN);
    SizeListSums(CHROMA_DC_LEN);
    SizeListSums(CHROMA_AC_LEN);
    LumaAcOk();
    ChromaAcOk();
    DcOk(LUMA_DC_LEN);
    AcOk(LUMA_AC_LEN, LUMA_AC_VALS);
    DcOk(CHROMA_DC_LEN);
    AcOk(CHROMA_AC_LEN, CHROMA_AC_VALS);
  }

  /** A fresh encoder with the shipped tables, ready for a scan. */
  method NewEncoder() returns (e: ScanEncoder)
    ensures e.Valid() && fresh(e) && fresh(e.w) && fresh(e.w.buffer) && e.s == DEFAULT_SPECS && e.mcus == []
  {
    hide SpecsOk;
    DefaultSpecsOk();
    e := new ScanEncoder(DEFAULT_SPECS);
  }
}
