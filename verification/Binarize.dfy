/** The adaptive thresholder of ZBar's QR reader (Third_Party/ZBAR/src/binarize.c, the active
    branch): qr_binarize, which fills a new mask, and qr_binarize2, which overwrites the image
    it reads.

    The specification is the two-dimensional window sum with clamped coordinates; the code
    keeps sliding column sums and a sliding window sum instead. */
module Binarize {
  import opened Arith

  /** Coordinates outside 0..n - 1 mean the nearest one inside. */
  function Clamp(v: int, n: int): (c: int)
    requires 0 < n
    ensures 0 <= c < n && (0 <= v < n ==> c == v)
  {
    Max(0, Min(v, n - 1))
  }

  // ----- specification -----

  /** Sum of k entries of a line from coordinate a on, clamped at both ends. */
  function LineSum(line: seq<nat>, a: int, k: nat): (n: nat)
    requires line != []
  {
    if k == 0 then 0 else LineSum(line, a, k - 1) + line[Clamp(a + k - 1, |line|)]
  }

  lemma IndexInside(w: int, h: int, y: int, x: int)
    requires 0 <= y < h && 0 <= x < w
    ensures 0 <= y * w + x < w * h && y * w + w <= w * h
  {
    MulMono(0, y, w);
    MulMono(y + 1, h, w);
    assert (y + 1) * w == y * w + w;
  }

  function Pixel(im: seq<Byte>, w: int, h: int, y: int, x: int): (b: Byte)
    requires |im| == w * h && 0 <= y < h && 0 <= x < w
  {
    IndexInside(w, h, y, x);
    im[y * w + x]
  }

  /** Column x from top to bottom. */
  function Column(im: seq<Byte>, w: int, h: int, x: int): (c: seq<nat>)
    requires |im| == w * h && 0 < h && 0 <= x < w
    ensures |c| == h && forall y :: 0 <= y < h ==> c[y] == Pixel(im, w, h, y, x)
  {
    seq(h, y requires 0 <= y < h => Pixel(im, w, h, y, x) as nat)
  }

  /** For each column the sum over the window rows y - windh / 2 to y + windh / 2 - 1. */
  function ColumnSums(im: seq<Byte>, w: int, h: int, y: int, windh: nat): (c: seq<nat>)
    requires |im| == w * h && 0 < h && 0 < w
    ensures |c| == w && forall x :: 0 <= x < w ==> c[x] == LineSum(Column(im, w, h, x), y - windh / 2, windh)
  {
    seq(w, x requires 0 <= x < w => LineSum(Column(im, w, h, x), y - windh / 2, windh))
  }

  /** Sum of the pixels in the window around (y, x). */
  function WindowSum(im: seq<Byte>, w: int, h: int, y: int, x: int, windw: nat, windh: nat): (n: nat)
    requires |im| == w * h && 0 < h && 0 < w
  {
    LineSum(ColumnSums(im, w, h, y, windh), x - windw / 2, windw)
  }

  /** The window is the smallest power of two between 16 and 256 that is at least an eighth of
      the image extent, or 256. */
  function WindowLog(n: int, l: nat): (v: nat)
    requires 4 <= l <= 8
    decreases 8 - l
  {
    if l < 8 && Pow2(l) < (n + 7) / 8 then WindowLog(n, l + 1) else l
  }

  function Window(n: int): (v: nat) {
    Pow2(WindowLog(n, 4))
  }

  /** A pixel is set when it is darker than the window average by more than 3. */
  function MaskAt(im: seq<Byte>, w: int, h: int, y: int, x: int): (b: Byte)
    requires |im| == w * h && 0 <= y < h && 0 <= x < w
  {
    if (Pixel(im, w, h, y, x) + 3) * Window(w) * Window(h) < WindowSum(im, w, h, y, x, Window(w), Window(h))
    then 0xFF else 0
  }

  // ----- sliding sums -----

  /** A sum loses its first entry at the front. */
  lemma {:induction false} LineSumFront(line: seq<nat>, a: int, k: nat)
    requires line != []
    ensures LineSum(line, a, k + 1) == line[Clamp(a, |line|)] + LineSum(line, a + 1, k)
  {
    if k > 0 {
      LineSumFront(line, a, k - 1);
    }
  }

  /** Moving the window by one: one entry leaves, one enters. */
  lemma LineSumSlide(line: seq<nat>, a: int, k: nat)
    requires line != []
    ensures LineSum(line, a + 1, k) + line[Clamp(a, |line|)] == LineSum(line, a, k) + line[Clamp(a + k, |line|)]
  {
    LineSumFront(line, a, k);
  }

  /** Entries left of the line all count as its first entry. */
  lemma {:induction false} LineSumLeft(line: seq<nat>, a: int, k: nat)
    requires line != [] && a + k <= 1
    ensures LineSum(line, a, k) == k * line[0]
  {
    if k > 0 {
      LineSumLeft(line, a, k - 1);
      assert k * line[0] == (k - 1) * line[0] + line[0];
    }
  }

  lemma {:induction false} LineSumBound(line: seq<nat>, a: int, k: nat, m: nat)
    requires line != [] && forall i :: 0 <= i < |line| ==> line[i] <= m
    ensures LineSum(line, a, k) <= k * m
  {
    if k > 0 {
      LineSumBound(line, a, k - 1, m);
      assert k * m == (k - 1) * m + m;
    }
  }

  lemma WindowRange(n: int)
    ensures 4 <= WindowLog(n, 4) <= 8 && Window(n) == Pow2(WindowLog(n, 4)) == 2 * Pow2(WindowLog(n, 4) - 1)
    ensures 16 <= Window(n) <= 256 && Window(n) % 2 == 0
  {
    hide Pow2, WindowLog;
    WindowLogLeast(n, 4);
    Pow2Grows(4, WindowLog(n, 4));
    Pow2Grows(WindowLog(n, 4), 8);
    Pow2Values();
    Pow2Double(WindowLog(n, 4));
    TwiceIsEven(Pow2(WindowLog(n, 4) - 1));
  }

  lemma Pow2Double(l: nat)
    requires 0 < l
    ensures Pow2(l) == 2 * Pow2(l - 1)
  {
  }

  lemma TwiceIsEven(p: nat)
    ensures 2 * p % 2 == 0
  {
  }

  /** The window is the least admissible power of two that covers an eighth of the extent. */
  lemma WindowIsLeast(n: int)
    ensures Window(n) < 256 ==> (n + 7) / 8 <= Window(n)
    ensures forall l: nat :: 4 <= l && Pow2(l) < Window(n) ==> Pow2(l) < (n + 7) / 8
  {
    WindowLogLeast(n, 4);
    WindowRange(n);
    Pow2Values();
    forall l: nat | 4 <= l && Pow2(l) < Window(n) ensures Pow2(l) < (n + 7) / 8 {
      if l >= WindowLog(n, 4) {
        Pow2Grows(WindowLog(n, 4), l);
        assert false;
      }
    }
  }

  lemma {:induction false} WindowLogLeast(n: int, l: nat)
    requires 4 <= l <= 8
    ensures l <= WindowLog(n, l) <= 8
    ensures WindowLog(n, l) < 8 ==> (n + 7) / 8 <= Pow2(WindowLog(n, l))
    ensures forall k: nat :: l <= k < WindowLog(n, l) ==> Pow2(k) < (n + 7) / 8
    decreases 8 - l
  {
    if l < 8 && Pow2(l) < (n + 7) / 8 {
      WindowLogLeast(n, l + 1);
    }
  }

  /** Column sums stay below 2^16 and window sums below 2^24, far from 32-bit overflow. */
  lemma SumBounds(im: seq<Byte>, w: int, h: int, y: int, x: int, a: int, k: nat)
    requires |im| == w * h && 0 < h && 0 <= x < w && k <= 256
    ensures ColumnSums(im, w, h, y, Window(h))[x] <= 0xFF00
    ensures LineSum(ColumnSums(im, w, h, y, Window(h)), a, k) <= 0xFF_0000
  {
    hide Window;
    WindowRange(h);
    var cs := ColumnSums(im, w, h, y, Window(h));
    forall i | 0 <= i < w ensures cs[i] <= 0xFF00 {
      LineSumBound(Column(im, w, h, i), y - Window(h) / 2, Window(h), 255);
    }
    LineSumBound(cs, a, k, 0xFF00);
  }

  // ----- the steps that both functions share -----

  method WindowLogOf(n: int) returns (l: nat)
    requires 0 < n
    ensures l == WindowLog(n, 4)
  {
    l := 4;
    while l < 8 && Pow2(l) < (n + 7) / 8
      invariant 4 <= l <= 8 && WindowLog(n, 4) == WindowLog(n, l)
      decreases 8 - l
    {
      l := l + 1;
    }
  }

  lemma PixelIs(im: seq<Byte>, w: int, h: int, y: int, x: int)
    requires |im| == w * h && 0 <= y < h && 0 <= x < w
    ensures 0 <= y * w + x < |im| && Pixel(im, w, h, y, x) == im[y * w + x]
  {
    IndexInside(w, h, y, x);
  }

  /** The column sums that count the rows from a on, k of them. */
  ghost predicate SumsFrom(cs: seq<nat>, im: seq<Byte>, w: int, h: int, a: int, k: nat) {
    && |im| == w * h && 0 < h && 0 < w == |cs|
    && forall x :: 0 <= x < w ==> cs[x] == LineSum(Column(im, w, h, x), a, k)
  }

  lemma SumsAreColumnSums(cs: seq<nat>, im: seq<Byte>, w: int, h: int, y: int, windh: nat)
    requires |im| == w * h && 0 < h && 0 < w == |cs|
    ensures SumsFrom(cs, im, w, h, y - windh / 2, windh) <==> cs == ColumnSums(im, w, h, y, windh)
  {
  }

  /** Adding the next row extends the range by one. */
  lemma SumsGrow(cs: seq<nat>, cs': seq<nat>, im: seq<Byte>, w: int, h: int, a: int, k: nat)
    requires SumsFrom(cs, im, w, h, a, k) && |cs'| == w
    requires forall x :: 0 <= x < w ==> cs'[x] == cs[x] + Pixel(im, w, h, Clamp(a + k, h), x)
    ensures SumsFrom(cs', im, w, h, a, k + 1)
  {
  }

  /** Removing the first row moves its start. */
  lemma SumsShrink(cs: seq<nat>, cs': seq<nat>, im: seq<Byte>, w: int, h: int, a: int, k: nat)
    requires SumsFrom(cs, im, w, h, a, k + 1) && |cs'| == w
    requires forall x :: 0 <= x < w ==> cs'[x] == cs[x] - Pixel(im, w, h, Clamp(a, h), x)
    ensures SumsFrom(cs', im, w, h, a + 1, k)
  {
    forall x | 0 <= x < w ensures cs'[x] == LineSum(Column(im, w, h, x), a + 1, k) {
      LineSumFront(Column(im, w, h, x), a, k);
    }
  }

  /** The first row of the image, once for itself and once for each row above it. */
  lemma SumsOfFirstRow(cs: seq<nat>, im: seq<Byte>, w: int, h: int, half: nat)
    requires |im| == w * h && 0 < h && 0 < w == |cs|
    requires forall x :: 0 <= x < w ==> cs[x] == Pixel(im, w, h, 0, x) * half + Pixel(im, w, h, 0, x)
    ensures SumsFrom(cs, im, w, h, 0 - half, half + 1)
  {
    forall x | 0 <= x < w ensures cs[x] == LineSum(Column(im, w, h, x), 0 - half, half + 1) {
      LineSumLeft(Column(im, w, h, x), 0 - half, half + 1);
      assert (half + 1) * Pixel(im, w, h, 0, x) == Pixel(im, w, h, 0, x) * half + Pixel(im, w, h, 0, x);
    }
  }

  /** The pixels of row y of the image are those of im. */
  ghost predicate RowIs(img: array<Byte>, im: seq<Byte>, w: int, h: int, y: int)
    reads img
  {
    && img.Length == |im| == w * h && 0 <= y < h && 0 < w && 0 <= y * w <= y * w + w <= w * h
    && forall x :: 0 <= x < w ==> img[y * w + x] == Pixel(im, w, h, y, x)
  }

  /** Adds one image row to the column sums. */
  method AddRow(img: array<Byte>, ghost im: seq<Byte>, w: int, h: int, y1: int, colSums: array<nat>)
    requires RowIs(img, im, w, h, y1) && colSums.Length == w
    modifies colSums
    ensures forall x :: 0 <= x < w ==> colSums[x] == old(colSums[x]) + Pixel(im, w, h, y1, x)
  {
    hide Pixel;
    var y1offs := y1 * w;
    var x := 0;
    while x < w
      invariant 0 <= x <= w
      invariant forall i :: 0 <= i < x ==> colSums[i] == old(colSums[i]) + Pixel(im, w, h, y1, i)
      invariant forall i :: x <= i < w ==> colSums[i] == old(colSums[i])
    {
      var g := img[y1offs + x];
      colSums[x] := colSums[x] + g;
      x := x + 1;
    }
  }

  /** The first row, shifted for the rows above the image, plus the first row itself. */
  method FirstColumns(img: array<Byte>, w: int, h: int, logwindh: nat) returns (colSums: array<nat>)
    requires RowIs(img, img[..], w, h, 0) && 0 < logwindh
    ensures fresh(colSums) && colSums.Length == w
    ensures SumsFrom(colSums[..], img[..], w, h, 0 - Pow2(logwindh - 1), Pow2(logwindh - 1) + 1)
  {
    hide LineSum, Column, Pixel, SumsFrom, Pow2;
    colSums := new nat[w];
    var x := 0;
    while x < w
      invariant 0 <= x <= w && fresh(colSums)
      invariant forall i :: 0 <= i < x ==>
        colSums[i] == Pixel(img[..], w, h, 0, i) * Pow2(logwindh - 1) + Pixel(img[..], w, h, 0, i)
    {
      var g := img[0 * w + x];
      colSums[x] := g * Pow2(logwindh - 1) + g;
      x := x + 1;
    }
    SumsOfFirstRow(colSums[..], img[..], w, h, Pow2(logwindh - 1));
  }

  /** Initial column sums: the rows above the image count as the first row. */
  method InitColumns(img: array<Byte>, w: int, h: int, logwindh: nat) returns (colSums: array<nat>)
    requires 0 < w && 0 < h && img.Length == w * h && logwindh == WindowLog(h, 4)
    ensures fresh(colSums) && colSums.Length == w && colSums[..] == ColumnSums(img[..], w, h, 0, Window(h))
  {
    hide ColumnSums, LineSum, Column, Pixel, WindowLog, Window, Pow2, SumsFrom, RowIs, Clamp;
    ghost var im := img[..];
    WindowRange(h);
    var windh := Pow2(logwindh);
    ghost var half: nat := windh / 2;
    AllRows(img, w, h);
    colSums := FirstColumns(img, w, h, logwindh);
    var y := 1;
    while y < windh / 2
      invariant 1 <= y <= windh / 2 && fresh(colSums)
      invariant SumsFrom(colSums[..], im, w, h, 0 - half, half + y)
    {
      ghost var before := colSums[..];
      ClampIs(y, h);
      assert 0 - half + (half + y) == y;
      AddRow(img, im, w, h, Min(y, h - 1), colSums);
      SumsGrow(before, colSums[..], im, w, h, 0 - half, half + y);
      y := y + 1;
    }
    SumsAreColumnSums(colSums[..], im, w, h, 0, windh);
  }

  lemma ClampIs(v: int, n: int)
    requires 0 < n
    ensures 0 <= v ==> Clamp(v, n) == Min(v, n - 1)
    ensures v < n ==> Clamp(v, n) == Max(0, v)
  {
  }

  lemma AllRows(img: array<Byte>, w: int, h: int)
    requires 0 < w && img.Length == w * h
    ensures forall y :: 0 <= y < h ==> RowIs(img, img[..], w, h, y)
  {
    forall y | 0 <= y < h ensures RowIs(img, img[..], w, h, y) {
      IndexInside(w, h, y, 0);
      forall x | 0 <= x < w ensures img[y * w + x] == Pixel(img[..], w, h, y, x) {
        PixelIs(img[..], w, h, y, x);
      }
    }
  }

  /** Column sums for the next row: the top row of the window leaves, the next one enters. */
  method NextColumns(img: array<Byte>, ghost im: seq<Byte>, w: int, h: int, y: int, windh: nat, colSums: array<nat>)
    requires 0 < w && 0 <= y < h - 1 && windh % 2 == 0 && 0 < windh && colSums.Length == w
    requires RowIs(img, im, w, h, Max(0, y - windh / 2)) && RowIs(img, im, w, h, Min(y + windh / 2, h - 1))
    requires colSums[..] == ColumnSums(im, w, h, y, windh)
    modifies colSums
    ensures colSums[..] == ColumnSums(im, w, h, y + 1, windh)
  {
    hide ColumnSums, LineSum, Column, Pixel, SumsFrom, Clamp;
    var y0, y1 := Max(0, y - windh / 2), Min(y + windh / 2, h - 1);
    var y0offs, y1offs := y0 * w, y1 * w;
    ghost var before := colSums[..];
    ghost var a := y - windh / 2;
    SumsAreColumnSums(before, im, w, h, y, windh);
    EntryInside(before, im, w, h, a, windh - 1);
    ClampIs(a, h);
    ClampIs(a + windh, h);
    assert a + windh == y + windh / 2;
    var x := 0;
    while x < w
      invariant 0 <= x <= w
      invariant forall i :: 0 <= i < x ==> colSums[i] == before[i] - Pixel(im, w, h, y0, i) + Pixel(im, w, h, y1, i)
      invariant forall i :: x <= i < w ==> colSums[i] == before[i]
    {
      colSums[x] := colSums[x] - img[y0offs + x];
      colSums[x] := colSums[x] + img[y1offs + x];
      x := x + 1;
    }
    ghost var middle: seq<nat> := seq(w, i requires 0 <= i < w => before[i] - Pixel(im, w, h, y0, i));
    SumsShrink(before, middle, im, w, h, a, windh - 1);
    SumsGrow(middle, colSums[..], im, w, h, a + 1, windh - 1);
    SumsAreColumnSums(colSums[..], im, w, h, y + 1, windh);
  }

  /** A column sum is at least the entry that leaves it, so nothing wraps below zero. */
  lemma EntryInside(cs: seq<nat>, im: seq<Byte>, w: int, h: int, a: int, k: nat)
    requires SumsFrom(cs, im, w, h, a, k + 1)
    ensures forall x :: 0 <= x < w ==> cs[x] >= Pixel(im, w, h, Clamp(a, h), x)
  {
    forall x | 0 <= x < w ensures cs[x] >= Pixel(im, w, h, Clamp(a, h), x) {
      LineSumFront(Column(im, w, h, x), a, k);
    }
  }

  /** The sum over the window at the left edge of a row. */
  method FirstWindow(cs: array<nat>, w: int, logwindw: nat) returns (m: nat)
    requires 0 < w == cs.Length && logwindw == WindowLog(w, 4)
    ensures m == LineSum(cs[..], 0 - Window(w) / 2, Window(w))
  {
    hide LineSum, WindowLog, Window, Pow2, Clamp;
    WindowRange(w);
    var windw := Pow2(logwindw);
    ghost var half: nat := windw / 2;
    m := cs[0] * Pow2(logwindw - 1) + cs[0];
    LineSumLeft(cs[..], 0 - half, half + 1);
    assert (half + 1) * cs[0] == cs[0] * half + cs[0];
    var x := 1;
    while x < windw / 2
      invariant 1 <= x <= windw / 2 && m == LineSum(cs[..], 0 - half, half + x)
    {
      var x1 := Min(x, w - 1);
      ClampIs(x, w);
      LineSumNext(cs[..], 0 - half, half + x);
      assert 0 - half + (half + x) == x;
      m := m + cs[x1];
      x := x + 1;
    }
  }

  lemma LineSumNext(line: seq<nat>, a: int, k: nat)
    requires line != []
    ensures LineSum(line, a, k + 1) == LineSum(line, a, k) + line[Clamp(a + k, |line|)]
  {
  }

  /** Writes the mask of image row y to dst, from offset doffs on. */
  method ScanRow(img: array<Byte>, ghost im: seq<Byte>, w: int, h: int, y: int, logwindw: nat, logwindh: nat,
                 cs: array<nat>, dst: array<Byte>, doffs: int)
    requires 0 < w && 0 <= y < h && RowIs(img, im, w, h, y) && img != dst
    requires logwindw == WindowLog(w, 4) && logwindh == WindowLog(h, 4)
    requires cs.Length == w && cs[..] == ColumnSums(im, w, h, y, Window(h))
    requires 0 <= doffs && doffs + w <= dst.Length
    modifies dst
    ensures forall x :: 0 <= x < w ==> dst[doffs + x] == MaskAt(im, w, h, y, x)
    ensures forall i :: 0 <= i < dst.Length && !(doffs <= i < doffs + w) ==> dst[i] == old(dst[i])
  {
    hide ColumnSums, LineSum, Pixel, WindowLog, Window, Pow2, Clamp, MaskAt, Threshold;
    WindowRange(w);
    WindowRange(h);
    ghost var line := cs[..];
    var windw, windh := Pow2(logwindw), Pow2(logwindh);
    var m := FirstWindow(cs, w, logwindw);
    var x := 0;
    while x < w
      invariant 0 <= x <= w && cs[..] == line
      invariant x < w ==> m == LineSum(line, x - windw / 2, windw)
      invariant forall i :: 0 <= i < x ==> dst[doffs + i] == MaskAt(im, w, h, y, i)
      invariant forall i :: 0 <= i < dst.Length && !(doffs <= i < doffs + w) ==> dst[i] == old(dst[i])
    {
      var g := img[y * w + x];
      MaskIs(im, w, h, y, x, m);
      dst[doffs + x] := Threshold(g, logwindw, logwindh, m);
      if x + 1 < w {
        SumBounds(im, w, h, y, x, x + 1 - windw / 2, windw);
        m := SlideWindow(cs, w, x, windw, m);
      }
      x := x + 1;
    }
  }

  /** The test against the threshold. */
  function Threshold(g: Byte, logwindw: nat, logwindh: nat, m: nat): (b: Byte) {
    if (g + 3) * Pow2(logwindw) * Pow2(logwindh) < m then 0xFF else 0
  }

  /** The update of the window sum, in unsigned 32-bit arithmetic. */
  method SlideWindow(cs: array<nat>, w: int, x: int, windw: nat, m0: nat) returns (m: nat)
    requires 0 <= x < w == cs.Length && windw % 2 == 0
    requires m0 == LineSum(cs[..], x - windw / 2, windw) && LineSum(cs[..], x + 1 - windw / 2, windw) < 0x1_0000_0000
    ensures m == LineSum(cs[..], x + 1 - windw / 2, windw)
  {
    hide LineSum, Clamp;
    var x0, x1 := Max(0, x - windw / 2), Min(x + windw / 2, w - 1);
    ClampIs(x - windw / 2, w);
    ClampIs(x + windw / 2, w);
    LineSumSlide(cs[..], x - windw / 2, windw);
    m := (m0 + cs[x1] - cs[x0]) % 0x1_0000_0000;
  }

  lemma MaskIs(im: seq<Byte>, w: int, h: int, y: int, x: int, m: nat)
    requires |im| == w * h && 0 <= y < h && 0 <= x < w
    requires m == LineSum(ColumnSums(im, w, h, y, Window(h)), x - Window(w) / 2, Window(w))
    ensures MaskAt(im, w, h, y, x) == Threshold(Pixel(im, w, h, y, x), WindowLog(w, 4), WindowLog(h, 4), m)
  {
  }

  // ----- masks, row by row -----

  /** Row k of dst, which has d rows, holds the mask of image row y. */
  ghost predicate HoldsRow(dst: seq<Byte>, w: int, d: int, k: int, im: seq<Byte>, h: int, y: int) {
    && 0 < w && |dst| == w * d && |im| == w * h && 0 <= k < d && 0 <= y < h
    && forall x :: 0 <= x < w ==> Pixel(dst, w, d, k, x) == MaskAt(im, w, h, y, x)
  }

  /** dst is the mask of image im. */
  ghost predicate IsMask(dst: seq<Byte>, im: seq<Byte>, w: int, h: int) {
    forall y :: 0 <= y < h ==> HoldsRow(dst, w, h, y, im, h, y)
  }

  /** Rows do not share entries. */
  lemma RowsApart(w: int, y: int, r: int, x: int)
    requires 0 <= x < w && 0 <= y && 0 <= r && y != r
    ensures !(y * w <= r * w + x < y * w + w)
  {
    if y < r {
      MulMono(y + 1, r, w);
      assert (y + 1) * w == y * w + w;
    } else {
      MulMono(r + 1, y, w);
      assert (r + 1) * w == r * w + w;
    }
  }

  /** Writing the mask of image row y to row k of dst leaves the other rows as they are. */
  lemma RowWritten(before: seq<Byte>, after: seq<Byte>, w: int, d: int, k: int, im: seq<Byte>, h: int, y: int)
    requires |before| == |after| == w * d && |im| == w * h && 0 <= y < h && 0 < w && 0 <= k < d
    requires 0 <= k * w <= k * w + w <= w * d
    requires forall x :: 0 <= x < w ==> after[k * w + x] == MaskAt(im, w, h, y, x)
    requires forall i :: 0 <= i < |before| && !(k * w <= i < k * w + w) ==> after[i] == before[i]
    ensures HoldsRow(after, w, d, k, im, h, y)
    ensures forall r, x :: 0 <= r < d && r != k && 0 <= x < w ==> Pixel(after, w, d, r, x) == Pixel(before, w, d, r, x)
  {
    forall x | 0 <= x < w ensures Pixel(after, w, d, k, x) == MaskAt(im, w, h, y, x) {
      PixelIs(after, w, d, k, x);
    }
    forall r, x | 0 <= r < d && r != k && 0 <= x < w ensures Pixel(after, w, d, r, x) == Pixel(before, w, d, r, x) {
      PixelIs(after, w, d, r, x);
      PixelIs(before, w, d, r, x);
      RowsApart(w, k, r, x);
    }
  }

  lemma RowStays(before: seq<Byte>, after: seq<Byte>, w: int, d: int, k: int, im: seq<Byte>, h: int, y: int)
    requires HoldsRow(before, w, d, k, im, h, y) && |after| == |before|
    requires forall x :: 0 <= x < w ==> Pixel(after, w, d, k, x) == Pixel(before, w, d, k, x)
    ensures HoldsRow(after, w, d, k, im, h, y)
  {
  }

  // ----- qr_binarize -----

  /** One more row of the mask. */
  method ScanToMask(img: array<Byte>, ghost im: seq<Byte>, w: int, h: int, y: int, logwindw: nat, logwindh: nat,
                    cs: array<nat>, out: array<Byte>)
    requires 0 < w && 0 <= y < h && RowIs(img, im, w, h, y) && img != out && out.Length == w * h
    requires logwindw == WindowLog(w, 4) && logwindh == WindowLog(h, 4)
    requires cs.Length == w && cs[..] == ColumnSums(im, w, h, y, Window(h))
    requires forall r :: 0 <= r < y ==> HoldsRow(out[..], w, h, r, im, h, r)
    modifies out
    ensures forall r :: 0 <= r <= y ==> HoldsRow(out[..], w, h, r, im, h, r)
  {
    hide *;
    ghost var before := out[..];
    RowFits(img, im, w, h, y);
    IndexInside(w, h, y, 0);
    ScanRow(img, im, w, h, y, logwindw, logwindh, cs, out, y * w);
    RowWritten(before, out[..], w, h, y, im, h, y);
    forall r | 0 <= r < y ensures HoldsRow(out[..], w, h, r, im, h, r) {
      RowStays(before, out[..], w, h, r, im, h, r);
    }
  }

  /** The mask that qr_binarize returns is the thresholded window average of the image. */
  method QrBinarize(img: array<Byte>, w: int, h: int) returns (mask: array?<Byte>)
    requires 0 < w && 0 < h ==> img.Length == w * h
    ensures mask == null <==> w <= 0 || h <= 0
    ensures mask != null ==> fresh(mask) && IsMask(mask[..], img[..], w, h)
  {
    if w <= 0 || h <= 0 {
      return null;
    }
    hide ColumnSums, Pixel, WindowLog, Window, MaskAt, RowIs, HoldsRow;
    ghost var im := img[..];
    AllRows(img, w, h);
    var out := new Byte[w * h](_ => 0);
    var logwindw := WindowLogOf(w);
    var logwindh := WindowLogOf(h);
    WindowRange(h);
    var windh := Pow2(logwindh);
    var colSums := InitColumns(img, w, h, logwindh);
    var y := 0;
    while y < h
      invariant 0 <= y <= h && fresh(colSums) && fresh(out) && img[..] == im
      invariant y < h ==> colSums[..] == ColumnSums(im, w, h, y, windh)
      invariant forall r :: 0 <= r < y ==> HoldsRow(out[..], w, h, r, im, h, r)
    {
      AllRows(img, w, h);
      ScanToMask(img, im, w, h, y, logwindw, logwindh, colSums, out);
      AllRows(img, w, h);
      if y + 1 < h {
        NextColumns(img, im, w, h, y, windh, colSums);
      }
      y := y + 1;
    }
    mask := out;
  }

  // ----- qr_binarize2 -----

  lemma ModNext(a: nat, m: nat)
    requires 1 < m
    ensures (a + 1) % m == if a % m + 1 >= m then 0 else a % m + 1
  {
    var q, r := a / m, a % m;
    assert a == q * m + r;
    if r + 1 >= m {
      assert a + 1 == (q + 1) * m;
      DivModUnique(a + 1, m, q + 1, 0);
    } else {
      DivModUnique(a + 1, m, q, r + 1);
    }
  }

  /** Fewer than m consecutive numbers have different remainders. */
  lemma ModApart(a: nat, b: nat, m: nat)
    requires a < b < a + m
    ensures a % m != b % m
  {
    var p, q := a / m, b / m;
    assert a == p * m + a % m && b == q * m + b % m;
    if a % m == b % m {
      if p < q {
        MulLess(p, q, m);
      } else {
        MulMono(q, p, m);
      }
    }
  }

  ghost predicate SameRow(s: seq<Byte>, im: seq<Byte>, w: int, h: int, r: int) {
    && 0 < w && |s| == |im| == w * h && 0 <= r < h
    && forall x :: 0 <= x < w ==> Pixel(s, w, h, r, x) == Pixel(im, w, h, r, x)
  }

  /** The first n rows of the image are overwritten with their mask, the others untouched. */
  ghost predicate HalfDone(s: seq<Byte>, im: seq<Byte>, w: int, h: int, n: int) {
    && (forall r :: 0 <= r < n ==> HoldsRow(s, w, h, r, im, h, r))
    && forall r :: n <= r < h ==> SameRow(s, im, w, h, r)
  }

  lemma SameRowIs(img: array<Byte>, im: seq<Byte>, w: int, h: int, r: int)
    requires SameRow(img[..], im, w, h, r)
    ensures RowIs(img, im, w, h, r)
  {
    IndexInside(w, h, r, 0);
    forall x | 0 <= x < w ensures img[r * w + x] == Pixel(im, w, h, r, x) {
      PixelIs(img[..], w, h, r, x);
    }
  }

  /** The ring holds the mask rows from lo to hi - 1, row r in slot r modulo its size. */
  ghost predicate RingHolds(ring: seq<Byte>, im: seq<Byte>, w: int, h: int, lineMax: nat, lo: nat, hi: nat)
    requires 0 < lineMax
  {
    forall r :: lo <= r < hi ==> HoldsRow(ring, w, lineMax, r % lineMax, im, h, r)
  }

  /** memcpy of n bytes. */
  method CopyLine(dst: array<Byte>, doffs: int, src: array<Byte>, soffs: int, n: int)
    requires dst != src && 0 <= n && 0 <= doffs && doffs + n <= dst.Length && 0 <= soffs && soffs + n <= src.Length
    modifies dst
    ensures dst[doffs..doffs + n] == src[soffs..soffs + n]
    ensures forall i :: 0 <= i < dst.Length && !(doffs <= i < doffs + n) ==> dst[i] == old(dst[i])
  {
    var x := 0;
    while x < n
      invariant 0 <= x <= n
      invariant dst[doffs..doffs + x] == src[soffs..soffs + x]
      invariant forall i :: 0 <= i < dst.Length && !(doffs <= i < doffs + n) ==> dst[i] == old(dst[i])
    {
      dst[doffs + x] := src[soffs + x];
      assert dst[doffs..doffs + x + 1] == dst[doffs..doffs + x] + [src[soffs + x]];
      assert src[soffs..soffs + x + 1] == src[soffs..soffs + x] + [src[soffs + x]];
      x := x + 1;
    }
  }

  /** Overwrites image row n with its mask, which waits in slot k of the ring. */
  method WriteBack(img: array<Byte>, ghost im: seq<Byte>, w: int, h: int, n: int,
                   ring: array<Byte>, lineMax: nat, k: nat)
    requires 0 < w && 0 <= n < h && img.Length == |im| == w * h && HalfDone(img[..], im, w, h, n)
    requires img != ring && HoldsRow(ring[..], w, lineMax, k, im, h, n)
    modifies img
    ensures HalfDone(img[..], im, w, h, n + 1)
  {
    hide Pixel, MaskAt, HalfDone, HoldsRow;
    ghost var before := img[..];
    IndexInside(w, h, n, 0);
    RowBounds(ring[..], w, lineMax, k, im, h, n);
    CopyLine(img, n * w, ring, k * w, w);
    RowCopied(img[..], ring[..], im, w, h, n, lineMax, k);
    OneMoreDone(before, img[..], im, w, h, n);
  }

  lemma RowBounds(ring: seq<Byte>, w: int, d: int, k: int, im: seq<Byte>, h: int, y: int)
    requires HoldsRow(ring, w, d, k, im, h, y)
    ensures 0 <= k * w <= k * w + w <= |ring|
  {
    IndexInside(w, d, k, 0);
  }

  lemma RowCopied(after: seq<Byte>, ring: seq<Byte>, im: seq<Byte>, w: int, h: int, n: int, lineMax: nat, k: nat)
    requires 0 < w && 0 <= n < h && |after| == |im| == w * h && HoldsRow(ring, w, lineMax, k, im, h, n)
    requires 0 <= n * w <= n * w + w <= w * h && 0 <= k * w <= k * w + w <= |ring|
    requires after[n * w..n * w + w] == ring[k * w..k * w + w]
    ensures forall x :: 0 <= x < w ==> after[n * w + x] == MaskAt(im, w, h, n, x)
  {
    hide Pixel, MaskAt;
    var a, b := n * w, k * w;
    forall x | 0 <= x < w ensures after[a + x] == MaskAt(im, w, h, n, x) {
      PixelIs(ring, w, lineMax, k, x);
      assert after[a + x] == after[a..a + w][x] == ring[b..b + w][x] == ring[b + x];
    }
  }

  lemma OneMoreDone(before: seq<Byte>, after: seq<Byte>, im: seq<Byte>, w: int, h: int, n: int)
    requires 0 < w && 0 <= n < h && |before| == |after| == |im| == w * h && HalfDone(before, im, w, h, n)
    requires 0 <= n * w <= n * w + w <= w * h
    requires forall x :: 0 <= x < w ==> after[n * w + x] == MaskAt(im, w, h, n, x)
    requires forall i :: 0 <= i < |before| && !(n * w <= i < n * w + w) ==> after[i] == before[i]
    ensures HalfDone(after, im, w, h, n + 1)
  {
    hide Pixel, MaskAt;
    RowWritten(before, after, w, h, n, im, h, n);
    forall r | 0 <= r < n ensures HoldsRow(after, w, h, r, im, h, r) {
      RowStays(before, after, w, h, r, im, h, r);
    }
    forall r | n + 1 <= r < h ensures SameRow(after, im, w, h, r) {
      assert SameRow(before, im, w, h, r);
    }
  }

  /** The next mask row goes to the ring and overwrites none that is still waiting. */
  lemma RingStep(before: seq<Byte>, after: seq<Byte>, im: seq<Byte>, w: int, h: int, lineMax: nat, lo: nat, y: nat)
    requires 0 < w && y < h && 0 < lineMax && |before| == |after| == w * lineMax && |im| == w * h
    requires lo <= y < lo + lineMax && RingHolds(before, im, w, h, lineMax, lo, y)
    requires 0 <= (y % lineMax) * w <= (y % lineMax) * w + w <= w * lineMax
    requires forall x :: 0 <= x < w ==> after[(y % lineMax) * w + x] == MaskAt(im, w, h, y, x)
    requires forall i :: 0 <= i < |before| && !((y % lineMax) * w <= i < (y % lineMax) * w + w) ==>
      after[i] == before[i]
    ensures RingHolds(after, im, w, h, lineMax, lo, y + 1)
  {
    hide Pixel, MaskAt, HoldsRow;
    RowWritten(before, after, w, lineMax, y % lineMax, im, h, y);
    forall r | lo <= r < y ensures HoldsRow(after, w, lineMax, r % lineMax, im, h, r) {
      ModApart(r, y, lineMax);
      RowStays(before, after, w, lineMax, r % lineMax, im, h, r);
    }
  }

  /** The rows that the next column sums and window read are still those of the source. */
  lemma RowsUnread(img: array<Byte>, im: seq<Byte>, w: int, h: int, n: int)
    requires HalfDone(img[..], im, w, h, n) && 0 <= n
    ensures forall r :: n <= r < h ==> RowIs(img, im, w, h, r)
  {
    hide RowIs, SameRow, HoldsRow;
    forall r | n <= r < h ensures RowIs(img, im, w, h, r) {
      SameRowIs(img, im, w, h, r);
    }
  }

  /** Row y of the image becomes a row of the ring. */
  method ScanToRing(img: array<Byte>, ghost im: seq<Byte>, w: int, h: int, y: int, logwindw: nat, logwindh: nat,
                    cs: array<nat>, ring: array<Byte>, lineMax: nat, wLine: int, ghost lo: nat)
    requires 0 < w && 0 <= y < h && RowIs(img, im, w, h, y) && img != ring && 0 < lineMax
    requires logwindw == WindowLog(w, 4) && logwindh == WindowLog(h, 4)
    requires cs.Length == w && cs[..] == ColumnSums(im, w, h, y, Window(h))
    requires ring.Length == w * lineMax && wLine == y % lineMax
    requires lo <= y < lo + lineMax && RingHolds(ring[..], im, w, h, lineMax, lo, y)
    modifies ring
    ensures RingHolds(ring[..], im, w, h, lineMax, lo, y + 1)
  {
    hide *;
    ghost var before := ring[..];
    RowFits(img, im, w, h, y);
    IndexInside(w, lineMax, wLine, 0);
    ScanRow(img, im, w, h, y, logwindw, logwindh, cs, ring, wLine * w);
    RingStep(before, ring[..], im, w, h, lineMax, lo, y);
  }

  lemma RowFits(img: array<Byte>, im: seq<Byte>, w: int, h: int, y: int)
    requires RowIs(img, im, w, h, y)
    ensures |im| == w * h
  {
  }

  /** The waiting row n leaves the ring. */
  lemma RingRow(ring: seq<Byte>, im: seq<Byte>, w: int, h: int, lineMax: nat, n: nat, hi: nat)
    requires 0 < lineMax && n < hi && RingHolds(ring, im, w, h, lineMax, n, hi)
    ensures HoldsRow(ring, w, lineMax, n % lineMax, im, h, n)
    ensures RingHolds(ring, im, w, h, lineMax, n + 1, hi)
  {
  }

  lemma NoneDone(im: seq<Byte>, w: int, h: int)
    requires 0 < w && 0 < h && |im| == w * h
    ensures HalfDone(im, im, w, h, 0)
  {
  }

  lemma AllDone(s: seq<Byte>, im: seq<Byte>, w: int, h: int)
    requires HalfDone(s, im, w, h, h)
    ensures IsMask(s, im, w, h)
  {
  }

  /** The last rows leave the ring, which holds all rows from lineOffset on. */
  method Drain(img: array<Byte>, ghost im: seq<Byte>, w: int, h: int, ring: array<Byte>, lineMax: nat,
               rLine0: int, lineOffset0: int, lineCnt: int)
    requires 0 < w && 0 < h && img.Length == |im| == w * h && img != ring && 1 < lineMax
    requires 0 <= lineOffset0 && 0 <= lineCnt && lineOffset0 + lineCnt == h && rLine0 == lineOffset0 % lineMax
    requires HalfDone(img[..], im, w, h, lineOffset0) && RingHolds(ring[..], im, w, h, lineMax, lineOffset0, h)
    modifies img
    ensures HalfDone(img[..], im, w, h, h)
  {
    hide HalfDone, RingHolds, HoldsRow;
    var rLine, lineOffset, i := rLine0, lineOffset0, 0;
    while i < lineCnt
      invariant 0 <= i <= lineCnt && lineOffset == lineOffset0 + i && rLine == lineOffset % lineMax
      invariant HalfDone(img[..], im, w, h, lineOffset) && RingHolds(ring[..], im, w, h, lineMax, lineOffset, h)
    {
      RingRow(ring[..], im, w, h, lineMax, lineOffset, h);
      WriteBack(img, im, w, h, lineOffset, ring, lineMax, rLine);
      ModNext(lineOffset, lineMax);
      rLine := rLine + 1;
      lineOffset := lineOffset + 1;
      if rLine >= lineMax {
        rLine := 0;
      }
      i := i + 1;
    }
  }

  /** qr_binarize2 leaves in the image itself the mask of the image it was given: the mask rows
      wait in a ring of windh / 2 + 2 rows until no window reads the source row any more. */
  method QrBinarize2(img: array<Byte>, w: int, h: int) returns (mask: array?<Byte>)
    requires 0 < w && 0 < h ==> img.Length == w * h
    modifies img
    ensures mask == if w <= 0 || h <= 0 then null else img
    ensures if w <= 0 || h <= 0 then img[..] == old(img[..]) else IsMask(img[..], old(img[..]), w, h)
  {
    hide ColumnSums, LineSum, Pixel, WindowLog, Window, Pow2, MaskAt, RowIs, HoldsRow, HalfDone, RingHolds, IsMask;
    if w <= 0 || h <= 0 {
      return null;
    }
    ghost var im := img[..];
    AllRows(img, w, h);
    NoneDone(im, w, h);
    var logwindw := WindowLogOf(w);
    var logwindh := WindowLogOf(h);
    WindowRange(h);
    var windh := Pow2(logwindh);
    var lineMax := windh / 2 + 2;
    MulMono(0, w, lineMax);
    var ring := new Byte[w * lineMax](_ => 0);
    var colSums := InitColumns(img, w, h, logwindh);
    var y, rLine, wLine, lineCnt, lineOffset := 0, 0, 0, 0, 0;
    RingEmpty(ring[..], im, w, h, lineMax);
    DivModUnique(0, lineMax, 0, 0);
    while y < h
      invariant 0 <= y <= h && fresh(colSums) && fresh(ring) && ring.Length == w * lineMax
      invariant 0 <= lineOffset <= y && wLine == y % lineMax
      invariant HalfDone(img[..], im, w, h, lineOffset)
      invariant y < h ==> && lineOffset == (if y > windh / 2 then y - windh / 2 - 1 else 0)
                          && lineCnt == y - lineOffset && rLine == lineOffset % lineMax
                          && RingHolds(ring[..], im, w, h, lineMax, lineOffset, y)
                          && colSums[..] == ColumnSums(im, w, h, y, windh)
      invariant y == h ==> lineOffset == h
    {
      RowsUnread(img, im, w, h, lineOffset);
      ScanToRing(img, im, w, h, y, logwindw, logwindh, colSums, ring, lineMax, wLine, lineOffset);
      ModNext(y, lineMax);
      wLine := wLine + 1;
      lineCnt := lineCnt + 1;
      if wLine >= lineMax {
        wLine := 0;
      }
      assert lineCnt <= lineMax;
      if y + 1 < h {
        OffsetIsZero(y - windh / 2, w);
        NextColumns(img, im, w, h, y, windh, colSums);
        if Max(0, y - windh / 2) * w != 0 {
          RingRow(ring[..], im, w, h, lineMax, lineOffset, y + 1);
          WriteBack(img, im, w, h, lineOffset, ring, lineMax, rLine);
          ModNext(lineOffset, lineMax);
          rLine := rLine + 1;
          lineOffset := lineOffset + 1;
          lineCnt := lineCnt - 1;
          if rLine >= lineMax {
            rLine := 0;
          }
        }
      } else {
        Drain(img, im, w, h, ring, lineMax, rLine, lineOffset, lineCnt);
        lineOffset := h;
      }
      y := y + 1;
    }
    AllDone(img[..], im, w, h);
    mask := img;
  }

  lemma RowInside(y: int, x: int, w: int, h: int)
    requires 0 <= x < w && 0 < h && y * w + x < w * h
    ensures y < h
  {
    if h <= y {
      MulMono(h, y, w);
    }
  }

  /** An image has one mask only, so that qr_binarize2 leaves what qr_binarize returns. */
  lemma MaskIsUnique(a: seq<Byte>, b: seq<Byte>, im: seq<Byte>, w: int, h: int)
    requires 0 < w && 0 < h && |a| == |b| == w * h && IsMask(a, im, w, h) && IsMask(b, im, w, h)
    ensures a == b
  {
    hide MaskAt, Pixel;
    forall i | 0 <= i < w * h ensures a[i] == b[i] {
      var y, x := i / w, i % w;
      assert i == y * w + x;
      RowInside(y, x, w, h);
      assert HoldsRow(a, w, h, y, im, h, y) && HoldsRow(b, w, h, y, im, h, y);
      PixelIs(a, w, h, y, x);
      PixelIs(b, w, h, y, x);
    }
  }

  lemma OffsetIsZero(v: int, w: int)
    requires 0 < w
    ensures Max(0, v) * w != 0 <==> v > 0
  {
    if v > 0 {
      MulMono(1, v, w);
    }
  }

  lemma RingEmpty(ring: seq<Byte>, im: seq<Byte>, w: int, h: int, lineMax: nat)
    requires 0 < lineMax
    ensures RingHolds(ring, im, w, h, lineMax, 0, 0)
  {
  }
}
