/** What the mask of Binarize says, on the image itself: each entry is 0 or 255 and compares the
    pixel with a plain sum over a rectangle of pixels; and what follows for flat images, bright
    pixels and dark ones. */
module BinarizeMeaning {
  import opened Arith
  import opened Binarize

  /** Coordinates outside 0..n - 1 mean the nearest one inside. */
  function Nearest(v: int, n: int): (c: int)
    requires 0 < n
    ensures 0 <= c < n
  {
    if v < 0 then 0 else if v >= n then n - 1 else v
  }

  /** Sum of the first k pixels of row y from column left on. */
  function RowTotal(im: seq<Byte>, w: int, h: int, y: int, left: int, k: nat): (n: nat)
    requires |im| == w * h && 0 < w && 0 <= y < h
  {
    if k == 0 then 0
    else
      IndexInside(w, h, y, Nearest(left + k - 1, w));
      RowTotal(im, w, h, y, left, k - 1) + im[y * w + Nearest(left + k - 1, w)]
  }

  /** Sum of the pixels of a rectangle, row by row. */
  function Total(im: seq<Byte>, w: int, h: int, top: int, left: int, rows: nat, cols: nat): (n: nat)
    requires |im| == w * h && 0 < w && 0 < h
  {
    if rows == 0 then 0
    else Total(im, w, h, top, left, rows - 1, cols) + RowTotal(im, w, h, Nearest(top + rows - 1, h), left, cols)
  }

  // ----- the sum over columns of column sums is the sum over rows of row sums -----

  lemma {:induction false} SumsAdd(a: seq<nat>, b: seq<nat>, c: seq<nat>, left: int, k: nat)
    requires a != [] && |a| == |b| == |c| && forall i :: 0 <= i < |a| ==> c[i] == a[i] + b[i]
    ensures LineSum(c, left, k) == LineSum(a, left, k) + LineSum(b, left, k)
  {
    if k > 0 {
      SumsAdd(a, b, c, left, k - 1);
    }
  }

  lemma {:induction false} SumOfZeros(a: seq<nat>, left: int, k: nat)
    requires a != [] && forall i :: 0 <= i < |a| ==> a[i] == 0
    ensures LineSum(a, left, k) == 0
  {
    if k > 0 {
      SumOfZeros(a, left, k - 1);
    }
  }

  function RowOf(im: seq<Byte>, w: int, h: int, y: int): (r: seq<nat>)
    requires |im| == w * h && 0 < w && 0 <= y < h
    ensures |r| == w && forall x :: 0 <= x < w ==> r[x] == Pixel(im, w, h, y, x)
  {
    seq(w, x requires 0 <= x < w => Pixel(im, w, h, y, x) as nat)
  }

  lemma {:induction false} RowIsTotal(im: seq<Byte>, w: int, h: int, y: int, left: int, k: nat)
    requires |im| == w * h && 0 < w && 0 <= y < h
    ensures LineSum(RowOf(im, w, h, y), left, k) == RowTotal(im, w, h, y, left, k)
  {
    if k > 0 {
      RowIsTotal(im, w, h, y, left, k - 1);
      IndexInside(w, h, y, Nearest(left + k - 1, w));
    }
  }

  /** The sums of k rows from row a on, one per column. */
  function Sums(im: seq<Byte>, w: int, h: int, a: int, k: nat): (c: seq<nat>)
    requires |im| == w * h && 0 < h && 0 < w
    ensures |c| == w && forall x :: 0 <= x < w ==> c[x] == LineSum(Column(im, w, h, x), a, k)
  {
    seq(w, x requires 0 <= x < w => LineSum(Column(im, w, h, x), a, k))
  }

  lemma {:induction false} ColumnsAreRows(im: seq<Byte>, w: int, h: int, top: int, left: int, rows: nat, cols: nat)
    requires |im| == w * h && 0 < w && 0 < h
    ensures LineSum(Sums(im, w, h, top, rows), left, cols) == Total(im, w, h, top, left, rows, cols)
  {
    hide LineSum, RowTotal, Pixel, Clamp;
    if rows == 0 {
      NoSums(im, w, h, top);
      SumOfZeros(Sums(im, w, h, top, 0), left, cols);
    } else {
      var y := Nearest(top + rows - 1, h);
      ColumnsAreRows(im, w, h, top, left, rows - 1, cols);
      OneRowMore(im, w, h, top, rows);
      SumsAdd(Sums(im, w, h, top, rows - 1), RowOf(im, w, h, y), Sums(im, w, h, top, rows), left, cols);
      RowIsTotal(im, w, h, y, left, cols);
    }
  }

  lemma NoSums(im: seq<Byte>, w: int, h: int, top: int)
    requires |im| == w * h && 0 < w && 0 < h
    ensures forall x :: 0 <= x < w ==> Sums(im, w, h, top, 0)[x] == 0
  {
  }

  lemma OneRowMore(im: seq<Byte>, w: int, h: int, top: int, rows: nat)
    requires |im| == w * h && 0 < w && 0 < h && 0 < rows
    ensures forall x :: 0 <= x < w ==>
      Sums(im, w, h, top, rows)[x]
      == Sums(im, w, h, top, rows - 1)[x] + RowOf(im, w, h, Nearest(top + rows - 1, h))[x]
  {
  }

  lemma WindowIsTotal(im: seq<Byte>, w: int, h: int, y: int, x: int, windw: nat, windh: nat)
    requires |im| == w * h && 0 < w && 0 < h
    ensures WindowSum(im, w, h, y, x, windw, windh)
         == Total(im, w, h, y - windh / 2, x - windw / 2, windh, windw)
  {
    hide LineSum, Total;
    ColumnsAreRows(im, w, h, y - windh / 2, x - windw / 2, windh, windw);
    assert ColumnSums(im, w, h, y, windh) == Sums(im, w, h, y - windh / 2, windh);
  }

  // ----- the mask -----

  /** The sum over the window of a pixel: as many places before it as from it on, both ways. */
  function Around(im: seq<Byte>, w: int, h: int, y: int, x: int): (n: nat)
    requires |im| == w * h && 0 < w && 0 < h
  {
    Total(im, w, h, y - Window(h) / 2, x - Window(w) / 2, Window(h), Window(w))
  }

  /** The size of the window for an extent of n pixels. */
  lemma WindowIs(n: int)
    ensures Window(n) == if n <= 128 then 16 else if n <= 256 then 32 else if n <= 512 then 64
                         else if n <= 1024 then 128 else 256
  {
    hide Pow2;
    Powers();
    assert WindowLog(n, 8) == 8;
    assert WindowLog(n, 7) == if n > 1024 then 8 else 7;
    assert WindowLog(n, 6) == if n > 512 then WindowLog(n, 7) else 6;
    assert WindowLog(n, 5) == if n > 256 then WindowLog(n, 6) else 5;
  }

  lemma Powers()
    ensures Pow2(4) == 16 && Pow2(5) == 32 && Pow2(6) == 64 && Pow2(7) == 128 && Pow2(8) == 256
  {
    assert Pow2(4) == 16;
  }

  /** A mask holds 255 for the pixels that are darker by more than 3 than the average of their
      window, and 0 for all others. */
  lemma MaskMeans(dst: seq<Byte>, im: seq<Byte>, w: int, h: int, y: int, x: int)
    requires 0 < w && 0 < h && |dst| == |im| == w * h && IsMask(dst, im, w, h) && 0 <= y < h && 0 <= x < w
    ensures 0 <= y * w + x < w * h && (dst[y * w + x] == 255 || dst[y * w + x] == 0)
    ensures dst[y * w + x] == 255 <==> (im[y * w + x] + 3) * Window(w) * Window(h) < Around(im, w, h, y, x)
  {
    hide WindowSum, Window, Total, Pixel;
    PixelIs(im, w, h, y, x);
    PixelIs(dst, w, h, y, x);
    assert HoldsRow(dst, w, h, y, im, h, y);
    WindowIsTotal(im, w, h, y, x, Window(w), Window(h));
  }

  // ----- bounds of the sum -----

  /** The pixels that a window of half sizes a and b reads. */
  predicate Near(y: int, x: int, b: int, a: int, r: int, c: int) {
    y - b <= r < y + b && x - a <= c < x + a
  }

  lemma {:induction false} RowAtMost(im: seq<Byte>, w: int, h: int, y: int, left: int, k: nat, v: nat)
    requires |im| == w * h && 0 < w && 0 <= y < h
    requires forall c {:trigger Nearest(c, w)} :: left <= c < left + k ==> Pixel(im, w, h, y, Nearest(c, w)) <= v
    ensures RowTotal(im, w, h, y, left, k) <= k * v
  {
    if k > 0 {
      RowAtMost(im, w, h, y, left, k - 1, v);
      assert Pixel(im, w, h, y, Nearest(left + k - 1, w)) <= v;
      assert k * v == (k - 1) * v + v;
    }
  }

  /** No pixel of a rectangle is above v. */
  ghost predicate AtMost(im: seq<Byte>, w: int, h: int, top: int, left: int, rows: nat, cols: nat, v: nat)
    requires |im| == w * h && 0 < w && 0 < h
  {
    forall r, c {:trigger Nearest(r, h), Nearest(c, w)} :: top <= r < top + rows && left <= c < left + cols ==>
      Pixel(im, w, h, Nearest(r, h), Nearest(c, w)) <= v
  }

  lemma {:induction false} TotalAtMost(im: seq<Byte>, w: int, h: int, top: int, left: int, rows: nat, cols: nat, v: nat)
    requires |im| == w * h && 0 < w && 0 < h && AtMost(im, w, h, top, left, rows, cols, v)
    ensures Total(im, w, h, top, left, rows, cols) <= rows * (cols * v)
  {
    hide Pixel, RowTotal, Nearest;
    if rows > 0 {
      TotalAtMost(im, w, h, top, left, rows - 1, cols, v);
      RowAtMost(im, w, h, Nearest(top + rows - 1, h), left, cols, v);
      assert rows * (cols * v) == (rows - 1) * (cols * v) + cols * v;
    }
  }

  /** What is missing when x is among the k coordinates from left on. */
  function Lack(left: int, k: nat, x: int, d: nat): (n: nat) {
    if left <= x < left + k then d else 0
  }

  /** Row y has at least g at column x, which is met once at most, and at least v at all others. */
  lemma {:induction false} RowAtLeast(im: seq<Byte>, w: int, h: int, y: int, left: int, k: nat, x: int, g: nat, v: nat)
    requires |im| == w * h && 0 < x < w - 1 && 0 <= y < h && g <= v
    requires forall c {:trigger Nearest(c, w)} :: left <= c < left + k ==>
      Pixel(im, w, h, y, Nearest(c, w)) >= if c == x then g else v
    ensures RowTotal(im, w, h, y, left, k) + Lack(left, k, x, v - g) >= k * v
  {
    if k > 0 {
      RowAtLeast(im, w, h, y, left, k - 1, x, g, v);
      var c := left + k - 1;
      assert Pixel(im, w, h, y, Nearest(c, w)) >= if c == x then g else v;
      assert k * v == (k - 1) * v + v;
    }
  }

  /** No pixel of a rectangle is below v, but for the one at (y, x), which is not below g. */
  ghost predicate AtLeast(im: seq<Byte>, w: int, h: int, top: int, left: int, rows: nat, cols: nat,
                          y: int, x: int, g: nat, v: nat)
    requires |im| == w * h && 0 < w && 0 < h
  {
    forall r, c {:trigger Nearest(r, h), Nearest(c, w)} :: top <= r < top + rows && left <= c < left + cols ==>
      Pixel(im, w, h, Nearest(r, h), Nearest(c, w)) >= if r == y && c == x then g else v
  }

  lemma {:induction false} TotalAtLeast(im: seq<Byte>, w: int, h: int, top: int, left: int, rows: nat, cols: nat,
                                        y: int, x: int, g: nat, v: nat)
    requires |im| == w * h && 0 < x < w - 1 && 0 < h && g <= v && AtLeast(im, w, h, top, left, rows, cols, y, x, g, v)
    ensures Total(im, w, h, top, left, rows, cols) + Lack(top, rows, y, v - g) >= rows * (cols * v)
  {
    hide Pixel, RowTotal, Nearest;
    if rows > 0 {
      TotalAtLeast(im, w, h, top, left, rows - 1, cols, y, x, g, v);
      var r := top + rows - 1;
      RowAtLeast(im, w, h, Nearest(r, h), left, cols, x, if r == y then g else v, v);
      assert rows * (cols * v) == (rows - 1) * (cols * v) + cols * v;
    }
  }

  // ----- consequences -----

  lemma NearestIsNear(v: int, n: int, b: int, c: int)
    requires 0 <= v < n && 0 < b && v - b <= c < v + b
    ensures v - b <= Nearest(c, n) < v + b && (0 < v < n - 1 ==> (Nearest(c, n) == v <==> c == v))
  {
  }

  lemma Regroup(g: nat, p: nat, q: nat)
    ensures g * p * q == q * (p * g)
  {
  }

  /** A pixel that is not darker than any pixel in its window is not set. */
  lemma BrightPixel(dst: seq<Byte>, im: seq<Byte>, w: int, h: int, y: int, x: int)
    requires 0 < w && 0 < h && |dst| == |im| == w * h && IsMask(dst, im, w, h) && 0 <= y < h && 0 <= x < w
    requires forall r, c {:trigger Near(y, x, Window(h) / 2, Window(w) / 2, r, c)} ::
      0 <= r < h && 0 <= c < w && Near(y, x, Window(h) / 2, Window(w) / 2, r, c) ==>
      Pixel(im, w, h, r, c) <= Pixel(im, w, h, y, x)
    ensures 0 <= y * w + x < w * h && dst[y * w + x] == 0
  {
    hide Window, Total, IsMask, Nearest, Pixel;
    MaskMeans(dst, im, w, h, y, x);
    WindowRange(w);
    WindowRange(h);
    PixelIs(im, w, h, y, x);
    var windw, windh, v: nat := Window(w), Window(h), im[y * w + x];
    var top, left := y - windh / 2, x - windw / 2;
    forall r, c | top <= r < top + windh && left <= c < left + windw
      ensures Pixel(im, w, h, Nearest(r, h), Nearest(c, w)) <= v
    {
      NearestIsNear(y, h, windh / 2, r);
      NearestIsNear(x, w, windw / 2, c);
      assert Near(y, x, Window(h) / 2, Window(w) / 2, Nearest(r, h), Nearest(c, w));
    }
    TotalAtMost(im, w, h, top, left, windh, windw, v);
    BrightEnough(v, windw, windh);
  }

  lemma BrightEnough(v: nat, p: nat, q: nat)
    ensures q * (p * v) <= (v + 3) * p * q
  {
    Regroup(v + 3, p, q);
    MulMono(v, v + 3, p);
    MulMono(p * v, p * (v + 3), q);
  }

  /** A flat image has no set pixel. */
  lemma FlatMask(dst: seq<Byte>, im: seq<Byte>, w: int, h: int, y: int, x: int)
    requires 0 < w && 0 < h && |dst| == |im| == w * h && IsMask(dst, im, w, h) && 0 <= y < h && 0 <= x < w
    requires forall i, j :: 0 <= i < w * h && 0 <= j < w * h ==> im[i] == im[j]
    ensures 0 <= y * w + x < w * h && dst[y * w + x] == 0
  {
    hide IsMask, Window, Near, Pixel;
    PixelIs(im, w, h, y, x);
    forall r, c | 0 <= r < h && 0 <= c < w ensures Pixel(im, w, h, r, c) <= Pixel(im, w, h, y, x) {
      PixelIs(im, w, h, r, c);
    }
    BrightPixel(dst, im, w, h, y, x);
  }

  /** A pixel away from the border is set when it is darker by more than 3 than all others in its
      window. */
  lemma DarkPixel(dst: seq<Byte>, im: seq<Byte>, w: int, h: int, y: int, x: int, v: nat)
    requires |dst| == |im| == w * h && 0 < y < h - 1 && 0 < x < w - 1 && IsMask(dst, im, w, h)
    requires Pixel(im, w, h, y, x) + 3 < v
    requires forall r, c {:trigger Near(y, x, Window(h) / 2, Window(w) / 2, r, c)} ::
      0 <= r < h && 0 <= c < w && Near(y, x, Window(h) / 2, Window(w) / 2, r, c) ==>
      (r == y && c == x) || v <= Pixel(im, w, h, r, c)
    ensures 0 <= y * w + x < w * h && dst[y * w + x] == 255
  {
    hide Window, Total, IsMask, Nearest, Pixel;
    MaskMeans(dst, im, w, h, y, x);
    WindowRange(w);
    WindowRange(h);
    PixelIs(im, w, h, y, x);
    var windw, windh, g: nat := Window(w), Window(h), im[y * w + x];
    var top, left := y - windh / 2, x - windw / 2;
    forall r, c | top <= r < top + windh && left <= c < left + windw
      ensures Pixel(im, w, h, Nearest(r, h), Nearest(c, w)) >= if r == y && c == x then g else v
    {
      NearestIsNear(y, h, windh / 2, r);
      NearestIsNear(x, w, windw / 2, c);
      assert Near(y, x, Window(h) / 2, Window(w) / 2, Nearest(r, h), Nearest(c, w));
    }
    TotalAtLeast(im, w, h, top, left, windh, windw, y, x, g, v);
    DarkEnough(g, v, windw, windh);
  }

  lemma DarkEnough(g: nat, v: nat, p: nat, q: nat)
    requires g + 3 < v && 16 <= p && 16 <= q
    ensures (g + 3) * p * q + (v - g) < q * (p * v)
  {
    var n, d := p * q, v - g - 3;
    Regroup(g + 3, p, q);
    MulMono(16, p, q);
    assert q * (p * (g + 3)) == n * (g + 3) && q * (p * v) == n * v;
    assert n * v == n * (g + 3) + n * d;
    MulMono(16, n, d);
  }
}
