/** The frame buffer of the display driver (application/src/luat_spi_air105.c, luat_lcd_draw and
    luat_lcd_flush in buffered mode).  Draws go to the buffer; a flush sends only the band of
    rows that the draws since the last flush have touched. */
module LcdBand {
  import opened Arith

  type Color = c: int | 0 <= c < 0x1_0000

  /** A rectangle with inclusive corners and its pixels, row by row. */
  datatype Rect = Rect(x1: int, y1: int, x2: int, y2: int, color: seq<Color>)

  function Area(x1: int, y1: int, x2: int, y2: int): (n: nat) {
    if x1 <= x2 && y1 <= y2 then (x2 - x1 + 1) * (y2 - y1 + 1) else 0
  }

  /** What a caller must pass: 16-bit coordinates below the maximum, and all pixels. */
  ghost predicate RectOk(r: Rect) {
    && -0x8000 <= r.x1 < 0x7FFF && -0x8000 <= r.y1 < 0x7FFF && -0x8000 <= r.x2 < 0x7FFF && -0x8000 <= r.y2 < 0x7FFF
    && |r.color| >= Area(r.x1, r.y1, r.x2, r.y2)
  }

  /** The rectangle is not empty and meets a screen of w columns and h rows. */
  predicate Touches(r: Rect, w: nat, h: nat) {
    r.x1 < w && r.y1 < h && 0 <= r.x2 && 0 <= r.y2 && r.x1 <= r.x2 && r.y1 <= r.y2
  }

  predicate Inside(r: Rect, x: int, y: int) {
    r.x1 <= x <= r.x2 && r.y1 <= y <= r.y2
  }

  lemma PixelIndex(r: Rect, x: int, y: int)
    requires RectOk(r) && Inside(r, x, y)
    ensures 0 <= (r.x2 - r.x1 + 1) * (y - r.y1) + (x - r.x1) < |r.color|
  {
    var n := r.x2 - r.x1 + 1;
    MulMono(y - r.y1 + 1, r.y2 - r.y1 + 1, n);
    assert (y - r.y1 + 1) * n == n * (y - r.y1) + n;
    MulMono(0, y - r.y1, n);
  }

  function ColorAt(r: Rect, x: int, y: int): (res: Color)
    requires RectOk(r) && Inside(r, x, y)
  {
    PixelIndex(r, x, y);
    r.color[(r.x2 - r.x1 + 1) * (y - r.y1) + (x - r.x1)]
  }

  // ----- immediate drawing -----

  /** The screen after a rectangle was drawn on it. */
  function Drawn(s: seq<Color>, w: nat, r: Rect): (t: seq<Color>)
    requires RectOk(r) && 0 < w
    ensures |t| == |s|
  {
    seq(|s|, k requires 0 <= k < |s| => if Inside(r, k % w, k / w) then ColorAt(r, k % w, k / w) else s[k])
  }

  /** The screen after a list of rectangles. */
  function Painted(s: seq<Color>, w: nat, rs: seq<Rect>): (t: seq<Color>)
    requires 0 < w && forall i :: 0 <= i < |rs| ==> RectOk(rs[i])
    ensures |t| == |s|
  {
    if rs == [] then s else Drawn(Painted(s, w, rs[..|rs| - 1]), w, rs[|rs| - 1])
  }

  // ----- the band of touched rows -----

  datatype Band = Band(min: int, max: int)

  /** The rows of the screen that a list of rectangles touches lie in this band, which no
      smaller one contains. */
  function Hull(rs: seq<Rect>, w: nat, h: nat): (b: Band)
    ensures 0 < h ==> 0 <= b.min <= h && 0 <= b.max < h
  {
    if rs == [] then Band(h, 0)
    else
      var b, r := Hull(rs[..|rs| - 1], w, h), rs[|rs| - 1];
      if Touches(r, w, h) then Band(Min(b.min, Max(r.y1, 0)), Max(b.max, Min(r.y2, h - 1))) else b
  }

  ghost predicate Within(b: Band, y: int) {
    b.min <= y <= b.max
  }

  /** Each row of the screen that a rectangle touches is in the band. */
  lemma {:induction false} HullContains(rs: seq<Rect>, w: nat, h: nat, i: nat, y: int)
    requires i < |rs| && Touches(rs[i], w, h) && 0 <= y < h && rs[i].y1 <= y <= rs[i].y2
    ensures Within(Hull(rs, w, h), y)
  {
    if i < |rs| - 1 {
      HullContains(rs[..|rs| - 1], w, h, i, y);
    }
  }

  /** Both ends of the band are rows that some rectangle touches, if any does. */
  lemma {:induction false} HullIsLeast(rs: seq<Rect>, w: nat, h: nat) returns (i: nat, j: nat)
    requires 0 < h && exists k :: 0 <= k < |rs| && Touches(rs[k], w, h)
    ensures i < |rs| && Touches(rs[i], w, h) && Hull(rs, w, h).min == Max(rs[i].y1, 0)
    ensures j < |rs| && Touches(rs[j], w, h) && Hull(rs, w, h).max == Min(rs[j].y2, h - 1)
  {
    var n := |rs| - 1;
    var b := Hull(rs[..n], w, h);
    if k :| 0 <= k < n && Touches(rs[k], w, h) {
      assert rs[..n][k] == rs[k];
      i, j := HullIsLeast(rs[..n], w, h);
      if Touches(rs[n], w, h) {
        i := if Max(rs[n].y1, 0) < b.min then n else i;
        j := if Min(rs[n].y2, h - 1) > b.max then n else j;
      }
    } else {
      NoneTouches(rs[..n], w, h);
      i, j := n, n;
    }
  }

  lemma {:induction false} NoneTouches(rs: seq<Rect>, w: nat, h: nat)
    requires forall k :: 0 <= k < |rs| ==> !Touches(rs[k], w, h)
    ensures Hull(rs, w, h) == Band(h, 0)
  {
    if rs != [] {
      NoneTouches(rs[..|rs| - 1], w, h);
    }
  }

  /** Rows outside the band of a list of rectangles are not changed by drawing them. */
  lemma {:induction false} OutsideUnchanged(s: seq<Color>, w: nat, h: nat, rs: seq<Rect>, k: nat)
    requires 0 < w && |s| == w * h && k < |s| && !Within(Hull(rs, w, h), k / w)
    requires forall i :: 0 <= i < |rs| ==> RectOk(rs[i])
    ensures Painted(s, w, rs)[k] == s[k]
  {
    if rs != [] {
      RowOf(k, w, h);
      OutsideUnchanged(s, w, h, rs[..|rs| - 1], k);
    }
  }

  lemma RowOf(k: nat, w: nat, h: nat)
    requires 0 < w && k < w * h
    ensures 0 <= k / w < h && 0 <= k % w < w && k == k / w * w + k % w
  {
    if k / w >= h {
      MulMono(h, k / w, w);
    }
  }

  lemma {:induction false} PaintedJoin(s: seq<Color>, w: nat, ps: seq<Rect>, rs: seq<Rect>)
    requires 0 < w && (forall i :: 0 <= i < |ps| ==> RectOk(ps[i])) && forall i :: 0 <= i < |rs| ==> RectOk(rs[i])
    ensures Painted(s, w, ps + rs) == Painted(Painted(s, w, ps), w, rs)
  {
    if rs == [] {
      assert ps + rs == ps;
    } else {
      PaintedJoin(s, w, ps, rs[..|rs| - 1]);
      assert (ps + rs)[..|ps + rs| - 1] == ps + rs[..|rs| - 1];
    }
  }

  // ----- the driver -----

  /** The rows y1 to y2 of the display, sent in one transfer. */
  datatype Transfer = Transfer(y1: int, y2: int, pixels: seq<Color>)

  class Lcd {
    const w: nat
    const h: nat
    const buff: array<Color>
    var flushYMin: int
    var flushYMax: int
    /** What the display shows. */
    var panel: seq<Color>

    /** The screen at the start, all rectangles drawn since, and how many were there at the last flush. */
    ghost const start: seq<Color>
    ghost var rects: seq<Rect>
    ghost var flushed: nat
    ghost var sent: seq<Transfer>

    /** The panel shows the rectangles up to the last flush, the buffer holds all of them, and the
        band is the hull of those that are missing on the panel. */
    ghost predicate Valid()
      reads this, buff
    {
      && 0 < w <= 0x7FFF && 0 < h <= 0x7FFF && buff.Length == |start| == w * h && flushed <= |rects|
      && (forall i :: 0 <= i < |rects| ==> RectOk(rects[i]))
      && buff[..] == Painted(start, w, rects)
      && panel == Painted(start, w, rects[..flushed])
      && Band(flushYMin, flushYMax) == Hull(rects[flushed..], w, h)
    }

    constructor (width: nat, height: nat, fill: Color)
      requires 0 < width <= 0x7FFF && 0 < height <= 0x7FFF
      ensures Valid() && w == width && h == height && rects == [] && sent == [] && fresh(buff)
    {
      w, h := width, height;
      var b := new Color[width * height](_ => fill);
      buff, start, panel := b, b[..], b[..];
      rects, flushed, sent := [], 0, [];
      flushYMin, flushYMax := height, 0;
    }

    /** A transfer to the display, which succeeds. */
    method Send(y1: int, y2: int, pixels: seq<Color>)
      requires 0 <= y1 * w <= (y2 + 1) * w <= |panel| && |pixels| == (y2 + 1) * w - y1 * w
      modifies this`panel, this`sent
      ensures panel == old(panel[..y1 * w]) + pixels + old(panel[(y2 + 1) * w..])
      ensures sent == old(sent) + [Transfer(y1, y2, pixels)]
    {
      panel := panel[..y1 * w] + pixels + panel[(y2 + 1) * w..];
      sent := sent + [Transfer(y1, y2, pixels)];
    }

    /** luat_lcd_flush: one transfer with the rows of the band, or none when nothing was touched. */
    method Flush()
      requires Valid()
      modifies this`panel, this`flushYMin, this`flushYMax, this`flushed, this`sent
      ensures Valid() && flushed == |rects|
      ensures panel == buff[..] == Painted(start, w, rects)
      ensures old(flushYMax < flushYMin) ==> sent == old(sent)
      ensures old(flushYMin <= flushYMax) ==>
        && 0 <= old(flushYMin) * w <= (old(flushYMax) + 1) * w <= buff.Length
        && sent == old(sent) + [Transfer(old(flushYMin), old(flushYMax),
                                         buff[old(flushYMin) * w..(old(flushYMax) + 1) * w])]
    {
      hide Painted, Hull;
      BandIsStale(start, w, h, rects, flushed, Band(flushYMin, flushYMax));
      assert rects[..|rects|] == rects && rects[|rects|..] == [];
      if flushYMax < flushYMin {
        flushed := |rects|;
        return;
      }
      RowsInside(w, h, flushYMin, flushYMax + 1);
      ghost var oldPanel := panel;
      Send(flushYMin, flushYMax, buff[flushYMin * w..(flushYMax + 1) * w]);
      SentAll(oldPanel, buff[..], w, h, flushYMin, flushYMax);
      // nothing left to send
      flushYMax := 0;
      flushYMin := h;
      flushed := |rects|;
      EmptyHull(w, h);
    }

    /** The buffered part of luat_lcd_draw: column by column, clipped to the screen. */
    method Draw(x1: int, y1: int, x2: int, y2: int, color: seq<Color>)
      requires Valid() && RectOk(Rect(x1, y1, x2, y2, color))
      modifies this`flushYMin, this`flushYMax, this`rects, buff
      ensures Valid() && rects == old(rects) + [Rect(x1, y1, x2, y2, color)]
      ensures buff[..] == Drawn(old(buff[..]), w, Rect(x1, y1, x2, y2, color))
      ensures panel == old(panel) && flushed == old(flushed) && sent == old(sent)
    {
      hide Painted, Hull, Drawn;
      ghost var r := Rect(x1, y1, x2, y2, color);
      ghost var screen := buff[..];
      OneMore(start, w, h, rects, flushed, r);
      rects := rects + [r];
      if x1 >= w || y1 >= h || x2 < 0 || y2 < 0 || x2 < x1 || y2 < y1 {
        DrawnNowhere(screen, w, h, r);
        return;
      }
      var bottom := if y2 >= h then h - 1 else y2;
      Fill(r, x1, y1, x2, bottom, color);
      if y1 < flushYMin {
        flushYMin := if y1 >= 0 then y1 else 0;
      }
      if bottom > flushYMax {
        flushYMax := bottom;
      }
    }

    /** The two pixel loops. */
    method Fill(ghost r: Rect, x1: int, y1: int, x2: int, y2: int, color: seq<Color>)
      requires 0 < w && 0 < h && buff.Length == w * h && RectOk(r) && Touches(r, w, h)
      requires r.x1 == x1 && r.y1 == y1 && r.x2 == x2 && r.color == color && y2 == Min(r.y2, h - 1)
      modifies buff
      ensures buff[..] == Drawn(old(buff[..]), w, r)
    {
      hide Drawn;
      ghost var screen := buff[..];
      var lsize := x2 - x1 + 1;
      HalfStart(screen, w, h, r);
      for x := x1 to x2 + 1
        invariant Half(buff[..], screen, w, h, r, x, y1)
      {
        if x < 0 || x >= w {
          SkipColumn(buff[..], screen, w, h, r, x, y2);
          continue;
        }
        for y := y1 to y2 + 1
          invariant Half(buff[..], screen, w, h, r, x, y)
        {
          if y < 0 || y >= h {
            SkipPixel(buff[..], screen, w, h, r, x, y);
            continue;
          }
          PixelStep(buff[..], screen, w, h, r, x, y);
          buff[w * y + x] := color[lsize * (y - y1) + (x - x1)];
        }
        SkipColumn(buff[..], screen, w, h, r, x, y2);
      }
      HalfIsDrawn(buff[..], screen, w, h, r);
    }
  }

  // ----- flushing -----

  lemma {:induction false} HullOrder(rs: seq<Rect>, w: nat, h: nat)
    requires 0 < h
    ensures Hull(rs, w, h) == Band(h, 0) || Hull(rs, w, h).min <= Hull(rs, w, h).max
  {
    if rs != [] {
      HullOrder(rs[..|rs| - 1], w, h);
    }
  }

  lemma EmptyHull(w: nat, h: nat)
    ensures Hull([], w, h) == Band(h, 0)
  {
  }

  /** Where the panel differs from the buffer, the row is in the band; no band, no difference. */
  lemma BandIsStale(start: seq<Color>, w: nat, h: nat, rects: seq<Rect>, flushed: nat, b: Band)
    requires 0 < w && 0 < h && |start| == w * h && flushed <= |rects| && b == Hull(rects[flushed..], w, h)
    requires forall i :: 0 <= i < |rects| ==> RectOk(rects[i])
    ensures 0 <= b.min <= h && 0 <= b.max < h && (b.max < b.min ==> b == Hull([], w, h))
    ensures forall k :: 0 <= k < w * h && !Within(b, k / w) ==>
      Painted(start, w, rects[..flushed])[k] == Painted(start, w, rects)[k]
    ensures b.max < b.min ==> Painted(start, w, rects[..flushed]) == Painted(start, w, rects)
  {
    hide Painted, Hull;
    HullOrder(rects[flushed..], w, h);
    EmptyHull(w, h);
    assert rects == rects[..flushed] + rects[flushed..];
    PaintedJoin(start, w, rects[..flushed], rects[flushed..]);
    var p := Painted(start, w, rects[..flushed]);
    forall k | 0 <= k < w * h && !Within(b, k / w) ensures p[k] == Painted(start, w, rects)[k] {
      OutsideUnchanged(p, w, h, rects[flushed..], k);
    }
  }

  lemma RowsInside(w: nat, h: nat, a: int, b: int)
    requires 0 <= a <= b <= h
    ensures 0 <= a * w <= b * w <= w * h
  {
    MulMono(0, a, w);
    MulMono(a, b, w);
    MulMono(b, h, w);
  }

  /** Sending the rows of the band makes the panel equal to the buffer. */
  lemma SentAll(panel: seq<Color>, buff: seq<Color>, w: nat, h: nat, min: int, max: int)
    requires 0 < w && |panel| == |buff| == w * h && 0 <= min <= max < h && 0 <= min * w <= (max + 1) * w <= w * h
    requires forall k :: 0 <= k < w * h && !Within(Band(min, max), k / w) ==> panel[k] == buff[k]
    ensures panel[..min * w] + buff[min * w..(max + 1) * w] + panel[(max + 1) * w..] == buff
  {
    var sent := panel[..min * w] + buff[min * w..(max + 1) * w] + panel[(max + 1) * w..];
    forall k | 0 <= k < w * h ensures sent[k] == buff[k] {
      BandRows(k, w, h, min, max);
    }
  }

  lemma BandRows(k: nat, w: nat, h: nat, min: int, max: int)
    requires 0 < w && k < w * h && 0 <= min <= max
    ensures Within(Band(min, max), k / w) <==> min * w <= k < (max + 1) * w
  {
    var y := k / w;
    RowOf(k, w, h);
    if y < min {
      MulMono(y + 1, min, w);
      assert (y + 1) * w == y * w + w;
    } else {
      MulMono(min, y, w);
    }
    if y > max {
      MulMono(max + 1, y, w);
    } else {
      MulMono(y + 1, max + 1, w);
      assert (y + 1) * w == y * w + w;
    }
  }

  // ----- drawing -----

  lemma OneMore(start: seq<Color>, w: nat, h: nat, rects: seq<Rect>, flushed: nat, r: Rect)
    requires 0 < w && flushed <= |rects| && RectOk(r) && forall i :: 0 <= i < |rects| ==> RectOk(rects[i])
    ensures Painted(start, w, rects + [r]) == Drawn(Painted(start, w, rects), w, r)
    ensures (rects + [r])[..flushed] == rects[..flushed]
    ensures var b := Hull(rects[flushed..], w, h);
      Hull((rects + [r])[flushed..], w, h) ==
        if Touches(r, w, h) then Band(Min(b.min, Max(r.y1, 0)), Max(b.max, Min(r.y2, h - 1))) else b
  {
    hide Drawn;
    assert (rects + [r])[..|rects|] == rects;
    assert (rects + [r])[flushed..] == rects[flushed..] + [r];
    assert (rects[flushed..] + [r])[..|rects| - flushed] == rects[flushed..];
  }

  lemma DrawnNowhere(s: seq<Color>, w: nat, h: nat, r: Rect)
    requires 0 < w && |s| == w * h && RectOk(r) && !Touches(r, w, h)
    ensures Drawn(s, w, r) == s
  {
    forall k | 0 <= k < |s| ensures Drawn(s, w, r)[k] == s[k] {
      RowOf(k, w, h);
    }
  }

  /** Column x is drawn down to row y, columns to its left are drawn, the rest is not. */
  ghost predicate Half(now: seq<Color>, before: seq<Color>, w: nat, h: nat, r: Rect, x: int, y: int) {
    && 0 < w && |now| == |before| == w * h && RectOk(r)
    && forall k :: 0 <= k < |now| ==>
      now[k] == if k % w < x || (k % w == x && k / w < y) then Drawn(before, w, r)[k] else before[k]
  }

  lemma HalfStart(s: seq<Color>, w: nat, h: nat, r: Rect)
    requires 0 < w && |s| == w * h && RectOk(r)
    ensures Half(s, s, w, h, r, r.x1, r.y1)
  {
  }

  lemma SkipPixel(now: seq<Color>, before: seq<Color>, w: nat, h: nat, r: Rect, x: int, y: int)
    requires Half(now, before, w, h, r, x, y) && (y < 0 || y >= h)
    ensures Half(now, before, w, h, r, x, y + 1)
  {
    hide Drawn;
    forall k | 0 <= k < |now| ensures k / w != y {
      RowOf(k, w, h);
    }
  }

  lemma SkipColumn(now: seq<Color>, before: seq<Color>, w: nat, h: nat, r: Rect, x: int, y2: int)
    requires Half(now, before, w, h, r, x, if 0 <= x < w then y2 + 1 else r.y1) && y2 == Min(r.y2, h - 1)
    ensures Half(now, before, w, h, r, x + 1, r.y1)
  {
    forall k | 0 <= k < |now| ensures k % w < w && k / w < h {
      RowOf(k, w, h);
    }
  }

  lemma PixelStep(now: seq<Color>, before: seq<Color>, w: nat, h: nat, r: Rect, x: int, y: int)
    requires Half(now, before, w, h, r, x, y) && Inside(r, x, y) && 0 <= x < w && 0 <= y < h
    ensures 0 <= w * y + x < |now| && 0 <= (r.x2 - r.x1 + 1) * (y - r.y1) + (x - r.x1) < |r.color|
    ensures Half(now[w * y + x := r.color[(r.x2 - r.x1 + 1) * (y - r.y1) + (x - r.x1)]], before, w, h, r, x, y + 1)
  {
    hide Drawn;
    var i := w * y + x;
    PixelIndex(r, x, y);
    PlaceOf(w, h, x, y);
    DrawnAt(before, w, r, i);
    forall k | 0 <= k < |now| && k != i ensures k % w != x || k / w != y {
      RowOf(k, w, h);
    }
  }

  lemma DrawnAt(s: seq<Color>, w: nat, r: Rect, k: nat)
    requires 0 < w && RectOk(r) && k < |s|
    ensures Drawn(s, w, r)[k] == if Inside(r, k % w, k / w) then ColorAt(r, k % w, k / w) else s[k]
  {
  }

  lemma PlaceOf(w: nat, h: nat, x: int, y: int)
    requires 0 <= x < w && 0 <= y < h
    ensures 0 <= w * y + x < w * h && (w * y + x) / w == y && (w * y + x) % w == x
  {
    MulMono(0, y, w);
    MulMono(y + 1, h, w);
    assert (y + 1) * w == w * y + w;
    DivModUnique(w * y + x, w, y, x);
  }

  /** A pixel of the screen has its place in the rows of the rectangle, from the top left corner on,
      or stays as it was. */
  lemma DrawnPixel(s: seq<Color>, w: nat, h: nat, r: Rect, x: int, y: int)
    requires |s| == w * h && RectOk(r) && 0 <= x < w && 0 <= y < h
    ensures 0 <= w * y + x < |s|
    ensures if r.x1 <= x <= r.x2 && r.y1 <= y <= r.y2
            then var k := (r.x2 - r.x1 + 1) * (y - r.y1) + (x - r.x1);
              0 <= k < |r.color| && Drawn(s, w, r)[w * y + x] == r.color[k]
            else Drawn(s, w, r)[w * y + x] == s[w * y + x]
  {
    hide Drawn;
    PlaceOf(w, h, x, y);
    DrawnAt(s, w, r, w * y + x);
    if Inside(r, x, y) {
      PixelIndex(r, x, y);
    }
  }

  /** A picture of the size of the screen is what the screen shows after it was drawn. */
  lemma WholeScreen(s: seq<Color>, w: nat, h: nat, color: seq<Color>)
    requires 0 < w <= 0x7FFF && 0 < h <= 0x7FFF && |s| == |color| == w * h
    ensures RectOk(Rect(0, 0, w - 1, h - 1, color)) && Drawn(s, w, Rect(0, 0, w - 1, h - 1, color)) == color
  {
    hide Drawn;
    var r := Rect(0, 0, w - 1, h - 1, color);
    forall k | 0 <= k < w * h ensures Drawn(s, w, r)[k] == color[k] {
      RowOf(k, w, h);
      DrawnPixel(s, w, h, r, k % w, k / w);
    }
  }

  /** A rectangle touches the screen exactly when one of its pixels is on it. */
  lemma TouchesIff(r: Rect, w: nat, h: nat)
    requires 0 < w && 0 < h
    ensures Touches(r, w, h) <==> exists x, y :: 0 <= x < w && 0 <= y < h && Inside(r, x, y)
    ensures forall x, y :: Inside(r, x, y) <==> r.x1 <= x <= r.x2 && r.y1 <= y <= r.y2
  {
    if Touches(r, w, h) {
      assert Inside(r, Max(r.x1, 0), Max(r.y1, 0));
    }
  }

  lemma HalfIsDrawn(now: seq<Color>, before: seq<Color>, w: nat, h: nat, r: Rect)
    requires Half(now, before, w, h, r, r.x2 + 1, r.y1)
    ensures now == Drawn(before, w, r)
  {
    forall k | 0 <= k < |now| ensures now[k] == Drawn(before, w, r)[k] {
    }
  }
}
