/** Pictures with a set of pixels switched on or off, and the byte update that does it one pixel at a time. */
module Drawing {
  import opened Bits
  import opened Lines
  import opened Pictures

  function Painted(pic: Picture, pts: set<Point>, on: bool): (r: Picture)
    ensures |r| == |pic| && forall x :: 0 <= x < |pic| ==> |r[x]| == |pic[x]|
    ensures forall x, y :: 0 <= x < |pic| && 0 <= y < |pic[x]| ==>
              r[x][y] == if Point(x, y) in pts then on else pic[x][y]
  {
    seq(|pic|, x requires 0 <= x < |pic| =>
      seq(|pic[x]|, y requires 0 <= y < |pic[x]| => if Point(x, y) in pts then on else pic[x][y]))
  }

  lemma PaintedUnion(pic: Picture, s: set<Point>, t: set<Point>, on: bool)
    ensures Painted(Painted(pic, s, on), t, on) == Painted(pic, s + t, on)
  {
    SamePicture(Painted(Painted(pic, s, on), t, on), Painted(pic, s + t, on));
  }

  lemma PaintedNothing(pic: Picture, on: bool)
    ensures Painted(pic, {}, on) == pic
  {
    SamePicture(Painted(pic, {}, on), pic);
  }

  /** Replacing one byte so that one of its logical bits is forced paints exactly that pixel. */
  lemma PutBitPaints(m: Memory, pages: nat, segs: nat, flip: bool, x: nat, y: nat, on: bool, b: bv8)
    requires Shaped(m, |m|, segs) && pages <= |m| && x < segs && y < 8 * pages
    requires Logical(b, flip) == PutBit(Logical(m[y / 8][x], flip), y % 8, on)
    ensures Shaped(m[y / 8 := m[y / 8][x := b]], |m|, segs)
    ensures PictureOf(m[y / 8 := m[y / 8][x := b]], pages, segs, flip)
         == Painted(PictureOf(m, pages, segs, flip), {Point(x, y)}, on)
  {
    var n := m[y / 8 := m[y / 8][x := b]];
    var after := PictureOf(n, pages, segs, flip);
    var painted := Painted(PictureOf(m, pages, segs, flip), {Point(x, y)}, on);
    forall x', y' | 0 <= x' < segs && 0 <= y' < 8 * pages
      ensures after[x'][y'] == painted[x'][y']
    {
      assert after[x'][y'] == Lit(n, flip, x', y');
      if x' == x && y' / 8 == y / 8 {
        assert y' % 8 == y % 8 ==> y' == y;
      }
    }
    SamePicture(after, painted);
  }

  // ----- Pixel after pixel, on flipped displays too

  /** The row at the other end of the block of eight rows. */
  function Opposite(y: nat): (r: nat)
    ensures forall height: nat :: y < 8 * height ==> r < 8 * height
  {
    8 * (y / 8) + 7 - y % 8
  }

  /** The block of eight pixels around `p` turned upside down. */
  function BlockTurned(pic: Picture, p: Point): (r: Picture)
    ensures |r| == |pic| && forall x :: 0 <= x < |pic| ==> |r[x]| == |pic[x]|
  {
    seq(|pic|, x requires 0 <= x < |pic| =>
      seq(|pic[x]|, y requires 0 <= y < |pic[x]| =>
        if x == p.x && y / 8 == p.y / 8 && Opposite(y) < |pic[x]| then pic[x][Opposite(y)] else pic[x][y]))
  }

  /** What `_ssd1306_pixel` does to the screen: on a flipped display it turns the block before it paints. */
  function PlottedOne(pic: Picture, p: Point, on: bool, flip: bool): (r: Picture)
    ensures |r| == |pic| && forall x :: 0 <= x < |pic| ==> |r[x]| == |pic[x]|
  {
    Painted(if flip then BlockTurned(pic, p) else pic, {p}, on)
  }

  lemma UnflippedPlot(pic: Picture, p: Point, on: bool)
    ensures PlottedOne(pic, p, on, false) == Painted(pic, {p}, on)
  {
  }

  /** Pixels plotted one after the other. */
  function Plotted(pic: Picture, path: seq<Point>, on: bool, flip: bool): (r: Picture)
    ensures |r| == |pic| && forall x :: 0 <= x < |pic| ==> |r[x]| == |pic[x]|
  {
    if path == [] then pic else PlottedOne(Plotted(pic, path[..|path| - 1], on, flip), path[|path| - 1], on, flip)
  }

  lemma PlottedNext(pic: Picture, path: seq<Point>, p: Point, on: bool, flip: bool)
    ensures Plotted(pic, path + [p], on, flip) == PlottedOne(Plotted(pic, path, on, flip), p, on, flip)
  {
    assert (path + [p])[..|path|] == path;
  }

  lemma PlottedTwo(pic: Picture, a: Point, b: Point, on: bool, flip: bool)
    ensures Plotted(pic, [a, b], on, flip) == PlottedOne(PlottedOne(pic, a, on, flip), b, on, flip)
  {
    hide PlottedOne;
    assert [a, b][..1] == [a] && [a][..0] == [];
    assert Plotted(pic, [a], on, flip) == PlottedOne(pic, a, on, flip);
  }

  lemma {:induction false} PlottedConcat(pic: Picture, a: seq<Point>, b: seq<Point>, on: bool, flip: bool)
    ensures Plotted(pic, a + b, on, flip) == Plotted(Plotted(pic, a, on, flip), b, on, flip)
  {
    hide PlottedOne;
    if b == [] {
      assert a + b == a;
    } else {
      assert (a + b)[..|a + b| - 1] == a + b[..|b| - 1];
      PlottedConcat(pic, a, b[..|b| - 1], on, flip);
    }
  }

  /** On an unflipped display only the set of pixels matters, not their order or number. */
  lemma {:induction false} PlottedUnflipped(pic: Picture, path: seq<Point>, on: bool)
    ensures Plotted(pic, path, on, false) == Painted(pic, Points(path), on)
  {
    hide Painted;
    if path == [] {
      assert Points(path) == {};
      PaintedNothing(pic, on);
    } else {
      var init, p := path[..|path| - 1], path[|path| - 1];
      PlottedUnflipped(pic, init, on);
      PaintedUnion(pic, Points(init), {p}, on);
      assert path == init + [p];
      assert Points(path) == Points(init) + {p};
    }
  }

  /** Apart from row `p.y` itself, the block around `p` reads the same from both ends. */
  ghost predicate Symmetric(pic: Picture, height: nat, p: Point)
    requires Rectangular(pic, 8 * height) && 0 <= p.x < |pic|
  {
    forall y :: 0 <= y < 8 * height && y / 8 == p.y / 8 && y != p.y ==> pic[p.x][y] == pic[p.x][Opposite(y)]
  }

  /**
    On a flipped display a plotted pixel is the pixel asked for, and no other, exactly when the rest of its
    block reads the same from both ends.
   */
  lemma FlippedPlotExact(pic: Picture, height: nat, p: Point, on: bool)
    requires Rectangular(pic, 8 * height) && 0 <= p.x < |pic| && 0 <= p.y < 8 * height
    ensures PlottedOne(pic, p, on, true) == Painted(pic, {p}, on) <==> Symmetric(pic, height, p)
  {
    var a, b := PlottedOne(pic, p, on, true), Painted(pic, {p}, on);
    forall y | 0 <= y < 8 * height
      ensures Opposite(y) < 8 * height
      ensures y / 8 == p.y / 8 && y != p.y ==> a[p.x][y] == pic[p.x][Opposite(y)] && b[p.x][y] == pic[p.x][y]
    {
    }
    if Symmetric(pic, height, p) {
      SamePicture(a, b);
    }
  }

  /** One pixel of the screen after a pixel write on a flipped display. */
  lemma FlippedPlotAt(pic: Picture, p: Point, on: bool, x: nat, y: nat)
    requires x < |pic| && y < |pic[x]| && Opposite(y) < |pic[x]|
    ensures PlottedOne(pic, p, on, true)[x][y]
         == if p == Point(x, y) then on
            else pic[x][if x == p.x && y / 8 == p.y / 8 then Opposite(y) else y]
  {
  }

  /** Two pixels of one column on a dark flipped display: the second turns the first away. */
  lemma FlippedPixelsClash()
    ensures var dark := [seq(8, _ => false)];
            Plotted(dark, [Point(0, 0), Point(0, 1)], true, true) != Painted(dark, {Point(0, 0), Point(0, 1)}, true)
  {
    var dark := [seq(8, _ => false)];
    var once := PlottedOne(dark, Point(0, 0), true, true);
    PlottedTwo(dark, Point(0, 0), Point(0, 1), true, true);
    FlippedPlotAt(dark, Point(0, 0), true, 0, 7);
    FlippedPlotAt(once, Point(0, 1), true, 0, 0);
    hide Plotted, PlottedOne;
    assert !PlottedOne(once, Point(0, 1), true, true)[0][0];
    assert Painted(dark, {Point(0, 0), Point(0, 1)}, true)[0][0];
  }

  lemma BlockIsTurned(m: Memory, pages: nat, segs: nat, x: nat, y: nat)
    requires Shaped(m, |m|, segs) && pages <= |m| && x < segs && y < 8 * pages
    ensures var n := m[y / 8 := m[y / 8][x := Reversed(m[y / 8][x])]];
            && Shaped(n, |m|, segs)
            && PictureOf(n, pages, segs, true) == BlockTurned(PictureOf(m, pages, segs, true), Point(x, y))
  {
    hide Bit;
    var n := m[y / 8 := m[y / 8][x := Reversed(m[y / 8][x])]];
    var a, b := PictureOf(n, pages, segs, true), BlockTurned(PictureOf(m, pages, segs, true), Point(x, y));
    forall x', y' | 0 <= x' < segs && 0 <= y' < 8 * pages
      ensures a[x'][y'] == b[x'][y']
    {
      assert a[x'][y'] == Lit(n, true, x', y');
      assert Opposite(y') / 8 == y' / 8 && Opposite(y') % 8 == 7 - y' % 8;
    }
    SamePicture(a, b);
  }

  /** The byte that `_ssd1306_pixel` stores on a flipped display. */
  lemma FlippedBytePlots(m: Memory, pages: nat, segs: nat, x: nat, y: nat, on: bool)
    requires Shaped(m, |m|, segs) && pages <= |m| && x < segs && y < 8 * pages
    ensures var n := m[y / 8 := m[y / 8][x := Reversed(PutBit(m[y / 8][x], y % 8, on))]];
            && Shaped(n, |m|, segs)
            && PictureOf(n, pages, segs, true) == PlottedOne(PictureOf(m, pages, segs, true), Point(x, y), on, true)
  {
    hide PutBit, Bit, Painted;
    var b := m[y / 8][x];
    var turned := m[y / 8 := m[y / 8][x := Reversed(b)]];
    var c := Reversed(PutBit(b, y % 8, on));
    BlockIsTurned(m, pages, segs, x, y);
    ReversedInvolution(b);
    ReversedInvolution(PutBit(b, y % 8, on));
    PutBitPaints(turned, pages, segs, true, x, y, on, c);
    assert m[y / 8][x := Reversed(b)][x := c] == m[y / 8][x := c];
    assert turned[y / 8 := turned[y / 8][x := c]] == m[y / 8 := m[y / 8][x := c]];
  }

  // ----- Bitmaps

  /** Row `y` overwritten from column `x0` on; what falls outside the picture is dropped. */
  function Stamped(pic: Picture, x0: nat, y: nat, bits: seq<bool>): (r: Picture)
    ensures |r| == |pic| && forall x :: 0 <= x < |pic| ==> |r[x]| == |pic[x]|
    ensures forall x, y' :: 0 <= x < |pic| && 0 <= y' < |pic[x]| ==>
              r[x][y'] == if y' == y && x0 <= x < x0 + |bits| then bits[x - x0] else pic[x][y']
  {
    seq(|pic|, x requires 0 <= x < |pic| =>
      seq(|pic[x]|, y' requires 0 <= y' < |pic[x]| =>
        if y' == y && x0 <= x < x0 + |bits| then bits[x - x0] else pic[x][y']))
  }

  lemma StampedConcat(pic: Picture, x0: nat, y: nat, a: seq<bool>, b: seq<bool>)
    ensures Stamped(Stamped(pic, x0, y, a), x0 + |a|, y, b) == Stamped(pic, x0, y, a + b)
    ensures Stamped(pic, x0, y, []) == pic
  {
    SamePicture(Stamped(Stamped(pic, x0, y, a), x0 + |a|, y, b), Stamped(pic, x0, y, a + b));
    SamePicture(Stamped(pic, x0, y, []), pic);
  }

  /** A pixel painted on the screen is a stamp of length one; off the screen a stamp does nothing. */
  lemma StampedOne(pic: Picture, x: nat, y: nat, on: bool)
    ensures Stamped(pic, x, y, [on]) == Painted(pic, {Point(x, y)}, on)
  {
    SamePicture(Stamped(pic, x, y, [on]), Painted(pic, {Point(x, y)}, on));
  }

  lemma StampedOff(pic: Picture, height: nat, x: nat, y: nat, bits: seq<bool>)
    requires Rectangular(pic, height) && (x >= |pic| || y >= height)
    ensures Stamped(pic, x, y, bits) == pic
  {
    SamePicture(Stamped(pic, x, y, bits), pic);
  }

  /** The pixels of one bitmap byte, most significant bit first. */
  function ByteBits(b: bv8, invert: bool): (s: seq<bool>)
    ensures |s| == 8
  {
    seq(8, i requires 0 <= i < 8 => Bit(b, 7 - i) != invert)
  }

  /** The pixels of `n` consecutive bitmap bytes. */
  function RowBits(bytes: seq<bv8>, invert: bool): (s: seq<bool>)
    ensures |s| == 8 * |bytes|
  {
    seq(8 * |bytes|, i requires 0 <= i < 8 * |bytes| => Bit(bytes[i / 8], 7 - i % 8) != invert)
  }

  lemma RowBitsNext(bytes: seq<bv8>, n: nat, invert: bool)
    requires n < |bytes|
    ensures RowBits(bytes[..n + 1], invert) == RowBits(bytes[..n], invert) + ByteBits(bytes[n], invert)
  {
    hide Bit;
    var a, b := RowBits(bytes[..n + 1], invert), RowBits(bytes[..n], invert) + ByteBits(bytes[n], invert);
    forall i | 0 <= i < 8 * (n + 1)
      ensures a[i] == b[i]
    {
      if i >= 8 * n {
        assert i / 8 == n && i % 8 == i - 8 * n;
      }
    }
  }

  /** Pixel column `c` of bitmap row `h`, for rows of `stride` bytes. */
  predicate BitmapPixel(bitmap: seq<bv8>, stride: nat, c: nat, h: nat)
    requires c < 8 * stride && (h + 1) * stride <= |bitmap|
  {
    assert h * stride + c / 8 < (h + 1) * stride;
    Bit(bitmap[h * stride + c / 8], 7 - c % 8)
  }

  lemma MulMonotone(a: nat, b: nat, m: nat)
    requires a <= b
    ensures a * m <= b * m
  {
    assert b * m == a * m + (b - a) * m;
  }

  lemma RowInBitmap(h: nat, rows: nat, stride: nat)
    requires h < rows
    ensures 0 <= h * stride && h * stride + stride == (h + 1) * stride <= rows * stride
  {
    MulMonotone(h + 1, rows, stride);
  }

  /** The first `rows` rows of a bitmap placed at (x0, y0). */
  function Blitted(pic: Picture, x0: nat, y0: nat, bitmap: seq<bv8>, stride: nat, rows: nat, invert: bool): (r: Picture)
    requires rows * stride <= |bitmap|
    ensures |r| == |pic| && forall x :: 0 <= x < |pic| ==> |r[x]| == |pic[x]|
  {
    seq(|pic|, x requires 0 <= x < |pic| =>
      seq(|pic[x]|, y requires 0 <= y < |pic[x]| =>
        if x0 <= x < x0 + 8 * stride && y0 <= y < y0 + rows then
          RowInBitmap(y - y0, rows, stride);
          BitmapPixel(bitmap, stride, x - x0, y - y0) != invert
        else pic[x][y]))
  }

  lemma RowPixel(bitmap: seq<bv8>, stride: nat, h: nat, c: nat, invert: bool)
    requires c < 8 * stride && (h + 1) * stride <= |bitmap|
    ensures 0 <= h * stride <= h * stride + stride <= |bitmap|
    ensures RowBits(bitmap[h * stride..h * stride + stride], invert)[c] == (BitmapPixel(bitmap, stride, c, h) != invert)
  {
    hide Bit;
    RowInBitmap(h, h + 1, stride);
  }

  lemma BlittedNext(pic: Picture, x0: nat, y0: nat, bitmap: seq<bv8>, stride: nat, h: nat, invert: bool)
    requires (h + 1) * stride <= |bitmap|
    ensures 0 <= h * stride <= h * stride + stride <= |bitmap|
    ensures Stamped(Blitted(pic, x0, y0, bitmap, stride, h, invert), x0, y0 + h,
                    RowBits(bitmap[h * stride..h * stride + stride], invert))
         == Blitted(pic, x0, y0, bitmap, stride, h + 1, invert)
  {
    hide BitmapPixel, RowBits;
    RowInBitmap(h, h + 1, stride);
    var bytes := bitmap[h * stride..h * stride + stride];
    var before := Blitted(pic, x0, y0, bitmap, stride, h, invert);
    var after := Blitted(pic, x0, y0, bitmap, stride, h + 1, invert);
    var a := Stamped(before, x0, y0 + h, RowBits(bytes, invert));
    forall x, y | 0 <= x < |pic| && 0 <= y < |pic[x]|
      ensures a[x][y] == after[x][y]
    {
      if x0 <= x < x0 + 8 * stride && y == y0 + h {
        RowPixel(bitmap, stride, h, x - x0, invert);
        assert y - y0 == h;
        assert after[x][y] == (BitmapPixel(bitmap, stride, x - x0, y - y0) != invert);
      } else {
        assert a[x][y] == before[x][y];
      }
    }
    SamePicture(a, after);
  }

  lemma BlittedNothing(pic: Picture, x0: nat, y0: nat, bitmap: seq<bv8>, stride: nat, invert: bool)
    ensures Blitted(pic, x0, y0, bitmap, stride, 0, invert) == pic
  {
    SamePicture(Blitted(pic, x0, y0, bitmap, stride, 0, invert), pic);
  }

  lemma BitmapPixelIs(bitmap: seq<bv8>, stride: nat, c: nat, h: nat)
    requires c < 8 * stride && (h + 1) * stride <= |bitmap|
    ensures 0 <= h * stride + c / 8 < |bitmap|
    ensures BitmapPixel(bitmap, stride, c, h) == Bit(bitmap[h * stride + c / 8], 7 - c % 8)
  {
    hide Bit;
    RowInBitmap(h, h + 1, stride);
    assert c / 8 < stride;
  }

  /** A bitmap on the picture, pixel by pixel. */
  lemma BlittedPixel(pic: Picture, x0: nat, y0: nat, bitmap: seq<bv8>, stride: nat, rows: nat, invert: bool,
                     x: nat, y: nat)
    requires rows * stride <= |bitmap| && x < |pic| && y < |pic[x]|
    ensures x0 <= x < x0 + 8 * stride && y0 <= y < y0 + rows ==>
              var c, h := x - x0, y - y0;
              && 0 <= h * stride + c / 8 < |bitmap|
              && Blitted(pic, x0, y0, bitmap, stride, rows, invert)[x][y]
                 == (Bit(bitmap[h * stride + c / 8], 7 - c % 8) != invert)
    ensures !(x0 <= x < x0 + 8 * stride && y0 <= y < y0 + rows) ==>
              Blitted(pic, x0, y0, bitmap, stride, rows, invert)[x][y] == pic[x][y]
  {
    hide Bit, BitmapPixel;
    if x0 <= x < x0 + 8 * stride && y0 <= y < y0 + rows {
      var c, h := x - x0, y - y0;
      RowInBitmap(h, rows, stride);
      BitmapPixelIs(bitmap, stride, c, h);
    }
  }

  /** As many rows as a byte can number pages for. */
  const ROWS := 2048

  /** Row after row of a bitmap, row numbers taken modulo 2048. */
  function StampedRows(pic: Picture, x0: nat, y0: nat, bitmap: seq<bv8>, stride: nat, rows: nat,
                       invert: bool): (r: Picture)
    requires rows * stride <= |bitmap|
    ensures |r| == |pic| && forall x :: 0 <= x < |pic| ==> |r[x]| == |pic[x]|
    decreases rows
  {
    if rows == 0 then pic
    else
      RowInBitmap(rows - 1, rows, stride);
      Stamped(StampedRows(pic, x0, y0, bitmap, stride, rows - 1, invert), x0, (y0 + rows - 1) % ROWS,
              RowBits(bitmap[(rows - 1) * stride..(rows - 1) * stride + stride], invert))
  }

  lemma StampedRowsNone(pic: Picture, x0: nat, y0: nat, bitmap: seq<bv8>, stride: nat, invert: bool)
    ensures StampedRows(pic, x0, y0, bitmap, stride, 0, invert) == pic
  {
  }

  lemma StampedRowsNext(pic: Picture, x0: nat, y0: nat, bitmap: seq<bv8>, stride: nat, h: nat, invert: bool)
    requires (h + 1) * stride <= |bitmap|
    ensures 0 <= h * stride <= h * stride + stride <= |bitmap|
    ensures Stamped(StampedRows(pic, x0, y0, bitmap, stride, h, invert), x0, (y0 + h) % ROWS,
                    RowBits(bitmap[h * stride..h * stride + stride], invert))
         == StampedRows(pic, x0, y0, bitmap, stride, h + 1, invert)
  {
    hide Stamped, RowBits;
    RowInBitmap(h, h + 1, stride);
  }

  /** As long as no row number wraps, the rows together are the bitmap at its place. */
  lemma {:induction false} StampedRowsAreBlitted(pic: Picture, x0: nat, y0: nat, bitmap: seq<bv8>, stride: nat,
                                                 rows: nat, invert: bool)
    requires rows * stride <= |bitmap| && y0 + rows <= ROWS
    ensures StampedRows(pic, x0, y0, bitmap, stride, rows, invert) == Blitted(pic, x0, y0, bitmap, stride, rows, invert)
    decreases rows
  {
    hide Stamped, StampedRows, RowBits, Blitted;
    if rows == 0 {
      StampedRowsNone(pic, x0, y0, bitmap, stride, invert);
      BlittedNothing(pic, x0, y0, bitmap, stride, invert);
    } else {
      StampedRowsNext(pic, x0, y0, bitmap, stride, rows - 1, invert);
      RowInBitmap(rows - 1, rows, stride);
      StampedRowsAreBlitted(pic, x0, y0, bitmap, stride, rows - 1, invert);
      BlittedNext(pic, x0, y0, bitmap, stride, rows - 1, invert);
    }
  }

  /** A row number as page and bit. */
  lemma RowStarts(y: int)
    ensures 8 * (y / 8 % 256) + y % 8 == y % ROWS
  {
  }

  lemma PageOfRow(y0: nat, h: nat, rows: nat, page: nat, bit: nat)
    requires h < rows && y0 + rows <= ROWS && bit < 8 && 8 * page + bit == (y0 + h) % ROWS
    ensures y0 / 8 <= page <= (y0 + rows - 1) / 8
  {
    assert (y0 + h) % ROWS == y0 + h;
    assert y0 / 8 <= (y0 + h) / 8 <= (y0 + rows - 1) / 8;
  }

  lemma RowAdvances(y: nat, page: nat, bit: nat)
    requires page < 256 && bit < 8 && 8 * page + bit == y % ROWS
    ensures var (p, b) := if bit + 1 == 8 then ((page + 1) % 256, 0) else (page, bit + 1);
            8 * p + b == (y + 1) % ROWS
  {
  }
}
