/**
  What the framebuffer shows. `Memory` is the byte array of the driver, page by page;
  `Picture` is the same content as columns of pixels, row 0 on top.
 */
module Pictures {
  import opened Bits
  import opened Cyclic

  type Memory = seq<seq<bv8>>
  type Picture = seq<seq<bool>>

  ghost predicate Shaped(m: Memory, rows: nat, segs: nat) {
    |m| == rows && forall p :: 0 <= p < rows ==> |m[p]| == segs
  }

  ghost predicate Rectangular(pic: Picture, height: nat) {
    forall x :: 0 <= x < |pic| ==> |pic[x]| == height
  }

  /** A stored byte as seen by the viewer: a flipped display stores bytes upside down. */
  function Logical(b: bv8, flip: bool): bv8 {
    if flip then Reversed(b) else b
  }

  lemma PutInReversed(b: bv8, k: nat, on: bool)
    requires k < 8
    ensures PutBit(b, k, on) == PutBit(Reversed(b), k, on)
       <==> forall j :: 0 <= j < 8 && j != k ==> Bit(b, j) == Bit(b, 7 - j)
  {
    hide Bit, PutBit, Reversed;
    var was, want := PutBit(b, k, on), PutBit(Reversed(b), k, on);
    if forall j :: 0 <= j < 8 && j != k ==> Bit(b, j) == Bit(b, 7 - j) {
      forall j | 0 <= j < 8
        ensures Bit(was, j) == Bit(want, j)
      {
      }
      BitsDetermineByte(was, want);
    } else {
      var j :| 0 <= j < 8 && j != k && Bit(b, j) != Bit(b, 7 - j);
      assert Bit(was, j) == Bit(b, j);
      assert Bit(want, j) == Bit(b, 7 - j);
    }
  }

  /**
    `_ssd1306_pixel` on a flipped display sets the bit in the byte as stored and reverses the result. That
    paints the one pixel it should exactly when the seven other bits read the same from both ends.
   */
  lemma FlippedPixelExact(b: bv8, k: nat, on: bool)
    requires k < 8
    ensures Logical(Logical(PutBit(b, k, on), true), true) == PutBit(Logical(b, true), k, on)
       <==> forall j :: 0 <= j < 8 && j != k ==> Bit(b, j) == Bit(b, 7 - j)
  {
    hide Bit, PutBit, Reversed;
    ReversedInvolution(PutBit(b, k, on));
    PutInReversed(b, k, on);
  }

  predicate Lit(m: Memory, flip: bool, x: nat, y: nat)
    requires y / 8 < |m| && x < |m[y / 8]|
  {
    Bit(Logical(m[y / 8][x], flip), y % 8)
  }

  ghost function PictureOf(m: Memory, pages: nat, segs: nat, flip: bool): (pic: Picture)
    requires Shaped(m, |m|, segs) && pages <= |m|
    ensures |pic| == segs && Rectangular(pic, 8 * pages)
    ensures forall x, y :: 0 <= x < segs && 0 <= y < 8 * pages ==> pic[x][y] == Lit(m, flip, x, y)
  {
    seq(segs, x requires 0 <= x < segs => seq(8 * pages, y requires 0 <= y < 8 * pages => Lit(m, flip, x, y)))
  }

  /** No information is lost: two memories of one shape that show the same picture hold the same bytes. */
  lemma PictureDeterminesMemory(m: Memory, n: Memory, pages: nat, segs: nat, flip: bool)
    requires Shaped(m, pages, segs) && Shaped(n, pages, segs)
    requires PictureOf(m, pages, segs, flip) == PictureOf(n, pages, segs, flip)
    ensures m == n
  {
    forall p, x | 0 <= p < pages && 0 <= x < segs
      ensures m[p][x] == n[p][x]
    {
      var a, b := Logical(m[p][x], flip), Logical(n[p][x], flip);
      forall k | 0 <= k < 8
        ensures Bit(a, k) == Bit(b, k)
      {
        var y := 8 * p + k;
        assert PictureOf(m, pages, segs, flip)[x][y] == PictureOf(n, pages, segs, flip)[x][y];
        assert y / 8 == p && y % 8 == k;
      }
      BitsDetermineByte(a, b);
      ReversedInvolution(m[p][x]);
      ReversedInvolution(n[p][x]);
    }
    forall p | 0 <= p < pages
      ensures m[p] == n[p]
    {
    }
  }

  lemma SamePicture(a: Picture, b: Picture)
    requires |a| == |b| && forall x :: 0 <= x < |a| ==> |a[x]| == |b[x]|
    requires forall x, y :: 0 <= x < |a| && 0 <= y < |a[x]| ==> a[x][y] == b[x][y]
    ensures a == b
  {
    forall x | 0 <= x < |a|
      ensures a[x] == b[x]
    {
    }
  }

  // ----- Vertical scrolling

  /** Columns `first..last` rotated up by `n` rows. */
  function Scrolled(pic: Picture, first: int, last: int, n: nat): (r: Picture)
    requires forall x :: 0 <= x < |pic| ==> pic[x] != []
    ensures |r| == |pic|
  {
    seq(|pic|, x requires 0 <= x < |pic| => if first <= x <= last then Rot(pic[x], n) else pic[x])
  }

  lemma ScrolledAt(pic: Picture, first: int, last: int, n: nat, x: nat, y: nat)
    requires (forall c :: 0 <= c < |pic| ==> pic[c] != []) && x < |pic| && y < |pic[x]| && n <= |pic[x]|
    ensures var h := |pic[x]|;
            && |Scrolled(pic, first, last, n)[x]| == h
            && Scrolled(pic, first, last, n)[x][y]
            == pic[x][if !(first <= x <= last) then y else if y + n < h then y + n else y + n - h]
  {
    hide Rot;
    RotatedAt(pic[x], n, y);
  }

  lemma ScrolledAdd(pic: Picture, first: int, last: int, a: nat, b: nat)
    requires forall x :: 0 <= x < |pic| ==> pic[x] != []
    ensures Scrolled(Scrolled(pic, first, last, a), first, last, b) == Scrolled(pic, first, last, a + b)
  {
    forall x | 0 <= x < |pic|
      ensures Scrolled(Scrolled(pic, first, last, a), first, last, b)[x] == Scrolled(pic, first, last, a + b)[x]
    {
      RotAdd(pic[x], a, b);
    }
  }

  lemma ScrolledByNothing(pic: Picture, first: int, last: int, n: nat)
    requires forall x :: 0 <= x < |pic| ==> pic[x] != [] && Rot(pic[x], n) == pic[x]
    ensures Scrolled(pic, first, last, n) == pic
  {
    forall x | 0 <= x < |pic|
      ensures Scrolled(pic, first, last, n)[x] == pic[x]
    {
    }
  }

  /** Rotating by as many rows as there are brings every column back. */
  lemma FullTurn(pic: Picture, first: int, last: int, height: nat)
    requires height > 0 && Rectangular(pic, height)
    ensures Scrolled(pic, first, last, height) == pic
  {
    forall x | 0 <= x < |pic|
      ensures Rot(pic[x], height) == pic[x]
    {
      RotCycle(pic[x], 1);
    }
    ScrolledByNothing(pic, first, last, height);
  }

  /** Scrolling the same columns up and down undo each other, in either order. */
  lemma UpDownInverse(pic: Picture, first: int, last: int, height: nat)
    requires height > 0 && Rectangular(pic, height)
    ensures Scrolled(Scrolled(pic, first, last, 1), first, last, height - 1) == pic
    ensures Scrolled(Scrolled(pic, first, last, height - 1), first, last, 1) == pic
  {
    hide Scrolled;
    ScrolledAdd(pic, first, last, 1, height - 1);
    ScrolledAdd(pic, first, last, height - 1, 1);
    FullTurn(pic, first, last, height);
  }

  // ----- Horizontal scrolling

  /** Rows `lo..hi-1` of column `c` replaced by those of column `d`. */
  function Spliced(c: seq<bool>, d: seq<bool>, lo: nat, hi: nat): (r: seq<bool>)
    requires lo <= hi <= |c| == |d|
    ensures |r| == |c|
    ensures forall y :: 0 <= y < |c| ==> r[y] == if lo <= y < hi then d[y] else c[y]
  {
    c[..lo] + d[lo..hi] + c[hi..]
  }

  /** Rows `lo..hi-1` of the whole picture moved left by `n` columns, wrapping round. */
  function Panned(pic: Picture, height: nat, lo: nat, hi: nat, n: nat): (r: Picture)
    requires Rectangular(pic, height) && lo <= hi <= height
    ensures |r| == |pic| && Rectangular(r, height)
  {
    seq(|pic|, x requires 0 <= x < |pic| => Spliced(pic[x], Rot(pic, n)[x], lo, hi))
  }

  lemma PannedAt(pic: Picture, height: nat, lo: nat, hi: nat, n: nat, x: nat, y: nat)
    requires Rectangular(pic, height) && lo <= hi <= height && x < |pic| && y < height && n <= |pic|
    ensures Panned(pic, height, lo, hi, n)[x][y]
         == pic[if !(lo <= y < hi) then x else if x + n < |pic| then x + n else x + n - |pic|][y]
  {
    hide Rot;
    RotatedAt(pic, n, x);
  }

  lemma PannedAdd(pic: Picture, height: nat, lo: nat, hi: nat, a: nat, b: nat)
    requires Rectangular(pic, height) && lo <= hi <= height
    ensures Panned(Panned(pic, height, lo, hi, a), height, lo, hi, b) == Panned(pic, height, lo, hi, a + b)
  {
    var p := Panned(pic, height, lo, hi, a);
    forall x | 0 <= x < |pic|
      ensures Panned(p, height, lo, hi, b)[x] == Panned(pic, height, lo, hi, a + b)[x]
    {
      RotIndex(p, b, x);
      RotAdd(pic, a, b);
      RotIndex(Rot(pic, a), b, x);
    }
  }

  lemma PannedByNothing(pic: Picture, height: nat, lo: nat, hi: nat, n: nat)
    requires pic != [] && Rectangular(pic, height) && lo <= hi <= height
    requires Rot(pic, n) == pic
    ensures Panned(pic, height, lo, hi, n) == pic
  {
    forall x | 0 <= x < |pic|
      ensures Panned(pic, height, lo, hi, n)[x] == pic[x]
    {
    }
  }

  /** LEFT undoes RIGHT and RIGHT undoes LEFT on any band of rows. */
  lemma LeftRightInverse(pic: Picture, height: nat, lo: nat, hi: nat)
    requires pic != [] && Rectangular(pic, height) && lo <= hi <= height
    ensures Panned(Panned(pic, height, lo, hi, 1), height, lo, hi, |pic| - 1) == pic
    ensures Panned(Panned(pic, height, lo, hi, |pic| - 1), height, lo, hi, 1) == pic
  {
    hide Panned, Rot;
    PannedAdd(pic, height, lo, hi, 1, |pic| - 1);
    PannedAdd(pic, height, lo, hi, |pic| - 1, 1);
    RotCycle(pic, 1);
    PannedByNothing(pic, height, lo, hi, |pic|);
  }

  /** Over the whole screen, vertical and horizontal scrolling commute. */
  lemma VerticalHorizontalCommute(pic: Picture, height: nat, v: nat, h: nat)
    requires pic != [] && height > 0 && Rectangular(pic, height)
    ensures Panned(Scrolled(pic, 0, |pic| - 1, v), height, 0, height, h)
         == Scrolled(Panned(pic, height, 0, height, h), 0, |pic| - 1, v)
  {
    var up := Scrolled(pic, 0, |pic| - 1, v);
    var pan := Panned(pic, height, 0, height, h);
    forall x | 0 <= x < |pic|
      ensures Panned(up, height, 0, height, h)[x] == Scrolled(pan, 0, |pic| - 1, v)[x]
    {
      RotIndex(up, h, x);
      RotIndex(pic, h, x);
      assert pan[x] == pic[(x + h) % |pic|];
      assert Panned(up, height, 0, height, h)[x] == up[(x + h) % |pic|];
    }
  }

  // ----- Conservation

  function LitPixels(pic: Picture): nat {
    if pic == [] then 0 else Count(pic[0]) + LitPixels(pic[1..])
  }

  lemma {:induction false} LitPixelsColumnwise(a: Picture, b: Picture)
    requires |a| == |b| && forall x :: 0 <= x < |a| ==> Count(a[x]) == Count(b[x])
    ensures LitPixels(a) == LitPixels(b)
  {
    if a != [] {
      LitPixelsColumnwise(a[1..], b[1..]);
    }
  }

  /** Vertical scrolling neither lights nor loses a pixel. */
  lemma ScrolledConserves(pic: Picture, first: int, last: int, n: nat)
    requires forall x :: 0 <= x < |pic| ==> pic[x] != []
    ensures LitPixels(Scrolled(pic, first, last, n)) == LitPixels(pic)
  {
    forall x | 0 <= x < |pic|
      ensures Count(Scrolled(pic, first, last, n)[x]) == Count(pic[x])
    {
      CountRot(pic[x], n);
    }
    LitPixelsColumnwise(Scrolled(pic, first, last, n), pic);
  }

  /** Rows `lo..hi-1` only. */
  function Band(pic: Picture, height: nat, lo: nat, hi: nat): (r: Picture)
    requires Rectangular(pic, height) && lo <= hi <= height
    ensures |r| == |pic|
  {
    seq(|pic|, x requires 0 <= x < |pic| => pic[x][lo..hi])
  }

  lemma {:induction false} LitPixelsConcat(a: Picture, b: Picture)
    ensures LitPixels(a + b) == LitPixels(a) + LitPixels(b)
  {
    if a == [] {
      assert a + b == b;
    } else {
      assert (a + b)[1..] == a[1..] + b;
      LitPixelsConcat(a[1..], b);
    }
  }

  lemma LitPixelsRot(pic: Picture, n: nat)
    requires pic != []
    ensures LitPixels(Rot(pic, n)) == LitPixels(pic)
  {
    var k := n % |pic|;
    LitPixelsConcat(pic[k..], pic[..k]);
    LitPixelsConcat(pic[..k], pic[k..]);
    assert pic == pic[..k] + pic[k..];
  }

  lemma BandTail(pic: Picture, height: nat, lo: nat, hi: nat)
    requires pic != [] && Rectangular(pic, height) && lo <= hi <= height
    ensures LitPixels(Band(pic, height, lo, hi)) == Count(pic[0][lo..hi]) + LitPixels(Band(pic[1..], height, lo, hi))
  {
    assert Band(pic, height, lo, hi)[1..] == Band(pic[1..], height, lo, hi);
  }

  lemma CountByBands(c: seq<bool>, lo: nat, hi: nat)
    requires lo <= hi <= |c|
    ensures Count(c) == Count(c[0..lo]) + Count(c[lo..hi]) + Count(c[hi..|c|])
  {
    hide Count;
    CountConcat(c[0..lo], c[lo..hi]);
    CountConcat(c[0..lo] + c[lo..hi], c[hi..|c|]);
    assert c == c[0..lo] + c[lo..hi] + c[hi..|c|];
  }

  lemma {:induction false} LitPixelsByBands(pic: Picture, height: nat, lo: nat, hi: nat)
    requires Rectangular(pic, height) && lo <= hi <= height
    ensures LitPixels(pic) == LitPixels(Band(pic, height, 0, lo)) + LitPixels(Band(pic, height, lo, hi))
                            + LitPixels(Band(pic, height, hi, height))
  {
    if pic != [] {
      CountByBands(pic[0], lo, hi);
      BandTail(pic, height, 0, lo);
      BandTail(pic, height, lo, hi);
      BandTail(pic, height, hi, height);
      LitPixelsByBands(pic[1..], height, lo, hi);
    }
  }

  lemma PannedOutsideBand(pic: Picture, height: nat, lo: nat, hi: nat, n: nat, from: nat, to: nat)
    requires Rectangular(pic, height) && lo <= hi <= height && from <= to <= height
    requires to <= lo || hi <= from
    ensures Band(Panned(pic, height, lo, hi, n), height, from, to) == Band(pic, height, from, to)
  {
    var r := Panned(pic, height, lo, hi, n);
    forall x | 0 <= x < |pic|
      ensures r[x][from..to] == pic[x][from..to]
    {
    }
  }

  lemma PannedInsideBand(pic: Picture, height: nat, lo: nat, hi: nat, n: nat)
    requires pic != [] && Rectangular(pic, height) && lo <= hi <= height
    ensures Band(Panned(pic, height, lo, hi, n), height, lo, hi) == Rot(Band(pic, height, lo, hi), n)
  {
    var r, b := Panned(pic, height, lo, hi, n), Band(pic, height, lo, hi);
    forall x | 0 <= x < |pic|
      ensures r[x][lo..hi] == Rot(b, n)[x]
    {
      RotIndex(pic, n, x);
      RotIndex(b, n, x);
    }
  }

  /** Horizontal scrolling of any band of rows neither lights nor loses a pixel. */
  lemma PannedConserves(pic: Picture, height: nat, lo: nat, hi: nat, n: nat)
    requires pic != [] && Rectangular(pic, height) && lo <= hi <= height
    ensures LitPixels(Panned(pic, height, lo, hi, n)) == LitPixels(pic)
  {
    LitPixelsByBands(pic, height, lo, hi);
    LitPixelsByBands(Panned(pic, height, lo, hi, n), height, lo, hi);
    PannedOutsideBand(pic, height, lo, hi, n, 0, lo);
    PannedOutsideBand(pic, height, lo, hi, n, hi, height);
    PannedInsideBand(pic, height, lo, hi, n);
    LitPixelsRot(Band(pic, height, lo, hi), n);
  }
}
