/** What the scroll loops do to the bytes of the buffer, and what that looks like on the screen. */
module PageScroll {
  import opened Bits
  import opened Cyclic
  import opened Pictures

  /** One row of a scroll up: each selected byte takes in the top pixel of the byte below it. */
  function RowUp(row: seq<bv8>, below: seq<bv8>, flip: bool, first: int, last: int): (r: seq<bv8>)
    requires |below| == |row|
    ensures |r| == |row|
  {
    seq(|row|, x requires 0 <= x < |row| =>
      if first <= x <= last then Logical(ScrolledUp(Logical(row[x], flip), Logical(below[x], flip)), flip) else row[x])
  }

  function RowDown(row: seq<bv8>, above: seq<bv8>, flip: bool, first: int, last: int): (r: seq<bv8>)
    requires |above| == |row|
    ensures |r| == |row|
  {
    seq(|row|, x requires 0 <= x < |row| =>
      if first <= x <= last then Logical(ScrolledDown(Logical(row[x], flip), Logical(above[x], flip)), flip)
      else row[x])
  }

  lemma LogicalTwice(b: bv8, flip: bool)
    ensures Logical(Logical(b, flip), flip) == b
  {
    ReversedInvolution(b);
  }

  lemma NextRow(y: nat, pages: nat)
    requires y < 8 * pages
    ensures var y' := (y + 1) % (8 * pages);
            if y % 8 < 7 then y' / 8 == y / 8 && y' % 8 == y % 8 + 1
            else y' / 8 == (if y / 8 + 1 < pages then y / 8 + 1 else 0) && y' % 8 == 0
  {
    if y + 1 == 8 * pages {
      ModUnique(y + 1, 1, 0, 8 * pages);
    } else {
      ModUnique(y + 1, 0, y + 1, 8 * pages);
    }
  }

  lemma RowUpPixel(m: Memory, n: Memory, pages: nat, segs: nat, flip: bool, first: int, last: int, x: nat, y: nat)
    requires pages > 0 && Shaped(m, |m|, segs) && Shaped(n, |m|, segs) && pages <= |m| && x < segs && y < 8 * pages
    requires forall p :: 0 <= p < pages ==>
               n[p] == RowUp(m[p], m[if p + 1 < pages then p + 1 else 0], flip, first, last)
    ensures Lit(n, flip, x, y) == Lit(m, flip, x, if first <= x <= last then (y + 1) % (8 * pages) else y)
  {
    hide Bit, ScrolledUp;
    var p, k := y / 8, y % 8;
    var below := if p + 1 < pages then p + 1 else 0;
    if first <= x <= last {
      var up := ScrolledUp(Logical(m[p][x], flip), Logical(m[below][x], flip));
      LogicalTwice(up, flip);
      assert n[p][x] == Logical(up, flip);
      NextRow(y, pages);
      var y' := (y + 1) % (8 * pages);
      assert Lit(n, flip, x, y) == Bit(up, k);
      assert Lit(m, flip, x, y') == Bit(Logical(m[y' / 8][x], flip), y' % 8);
      assert Bit(up, k) == if k < 7 then Bit(Logical(m[p][x], flip), k + 1) else Bit(Logical(m[below][x], flip), 0);
      assert Lit(n, flip, x, y) == Lit(m, flip, x, y');
    } else {
      assert n[p] == RowUp(m[p], m[below], flip, first, last);
      assert n[p][x] == m[p][x];
    }
  }

  /** The page-by-page loop of SCROLL_UP rotates each selected column up by one pixel. */
  lemma UpShows(m: Memory, n: Memory, pages: nat, segs: nat, flip: bool, first: int, last: int)
    requires pages > 0 && Shaped(m, |m|, segs) && Shaped(n, |m|, segs) && pages <= |m|
    requires forall p :: 0 <= p < pages ==>
               n[p] == RowUp(m[p], m[if p + 1 < pages then p + 1 else 0], flip, first, last)
    ensures PictureOf(n, pages, segs, flip) == Scrolled(PictureOf(m, pages, segs, flip), first, last, 1)
  {
    hide Lit, RowUp, Rot;
    var before, after := PictureOf(m, pages, segs, flip), PictureOf(n, pages, segs, flip);
    var rolled := Scrolled(before, first, last, 1);
    forall x, y | 0 <= x < segs && 0 <= y < 8 * pages
      ensures after[x][y] == rolled[x][y]
    {
      RowUpPixel(m, n, pages, segs, flip, first, last, x, y);
      RotIndex(before[x], 1, y);
    }
    SamePicture(after, rolled);
  }

  lemma PreviousRow(y: nat, pages: nat)
    requires y < 8 * pages
    ensures var y' := (y + (8 * pages - 1)) % (8 * pages);
            if y % 8 > 0 then y' / 8 == y / 8 && y' % 8 == y % 8 - 1
            else y' / 8 == (if y / 8 > 0 then y / 8 - 1 else pages - 1) && y' % 8 == 7
  {
    if y == 0 {
      ModUnique(8 * pages - 1, 0, 8 * pages - 1, 8 * pages);
    } else {
      ModUnique(y + (8 * pages - 1), 1, y - 1, 8 * pages);
    }
  }

  lemma RowDownPixel(m: Memory, n: Memory, pages: nat, segs: nat, flip: bool, first: int, last: int, x: nat, y: nat)
    requires pages > 0 && Shaped(m, |m|, segs) && Shaped(n, |m|, segs) && pages <= |m| && x < segs && y < 8 * pages
    requires forall p :: 0 <= p < pages ==>
               n[p] == RowDown(m[p], m[if p > 0 then p - 1 else pages - 1], flip, first, last)
    ensures Lit(n, flip, x, y) == Lit(m, flip, x, if first <= x <= last then (y + (8 * pages - 1)) % (8 * pages) else y)
  {
    hide Bit, ScrolledDown;
    var p, k := y / 8, y % 8;
    var above := if p > 0 then p - 1 else pages - 1;
    if first <= x <= last {
      var down := ScrolledDown(Logical(m[p][x], flip), Logical(m[above][x], flip));
      LogicalTwice(down, flip);
      assert n[p][x] == Logical(down, flip);
      PreviousRow(y, pages);
      var y' := (y + (8 * pages - 1)) % (8 * pages);
      assert Lit(n, flip, x, y) == Bit(down, k);
      assert Lit(m, flip, x, y') == Bit(Logical(m[y' / 8][x], flip), y' % 8);
      assert Bit(down, k) == if k > 0 then Bit(Logical(m[p][x], flip), k - 1) else Bit(Logical(m[above][x], flip), 7);
      assert Lit(n, flip, x, y) == Lit(m, flip, x, y');
    } else {
      assert n[p] == RowDown(m[p], m[above], flip, first, last);
      assert n[p][x] == m[p][x];
    }
  }

  /** The page-by-page loop of SCROLL_DOWN rotates each selected column down by one pixel. */
  lemma DownShows(m: Memory, n: Memory, pages: nat, segs: nat, flip: bool, first: int, last: int)
    requires pages > 0 && Shaped(m, |m|, segs) && Shaped(n, |m|, segs) && pages <= |m|
    requires forall p :: 0 <= p < pages ==>
               n[p] == RowDown(m[p], m[if p > 0 then p - 1 else pages - 1], flip, first, last)
    ensures PictureOf(n, pages, segs, flip) == Scrolled(PictureOf(m, pages, segs, flip), first, last, 8 * pages - 1)
  {
    hide Lit, RowDown, Rot;
    var before, after := PictureOf(m, pages, segs, flip), PictureOf(n, pages, segs, flip);
    var rolled := Scrolled(before, first, last, 8 * pages - 1);
    forall x, y | 0 <= x < segs && 0 <= y < 8 * pages
      ensures after[x][y] == rolled[x][y]
    {
      RowDownPixel(m, n, pages, segs, flip, first, last, x, y);
      RotIndex(before[x], 8 * pages - 1, y);
    }
    SamePicture(after, rolled);
  }

  /** Row `y` moved by whole pages. */
  lemma WholePages(y: nat, pages: nat, k: nat)
    requires y < 8 * pages && k < pages
    ensures var y' := (y + 8 * k) % (8 * pages);
            y' / 8 == (if y / 8 + k < pages then y / 8 + k else y / 8 + k - pages) && y' % 8 == y % 8
  {
    if y / 8 + k < pages {
      ModUnique(y + 8 * k, 0, y + 8 * k, 8 * pages);
    } else {
      ModUnique(y + 8 * k, 1, y + 8 * k - 8 * pages, 8 * pages);
    }
  }

  /** Moving whole pages round by `k` scrolls every column by `8 * k` pixels. */
  lemma PagesShow(m: Memory, n: Memory, pages: nat, segs: nat, flip: bool, k: nat)
    requires k < pages && Shaped(m, |m|, segs) && Shaped(n, |m|, segs) && pages <= |m|
    requires forall p :: 0 <= p < pages ==> n[p] == m[if p + k < pages then p + k else p + k - pages]
    ensures PictureOf(n, pages, segs, flip) == Scrolled(PictureOf(m, pages, segs, flip), 0, segs - 1, 8 * k)
  {
    hide Rot, Logical, Bit;
    var before, after := PictureOf(m, pages, segs, flip), PictureOf(n, pages, segs, flip);
    var rolled := Scrolled(before, 0, segs - 1, 8 * k);
    forall x, y | 0 <= x < segs && 0 <= y < 8 * pages
      ensures after[x][y] == rolled[x][y]
    {
      WholePages(y, pages, k);
      RotIndex(before[x], 8 * k, y);
      var y' := (y + 8 * k) % (8 * pages);
      assert Lit(n, flip, x, y) == Lit(m, flip, x, y');
    }
    SamePicture(after, rolled);
  }

  function BandEnd(first: nat, last: int): (hi: nat)
    ensures first <= last ==> hi == 8 * (last + 1)
    ensures first > last ==> hi == 0
  {
    if first <= last then 8 * (last + 1) else 0
  }

  /** The rows of pages `first..last`, none if there are no such pages. */
  function BandStart(first: nat, last: int): (lo: nat)
    ensures lo <= BandEnd(first, last)
  {
    if first <= last then 8 * first else 0
  }

  /** The rows of pages `first..last`. */
  lemma RowInBand(first: nat, last: int, y: nat)
    ensures BandStart(first, last) <= y < BandEnd(first, last) <==> 8 * first <= y < 8 * (last + 1)
  {
  }

  lemma RowsPixel(m: Memory, n: Memory, pages: nat, segs: nat, flip: bool, first: nat, last: int, k: nat,
                  x: nat, y: nat, from: nat)
    requires Shaped(m, |m|, segs) && Shaped(n, |m|, segs) && pages <= |m| && last < pages
    requires forall p :: 0 <= p < pages ==> n[p] == if first <= p <= last && segs > 0 then Rot(m[p], k) else m[p]
    requires x < segs && y < 8 * pages && from < segs && Rot(m[y / 8], k)[x] == m[y / 8][from]
    ensures Lit(n, flip, x, y)
         == Lit(m, flip, if BandStart(first, last) <= y < BandEnd(first, last) then from else x, y)
  {
    hide Rot, Logical, Bit;
    assert first <= y / 8 <= last <==> BandStart(first, last) <= y < BandEnd(first, last);
  }

  /** Rotating the bytes of pages `first..last` pans the band of rows they hold. */
  lemma RowsShow(m: Memory, n: Memory, pages: nat, segs: nat, flip: bool, first: nat, last: int, k: nat)
    requires segs > 0 && Shaped(m, |m|, segs) && Shaped(n, |m|, segs) && pages <= |m| && last < pages
    requires forall p :: 0 <= p < pages ==> n[p] == if first <= p <= last then Rot(m[p], k) else m[p]
    ensures PictureOf(n, pages, segs, flip)
         == Panned(PictureOf(m, pages, segs, flip), 8 * pages, BandStart(first, last), BandEnd(first, last), k)
  {
    hide Rot, Lit, BandStart, BandEnd;
    var before, after := PictureOf(m, pages, segs, flip), PictureOf(n, pages, segs, flip);
    var panned := Panned(before, 8 * pages, BandStart(first, last), BandEnd(first, last), k);
    forall x, y | 0 <= x < segs && 0 <= y < 8 * pages
      ensures after[x][y] == panned[x][y]
    {
      var from := (x + k) % segs;
      RotIndex(before, k, x);
      RotIndex(m[y / 8], k, x);
      RowsPixel(m, n, pages, segs, flip, first, last, k, x, y, from);
      assert before[from][y] == Lit(m, flip, from, y);
    }
    SamePicture(after, panned);
  }

  // ----- Rows in the middle of a move

  /** Bytes above `seg` already moved one place to the right. */
  function MovedRight(row: seq<bv8>, seg: nat): (r: seq<bv8>)
    requires seg < |row|
    ensures |r| == |row|
  {
    row[..seg + 1] + row[seg..|row| - 1]
  }

  lemma RightStart(row: seq<bv8>)
    requires row != []
    ensures MovedRight(row, |row| - 1) == row
  {
  }

  lemma RightStep(row: seq<bv8>, seg: nat)
    requires 0 < seg < |row|
    ensures MovedRight(row, seg)[seg := MovedRight(row, seg)[seg - 1]] == MovedRight(row, seg - 1)
  {
  }

  lemma RightEnd(row: seq<bv8>)
    requires row != []
    ensures MovedRight(row, 0)[0 := row[|row| - 1]] == Rot(row, |row| - 1)
  {
    ModUnique(|row| - 1, 0, |row| - 1, |row|);
  }

  lemma RowUpNothing(row: seq<bv8>, below: seq<bv8>, flip: bool, start: nat)
    requires |row| == |below|
    ensures forall last :: last < start ==> RowUp(row, below, flip, start, last) == row
  {
  }

  lemma RowUpStep(row: seq<bv8>, below: seq<bv8>, flip: bool, start: nat, seg: nat)
    requires |row| == |below| && start <= seg < |row|
    ensures RowUp(row, below, flip, start, seg - 1)[seg] == row[seg]
    ensures RowUp(row, below, flip, start, seg - 1)
              [seg := Logical(ScrolledUp(Logical(row[seg], flip), Logical(below[seg], flip)), flip)]
         == RowUp(row, below, flip, start, seg)
  {
    hide Logical, ScrolledUp;
  }

  /** Bytes below `seg` already moved one place to the left. */
  function MovedLeft(row: seq<bv8>, seg: nat): (r: seq<bv8>)
    requires seg < |row|
    ensures |r| == |row|
  {
    row[1..seg + 1] + row[seg..]
  }

  lemma LeftStart(row: seq<bv8>)
    requires row != []
    ensures MovedLeft(row, 0) == row
  {
  }

  lemma LeftStep(row: seq<bv8>, seg: nat)
    requires seg + 1 < |row|
    ensures MovedLeft(row, seg)[seg := MovedLeft(row, seg)[seg + 1]] == MovedLeft(row, seg + 1)
  {
  }

  lemma RotOne(row: seq<bv8>)
    requires row != []
    ensures Rot(row, 1) == row[1..] + [row[0]]
  {
    if |row| > 1 {
      ModUnique(1, 0, 1, |row|);
    } else {
      ModUnique(1, 1, 0, |row|);
    }
  }

  lemma LeftEnd(row: seq<bv8>)
    requires row != []
    ensures MovedLeft(row, |row| - 1)[|row| - 1 := row[0]] == Rot(row, 1)
  {
    RotOne(row);
  }

  lemma RowDownNothing(row: seq<bv8>, above: seq<bv8>, flip: bool, start: nat)
    requires |row| == |above|
    ensures forall last :: last < start ==> RowDown(row, above, flip, start, last) == row
  {
  }

  lemma RowDownStep(row: seq<bv8>, above: seq<bv8>, flip: bool, start: nat, seg: nat)
    requires |row| == |above| && start <= seg < |row|
    ensures RowDown(row, above, flip, start, seg - 1)[seg] == row[seg]
    ensures RowDown(row, above, flip, start, seg - 1)
              [seg := Logical(ScrolledDown(Logical(row[seg], flip), Logical(above[seg], flip)), flip)]
         == RowDown(row, above, flip, start, seg)
  {
    hide Logical, ScrolledDown;
  }

  /** The first `n` bytes of `src` over `dst`. */
  function Copied(src: seq<bv8>, dst: seq<bv8>, n: nat): (r: seq<bv8>)
    requires |src| == |dst| && n <= |src|
    ensures |r| == |src|
  {
    src[..n] + dst[n..]
  }

  lemma CopyStart(src: seq<bv8>, dst: seq<bv8>)
    requires |src| == |dst|
    ensures Copied(src, dst, 0) == dst && Copied(src, dst, |src|) == src
  {
  }

  lemma CopyStep(src: seq<bv8>, dst: seq<bv8>, n: nat)
    requires |src| == |dst| && n < |src|
    ensures Copied(src, dst, n)[n := src[n]] == Copied(src, dst, n + 1)
  {
  }

  // ----- Pages in the middle of a move

  /** Pages beyond `page` already hold the page above them. */
  function PartlyDown(m: Memory, page: nat, pages: nat): (r: Memory)
    ensures |r| == |m|
    ensures forall q :: 0 <= q < |m| ==> r[q] == if page < q < pages then m[q - 1] else m[q]
  {
    seq(|m|, q requires 0 <= q < |m| => if page < q < pages then m[q - 1] else m[q])
  }

  lemma PartlyDownStart(m: Memory, pages: nat)
    requires 0 < pages <= |m|
    ensures PartlyDown(m, pages - 1, pages) == m
  {
  }

  lemma PartlyDownStep(m: Memory, page: nat, pages: nat)
    requires 0 < page < pages <= |m|
    ensures PartlyDown(m, page, pages)[page := PartlyDown(m, page, pages)[page - 1]] == PartlyDown(m, page - 1, pages)
  {
  }

  /** Pages before `page` already hold the page below them. */
  function PartlyUp(m: Memory, page: nat): (r: Memory)
    requires page < |m|
    ensures |r| == |m|
    ensures forall q :: 0 <= q < |m| ==> r[q] == if q < page then m[q + 1] else m[q]
  {
    seq(|m|, q requires 0 <= q < |m| => if q < page then m[q + 1] else m[q])
  }

  lemma PartlyUpStart(m: Memory)
    requires m != []
    ensures PartlyUp(m, 0) == m
  {
  }

  lemma PartlyUpStep(m: Memory, page: nat)
    requires page + 1 < |m|
    ensures PartlyUp(m, page)[page := PartlyUp(m, page)[page + 1]] == PartlyUp(m, page + 1)
  {
  }
}
