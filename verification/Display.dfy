/**
  The SSD1306 driver object: its page buffer, the panel behind the wire, and the operations that draw into
  the one and show on the other.
 */
module Display {
  import opened Bits
  import opened Cyclic
  import opened Pictures
  import opened Drawing
  import opened PageScroll
  import opened Lines
  import opened Circles
  import opened Glyphs
  import opened Panel
  import opened Mirror

  datatype Transport = NewI2c | LegacyI2c(address: bv8) | Spi

  /** One call of `ssd1306_display_image`, as a record. */
  datatype Shown = Shown(page: nat, seg: nat, data: seq<bv8>)

  datatype Scroll = ScrollRight | ScrollLeft | ScrollDown | ScrollUp | PageScrollDown | PageScrollUp | ScrollStop

  /** What a call can change of the driver itself: the buffer and the scroll range. */
  datatype View = View(mem: Memory, scEnable: bool, scStart: int, scEnd: int)

  /** A call into the driver, with its arguments. */
  datatype Call =
    | Image(page: nat, seg: nat, images: seq<bv8>)
    | Text(page: nat, text: seq<nat>, textLen: int, invert: bool)
    | TextBox1(page: nat, seg: nat, text: seq<nat>, boxWidth: nat, textLen: int, invert: bool)
    | TextBox2(page: nat, seg: nat, text: seq<nat>, boxWidth: nat, textLen: int, invert: bool)
    | TextX3(page: nat, text: seq<nat>, textLen: int, invert: bool)
    | Bitmap(xpos: nat, ypos: nat, bitmap: seq<bv8>, w: nat, height: nat, invert: bool)
    | ArmScroll(start: int, end: int)
    | ScrollLine(text: seq<nat>, textLen: int, invert: bool)
    | Wrap(scroll: Scroll, first: nat, last: int, delay: int)
    | ShowAll
    | SetPixel(xpos: nat, ypos: nat, invert: bool)
    | DrawLine(x1: int, y1: int, x2: int, y2: int, invert: bool)
    | DrawCircle(x0: int, y0: int, r: nat, opt: bv32, invert: bool)
    | DrawDisc(x0: int, y0: int, r: nat, opt: bv32, invert: bool)

  /** Two memories agree outside columns `x0..x1-1` of pages `p0..p1`. */
  ghost predicate Outside(m: Memory, n: Memory, x0: int, x1: int, p0: int, p1: int)
    requires |m| == |n| && forall p :: 0 <= p < |m| ==> |m[p]| == |n[p]|
  {
    forall p, x :: 0 <= p < |m| && 0 <= x < |m[p]| && !(x0 <= x < x1 && p0 <= p <= p1) ==> n[p][x] == m[p][x]
  }

  lemma OutsideNothing(m: Memory, x0: int, x1: int, p0: int, p1: int)
    ensures Outside(m, m, x0, x1, p0, p1)
  {
  }

  /** The page of row -1 is taken for page 0 by a division that truncates. */
  lemma OutsideWider(m: Memory, n: Memory, x0: int, x1: int, p0: int, p1: int)
    requires |m| == |n| && forall p :: 0 <= p < |m| ==> |m[p]| == |n[p]|
    requires Outside(m, n, x0, x1, p0, p1) && p1 >= -1
    ensures Outside(m, n, x0, x1, p0, if p1 < 0 then 0 else p1)
  {
  }

  /** The last page that a bitmap touches; for an empty one at the top, page 0, since division truncates in C. */
  function LastPage(ypos: nat, height: nat): nat {
    if ypos + height == 0 then 0 else (ypos + height - 1) / 8
  }

  /** A bitmap touches nothing outside its columns and the pages up to its last one. */
  lemma BitmapOutside(m: Memory, n: Memory, xpos: nat, ypos: nat, w: nat, height: nat)
    requires |m| == |n| && forall p :: 0 <= p < |m| ==> |m[p]| == |n[p]|
    requires m == n || Outside(m, n, xpos, xpos + w, ypos / 8, (ypos + height - 1) / 8)
    ensures Outside(m, n, xpos, xpos + w - 1 + 1, ypos / 8, LastPage(ypos, height))
  {
    if m == n {
      OutsideNothing(m, xpos, xpos + w, ypos / 8, LastPage(ypos, height));
    } else {
      OutsideWider(m, n, xpos, xpos + w, ypos / 8, (ypos + height - 1) / 8);
    }
  }

  lemma OutsideGrows(m: Memory, n: Memory, r: Memory, x0: int, x1: int, p0: int, p1: int, p: int)
    requires |m| == |n| == |r| && forall p :: 0 <= p < |m| ==> |m[p]| == |n[p]| == |r[p]|
    requires Outside(m, n, x0, x1, p0, p1) && Outside(n, r, x0, x1, p, p) && p0 <= p <= p1
    ensures Outside(m, r, x0, x1, p0, p1)
  {
  }

  ghost predicate KeepsUp(seg: nat, x: int, segs: nat) {
    seg == x || (seg >= segs && x >= segs)
  }

  /** The effect of one scroll step on the screen. */
  function Wrapped(pic: Picture, scroll: Scroll, pages: nat, width: nat, start: nat, end: int): (r: Picture)
    requires pages > 0 && width > 0 && Rectangular(pic, 8 * pages)
    ensures |r| == |pic|
  {
    var lastPage := if end >= pages then pages - 1 else end;
    var lastColumn := if end >= width then width - 1 else end;
    match scroll
    case ScrollRight =>
      Panned(pic, 8 * pages, BandStart(start, lastPage), BandEnd(start, lastPage), if pic == [] then 0 else |pic| - 1)
    case ScrollLeft => Panned(pic, 8 * pages, BandStart(start, lastPage), BandEnd(start, lastPage), 1)
    case ScrollUp => Scrolled(pic, start, lastColumn, 1)
    case ScrollDown => Scrolled(pic, start, lastColumn, 8 * pages - 1)
    case PageScrollUp => Scrolled(pic, 0, |pic| - 1, if pages > 1 then 8 else 0)
    case PageScrollDown => Scrolled(pic, 0, |pic| - 1, 8 * (pages - 1))
    case ScrollStop => pic
  }

  /**
    Every kind of scroll, pixel by pixel: where the pixel at (x, y) was before. The horizontal kinds move the
    rows of pages `start..end`, the vertical ones the visible columns `start..end`, the page kinds everything.
   */
  lemma WrappedPixel(pic: Picture, scroll: Scroll, pages: nat, width: nat, start: nat, end: int, x: nat, y: nat)
    requires pages > 0 && width > 0 && Rectangular(pic, 8 * pages) && x < |pic| && y < 8 * pages
    ensures |Wrapped(pic, scroll, pages, width, start, end)[x]| == 8 * pages
    ensures Wrapped(pic, scroll, pages, width, start, end)[x][y] ==
            match scroll
            case ScrollRight =>
              if 8 * start <= y < 8 * (end + 1) then pic[if x > 0 then x - 1 else |pic| - 1][y] else pic[x][y]
            case ScrollLeft =>
              if 8 * start <= y < 8 * (end + 1) then pic[if x + 1 < |pic| then x + 1 else 0][y] else pic[x][y]
            case ScrollUp =>
              if start <= x <= end && x < width then pic[x][if y + 1 < 8 * pages then y + 1 else 0] else pic[x][y]
            case ScrollDown =>
              if start <= x <= end && x < width then pic[x][if y > 0 then y - 1 else 8 * pages - 1] else pic[x][y]
            case PageScrollUp => pic[x][if y + 8 < 8 * pages then y + 8 else y + 8 - 8 * pages]
            case PageScrollDown => pic[x][if y >= 8 then y - 8 else y - 8 + 8 * pages]
            case ScrollStop => pic[x][y]
  {
    hide Rot, Scrolled, Panned, BandStart;
    var lastPage := if end >= pages then pages - 1 else end;
    var lastColumn := if end >= width then width - 1 else end;
    var lo, hi := BandStart(start, lastPage), BandEnd(start, lastPage);
    RowInBand(start, lastPage, y);
    assert 8 * start <= y < 8 * (lastPage + 1) <==> 8 * start <= y < 8 * (end + 1);
    match scroll {
      case ScrollRight => PannedAt(pic, 8 * pages, lo, hi, |pic| - 1, x, y);
      case ScrollLeft => PannedAt(pic, 8 * pages, lo, hi, 1, x, y);
      case ScrollUp => ScrolledAt(pic, start, lastColumn, 1, x, y);
      case ScrollDown => ScrolledAt(pic, start, lastColumn, 8 * pages - 1, x, y);
      case PageScrollUp => ScrolledAt(pic, 0, |pic| - 1, if pages > 1 then 8 else 0, x, y);
      case PageScrollDown => ScrolledAt(pic, 0, |pic| - 1, 8 * (pages - 1), x, y);
      case ScrollStop =>
    }
  }

  function ScrollDirection(start: int, end: int): int {
    if start > end then -1 else 1
  }

  lemma WholeRow(row: seq<bv8>, data: seq<bv8>)
    requires |row| == |data|
    ensures Overwritten(row, 0, data) == data
  {
  }

  /** Every page after the start of the range, up to its end, holds what its predecessor held. */
  function RangeScrolled(m: Memory, width: nat, start: nat, end: nat): (r: Memory)
    requires start < |m| && end < |m| && forall p :: 0 <= p < |m| ==> |m[p]| == |m[start]| && width <= |m[p]|
    ensures |r| == |m|
  {
    seq(|m|, p requires 0 <= p < |m| =>
      if start < p <= end then Copied(m[p - 1], m[p], width)
      else if end <= p < start then Copied(m[p + 1], m[p], width)
      else m[p])
  }

  /**
    A scrolled range byte by byte: the visible part of every page after the start comes from the page before it
    in the direction of the scroll, everything else stays.
   */
  lemma RangeScrolledAt(m: Memory, width: nat, start: nat, end: nat, p: nat, x: nat)
    requires start < |m| && end < |m| && (forall q :: 0 <= q < |m| ==> |m[q]| == |m[start]| && width <= |m[q]|)
    requires p < |m| && x < |m[p]|
    ensures |RangeScrolled(m, width, start, end)[p]| == |m[p]|
    ensures RangeScrolled(m, width, start, end)[p][x] ==
            if x < width && start < p <= end then m[p - 1][x]
            else if x < width && end <= p < start then m[p + 1][x]
            else m[p][x]
  {
  }

  /** The source pages the loop visits: the range without its end. */
  ghost predicate InLoop(start: int, end: int, src: int) {
    start <= src < end || end < src <= start
  }

  /** Page `p` when the pages beyond the destination of `src` have already moved on. */
  function PageAfter(m: Memory, width: nat, start: nat, end: nat, src: int, p: nat): seq<bv8>
    requires start < |m| && end < |m| && p < |m|
    requires forall q :: 0 <= q < |m| ==> |m[q]| == |m[start]| && width <= |m[q]|
  {
    if start < p <= end && src + 1 < p then Copied(m[p - 1], m[p], width)
    else if end <= p < start && p < src - 1 then Copied(m[p + 1], m[p], width)
    else m[p]
  }

  function PartlyScrolled(m: Memory, width: nat, start: nat, end: nat, src: int): (r: Memory)
    requires start < |m| && end < |m| && forall p :: 0 <= p < |m| ==> |m[p]| == |m[start]| && width <= |m[p]|
    ensures |r| == |m|
  {
    seq(|m|, p requires 0 <= p < |m| => PageAfter(m, width, start, end, src, p))
  }

  lemma PartlyScrolledStart(m: Memory, width: nat, start: nat, end: nat)
    requires start < |m| && end < |m| && start != end
    requires forall p :: 0 <= p < |m| ==> |m[p]| == |m[start]| && width <= |m[p]|
    ensures PartlyScrolled(m, width, start, end, end - ScrollDirection(start, end)) == m
  {
  }

  lemma PageAfterStep(m: Memory, width: nat, start: nat, end: nat, src: nat, p: nat)
    requires start < |m| && end < |m| && InLoop(start, end, src) && p < |m|
    requires forall p :: 0 <= p < |m| ==> |m[p]| == |m[start]| && width <= |m[p]|
    ensures var d := ScrollDirection(start, end);
            && 0 <= src + d < |m|
            && PageAfter(m, width, start, end, src, src) == m[src]
            && PageAfter(m, width, start, end, src, src + d) == m[src + d]
            && PageAfter(m, width, start, end, src - d, p)
            == if p == src + d then Copied(m[src], m[src + d], width) else PageAfter(m, width, start, end, src, p)
  {
    hide Copied;
  }

  lemma PartlyScrolledStep(m: Memory, width: nat, start: nat, end: nat, src: nat)
    requires start < |m| && end < |m| && InLoop(start, end, src)
    requires forall p :: 0 <= p < |m| ==> |m[p]| == |m[start]| && width <= |m[p]|
    ensures var d, part := ScrollDirection(start, end), PartlyScrolled(m, width, start, end, src);
            && 0 <= src + d < |m| && part[src] == m[src] && part[src + d] == m[src + d]
            && part[src + d := Copied(m[src], m[src + d], width)] == PartlyScrolled(m, width, start, end, src - d)
  {
    hide Copied, PageAfter;
    var d, part := ScrollDirection(start, end), PartlyScrolled(m, width, start, end, src);
    var moved := part[src + d := Copied(m[src], m[src + d], width)];
    var next := PartlyScrolled(m, width, start, end, src - d);
    PageAfterStep(m, width, start, end, src, src);
    PageAfterStep(m, width, start, end, src, src + d);
    forall p | 0 <= p < |m|
      ensures moved[p] == next[p]
    {
      PageAfterStep(m, width, start, end, src, p);
    }
  }

  lemma PartlyScrolledEnd(m: Memory, width: nat, start: nat, end: nat)
    requires start < |m| && end < |m| && start != end
    requires forall p :: 0 <= p < |m| ==> |m[p]| == |m[start]| && width <= |m[p]|
    ensures PartlyScrolled(m, width, start, end, start - ScrollDirection(start, end))
         == RangeScrolled(m, width, start, end)
  {
    hide Copied;
  }

  /** The source page of turn `k` of the scroll loop, if it gets that far. */
  function SourceIndex(start: int, end: int, k: nat): int {
    if k == 0 then end - ScrollDirection(start, end) else SourceIndex(start, end, k - 1) - ScrollDirection(start, end)
  }

  /** Three consecutive pages overwritten from column `seg` on. */
  function ThreeRows(m: Memory, page: nat, seg: nat, a: seq<bv8>, b: seq<bv8>, c: seq<bv8>): (r: Memory)
    requires page + 2 < |m| && |a| == |b| == |c|
    requires seg + |a| <= |m[page]| && seg + |a| <= |m[page + 1]| && seg + |a| <= |m[page + 2]|
    ensures |r| == |m|
  {
    m[page := Overwritten(m[page], seg, a)]
     [page + 1 := Overwritten(m[page + 1], seg, b)]
     [page + 2 := Overwritten(m[page + 2], seg, c)]
  }

  /** A line of enlarged characters over the left part of three pages. */
  function EnlargedRows(m: Memory, page: nat, font: Font, text: seq<nat>, invert: bool, flip: bool): (r: Memory)
    requires page + 2 < |m| && IsFont(font) && Printable(font, text)
    requires 24 * |text| <= |m[page]| && 24 * |text| <= |m[page + 1]| && 24 * |text| <= |m[page + 2]|
    ensures |r| == |m| && forall p :: 0 <= p < |m| ==> |r[p]| == |m[p]|
  {
    ThreeRows(m, page, 0, TripledStrip(font, text, 0, invert, flip),
              TripledStrip(font, text, 1, invert, flip), TripledStrip(font, text, 2, invert, flip))
  }

  lemma EnlargedStart(m: Memory, page: nat, font: Font, text: seq<nat>, invert: bool, flip: bool)
    requires page + 2 < |m| && IsFont(font) && Printable(font, text)
    ensures EnlargedRows(m, page, font, text[..0], invert, flip) == m
  {
    OverwrittenAgain(m[page], 0, [], []);
    OverwrittenAgain(m[page + 1], 0, [], []);
    OverwrittenAgain(m[page + 2], 0, [], []);
  }

  lemma EnlargedNext(m: Memory, page: nat, font: Font, text: seq<nat>, nn: nat, invert: bool, flip: bool)
    requires page + 2 < |m| && IsFont(font) && Printable(font, text) && nn < |text|
    requires 24 * (nn + 1) <= |m[page]| && 24 * (nn + 1) <= |m[page + 1]| && 24 * (nn + 1) <= |m[page + 2]|
    ensures ThreeRows(EnlargedRows(m, page, font, text[..nn], invert, flip), page, 24 * nn,
                      Shaded(TripledImage(font[text[nn]], 0), invert, flip),
                      Shaded(TripledImage(font[text[nn]], 1), invert, flip),
                      Shaded(TripledImage(font[text[nn]], 2), invert, flip))
         == EnlargedRows(m, page, font, text[..nn + 1], invert, flip)
  {
    hide Overwritten, Shaded, TripledImage, TripledStrip;
    forall part | 0 <= part < 3
      ensures TripledStrip(font, text[..nn + 1], part, invert, flip)
           == TripledStrip(font, text[..nn], part, invert, flip)
            + Shaded(TripledImage(font[text[nn]], part), invert, flip)
      ensures Overwritten(Overwritten(m[page + part], 0, TripledStrip(font, text[..nn], part, invert, flip)), 24 * nn,
                          Shaded(TripledImage(font[text[nn]], part), invert, flip))
           == Overwritten(m[page + part], 0, TripledStrip(font, text[..nn + 1], part, invert, flip))
    {
      TripledStripNext(font, text, nn, part, invert, flip);
      OverwrittenTwice(m[page + part], 0, TripledStrip(font, text[..nn], part, invert, flip),
                       Shaded(TripledImage(font[text[nn]], part), invert, flip));
    }
  }

  lemma RowBitsNone(invert: bool)
    ensures RowBits([], invert) == []
  {
  }

  /** The bytes that follow a row in memory. */
  function Beyond(n: nat, beyond: nat -> bv8): (s: seq<bv8>)
    ensures |s| == n
  {
    seq(n, beyond)
  }

  /** `n` bytes of a row from column `seg` on, and on past its end. */
  function PartOf(row: seq<bv8>, seg: nat, n: nat, beyond: nat -> bv8): (s: seq<bv8>)
    requires seg <= |row|
    ensures |s| == n
  {
    if seg + n <= |row| then row[seg..seg + n] else row[seg..] + Beyond(seg + n - |row|, beyond)
  }

  lemma PartInRow(row: seq<bv8>, seg: nat, end: nat, beyond: nat -> bv8)
    requires seg <= end <= |row|
    ensures PartOf(row, seg, end - seg, beyond) == row[seg..end]
  {
  }

  lemma PartPastRow(row: seq<bv8>, seg: nat, end: nat, beyond: nat -> bv8)
    requires seg <= |row| <= end
    ensures PartOf(row, seg, end - seg, beyond) == row[seg..|row|] + Beyond(end - |row|, beyond)
  {
  }

  /** An image within the row: memory and pointers of the panel afterwards. */
  lemma ShownByPart(was: Panel, pages: nat, width: nat, flip: bool, page: nat, seg: nat, part: seq<bv8>)
    requires was.Valid() && pages <= PAGES && page < pages && seg < width && seg < COLUMNS && seg + |part| <= COLUMNS
    ensures var q := BySpi(was, PanelPage(page, pages, flip), seg, part);
            && q.ram == ImageShown(was.ram, pages, width, flip, page, seg, part)
            && q.page == PanelPage(page, pages, flip) && q.col == (seg + |part|) % COLUMNS
  {
    hide Stream, ImageCommands;
    TransportsAgree(was, 0, PanelPage(page, pages, flip), seg, part);
    ImageCommandsAddress(was, PanelPage(page, pages, flip), seg);
    DataStreamEnds(was.(page := PanelPage(page, pages, flip), col := seg), part);
  }

  /** The buffer as far as it has been shown again: new content on pages `from..to-1`, old content elsewhere. */
  ghost function PartlyShown(m: Memory, n: Memory, from: nat, to: nat): (r: Memory)
    requires |m| == |n|
    ensures |r| == |m|
  {
    seq(|m|, p requires 0 <= p < |m| => if from <= p < to then n[p] else m[p])
  }

  lemma RegionStart(m: Memory, n: Memory, startPage: nat)
    requires |m| == |n|
    ensures PartlyShown(m, n, startPage, startPage) == m
  {
  }

  lemma RegionRow(m: Memory, n: Memory, xpos: nat, endSeg: int, startPage: nat, endPage: int,
                  page: nat, segStart: nat, segEnd: int, images: seq<bv8>)
    requires |m| == |n| && startPage <= page <= endPage && page < |m|
    requires forall p :: 0 <= p < |m| ==> |m[p]| == |n[p]|
    requires Outside(m, n, xpos, endSeg + 1, startPage, endPage)
    requires segStart <= xpos && endSeg <= segEnd < |n[page]| && segStart - 1 <= segEnd
    requires images == n[page][segStart..segEnd + 1]
    ensures PartlyShown(m, n, startPage, page + 1)
         == var r := PartlyShown(m, n, startPage, page); r[page := Overwritten(r[page], segStart, images)]
    ensures n[page := Overwritten(n[page], segStart, images)] == n
  {
    assert Overwritten(m[page], segStart, images) == n[page];
    assert Overwritten(n[page], segStart, images) == n[page];
  }

  /** An image that is not sent had nothing visible to show. */
  lemma UnseenPart(ram: seq<seq<bv8>>, m: Memory, n: Memory, pages: nat, width: nat, flip: bool,
                   xpos: nat, endSeg: int, startPage: nat, endPage: int, page: nat)
    requires |m| == |n| && pages <= |m| && pages <= |ram|
    requires forall p :: 0 <= p < |m| ==> width <= |m[p]| == |n[p]|
    requires forall p :: 0 <= p < |ram| ==> width <= |ram[p]|
    requires Outside(m, n, xpos, endSeg + 1, startPage, endPage) && startPage <= page
    requires page >= pages || (page == startPage && xpos >= width)
    requires Mirrors(ram, PartlyShown(m, n, startPage, page), pages, width, flip)
    ensures Mirrors(ram, PartlyShown(m, n, startPage, page + 1), pages, width, flip)
  {
    hide PanelPage;
    var a, b := PartlyShown(m, n, startPage, page), PartlyShown(m, n, startPage, page + 1);
    forall p, x | 0 <= p < pages && 0 <= x < width
      ensures b[p][x] == a[p][x]
    {
    }
  }

  lemma OutsideClipped(m: Memory, n: Memory, xpos: nat, endSeg: int, startPage: nat, endPage: int, segs: nat)
    requires |m| == |n| && forall p :: 0 <= p < |m| ==> |m[p]| == |n[p]| == segs
    requires Outside(m, n, xpos, endSeg + 1, startPage, endPage)
    ensures Outside(m, n, xpos, (if endSeg < segs then endSeg else segs - 1) + 1, startPage, endPage)
  {
  }

  /** An image of the refresh loop, as far as it lies within its row, shows one more page. */
  lemma InRowPart(was: Panel, m: Memory, n: Memory, pages: nat, width: nat, flip: bool, segs: nat,
                  xpos: nat, endSeg: int, startPage: nat, endPage: int, page: nat, segStart: nat, last: int)
    requires was.Valid() && Shaped(m, |m|, segs) && Shaped(n, |m|, segs) && pages <= |m| && pages <= PAGES
    requires width <= segs <= COLUMNS && startPage <= page <= endPage && page < pages && segStart < width
    requires segStart <= xpos && segStart - 1 <= last < segs && (endSeg <= last || last == segs - 1)
    requires Outside(m, n, xpos, endSeg + 1, startPage, endPage)
    requires Mirrors(was.ram, PartlyShown(m, n, startPage, page), pages, width, flip)
    ensures var q := BySpi(was, PanelPage(page, pages, flip), segStart, n[page][segStart..last + 1]);
            && Mirrors(q.ram, PartlyShown(m, n, startPage, page + 1), pages, width, flip)
            && q.page == PanelPage(page, pages, flip) && q.col == (last + 1) % COLUMNS
  {
    hide Overwritten, ImageShown, BySpi, Mirrors, Outside;
    var part := n[page][segStart..last + 1];
    OutsideClipped(m, n, xpos, endSeg, startPage, endPage, segs);
    RegionRow(m, n, xpos, if endSeg < last then endSeg else last, startPage, endPage, page, segStart, last, part);
    MirrorKept(was.ram, PartlyShown(m, n, startPage, page), pages, width, flip, page, segStart, part);
    ShownByPart(was, pages, width, flip, page, segStart, part);
  }

  lemma RegionEnd(m: Memory, n: Memory, xpos: nat, endSeg: int, startPage: nat, endPage: int, page: nat)
    requires |m| == |n| && startPage <= page && endPage < page
    requires forall p :: 0 <= p < |m| ==> |m[p]| == |n[p]|
    requires Outside(m, n, xpos, endSeg + 1, startPage, endPage)
    ensures PartlyShown(m, n, startPage, page) == n
  {
    forall p | 0 <= p < |m|
      ensures PartlyShown(m, n, startPage, page)[p] == n[p]
    {
    }
  }

  lemma CopyBitPuts(src: bv8, srcBits: nat, dst: bv8, dstBits: nat)
    requires srcBits < 8 && dstBits < 8
    ensures CopyBit(src, srcBits, dst, dstBits) == PutBit(dst, dstBits, Bit(src, srcBits))
  {
    hide PutBit;
  }

  lemma BitOfByte(byte: bv8, invert: bool, k: nat)
    requires k < 8
    ensures Bit(if invert then Invert(byte) else byte, k) == ByteBits(byte, invert)[7 - k]
  {
    hide Bit;
  }

  /** Once the row or the screen has ended, the remaining pixels of the byte fall off it. */
  lemma StampedRest(pic: Picture, height: nat, x0: nat, y: nat, bits: seq<bool>, i: nat, segs: nat)
    requires |pic| == segs && Rectangular(pic, height) && i <= |bits| && (x0 + i >= segs || y >= height)
    ensures Stamped(pic, x0, y, bits[..i]) == Stamped(pic, x0, y, bits)
  {
    assert bits == bits[..i] + bits[i..];
    StampedConcat(pic, x0, y, bits[..i], bits[i..]);
    StampedOff(Stamped(pic, x0, y, bits[..i]), height, x0 + i, y, bits[i..]);
  }

  /** The number of characters shown: none for a negative length, at most `limit`. */
  function TextLength(textLen: int, limit: nat): nat {
    if textLen < 0 then 0 else if textLen > limit then limit else textLen
  }

  /** The image writes of a line of text. */
  ghost function GlyphFrames(font: Font, page: nat, start: nat, text: seq<nat>, invert: bool, flip: bool): seq<Shown>
    requires IsFont(font) && Printable(font, text)
  {
    seq(|text|, i requires 0 <= i < |text| => Shown(page, start + 8 * i, Glyph(font, text[i], invert, flip)))
  }

  lemma GlyphFramesNext(font: Font, page: nat, start: nat, text: seq<nat>, i: nat, invert: bool, flip: bool)
    requires IsFont(font) && Printable(font, text) && i < |text|
    ensures GlyphFrames(font, page, start, text[..i + 1], invert, flip)
         == GlyphFrames(font, page, start, text[..i], invert, flip)
          + [Shown(page, start + 8 * i, Glyph(font, text[i], invert, flip))]
  {
  }

  lemma TextStart(row: seq<bv8>, start: nat, font: Font, page: nat, text: seq<nat>, invert: bool, flip: bool)
    requires IsFont(font) && Printable(font, text) && start <= |row|
    ensures Overwritten(row, start, Strip(font, text[..0], invert, flip)) == row
    ensures GlyphFrames(font, page, start, text[..0], invert, flip) == []
  {
  }

  /** Bytes written one after the other to the place before column `seg`: the last one stays. */
  function BytesBefore(m: Memory, page: nat, seg: nat, bytes: seq<bv8>): (r: Memory)
    requires page < |m| && seg <= |m[page]| && (bytes != [] ==> seg >= 1)
    ensures |r| == |m| && forall p :: 0 <= p < |m| ==> |r[p]| == |m[p]|
  {
    if bytes == [] then m else m[page := m[page][seg - 1 := bytes[|bytes| - 1]]]
  }

  /** `n` blanks of the font. */
  function Blanks(n: nat): (s: seq<nat>)
    ensures |s| == n && forall i :: 0 <= i < n ==> s[i] == 0x20
  {
    seq(n, _ => 0x20)
  }

  /** Bytes that are not shown keep the mirror exactly when they change nothing in the end. */
  lemma MirrorLost(ram: seq<seq<bv8>>, m: Memory, pages: nat, width: nat, flip: bool,
                   page: nat, seg: nat, bytes: seq<bv8>)
    requires pages <= |m| && pages <= |ram| && page < pages && 1 <= seg <= width
    requires forall p :: 0 <= p < |m| ==> width <= |m[p]|
    requires forall p :: 0 <= p < |ram| ==> width <= |ram[p]|
    ensures var n := BytesBefore(m, page, seg, bytes);
            Mirrors(ram, m, pages, width, flip) ==>
              (Mirrors(ram, n, pages, width, flip) <==> n[page][seg - 1] == m[page][seg - 1])
  {
    var n := BytesBefore(m, page, seg, bytes);
    if Mirrors(ram, m, pages, width, flip) && Mirrors(ram, n, pages, width, flip) {
      assert ram[PanelPage(page, pages, flip)][seg - 1] == n[page][seg - 1];
    }
  }

  lemma BytesBeforeNext(m: Memory, page: nat, seg: nat, bytes: seq<bv8>, n: nat)
    requires page < |m| && 1 <= seg <= |m[page]| && n < |bytes|
    ensures var r := BytesBefore(m, page, seg, bytes[..n]);
            r[page := r[page][seg - 1 := bytes[n]]] == BytesBefore(m, page, seg, bytes[..n + 1])
  {
    var r := BytesBefore(m, page, seg, bytes[..n]);
    assert r[page][seg - 1 := bytes[n]] == m[page][seg - 1 := bytes[n]];
  }

  ghost function EmptyFrames(page: nat, seg: nat, n: nat): seq<Shown> {
    seq(n, _ => Shown(page, seg, []))
  }

  lemma EmptyFramesNone(m: Memory, page: nat, seg: nat)
    requires page < |m| && seg <= |m[page]|
    ensures EmptyFrames(page, seg, 0) == [] && BytesBefore(m, page, seg, []) == m
  {
  }

  lemma EmptyFramesNext(page: nat, seg: nat, n: nat, k: nat)
    ensures EmptyFrames(page, seg, n + k) == EmptyFrames(page, seg, n) + EmptyFrames(page, seg, k)
    ensures EmptyFrames(page, seg, 1) == [Shown(page, seg, [])]
  {
  }

  /** A row during the shift loop; `last` is what the final turn reads. */
  function Shifted(row: seq<bv8>, seg: nat, boxPixels: nat, pixel: nat, last: bv8): (r: seq<bv8>)
    requires 1 <= boxPixels && pixel <= boxPixels && seg + boxPixels <= |row|
    ensures |r| == |row|
  {
    if pixel < boxPixels then Overwritten(row, seg, row[seg + 1..seg + 1 + pixel])
    else Overwritten(row, seg, row[seg + 1..seg + boxPixels] + [last])
  }

  lemma ShiftStart(row: seq<bv8>, seg: nat, boxPixels: nat)
    requires 1 <= boxPixels && seg + boxPixels <= |row|
    ensures forall last :: Shifted(row, seg, boxPixels, 0, last) == row
  {
  }

  lemma OneByte(row: seq<bv8>, k: nat, b: bv8)
    requires k < |row|
    ensures Overwritten(row, k, [b]) == row[k := b]
  {
  }

  lemma ShiftStep(row: seq<bv8>, seg: nat, boxPixels: nat, pixel: nat, next: bv8)
    requires pixel < boxPixels && seg + boxPixels <= |row|
    requires pixel + seg + 1 < |row| ==> next == Shifted(row, seg, boxPixels, pixel, next)[pixel + seg + 1]
    ensures forall last :: Shifted(row, seg, boxPixels, pixel, last)[pixel + seg := next]
                        == Shifted(row, seg, boxPixels, pixel + 1, next)
  {
    hide Overwritten;
    var a := row[seg + 1..seg + 1 + pixel];
    assert pixel + 1 < boxPixels ==> row[seg + 1..seg + 1 + (pixel + 1)] == a + [next];
    assert pixel + 1 == boxPixels ==> row[seg + 1..seg + boxPixels] == a;
    OverwrittenTwice(row, seg, a, [next]);
    OneByte(Overwritten(row, seg, a), seg + pixel, next);
  }

  lemma ShiftEnd(row: seq<bv8>, seg: nat, boxPixels: nat, last: bv8, incoming: bv8)
    requires 1 <= boxPixels && seg + boxPixels <= |row|
    ensures Shifted(row, seg, boxPixels, boxPixels, last)[seg + boxPixels - 1 := incoming]
         == Overwritten(row, seg, row[seg + 1..seg + boxPixels] + [incoming])
  {
  }

  /** Shifting a window of the strip and bringing in the next column is the next window. */
  lemma WindowShift(row: seq<bv8>, seg: nat, strip: seq<bv8>, n: nat, boxPixels: nat)
    requires 1 <= boxPixels && seg + boxPixels <= |row| && n + boxPixels < |strip|
    ensures var r := Overwritten(row, seg, strip[n..n + boxPixels]);
            r[seg + 1..seg + boxPixels] + [strip[n + boxPixels]] == strip[n + 1..n + 1 + boxPixels]
    ensures Overwritten(row, seg, strip[n + 1..n + 1 + boxPixels])[seg..seg + boxPixels]
         == strip[n + 1..n + 1 + boxPixels]
  {
    hide Overwritten;
    var window := strip[n..n + boxPixels];
    var r := Overwritten(row, seg, window);
    assert r[seg + 1..seg + boxPixels] == window[1..];
    assert window[1..] == strip[n + 1..n + boxPixels];
  }

  /** The image writes of `count` marquee frames, from window `from + 1` on. */
  ghost function Windows(page: nat, seg: nat, strip: seq<bv8>, boxPixels: nat, from: nat, count: nat): seq<Shown>
    requires from + count + boxPixels <= |strip|
  {
    seq(count, i requires 0 <= i < count => Shown(page, seg, strip[from + i + 1..from + i + 1 + boxPixels]))
  }

  lemma WindowsNext(page: nat, seg: nat, strip: seq<bv8>, boxPixels: nat, from: nat, count: nat)
    requires from + count + 1 + boxPixels <= |strip|
    ensures Windows(page, seg, strip, boxPixels, from, count + 1)
         == Windows(page, seg, strip, boxPixels, from, count)
          + [Shown(page, seg, strip[from + count + 1..from + count + 1 + boxPixels])]
    ensures Windows(page, seg, strip, boxPixels, from, 0) == []
  {
  }

  /** All image writes of a text box: the first glyphs one by one, then one window per scrolled column. */
  ghost function BoxFrames(font: Font, page: nat, seg: nat, passed: seq<nat>, boxWidth: nat,
                           invert: bool, flip: bool): seq<Shown>
    requires IsFont(font) && Printable(font, passed) && boxWidth <= |passed|
  {
    GlyphFrames(font, page, seg, passed[..boxWidth], invert, flip) +
    Windows(page, seg, Strip(font, passed, invert, flip), 8 * boxWidth, 0, 8 * (|passed| - boxWidth))
  }

  /** The images of a text box one by one: `boxWidth` glyphs, then one window of the strip for every column. */
  lemma BoxFrameAt(font: Font, page: nat, seg: nat, passed: seq<nat>, boxWidth: nat, invert: bool, flip: bool, i: nat)
    requires IsFont(font) && Printable(font, passed) && boxWidth <= |passed|
    ensures var frames := BoxFrames(font, page, seg, passed, boxWidth, invert, flip);
            && |frames| == boxWidth + 8 * (|passed| - boxWidth)
            && (i < boxWidth ==> frames[i] == Shown(page, seg + 8 * i, Glyph(font, passed[i], invert, flip)))
            && (boxWidth <= i < |frames| ==>
                  var k := i - boxWidth + 1;
                  frames[i] == Shown(page, seg, Strip(font, passed, invert, flip)[k..k + 8 * boxWidth]))
  {
    hide Glyph, Strip;
  }

  lemma WindowsNone(page: nat, seg: nat, strip: seq<bv8>, boxPixels: nat, from: nat)
    requires from + boxPixels <= |strip|
    ensures Windows(page, seg, strip, boxPixels, from, 0) == []
  {
  }

  /** Where the parts of the character stream of the second text box lie. */
  lemma BlanksAround(font: Font, body: seq<nat>, w: nat)
    requires Printable(font, body) && 0x20 < |font|
    ensures var passed := Blanks(w) + body + Blanks(w);
            && Printable(font, Blanks(w)) && Printable(font, passed)
            && |Blanks(w)| == w && |passed| == w + |body| + w
            && passed[..w] == Blanks(w) && passed[|passed| - w..] == Blanks(w)
            && body == passed[w..w + |body|] && Blanks(w) == passed[w + |body|..w + |body| + w]
  {
  }

  lemma WindowsConcat(page: nat, seg: nat, strip: seq<bv8>, boxPixels: nat, from: nat, a: nat, b: nat)
    requires from + a + b + boxPixels <= |strip|
    ensures Windows(page, seg, strip, boxPixels, from, a) + Windows(page, seg, strip, boxPixels, from + a, b)
         == Windows(page, seg, strip, boxPixels, from, a + b)
  {
  }

  /** The byte arithmetic of `_ssd1306_pixel`. */
  method WithPixel(byte: bv8, bits: nat, invert: bool) returns (wk0: bv8)
    requires bits < 8
    ensures wk0 == PutBit(byte, bits, !invert)
  {
    wk0 := byte;
    var wk1 := Mask(bits);
    if invert {
      wk0 := wk0 & !wk1;
    } else {
      wk0 := wk0 | wk1;
    }
  }

  lemma FourParts(path: seq<Point>, a: seq<Point>, b: seq<Point>, c: seq<Point>, d: seq<Point>)
    ensures path + a + b + c + d == path + (a + b + c + d)
  {
  }

  class Ssd1306 {
    /** `_page[p]._segs[x]`: one row of bytes per page, of which the first `pages` are on the panel. */
    const segs: array2<bv8>
    const transport: Transport
    /** `font8x8_basic_tr` */
    const font: Font
    var pages: nat
    var width: nat
    var flip: bool
    var scEnable: bool
    var scStart: int
    var scEnd: int
    var scDirection: int
    var panel: Panel
    /** Whether transfer `k`, or the allocation of a buffer for one, succeeds. */
    const outcomes: nat -> bool
    /** How many of them there have been. */
    var transfers: nat
    /** How many there had been when the last refresh of the whole panel began. */
    var refreshed: nat
    ghost var shown: seq<Shown>

    ghost predicate Valid()
      reads this
    {
      && 0 < pages <= segs.Length0 && 0 < width <= segs.Length1 && panel.Valid() && IsFont(font)
      && refreshed <= transfers
    }

    /** The buffer has the size the wire protocol can address. */
    ghost predicate Wired() {
      segs.Length0 <= PAGES && segs.Length1 <= COLUMNS
    }

    ghost function Mem(): (m: Memory)
      reads segs
      ensures Shaped(m, segs.Length0, segs.Length1)
      ensures forall p, x :: 0 <= p < segs.Length0 && 0 <= x < segs.Length1 ==> m[p][x] == segs[p, x]
    {
      seq(segs.Length0, p requires 0 <= p < segs.Length0 reads segs =>
        seq(segs.Length1, x requires 0 <= x < segs.Length1 reads segs => segs[p, x]))
    }

    ghost function Picture(): (pic: Picture)
      requires Valid()
      reads this, segs
      ensures |pic| == segs.Length1 && Rectangular(pic, 8 * pages)
    {
      PictureOf(Mem(), pages, segs.Length1, flip)
    }

    /** Every transfer since the last refresh of the whole panel began has succeeded. */
    ghost predicate LinkOk()
      reads this`transfers, this`refreshed
    {
      forall k: nat :: refreshed <= k < transfers ==> outcomes(k)
    }

    /** Unless a transfer has failed since the last refresh began, the panel holds every visible byte of the buffer. */
    ghost predicate Synced()
      requires Valid() && Wired()
      reads this, segs
    {
      LinkOk() ==> Mirrors(panel.ram, Mem(), pages, width, flip)
    }

    /** What the mirror means to the viewer: the glass shows the picture, a flipped display upside down. */
    lemma SyncedMeans()
      requires Valid() && Wired() && LinkOk()
      ensures Synced() <==>
              forall x, y :: 0 <= x < width && 0 <= y < 8 * pages ==>
                var row := if flip then 8 * pages - 1 - y else y;
                Picture()[x][y] == Bit(panel.ram[row / 8][x], row % 8)
    {
      hide LinkOk, Mirrors, Bit, PictureOf;
      var m, pic := Mem(), Picture();
      assert pic == PictureOf(m, pages, segs.Length1, flip);
      MirrorMeans(panel.ram, m, pages, width, segs.Length1, flip);
      if forall x, y :: 0 <= x < width && 0 <= y < 8 * pages ==>
                          (var row := if flip then 8 * pages - 1 - y else y;
                           pic[x][y] == Bit(panel.ram[row / 8][x], row % 8)) {
        assert Mirrors(panel.ram, m, pages, width, flip);
      }
    }

    /** `dev->_page[p]._segs[x] = b` */
    method Store(p: nat, x: nat, b: bv8)
      requires p < segs.Length0 && x < segs.Length1
      modifies segs
      ensures Mem() == old(Mem())[p := old(Mem())[p][x := b]]
    {
      segs[p, x] := b;
      ghost var want := old(Mem())[p := old(Mem())[p][x := b]];
      forall q | 0 <= q < segs.Length0
        ensures Mem()[q] == want[q]
      {
      }
    }

    // ----- Drawing into the buffer

    ghost predicate OnPanel(p: Point)
      reads this`pages
    {
      0 <= p.x < segs.Length1 && 0 <= p.y < 8 * pages
    }

    /**
      `_ssd1306_pixel`: exactly one pixel on an unflipped display. On a flipped one the byte is reversed after
      the bit is set, which turns the rest of the block.
     */
    method Pixel(xpos: int, ypos: int, invert: bool)
      requires Valid() && OnPanel(Point(xpos, ypos))
      modifies segs
      ensures var row := old(Mem())[ypos / 8];
              Mem() == old(Mem())[ypos / 8 := row[xpos := Logical(PutBit(row[xpos], ypos % 8, !invert), flip)]]
      ensures Picture() == PlottedOne(old(Picture()), Point(xpos, ypos), !invert, flip)
      ensures !flip ==> Picture() == Painted(old(Picture()), {Point(xpos, ypos)}, !invert)
      ensures flip ==>
                (Symmetric(old(Picture()), pages, Point(xpos, ypos)) <==>
                   Picture() == Painted(old(Picture()), {Point(xpos, ypos)}, !invert))
    {
      hide PutBit, Bit, Painted, PlottedOne, PictureOf, Symmetric;
      var wk0 := segs[ypos / 8, xpos];
      wk0 := WithPixel(wk0, ypos % 8, invert);
      if flip {
        FlippedBytePlots(Mem(), pages, segs.Length1, xpos, ypos, !invert);
        FlippedPlotExact(Picture(), pages, Point(xpos, ypos), !invert);
        wk0 := RotateByte(wk0);
      } else {
        PutBitPaints(Mem(), pages, segs.Length1, flip, xpos, ypos, !invert, wk0);
        UnflippedPlot(Picture(), Point(xpos, ypos), !invert);
      }
      Store(ypos / 8, xpos, wk0);
    }

    /** The screen shows `pic` with the pixels of `path` plotted one after the other. */
    ghost predicate Shows(pic: Picture, path: seq<Point>, on: bool)
      requires Valid()
      reads this, segs
    {
      Picture() == Plotted(pic, path, on, flip)
    }

    lemma ShowsNothing(on: bool)
      requires Valid()
      ensures Shows(Picture(), [], on)
    {
    }

    lemma ShowsMeans(pic: Picture, path: seq<Point>, on: bool)
      requires Valid() && Shows(pic, path, on)
      ensures Picture() == Plotted(pic, path, on, flip)
      ensures !flip ==> Picture() == Painted(pic, Points(path), on)
    {
      PlottedUnflipped(pic, path, on);
    }

    /** `_ssd1306_pixel`, seen as one more pixel of a drawing already begun on `pic`. */
    method PixelOnto(ghost pic: Picture, ghost path: seq<Point>, xpos: int, ypos: int, invert: bool)
      requires Valid() && OnPanel(Point(xpos, ypos))
      requires Shows(pic, path, !invert)
      modifies segs
      ensures Shows(pic, path + [Point(xpos, ypos)], !invert)
    {
      hide Picture, Painted, Plotted, PlottedOne;
      PlottedNext(pic, path, Point(xpos, ypos), !invert, flip);
      Pixel(xpos, ypos, invert);
    }

    /** `_ssd1306_line` */
    method Line(x1: int, y1: int, x2: int, y2: int, invert: bool)
      requires Valid()
      requires OnPanel(Point(x1, y1)) && OnPanel(Point(x2, y2))
      modifies segs
      ensures Picture() == Plotted(old(Picture()), LinePath(Point(x1, y1), Point(x2, y2)), !invert, flip)
      ensures !flip ==> Picture() == Painted(old(Picture()), LinePoints(Point(x1, y1), Point(x2, y2)), !invert)
    {
      hide Shows, Picture, Painted, Plotted, LinePoints, LinePath, Points, Mem, Visited, PlotterAt, Advance;
      var dx := if x2 > x1 then x2 - x1 else x1 - x2;
      var dy := if y2 > y1 then y2 - y1 else y1 - y2;
      var sx := if x2 > x1 then 1 else -1;
      var sy := if y2 > y1 then 1 else -1;
      var x, y := x1, y1;
      ghost var a, b := Point(x1, y1), Point(x2, y2);
      ghost var pic := Picture();
      ShowsNothing(!invert);
      PlotterStart(a, b);
      if dx > dy {
        var E := -dx;
        for i := 0 to dx + 1
          invariant PlotterAt(a, b, i) == Plotter(Point(x, y), E)
          invariant Shows(pic, Visited(a, b, i), !invert)
        {
          PlotterInBox(a, b, i);
          PlotterNext(a, b, i);
          PixelOnto(pic, Visited(a, b, i), x, y, invert);
          x := x + sx;
          E := E + 2 * dy;
          if E >= 0 {
            y := y + sy;
            E := E - 2 * dx;
          }
        }
      } else {
        var E := -dy;
        for i := 0 to dy + 1
          invariant PlotterAt(a, b, i) == Plotter(Point(x, y), E)
          invariant Shows(pic, Visited(a, b, i), !invert)
        {
          PlotterInBox(a, b, i);
          PlotterNext(a, b, i);
          PixelOnto(pic, Visited(a, b, i), x, y, invert);
          y := y + sy;
          E := E + 2 * dx;
          if E >= 0 {
            x := x + sx;
            E := E - 2 * dy;
          }
        }
      }
      VisitedIsLine(a, b);
      LinePathPoints(a, b);
      ShowsMeans(pic, LinePath(a, b), !invert);
    }

    ghost predicate AllOnPanel(pts: set<Point>)
      reads this`pages
    {
      forall p :: p in pts ==> OnPanel(p)
    }

    method PixelIf(draw: bool, ghost pic: Picture, ghost path: seq<Point>, xpos: int, ypos: int, invert: bool)
      requires Valid()
      requires draw ==> OnPanel(Point(xpos, ypos))
      requires Shows(pic, path, !invert)
      modifies segs
      ensures Shows(pic, path + PathIf(draw, Point(xpos, ypos)), !invert)
    {
      hide Picture, Plotted;
      if draw {
        PixelOnto(pic, path, xpos, ypos, invert);
      } else {
        assert path + [] == path;
      }
    }

    lemma QuadrantsOnPanel(c: Point, w: Walk, opt: bv32)
      requires AllOnPanel(Points(PathAt(c, w, opt)))
      ensures Drawn(opt, UPPER_LEFT) ==> OnPanel(Quadrant(c, w, 0))
      ensures Drawn(opt, UPPER_RIGHT) ==> OnPanel(Quadrant(c, w, 3))
      ensures Drawn(opt, LOWER_RIGHT) ==> OnPanel(Quadrant(c, w, 2))
      ensures Drawn(opt, LOWER_LEFT) ==> OnPanel(Quadrant(c, w, 1))
    {
      hide Drawn, Quadrant, OnPanel;
      var path := PathAt(c, w, opt);
      assert forall p :: p in path ==> p in Points(path);
    }

    /** The four plots of one turn of `_ssd1306_circle`. */
    method PlotQuadrants(ghost pic: Picture, ghost path: seq<Point>, x0: int, y0: int, x: int, y: int,
                         opt: bv32, invert: bool)
      requires Valid()
      requires AllOnPanel(Points(PathAt(Point(x0, y0), Walk(x, y), opt)))
      requires Shows(pic, path, !invert)
      modifies segs
      ensures Shows(pic, path + PathAt(Point(x0, y0), Walk(x, y), opt), !invert)
    {
      hide Shows, Picture, Painted, Drawn;
      ghost var c, w := Point(x0, y0), Walk(x, y);
      ghost var ul := PathIf(Drawn(opt, UPPER_LEFT), Quadrant(c, w, 0));
      ghost var ur := PathIf(Drawn(opt, UPPER_RIGHT), Quadrant(c, w, 3));
      ghost var lr := PathIf(Drawn(opt, LOWER_RIGHT), Quadrant(c, w, 2));
      ghost var ll := PathIf(Drawn(opt, LOWER_LEFT), Quadrant(c, w, 1));
      assert PathAt(c, w, opt) == ul + ur + lr + ll;
      QuadrantsOnPanel(c, w, opt);
      assert Quadrant(c, w, 0) == Point(x0 - x, y0 + y) && Quadrant(c, w, 1) == Point(x0 + y, y0 + x);
      assert Quadrant(c, w, 2) == Point(x0 + x, y0 - y) && Quadrant(c, w, 3) == Point(x0 - y, y0 - x);
      FourParts(path, ul, ur, lr, ll);
      hide PathIf, PathAt, Points, AllOnPanel, Quadrant, Valid;
      PixelIf(Drawn(opt, UPPER_LEFT), pic, path, x0 - x, y0 + y, invert);
      PixelIf(Drawn(opt, UPPER_RIGHT), pic, path + ul, x0 - y, y0 - x, invert);
      PixelIf(Drawn(opt, LOWER_RIGHT), pic, path + ul + ur, x0 + x, y0 - y, invert);
      PixelIf(Drawn(opt, LOWER_LEFT), pic, path + ul + ur + lr, x0 + y, y0 + x, invert);
    }

    lemma PartOnPanel(before: seq<Point>, part: seq<Point>, whole: seq<Point>)
      requires AllOnPanel(Points(whole)) && before + part <= whole
      ensures AllOnPanel(Points(part))
    {
      forall p | p in part
        ensures p in whole
      {
        assert p in before + part;
      }
    }

    /** `_ssd1306_circle` */
    method Circle(x0: int, y0: int, r: nat, opt: bv32, invert: bool)
      requires Valid()
      requires AllOnPanel(CirclePoints(Point(x0, y0), r, opt))
      modifies segs
      ensures Picture() == Plotted(old(Picture()), CirclePath(Point(x0, y0), r, opt), !invert, flip)
      ensures !flip ==> Picture() == Painted(old(Picture()), CirclePoints(Point(x0, y0), r, opt), !invert)
    {
      hide Shows, Picture, Painted, Plotted, PathAt, CirclePath, ArcLeft, Err, Accurate, Next;
      hide AllOnPanel, Points, CirclePoints, StepsX, StepsY, Valid;
      var x, y := 0, 0 - r;
      var err := 2 - 2 * r;
      ghost var c := Point(x0, y0);
      ghost var pic, path := Picture(), [];
      WalkStarts(r);
      ArcBegins(c, r, opt);
      CirclePathPoints(c, r, opt);
      ShowsNothing(!invert);
      while true
        invariant Accurate(r, Walk(x, y)) && err == Err(r, Walk(x, y))
        invariant y < 0 || r == 0
        invariant ArcLeft(c, r, opt, path, Walk(x, y))
        invariant Shows(pic, path, !invert)
        decreases r - x - y
      {
        ghost var w := Walk(x, y);
        ArcTurn(c, r, opt, path, w);
        ErrStep(r, w);
        PartOnPanel(path, PathAt(c, w, opt), CirclePath(c, r, opt));
        PlotQuadrants(pic, path, x0, y0, x, y, opt, invert);
        path := path + PathAt(c, w, opt);
        var oldErr := err;
        if oldErr <= x {
          x := x + 1;
          err := err + 2 * x + 1;
        }
        if oldErr > y || err > x {
          y := y + 1;
          err := err + 2 * y + 1;
        }
        if !(y < 0) {
          assert path == CirclePath(c, r, opt);
          break;
        }
        NextAccurate(r, w);
      }
      ShowsMeans(pic, CirclePath(c, r, opt), !invert);
    }

    /** One vertical line of a disc column, if its quadrant is drawn. */
    method ColumnIf(draw: bool, ghost pic: Picture, ghost path: seq<Point>, x: int, y1: int, y2: int, invert: bool)
      requires Valid() && y1 >= y2
      requires AllOnPanel(Points(LineIf(draw, x, y1, y2)))
      requires Shows(pic, path, !invert)
      modifies segs
      ensures Shows(pic, path + LineIf(draw, x, y1, y2), !invert)
    {
      hide Picture, Painted, Plotted, LinePath, LinePoint;
      if draw {
        LineEndsOnPath(Point(x, y1), Point(x, y2));
        PlottedConcat(pic, path, LinePath(Point(x, y1), Point(x, y2)), !invert, flip);
        Line(x, y1, x, y2, invert);
      } else {
        assert path + [] == path;
      }
    }

    /** The four lines of one turn of `_ssd1306_disc`. */
    method FillColumns(ghost pic: Picture, ghost path: seq<Point>, x0: int, y0: int, x: int, y: int,
                       opt: bv32, invert: bool)
      requires Valid() && y <= 0
      requires AllOnPanel(Points(LinesAt(Point(x0, y0), Walk(x, y), opt)))
      requires Shows(pic, path, !invert)
      modifies segs
      ensures Shows(pic, path + LinesAt(Point(x0, y0), Walk(x, y), opt), !invert)
    {
      hide Shows, Picture, Painted, Drawn, LineIf;
      ghost var ll := LineIf(Drawn(opt, LOWER_LEFT), x0 - x, y0 - y, y0);
      ghost var ul := LineIf(Drawn(opt, UPPER_LEFT), x0 - x, y0, y0 + y);
      ghost var lr := LineIf(Drawn(opt, LOWER_RIGHT), x0 + x, y0 - y, y0);
      ghost var ur := LineIf(Drawn(opt, UPPER_RIGHT), x0 + x, y0, y0 + y);
      ColumnIf(Drawn(opt, LOWER_LEFT), pic, path, x0 - x, y0 - y, y0, invert);
      ColumnIf(Drawn(opt, UPPER_LEFT), pic, path + ll, x0 - x, y0, y0 + y, invert);
      ColumnIf(Drawn(opt, LOWER_RIGHT), pic, path + ll + ul, x0 + x, y0 - y, y0, invert);
      ColumnIf(Drawn(opt, UPPER_RIGHT), pic, path + ll + ul + lr, x0 + x, y0, y0 + y, invert);
      FourParts(path, ll, ul, lr, ur);
    }

    /** `_ssd1306_disc` */
    method Disc(x0: int, y0: int, r: nat, opt: bv32, invert: bool)
      requires Valid()
      requires AllOnPanel(DiscPoints(Point(x0, y0), r, opt))
      modifies segs
      ensures Picture() == Plotted(old(Picture()), DiscPath(Point(x0, y0), r, opt), !invert, flip)
      ensures !flip ==> Picture() == Painted(old(Picture()), DiscPoints(Point(x0, y0), r, opt), !invert)
    {
      hide Shows, Picture, Painted, Plotted, LinesAt, LinesLeft, DiscPath, DiscPoints, Err, Accurate, Next;
      hide AllOnPanel, Points, StepsX, StepsY, Valid;
      var x, y := 0, 0 - r;
      var err := 2 - 2 * r;
      var changeX := true;
      ghost var c := Point(x0, y0);
      ghost var pic, path := Picture(), [];
      WalkStarts(r);
      LinesBegin(c, r, opt);
      DiscPathPoints(c, r, opt);
      ShowsNothing(!invert);
      while true
        invariant Accurate(r, Walk(x, y)) && err == Err(r, Walk(x, y)) && y <= 0
        invariant LinesLeft(c, r, opt, path, Walk(x, y), changeX)
        invariant Shows(pic, path, !invert)
        decreases r - x - y
      {
        ghost var w := Walk(x, y);
        LinesTurn(c, r, opt, path, w, changeX);
        ErrStep(r, w);
        DiscLoopGuard(r, w);
        if changeX {
          PartOnPanel(path, LinesAt(c, w, opt), DiscPath(c, r, opt));
          FillColumns(pic, path, x0, y0, x, y, opt, invert);
          path := path + LinesAt(c, w, opt);
        } else {
          assert path + [] == path;
        }
        var oldErr := err;
        changeX := oldErr <= x;
        if changeX {
          x := x + 1;
          err := err + 2 * x + 1;
        }
        if oldErr > y || err > x {
          y := y + 1;
          err := err + 2 * y + 1;
        }
        if !(y <= 0) {
          assert path == DiscPath(c, r, opt);
          break;
        }
      }
      ShowsMeans(pic, DiscPath(c, r, opt), !invert);
    }

    // ----- Scrolling the buffer

    /** SCROLL_RIGHT on one page: every byte moves one place, the last becomes the first. */
    method RotateRowRight(p: nat)
      requires Valid() && p < segs.Length0
      modifies segs
      ensures Mem() == old(Mem())[p := Rot(old(Mem())[p], segs.Length1 - 1)]
    {
      hide MovedRight, Rot;
      ghost var m, row := Mem(), Mem()[p];
      var wk := segs[p, segs.Length1 - 1];
      var seg := segs.Length1 - 1;
      RightStart(row);
      while seg > 0
        invariant 0 <= seg < segs.Length1
        invariant Mem() == m[p := MovedRight(row, seg)]
      {
        RightStep(row, seg);
        Store(p, seg, segs[p, seg - 1]);
        seg := seg - 1;
      }
      RightEnd(row);
      Store(p, 0, wk);
    }

    /** SCROLL_LEFT on one page. */
    method RotateRowLeft(p: nat)
      requires Valid() && p < segs.Length0
      modifies segs
      ensures Mem() == old(Mem())[p := Rot(old(Mem())[p], 1)]
    {
      hide MovedLeft, Rot;
      ghost var m, row := Mem(), Mem()[p];
      var wk := segs[p, 0];
      LeftStart(row);
      for seg := 0 to segs.Length1 - 1
        invariant Mem() == m[p := MovedLeft(row, seg)]
      {
        LeftStep(row, seg);
        Store(p, seg, segs[p, seg + 1]);
      }
      LeftEnd(row);
      Store(p, segs.Length1 - 1, wk);
    }

    /** The page loop of SCROLL_RIGHT and SCROLL_LEFT. */
    method RotateRows(right: bool, start: nat, last: int)
      requires Valid() && last < pages
      modifies segs
      ensures var k := if right then segs.Length1 - 1 else 1;
              forall p :: 0 <= p < pages ==>
                Mem()[p] == if start <= p <= last then Rot(old(Mem())[p], k) else old(Mem())[p]
    {
      hide Rot;
      ghost var m, k := Mem(), if right then segs.Length1 - 1 else 1;
      var page := start;
      while page <= last
        invariant start <= page
        invariant forall p :: 0 <= p < segs.Length0 ==>
                    Mem()[p] == if start <= p <= last && p < page then Rot(m[p], k) else m[p]
      {
        if right {
          RotateRowRight(page);
        } else {
          RotateRowLeft(page);
        }
        page := page + 1;
      }
    }

    lemma PannedBy(m: Memory, start: nat, last: int, k: nat)
      requires Valid() && Shaped(m, segs.Length0, segs.Length1) && last < pages
      requires forall p :: 0 <= p < pages ==> Mem()[p] == if start <= p <= last then Rot(m[p], k) else m[p]
      ensures Picture() == Panned(PictureOf(m, pages, segs.Length1, flip), 8 * pages,
                                  BandStart(start, last), BandEnd(start, last), k)
    {
      RowsShow(m, Mem(), pages, segs.Length1, flip, start, last, k);
    }

    /** SCROLL_RIGHT and SCROLL_LEFT on pages `start..end`. */
    method ScrollPages(right: bool, start: nat, end: int)
      requires Valid()
      modifies segs
      ensures var last := if end >= pages then pages - 1 else end;
              Picture() == Panned(old(Picture()), 8 * pages, BandStart(start, last), BandEnd(start, last),
                                  if right then segs.Length1 - 1 else 1)
    {
      ghost var m := Mem();
      assert Picture() == PictureOf(m, pages, segs.Length1, flip);
      hide Rot, Picture, Panned;
      var last := if end >= pages then pages - 1 else end;
      RotateRows(right, start, last);
      PannedBy(m, start, last, if right then segs.Length1 - 1 else 1);
    }

    /** The byte arithmetic shared by the two halves of SCROLL_UP. */
    method ByteUp(byte: bv8, below: bv8) returns (wk2: bv8)
      ensures wk2 == Logical(ScrolledUp(Logical(byte, flip), Logical(below, flip)), flip)
    {
      hide Reversed;
      var wk0, wk1 := byte, below;
      if flip {
        wk0 := RotateByte(wk0);
        wk1 := RotateByte(wk1);
      }
      wk0 := wk0 >> 1;
      wk1 := wk1 & 0x01;
      wk1 := wk1 << 7;
      wk2 := wk0 | wk1;
      if flip {
        wk2 := RotateByte(wk2);
      }
    }

    method ByteDown(byte: bv8, above: bv8) returns (wk2: bv8)
      ensures wk2 == Logical(ScrolledDown(Logical(byte, flip), Logical(above, flip)), flip)
    {
      hide Reversed;
      var wk0, wk1 := byte, above;
      if flip {
        wk0 := RotateByte(wk0);
        wk1 := RotateByte(wk1);
      }
      wk0 := wk0 << 1;
      wk1 := wk1 & 0x80;
      wk1 := wk1 >> 7;
      wk2 := wk0 | wk1;
      if flip {
        wk2 := RotateByte(wk2);
      }
    }

    /** A copy of one page, taken before the loops overwrite it. */
    method SavePage(p: nat) returns (save: array<bv8>)
      requires p < segs.Length0
      ensures fresh(save) && save[..] == Mem()[p]
    {
      save := new bv8[segs.Length1];
      for seg := 0 to segs.Length1
        invariant forall x :: 0 <= x < seg ==> save[x] == segs[p, x]
        invariant Mem() == old(Mem())
      {
        save[seg] := segs[p, seg];
      }
    }

    /** One page of SCROLL_UP; `p + 1` is still as it was. */
    method UpPage(p: nat, start: nat, last: int)
      requires Valid() && p + 1 < segs.Length0 && last < segs.Length1
      modifies segs
      ensures Mem() == old(Mem())[p := RowUp(old(Mem())[p], old(Mem())[p + 1], flip, start, last)]
    {
      hide Logical, ScrolledUp;
      ghost var m, row, below := Mem(), Mem()[p], Mem()[p + 1];
      RowUpNothing(row, below, flip, start);
      var seg := start;
      while seg <= last
        invariant start <= seg
        invariant Mem() == m[p := RowUp(row, below, flip, start, if seg <= last then seg - 1 else last)]
      {
        RowUpStep(row, below, flip, start, seg);
        var wk2 := ByteUp(segs[p, seg], segs[p + 1, seg]);
        Store(p, seg, wk2);
        seg := seg + 1;
      }
    }

    /** The last page of SCROLL_UP takes its bottom pixels from the saved first page. */
    method UpLastPage(p: nat, save: array<bv8>, start: nat, last: int)
      requires Valid() && p < segs.Length0 && last < segs.Length1 && save.Length == segs.Length1
      modifies segs
      ensures Mem() == old(Mem())[p := RowUp(old(Mem())[p], save[..], flip, start, last)]
    {
      hide Logical, ScrolledUp;
      ghost var m, row, below := Mem(), Mem()[p], save[..];
      RowUpNothing(row, below, flip, start);
      var seg := start;
      while seg <= last
        invariant start <= seg && save[..] == below
        invariant Mem() == m[p := RowUp(row, below, flip, start, if seg <= last then seg - 1 else last)]
      {
        RowUpStep(row, below, flip, start, seg);
        var wk2 := ByteUp(segs[p, seg], save[seg]);
        Store(p, seg, wk2);
        seg := seg + 1;
      }
    }

    /** The pages of SCROLL_UP that have a page below them, top to bottom. */
    method UpPages(start: nat, last: int)
      requires Valid() && last < segs.Length1
      modifies segs
      ensures forall q :: 0 <= q < pages - 1 ==> Mem()[q] == RowUp(old(Mem())[q], old(Mem())[q + 1], flip, start, last)
      ensures forall q :: pages - 1 <= q < segs.Length0 ==> Mem()[q] == old(Mem())[q]
    {
      hide RowUp;
      ghost var m := Mem();
      for page := 0 to pages - 1
        invariant forall q :: 0 <= q < page ==> Mem()[q] == RowUp(m[q], m[q + 1], flip, start, last)
        invariant forall q :: page <= q < segs.Length0 ==> Mem()[q] == m[q]
      {
        UpPage(page, start, last);
      }
    }

    lemma ScrolledUpBy(m: Memory, start: nat, last: int)
      requires Valid() && Shaped(m, segs.Length0, segs.Length1)
      requires forall p :: 0 <= p < pages ==>
                 Mem()[p] == RowUp(m[p], m[if p + 1 < pages then p + 1 else 0], flip, start, last)
      ensures Picture() == Scrolled(PictureOf(m, pages, segs.Length1, flip), start, last, 1)
    {
      hide PictureOf, Scrolled, RowUp, Logical;
      UpShows(m, Mem(), pages, segs.Length1, flip, start, last);
    }

    /** SCROLL_UP on columns `start..end`. */
    method ScrollColumnsUp(start: nat, end: int)
      requires Valid()
      modifies segs
      ensures Picture() == Scrolled(old(Picture()), start, if end >= width then width - 1 else end, 1)
    {
      ghost var m := Mem();
      assert Picture() == PictureOf(m, pages, segs.Length1, flip);
      hide Picture, Scrolled, RowUp, PictureOf;
      var last := if end >= width then width - 1 else end;
      var save := SavePage(0);
      UpPages(start, last);
      UpLastPage(pages - 1, save, start, last);
      ScrolledUpBy(m, start, last);
    }

    /** One page of SCROLL_DOWN; `p - 1` is still as it was. */
    method DownPage(p: nat, start: nat, last: int)
      requires Valid() && 0 < p < segs.Length0 && last < segs.Length1
      modifies segs
      ensures Mem() == old(Mem())[p := RowDown(old(Mem())[p], old(Mem())[p - 1], flip, start, last)]
    {
      hide Logical, ScrolledDown;
      ghost var m, row, above := Mem(), Mem()[p], Mem()[p - 1];
      RowDownNothing(row, above, flip, start);
      var seg := start;
      while seg <= last
        invariant start <= seg
        invariant Mem() == m[p := RowDown(row, above, flip, start, if seg <= last then seg - 1 else last)]
      {
        RowDownStep(row, above, flip, start, seg);
        var wk2 := ByteDown(segs[p, seg], segs[p - 1, seg]);
        Store(p, seg, wk2);
        seg := seg + 1;
      }
    }

    /** The first page of SCROLL_DOWN takes its top pixels from the saved last page. */
    method DownFirstPage(save: array<bv8>, start: nat, last: int)
      requires Valid() && last < segs.Length1 && save.Length == segs.Length1
      modifies segs
      ensures Mem() == old(Mem())[0 := RowDown(old(Mem())[0], save[..], flip, start, last)]
    {
      hide Logical, ScrolledDown;
      ghost var m, row, above := Mem(), Mem()[0], save[..];
      RowDownNothing(row, above, flip, start);
      var seg := start;
      while seg <= last
        invariant start <= seg && save[..] == above
        invariant Mem() == m[0 := RowDown(row, above, flip, start, if seg <= last then seg - 1 else last)]
      {
        RowDownStep(row, above, flip, start, seg);
        var wk2 := ByteDown(segs[0, seg], save[seg]);
        Store(0, seg, wk2);
        seg := seg + 1;
      }
    }

    /** The pages of SCROLL_DOWN that have a page above them, bottom to top. */
    method DownPages(start: nat, last: int)
      requires Valid() && last < segs.Length1
      modifies segs
      ensures forall q :: 0 < q < pages ==> Mem()[q] == RowDown(old(Mem())[q], old(Mem())[q - 1], flip, start, last)
      ensures Mem()[0] == old(Mem())[0]
    {
      hide RowDown;
      ghost var m := Mem();
      var page := pages - 1;
      while page > 0
        invariant 0 <= page < pages
        invariant forall q :: page < q < pages ==> Mem()[q] == RowDown(m[q], m[q - 1], flip, start, last)
        invariant forall q :: 0 <= q <= page ==> Mem()[q] == m[q]
      {
        DownPage(page, start, last);
        page := page - 1;
      }
    }

    lemma ScrolledDownBy(m: Memory, start: nat, last: int)
      requires Valid() && Shaped(m, segs.Length0, segs.Length1)
      requires forall p :: 0 <= p < pages ==>
                 Mem()[p] == RowDown(m[p], m[if p > 0 then p - 1 else pages - 1], flip, start, last)
      ensures Picture() == Scrolled(PictureOf(m, pages, segs.Length1, flip), start, last, 8 * pages - 1)
    {
      hide PictureOf, Scrolled, RowDown, Logical;
      DownShows(m, Mem(), pages, segs.Length1, flip, start, last);
    }

    /** SCROLL_DOWN on columns `start..end`. */
    method ScrollColumnsDown(start: nat, end: int)
      requires Valid()
      modifies segs
      ensures Picture() == Scrolled(old(Picture()), start, if end >= width then width - 1 else end, 8 * pages - 1)
    {
      ghost var m := Mem();
      assert Picture() == PictureOf(m, pages, segs.Length1, flip);
      hide Picture, Scrolled, RowDown, PictureOf;
      var last := if end >= width then width - 1 else end;
      var save := SavePage(pages - 1);
      DownPages(start, last);
      DownFirstPage(save, start, last);
      ScrolledDownBy(m, start, last);
    }

    /** One page copied over another, byte by byte. */
    method CopyPage(p: nat, q: nat)
      requires Valid() && p < segs.Length0 && q < segs.Length0 && p != q
      modifies segs
      ensures Mem() == old(Mem())[p := old(Mem())[q]]
    {
      ghost var m := Mem();
      CopyStart(m[q], m[p]);
      for seg := 0 to segs.Length1
        invariant Mem() == m[p := Copied(m[q], m[p], seg)]
      {
        CopyStep(m[q], m[p], seg);
        Store(p, seg, segs[q, seg]);
      }
    }

    method RestorePage(p: nat, save: array<bv8>)
      requires Valid() && p < segs.Length0 && save.Length == segs.Length1
      modifies segs
      ensures Mem() == old(Mem())[p := save[..]]
    {
      ghost var m, saved := Mem(), save[..];
      CopyStart(saved, m[p]);
      for seg := 0 to segs.Length1
        invariant save[..] == saved
        invariant Mem() == m[p := Copied(saved, m[p], seg)]
      {
        CopyStep(saved, m[p], seg);
        Store(p, seg, save[seg]);
      }
    }

    /** All pages but the first receive the page above them, bottom to top. */
    method PagesDown()
      requires Valid()
      modifies segs
      ensures Mem() == PartlyDown(old(Mem()), 0, pages)
    {
      hide PartlyDown;
      ghost var m := Mem();
      var page := pages - 1;
      PartlyDownStart(m, pages);
      while page > 0
        invariant 0 <= page < pages && Mem() == PartlyDown(m, page, pages)
      {
        PartlyDownStep(m, page, pages);
        CopyPage(page, page - 1);
        page := page - 1;
      }
    }

    lemma PagesMovedBy(m: Memory, k: nat)
      requires Valid() && Shaped(m, segs.Length0, segs.Length1) && k < pages
      requires forall p :: 0 <= p < pages ==> Mem()[p] == m[if p + k < pages then p + k else p + k - pages]
      ensures Picture() == Scrolled(PictureOf(m, pages, segs.Length1, flip), 0, segs.Length1 - 1, 8 * k)
    {
      PagesShow(m, Mem(), pages, segs.Length1, flip, k);
    }

    lemma PagesMovedDown(m: Memory)
      requires Valid() && Shaped(m, segs.Length0, segs.Length1)
      requires Mem()[0] == m[pages - 1] && forall p :: 0 < p < pages ==> Mem()[p] == m[p - 1]
      ensures Picture() == Scrolled(PictureOf(m, pages, segs.Length1, flip), 0, segs.Length1 - 1, 8 * (pages - 1))
    {
      PagesMovedBy(m, pages - 1);
    }

    /** PAGE_SCROLL_DOWN: whole pages move down, the last becomes the first. */
    method ScrollPagesDown()
      requires Valid()
      modifies segs
      ensures Picture() == Scrolled(old(Picture()), 0, segs.Length1 - 1, 8 * (pages - 1))
    {
      ghost var m := Mem();
      assert Picture() == PictureOf(m, pages, segs.Length1, flip);
      hide Picture, Scrolled, PictureOf;
      var save := SavePage(pages - 1);
      PagesDown();
      assert save[..] == m[pages - 1];
      RestorePage(0, save);
      PagesMovedDown(m);
    }

    /** All pages but the last receive the page below them, top to bottom. */
    method PagesUp()
      requires Valid()
      modifies segs
      ensures Mem() == PartlyUp(old(Mem()), pages - 1)
    {
      hide PartlyUp;
      ghost var m := Mem();
      PartlyUpStart(m);
      for page := 0 to pages - 1
        invariant Mem() == PartlyUp(m, page)
      {
        PartlyUpStep(m, page);
        CopyPage(page, page + 1);
      }
    }

    lemma PagesMovedUp(m: Memory)
      requires Valid() && Shaped(m, segs.Length0, segs.Length1)
      requires Mem()[pages - 1] == m[0] && forall p :: 0 <= p < pages - 1 ==> Mem()[p] == m[p + 1]
      ensures Picture() == Scrolled(PictureOf(m, pages, segs.Length1, flip), 0, segs.Length1 - 1,
                                    if pages > 1 then 8 else 0)
    {
      PagesMovedBy(m, if pages > 1 then 1 else 0);
    }

    /** PAGE_SCROLL_UP: whole pages move up, the first becomes the last. */
    method ScrollPagesUp()
      requires Valid()
      modifies segs
      ensures Picture() == Scrolled(old(Picture()), 0, segs.Length1 - 1, if pages > 1 then 8 else 0)
    {
      ghost var m := Mem();
      assert Picture() == PictureOf(m, pages, segs.Length1, flip);
      hide Picture, Scrolled, PictureOf;
      var save := SavePage(0);
      PagesUp();
      assert save[..] == m[0];
      RestorePage(pages - 1, save);
      PagesMovedUp(m);
    }

    // ----- The wire

    /** `i2c_master_transmit`: the payload reaches the panel, or the transfer fails and is only logged. */
    method Transmit(payload: seq<bv8>)
      requires panel.Valid() && refreshed <= transfers
      modifies this`panel, this`transfers
      ensures panel.Valid()
      ensures transfers == old(transfers) + 1
      ensures LinkOk() ==> old(LinkOk()) && panel == ReceiveI2c(old(panel), payload)
    {
      var ok := outcomes(transfers);
      transfers := transfers + 1;
      assert !ok ==> !LinkOk();
      if ok {
        panel := ReceiveI2c(panel, payload);
      }
    }

    /** The command and the data transfer of the new driver, built in one buffer. */
    method I2cNewTransfers(panelPage: nat, seg: nat, images: seq<bv8>)
      requires panel.Valid() && refreshed <= transfers && panelPage < PAGES && seg < COLUMNS
      modifies this`panel, this`transfers
      ensures panel.Valid()
      ensures transfers == old(transfers) + if outcomes(old(transfers)) then 3 else 1
      ensures LinkOk() ==> old(LinkOk()) && panel == ByNewI2c(old(panel), panelPage, seg, images)
    {
      hide ReceiveI2c, LowCommand, HighCommand, PageCommand;
      var gotBuffer := outcomes(transfers);
      transfers := transfers + 1;
      if !gotBuffer {
        assert !LinkOk();
        return;
      }
      var outBuf := new bv8[if |images| < 4 then 4 else |images| + 1];
      var outIndex := 0;
      outBuf[outIndex] := 0x00;
      outIndex := outIndex + 1;
      outBuf[outIndex] := LowCommand(seg);
      outIndex := outIndex + 1;
      outBuf[outIndex] := HighCommand(seg);
      outIndex := outIndex + 1;
      outBuf[outIndex] := PageCommand(panelPage);
      outIndex := outIndex + 1;
      assert outBuf[..outIndex] == [0x00] + ImageCommands(panelPage, seg);
      Transmit(outBuf[..outIndex]);
      outBuf[0] := 0x40;
      forall i | 0 <= i < |images| {
        outBuf[1 + i] := images[i];
      }
      assert outBuf[..|images| + 1] == [0x40] + images;
      Transmit(outBuf[..|images| + 1]);
    }

    /** `i2c_display_image` of the new driver. */
    method I2cNewDisplayImage(page: nat, seg: nat, images: seq<bv8>)
      requires Valid() && Wired()
      modifies this`panel, this`transfers
      ensures panel.Valid()
      ensures old(transfers) <= transfers <= old(transfers) + 3
      ensures page >= pages || seg >= width ==> panel == old(panel) && transfers == old(transfers)
      ensures page < pages && seg < width && LinkOk() ==>
                old(LinkOk()) && panel == ByNewI2c(old(panel), if flip then pages - page - 1 else page, seg, images)
    {
      hide ByNewI2c;
      if page >= pages {
        return;
      }
      if seg >= width {
        return;
      }
      var panelPage := page;
      if flip {
        panelPage := (pages - page) - 1;
      }
      I2cNewTransfers(panelPage, seg, images);
    }

    /** `i2c_master_cmd_begin`: the queued link operations run, or the transfer fails and is only logged. */
    method CmdBegin(address: bv8, cmd: seq<LinkOp>)
      requires panel.Valid() && refreshed <= transfers
      modifies this`panel, this`transfers
      ensures panel.Valid()
      ensures transfers == old(transfers) + 1
      ensures LinkOk() ==> old(LinkOk()) && panel == ReceiveLink(old(panel), address, cmd)
    {
      var ok := outcomes(transfers);
      transfers := transfers + 1;
      assert !ok ==> !LinkOk();
      if ok {
        panel := ReceiveLink(panel, address, cmd);
      }
    }

    /** The command and the data transfer of the legacy driver, each a link of queued operations. */
    method I2cLegacyTransfers(address: bv8, panelPage: nat, seg: nat, images: seq<bv8>)
      requires panel.Valid() && refreshed <= transfers && panelPage < PAGES && seg < COLUMNS
      modifies this`panel, this`transfers
      ensures panel.Valid()
      ensures transfers == old(transfers) + 2
      ensures LinkOk() ==> old(LinkOk()) && panel == ByLegacyI2c(old(panel), address, panelPage, seg, images)
    {
      hide ReceiveLink, LowCommand, HighCommand, PageCommand;
      var cmd := [Start];
      cmd := cmd + [Write([address << 1])];
      cmd := cmd + [Write([0x00])];
      cmd := cmd + [Write([LowCommand(seg)])];
      cmd := cmd + [Write([HighCommand(seg)])];
      cmd := cmd + [Write([PageCommand(panelPage)])];
      cmd := cmd + [Stop];
      ghost var c := ImageCommands(panelPage, seg);
      assert cmd == LinkFor(address, [Write([0x00]), Write([c[0]]), Write([c[1]]), Write([c[2]])]);
      CmdBegin(address, cmd);
      cmd := [Start];
      cmd := cmd + [Write([address << 1])];
      cmd := cmd + [Write([0x40])];
      cmd := cmd + [Write(images)];
      cmd := cmd + [Stop];
      assert cmd == LinkFor(address, [Write([0x40]), Write(images)]);
      CmdBegin(address, cmd);
    }

    /** `i2c_display_image` of the legacy driver. */
    method I2cLegacyDisplayImage(address: bv8, page: nat, seg: nat, images: seq<bv8>)
      requires Valid() && Wired()
      modifies this`panel, this`transfers
      ensures panel.Valid()
      ensures old(transfers) <= transfers <= old(transfers) + 3
      ensures page >= pages || seg >= width ==> panel == old(panel) && transfers == old(transfers)
      ensures page < pages && seg < width && LinkOk() ==>
                old(LinkOk()) &&
                panel == ByLegacyI2c(old(panel), address, if flip then pages - page - 1 else page, seg, images)
    {
      hide ByLegacyI2c;
      if page >= pages {
        return;
      }
      if seg >= width {
        return;
      }
      var panelPage := page;
      if flip {
        panelPage := (pages - page) - 1;
      }
      I2cLegacyTransfers(address, panelPage, seg, images);
    }

    /** `spi_master_write_byte` with the D/C line at `dc`; an empty transfer is not started. */
    method SpiWrite(dc: bool, data: seq<bv8>)
      requires panel.Valid() && refreshed <= transfers
      modifies this`panel, this`transfers
      ensures panel.Valid()
      ensures transfers == old(transfers) + if |data| > 0 then 1 else 0
      ensures LinkOk() ==> old(LinkOk()) && panel == Stream(old(panel), dc, data)
      ensures |data| == 0 ==> panel == old(panel)
    {
      if |data| > 0 {
        var ok := outcomes(transfers);
        transfers := transfers + 1;
        assert !ok ==> !LinkOk();
        if ok {
          panel := Stream(panel, dc, data);
        }
      }
    }

    /** `spi_display_image` */
    method SpiDisplayImage(page: nat, seg: nat, images: seq<bv8>)
      requires Valid() && Wired()
      modifies this`panel, this`transfers
      ensures panel.Valid()
      ensures old(transfers) <= transfers <= old(transfers) + 3
      ensures page >= pages || seg >= width ==> panel == old(panel) && transfers == old(transfers)
      ensures page < pages && seg < width && LinkOk() ==>
                old(LinkOk()) && panel == BySpi(old(panel), if flip then pages - page - 1 else page, seg, images)
    {
      hide Stream, LowCommand, HighCommand, PageCommand;
      if page >= pages {
        return;
      }
      if seg >= width {
        return;
      }
      var panelPage := page;
      if flip {
        panelPage := (pages - page) - 1;
      }
      var commands := [LowCommand(seg), HighCommand(seg), PageCommand(panelPage)];
      SpiWrite(false, commands);
      SpiWrite(true, images);
    }

    /** The image write of whichever transport the display hangs on. */
    method SendImage(page: nat, seg: nat, images: seq<bv8>)
      requires Valid() && Wired()
      modifies this`panel, this`transfers
      ensures panel.Valid() && old(transfers) <= transfers <= old(transfers) + 3
      ensures page >= pages || seg >= width ==> panel == old(panel) && transfers == old(transfers)
      ensures page < pages && seg < width && LinkOk() ==>
                old(LinkOk()) && panel == BySpi(old(panel), if flip then pages - page - 1 else page, seg, images)
      ensures seg + |images| <= segs.Length1 && LinkOk() ==>
                old(LinkOk()) && panel.ram == ImageShown(old(panel).ram, pages, width, flip, page, seg, images)
    {
      hide ByNewI2c, ByLegacyI2c, BySpi;
      if page < pages && seg < width {
        var address := if transport.LegacyI2c? then transport.address else 0;
        TransportsAgree(panel, address, PanelPage(page, pages, flip), seg, images);
      }
      match transport {
        case Spi => SpiDisplayImage(page, seg, images);
        case NewI2c => I2cNewDisplayImage(page, seg, images);
        case LegacyI2c(address) => I2cLegacyDisplayImage(address, page, seg, images);
      }
    }

    /** `memcpy` into the buffer. */
    method CopyIn(page: nat, seg: nat, images: seq<bv8>)
      requires page < segs.Length0 && seg + |images| <= segs.Length1
      modifies segs
      ensures Mem() == old(Mem())[page := Overwritten(old(Mem())[page], seg, images)]
    {
      ghost var m := Mem();
      forall i | 0 <= i < |images| {
        segs[page, seg + i] := images[i];
      }
      ghost var want := m[page := Overwritten(m[page], seg, images)];
      forall q, x | 0 <= q < segs.Length0 && 0 <= x < segs.Length1
        ensures segs[q, x] == want[q][x]
      {
        if q == page && seg <= x < seg + |images| {
          var i := x - seg;
          assert segs[page, seg + i] == images[i];
        }
      }
      forall q | 0 <= q < segs.Length0
        ensures Mem()[q] == want[q]
      {
      }
    }

    lemma SyncKept(ram: seq<seq<bv8>>, m: Memory, page: nat, seg: nat, images: seq<bv8>)
      requires Valid() && Wired() && page < segs.Length0 && seg + |images| <= segs.Length1
      requires |ram| == PAGES && (forall p :: 0 <= p < PAGES ==> |ram[p]| == COLUMNS)
      requires Shaped(m, segs.Length0, segs.Length1)
      requires Mem() == m[page := Overwritten(m[page], seg, images)]
      requires LinkOk() ==> panel.ram == ImageShown(ram, pages, width, flip, page, seg, images)
      ensures LinkOk() && Mirrors(ram, m, pages, width, flip) ==> Synced()
    {
      if LinkOk() && Mirrors(ram, m, pages, width, flip) {
        MirrorKept(ram, m, pages, width, flip, page, seg, images);
      }
    }

    /** `ssd1306_display_image` */
    method DisplayImage(page: nat, seg: nat, images: seq<bv8>)
      requires Valid() && Wired() && page < segs.Length0 && seg + |images| <= segs.Length1
      modifies segs, this`panel, this`transfers, this`shown
      ensures Valid() && shown == old(shown) + [Shown(page, seg, images)]
      ensures Mem() == old(Mem())[page := Overwritten(old(Mem())[page], seg, images)]
      ensures LinkOk() ==>
                old(LinkOk()) && panel.ram == ImageShown(old(panel).ram, pages, width, flip, page, seg, images)
      ensures page < pages && seg < width && LinkOk() ==>
                forall i :: 0 <= i < |images| ==>
                  panel.ram[if flip then pages - page - 1 else page][seg + i] == images[i]
      ensures old(Synced()) ==> Synced()
      ensures old(Synced()) && LinkOk() ==>
                forall x, y :: 0 <= x < width && 0 <= y < 8 * pages ==>
                  var row := if flip then 8 * pages - 1 - y else y;
                  Picture()[x][y] == Bit(panel.ram[row / 8][x], row % 8)
    {
      hide LinkOk, Mirrors, Bit, Picture;
      SendImage(page, seg, images);
      CopyIn(page, seg, images);
      shown := shown + [Shown(page, seg, images)];
      SyncKept(old(panel.ram), old(Mem()), page, seg, images);
      if old(Synced()) && LinkOk() {
        SyncedMeans();
      }
    }

    /** `ssd1306_show_buffer`: whatever the panel held, afterwards it mirrors the buffer. */
    method ShowBuffer()
      requires Valid() && Wired()
      modifies this`panel, this`transfers, this`refreshed
      ensures Valid() && Synced() && refreshed == old(transfers) <= transfers
      ensures (forall k: nat :: old(transfers) <= k < transfers ==> outcomes(k)) ==>
                forall x, y :: 0 <= x < width && 0 <= y < 8 * pages ==>
                  var row := if flip then 8 * pages - 1 - y else y;
                  Picture()[x][y] == Bit(panel.ram[row / 8][x], row % 8)
    {
      hide ImageShown, Bit, Picture;
      refreshed := transfers;
      for page := 0 to pages
        invariant panel.Valid() && refreshed == old(transfers) <= transfers
        invariant LinkOk() ==> forall q, x :: 0 <= q < page && 0 <= x < width ==>
                               panel.ram[PanelPage(q, pages, flip)][x] == Mem()[q][x]
      {
        ghost var ram := panel.ram;
        var w := width;
        var row := seq(w, x requires 0 <= x < w reads segs => segs[page, x]);
        assert row == Mem()[page][..w];
        SendImage(page, 0, row);
        forall q, x | LinkOk() && 0 <= q <= page && 0 <= x < width
          ensures panel.ram[PanelPage(q, pages, flip)][x] == Mem()[q][x]
        {
          RowShown(ram, Mem(), pages, width, flip, page, q, x);
        }
      }
      if LinkOk() {
        SyncedMeans();
      }
    }

    // ----- Text

    /** A character image ready to be shown: copied from the font, inverted and flipped as needed. */
    method LoadGlyph(c: nat, invert: bool) returns (image: array<bv8>)
      requires Valid() && c < |font|
      ensures fresh(image) && image[..] == Glyph(font, c, invert, flip)
    {
      hide Shaded;
      image := new bv8[8];
      forall i | 0 <= i < 8 {
        image[i] := font[c][i];
      }
      assert image[..] == font[c];
      ShadedTwice(font[c], invert);
      if invert {
        InvertBuffer(image);
      }
      if flip {
        FlipBuffer(image);
      }
    }

    /** The glyph loop shared by the text operations: one image per character, eight columns apart. */
    method WriteGlyphs(page: nat, start: nat, text: seq<nat>, invert: bool)
      requires Valid() && Wired() && Printable(font, text)
      requires page < segs.Length0 && start + 8 * |text| <= segs.Length1
      modifies segs, this`panel, this`transfers, this`shown
      ensures Valid() && (old(Synced()) ==> Synced())
      ensures Mem() == old(Mem())[page := Overwritten(old(Mem())[page], start, Strip(font, text, invert, flip))]
      ensures shown == old(shown) + GlyphFrames(font, page, start, text, invert, flip)
    {
      hide Overwritten, Synced, Glyph, Strip, GlyphFrames;
      ghost var m := Mem();
      TextStart(m[page], start, font, page, text, invert, flip);
      var seg := start;
      for i := 0 to |text|
        invariant Valid() && seg == start + 8 * i && (old(Synced()) ==> Synced())
        invariant Mem() == m[page := Overwritten(m[page], start, Strip(font, text[..i], invert, flip))]
        invariant shown == old(shown) + GlyphFrames(font, page, start, text[..i], invert, flip)
      {
        StripNext(font, text, i, invert, flip);
        GlyphFramesNext(font, page, start, text, i, invert, flip);
        OverwrittenTwice(m[page], start, Strip(font, text[..i], invert, flip), Glyph(font, text[i], invert, flip));
        var image := LoadGlyph(text[i], invert);
        DisplayImage(page, seg, image[..]);
        seg := seg + 8;
      }
      assert text[..|text|] == text;
    }

    /** `ssd1306_display_text`: at most sixteen characters, from the left edge. */
    method DisplayText(page: nat, text: seq<nat>, textLen: int, invert: bool)
      requires Valid() && Wired() && Printable(font, text) && textLen <= |text|
      requires page < pages ==> 8 * TextLength(textLen, 16) <= segs.Length1
      modifies segs, this`panel, this`transfers, this`shown
      ensures Valid() && (old(Synced()) ==> Synced())
      ensures page >= pages ==> Mem() == old(Mem()) && shown == old(shown)
      ensures page < pages ==>
                var n := if textLen < 0 then 0 else if textLen > 16 then 16 else textLen;
                var strip := Strip(font, text[..n], invert, flip);
                Mem() == old(Mem())[page := Overwritten(old(Mem())[page], 0, strip)]
    {
      if page >= pages {
        return;
      }
      var length := textLen;
      if length > 16 {
        length := 16;
      }
      WriteGlyphs(page, 0, text[..TextLength(length, 16)], invert);
    }

    // ----- Marquee boxes

    /**
      The shift loop of the text boxes. Its last turn reads the byte after the box, which for a box that
      ends at the edge lies outside the page; whatever it reads is overwritten by `incoming`.
     */
    method ShiftBox(page: nat, seg: nat, boxPixels: nat, incoming: bv8)
      requires page < segs.Length0 && 1 <= boxPixels && seg + boxPixels <= segs.Length1
      modifies segs
      ensures var row := old(Mem())[page];
              Mem() == old(Mem())[page := Overwritten(row, seg, row[seg + 1..seg + boxPixels] + [incoming])]
    {
      hide Overwritten;
      ghost var m, row := Mem(), Mem()[page];
      ghost var last: bv8 := 0;
      ShiftStart(row, seg, boxPixels);
      for pixel := 0 to boxPixels
        invariant Mem() == m[page := Shifted(row, seg, boxPixels, pixel, last)]
      {
        var next: bv8 := *;
        if pixel + seg + 1 < segs.Length1 {
          next := segs[page, pixel + seg + 1];
        }
        last := next;
        ShiftStep(row, seg, boxPixels, pixel, next);
        Store(page, pixel + seg, next);
      }
      ShiftEnd(row, seg, boxPixels, last, incoming);
      Store(page, seg + boxPixels - 1, incoming);
    }

    /** One frame of the marquee: the box shows the next window of the strip, on both sides of the wire. */
    method MarqueeFrame(page: nat, seg: nat, boxPixels: nat, incoming: bv8,
                        ghost m: Memory, ghost strip: seq<bv8>, ghost n: nat)
      requires Valid() && Wired() && page < segs.Length0 && 1 <= boxPixels && seg + boxPixels <= segs.Length1
      requires Shaped(m, segs.Length0, segs.Length1) && n + boxPixels < |strip| && strip[n + boxPixels] == incoming
      requires Mem() == m[page := Overwritten(m[page], seg, strip[n..n + boxPixels])]
      modifies segs, this`panel, this`transfers, this`shown
      ensures Valid() && (old(Synced()) ==> Synced())
      ensures Mem() == m[page := Overwritten(m[page], seg, strip[n + 1..n + 1 + boxPixels])]
      ensures shown == old(shown) + [Shown(page, seg, strip[n + 1..n + 1 + boxPixels])]
    {
      hide Overwritten, Mirrors, ImageShown;
      ghost var before, ram := Mem(), panel.ram;
      ghost var window := strip[n + 1..n + 1 + boxPixels];
      WindowShift(m[page], seg, strip, n, boxPixels);
      OverwrittenAgain(m[page], seg, strip[n..n + boxPixels], window);
      OverwrittenAgain(m[page], seg, window, window);
      ShiftBox(page, seg, boxPixels, incoming);
      var box := seq(boxPixels, x requires 0 <= x < boxPixels reads segs => segs[page, seg + x]);
      assert box == Mem()[page][seg..seg + boxPixels];
      DisplayImage(page, seg, box);
      SyncKept(ram, before, page, seg, window);
    }

    /** One character scrolled into the box: eight frames. */
    method MarqueeGlyph(page: nat, seg: nat, boxPixels: nat, image: seq<bv8>,
                        ghost m: Memory, ghost strip: seq<bv8>, ghost n: nat)
      requires Valid() && Wired() && page < segs.Length0 && 1 <= boxPixels && seg + boxPixels <= segs.Length1
      requires Shaped(m, segs.Length0, segs.Length1)
      requires n + boxPixels + 8 <= |strip| && image == strip[n + boxPixels..n + boxPixels + 8]
      requires Mem() == m[page := Overwritten(m[page], seg, strip[n..n + boxPixels])]
      modifies segs, this`panel, this`transfers, this`shown
      ensures Valid() && (old(Synced()) ==> Synced())
      ensures Mem() == m[page := Overwritten(m[page], seg, strip[n + 8..n + 8 + boxPixels])]
      ensures shown == old(shown) + Windows(page, seg, strip, boxPixels, n, 8)
    {
      hide Overwritten, Synced, Windows;
      WindowsNext(page, seg, strip, boxPixels, n, 0);
      for bit := 0 to 8
        invariant Valid() && (old(Synced()) ==> Synced())
        invariant Mem() == m[page := Overwritten(m[page], seg, strip[n + bit..n + bit + boxPixels])]
        invariant shown == old(shown) + Windows(page, seg, strip, boxPixels, n, bit)
      {
        WindowsNext(page, seg, strip, boxPixels, n, bit);
        assert image[bit] == strip[n + bit + boxPixels];
        MarqueeFrame(page, seg, boxPixels, image[bit], m, strip, n + bit);
      }
    }

    /** Text scrolled into the box, character by character; `full[k..]` is what the box and the text pass over. */
    method MarqueeText(page: nat, seg: nat, boxWidth: nat, text: seq<nat>, invert: bool,
                       ghost m: Memory, ghost full: seq<nat>, ghost k: nat)
      requires Valid() && Wired() && page < segs.Length0 && 1 <= boxWidth && seg + 8 * boxWidth <= segs.Length1
      requires Shaped(m, segs.Length0, segs.Length1) && Printable(font, full)
      requires k + boxWidth + |text| <= |full| && text == full[k + boxWidth..k + boxWidth + |text|]
      requires var strip := Strip(font, full, invert, flip);
               Mem() == m[page := Overwritten(m[page], seg, strip[8 * k..8 * k + 8 * boxWidth])]
      modifies segs, this`panel, this`transfers, this`shown
      ensures Valid() && (old(Synced()) ==> Synced())
      ensures var strip, n := Strip(font, full, invert, flip), 8 * (k + |text|);
              Mem() == m[page := Overwritten(m[page], seg, strip[n..n + 8 * boxWidth])]
      ensures shown == old(shown) + Windows(page, seg, Strip(font, full, invert, flip), 8 * boxWidth, 8 * k, 8 * |text|)
    {
      hide Overwritten, Synced, Windows, Strip, Glyph;
      ghost var strip := Strip(font, full, invert, flip);
      WindowsNone(page, seg, strip, 8 * boxWidth, 8 * k);
      for t := 0 to |text|
        invariant Valid() && (old(Synced()) ==> Synced())
        invariant Mem() == m[page := Overwritten(m[page], seg, strip[8 * (k + t)..8 * (k + t) + 8 * boxWidth])]
        invariant shown == old(shown) + Windows(page, seg, strip, 8 * boxWidth, 8 * k, 8 * t)
      {
        StripPrefix(font, full, k + boxWidth + t, invert, flip);
        assert text[t] == full[k + boxWidth + t];
        WindowsConcat(page, seg, strip, 8 * boxWidth, 8 * k, 8 * t, 8);
        var image := LoadGlyph(text[t], invert);
        MarqueeGlyph(page, seg, 8 * boxWidth, image[..], m, strip, 8 * (k + t));
      }
    }

    /** The box filled with the first characters of `passed`, which then scrolls through it to its end. */
    method FillAndScroll(page: nat, seg: nat, passed: seq<nat>, boxWidth: nat, invert: bool)
      requires Valid() && Wired() && Printable(font, passed) && 1 <= boxWidth <= |passed|
      requires page < segs.Length0 && seg + 8 * boxWidth <= segs.Length1
      modifies segs, this`panel, this`transfers, this`shown
      ensures Valid() && (old(Synced()) ==> Synced())
      ensures Mem() == old(Mem())[page := Overwritten(old(Mem())[page], seg,
                                    Strip(font, passed, invert, flip)[8 * (|passed| - boxWidth)..8 * |passed|])]
      ensures shown == old(shown) + BoxFrames(font, page, seg, passed, boxWidth, invert, flip)
    {
      hide Overwritten, Synced, Windows, Strip, GlyphFrames;
      ghost var m := Mem();
      ghost var strip := Strip(font, passed, invert, flip);
      WriteGlyphs(page, seg, passed[..boxWidth], invert);
      StripPrefix(font, passed, boxWidth, invert, flip);
      assert strip[8 * 0..8 * 0 + 8 * boxWidth] == strip[..8 * boxWidth];
      MarqueeText(page, seg, boxWidth, passed[boxWidth..], invert, m, passed, 0);
    }

    /** One turn of the scroll loops over a box of width zero. */
    method EmptyFrame(page: nat, seg: nat, incoming: bv8, ghost m: Memory, ghost strip: seq<bv8>, ghost n: nat)
      requires Valid() && Wired() && page < segs.Length0 && 1 <= seg <= segs.Length1
      requires Shaped(m, segs.Length0, segs.Length1) && n < |strip| && strip[n] == incoming
      requires Mem() == BytesBefore(m, page, seg, strip[..n])
      modifies segs, this`panel, this`transfers, this`shown
      ensures Valid() && Mem() == BytesBefore(m, page, seg, strip[..n + 1])
      ensures shown == old(shown) + [Shown(page, seg, [])]
      ensures LinkOk() ==> old(LinkOk()) && panel.ram == old(panel.ram)
    {
      hide Overwritten, ImageShown, Mirrors, BytesBefore;
      NothingShown(panel.ram, pages, width, flip, page, seg);
      BytesBeforeNext(m, page, seg, strip, n);
      Store(page, seg - 1, incoming);
      OverwrittenAgain(Mem()[page], seg, [], []);
      DisplayImage(page, seg, []);
    }

    /** One character scrolled over a box of width zero. */
    method EmptyGlyph(page: nat, seg: nat, columns: seq<bv8>, ghost m: Memory, ghost strip: seq<bv8>, ghost n: nat)
      requires Valid() && Wired() && page < segs.Length0 && 1 <= seg <= segs.Length1
      requires Shaped(m, segs.Length0, segs.Length1) && n + 8 <= |strip| && columns == strip[n..n + 8]
      requires Mem() == BytesBefore(m, page, seg, strip[..n])
      modifies segs, this`panel, this`transfers, this`shown
      ensures Valid() && Mem() == BytesBefore(m, page, seg, strip[..n + 8])
      ensures shown == old(shown) + EmptyFrames(page, seg, 8)
      ensures LinkOk() ==> old(LinkOk()) && panel.ram == old(panel.ram)
    {
      hide LinkOk, BytesBefore, EmptyFrames;
      EmptyFramesNone(m, page, seg);
      for bit := 0 to 8
        invariant Valid() && Mem() == BytesBefore(m, page, seg, strip[..n + bit])
        invariant LinkOk() ==> old(LinkOk()) && panel.ram == old(panel.ram)
        invariant shown == old(shown) + EmptyFrames(page, seg, bit)
      {
        assert columns[bit] == strip[n + bit];
        EmptyFramesNext(page, seg, bit, 1);
        EmptyFrame(page, seg, columns[bit], m, strip, n + bit);
      }
    }

    /**
      The scroll loops over a box of width zero: every column goes to the byte before the box, and an empty
      image is shown.
     */
    method EmptyBox(page: nat, seg: nat, text: seq<nat>, invert: bool)
      requires Valid() && Wired() && Printable(font, text) && page < segs.Length0 && seg <= segs.Length1
      requires text != [] ==> seg >= 1
      modifies segs, this`panel, this`transfers, this`shown
      ensures Valid()
      ensures Mem() == BytesBefore(old(Mem()), page, seg, Strip(font, text, invert, flip))
      ensures shown == old(shown) + EmptyFrames(page, seg, 8 * |text|)
      ensures old(Synced()) && LinkOk() && page < pages && 1 <= seg <= width ==>
                (Synced() <==> Mem()[page][seg - 1] == old(Mem())[page][seg - 1])
    {
      hide Overwritten, ImageShown, Strip, Glyph, Mirrors, BytesBefore, EmptyFrames, LinkOk;
      ghost var m, strip := Mem(), Strip(font, text, invert, flip);
      EmptyFramesNone(m, page, seg);
      for t := 0 to |text|
        invariant Valid() && Mem() == BytesBefore(m, page, seg, strip[..8 * t])
        invariant LinkOk() ==> old(LinkOk()) && panel.ram == old(panel.ram)
        invariant shown == old(shown) + EmptyFrames(page, seg, 8 * t)
      {
        StripPrefix(font, text, t, invert, flip);
        var image := LoadGlyph(text[t], invert);
        EmptyFramesNext(page, seg, 8 * t, 8);
        EmptyGlyph(page, seg, image[..], m, strip, 8 * t);
      }
      assert strip[..8 * |text|] == strip;
      if page < pages && 1 <= seg <= width {
        MirrorLost(panel.ram, m, pages, width, flip, page, seg, strip);
      }
    }

    /**
      What a text box adds to the images shown so far: the first `boxWidth` characters glyph by glyph, then for
      every column that `passed` has left the window of the strip that starts one column further on.
     */
    ghost predicate BoxShown(was: seq<Shown>, page: nat, seg: nat, passed: seq<nat>, boxWidth: nat, invert: bool)
      requires IsFont(font) && Printable(font, passed) && 1 <= boxWidth <= |passed|
      reads this
    {
      && |shown| == |was| + boxWidth + 8 * (|passed| - boxWidth) && shown[..|was|] == was
      && (forall i :: |was| <= i < |was| + boxWidth ==>
            shown[i] == Shown(page, seg + 8 * (i - |was|), Glyph(font, passed[i - |was|], invert, flip)))
      && (forall i :: |was| + boxWidth <= i < |shown| ==>
            var k := i - |was| - boxWidth + 1;
            shown[i] == Shown(page, seg, Strip(font, passed, invert, flip)[k..k + 8 * boxWidth]))
    }

    /** What a text box of width zero leaves: the last column of the text before the box, and empty images. */
    ghost predicate EmptyBoxShown(m: Memory, was: seq<Shown>, page: nat, seg: nat, text: seq<nat>, textLen: int,
                                  invert: bool)
      requires IsFont(font) && Printable(font, text) && textLen <= |text| && page < segs.Length0 && seg <= segs.Length1
      requires Shaped(m, segs.Length0, segs.Length1) && (textLen > 0 ==> seg >= 1)
      reads this, segs
    {
      var strip := Strip(font, text[..if textLen > 0 then textLen else 0], invert, flip);
      && Mem() == BytesBefore(m, page, seg, strip)
      && shown == was + seq(|strip|, _ => Shown(page, seg, []))
      && (strip != [] ==> Mem()[page][seg - 1] == strip[|strip| - 1])
    }

    lemma BoxFramesShown(was: seq<Shown>, page: nat, seg: nat, passed: seq<nat>, boxWidth: nat, invert: bool)
      requires Valid() && Printable(font, passed) && 1 <= boxWidth <= |passed|
      requires shown == was + BoxFrames(font, page, seg, passed, boxWidth, invert, flip)
      ensures BoxShown(was, page, seg, passed, boxWidth, invert)
    {
      hide BoxFrames, Glyph, Strip;
      ghost var frames := BoxFrames(font, page, seg, passed, boxWidth, invert, flip);
      BoxFrameAt(font, page, seg, passed, boxWidth, invert, flip, 0);
      forall i | 0 <= i < |frames|
        ensures shown[|was| + i] == frames[i]
        ensures i < boxWidth ==> frames[i] == Shown(page, seg + 8 * i, Glyph(font, passed[i], invert, flip))
        ensures boxWidth <= i ==>
                  var k := i - boxWidth + 1;
                  frames[i] == Shown(page, seg, Strip(font, passed, invert, flip)[k..k + 8 * boxWidth])
      {
        BoxFrameAt(font, page, seg, passed, boxWidth, invert, flip, i);
      }
      forall i | |was| <= i < |shown|
        ensures shown[i] == frames[i - |was|]
      {
      }
    }

    /** The buffer after the first kind of box: the last `boxWidth` of the characters that passed. */
    ghost function After1(m: Memory, page: nat, seg: nat, text: seq<nat>, boxWidth: nat, textLen: int,
                          invert: bool): (r: Memory)
      requires IsFont(font) && Printable(font, text) && boxWidth <= |text| && textLen <= |text|
      requires page < |m| && seg + 8 * boxWidth <= |m[page]|
      reads this`flip
      ensures |r| == |m| && forall p :: 0 <= p < |m| ==> |r[p]| == |m[p]|
    {
      var n := if textLen > boxWidth then textLen else boxWidth;
      m[page := Overwritten(m[page], seg, Strip(font, text[n - boxWidth..n], invert, flip))]
    }

    /** The text has passed through the first kind of box, which ends on its last `boxWidth` characters. */
    ghost predicate Passed1(m: Memory, was: seq<Shown>, page: nat, seg: nat, text: seq<nat>, boxWidth: nat,
                            textLen: int, invert: bool)
      requires IsFont(font) && Printable(font, text) && 1 <= boxWidth && textLen <= |text| && boxWidth <= |text|
      requires page < segs.Length0 && seg + 8 * boxWidth <= segs.Length1 && Shaped(m, segs.Length0, segs.Length1)
      reads this, segs
    {
      && Mem() == After1(m, page, seg, text, boxWidth, textLen, invert)
      && BoxShown(was, page, seg, text[..if textLen > boxWidth then textLen else boxWidth], boxWidth, invert)
    }

    /** Blanks, the text and blanks again have passed through the second kind of box, which ends blank. */
    ghost predicate Passed2(m: Memory, was: seq<Shown>, page: nat, seg: nat, text: seq<nat>, boxWidth: nat,
                            textLen: int, invert: bool)
      requires IsFont(font) && Printable(font, text) && 1 <= boxWidth && textLen <= |text| && 0x20 < |font|
      requires page < segs.Length0 && seg + 8 * boxWidth <= segs.Length1 && Shaped(m, segs.Length0, segs.Length1)
      reads this, segs
    {
      var blanks := Blanks(boxWidth);
      var passed := blanks + text[..if textLen > 0 then textLen else 0] + blanks;
      && Mem() == m[page := Overwritten(m[page], seg, Strip(font, blanks, invert, flip))]
      && BoxShown(was, page, seg, passed, boxWidth, invert)
    }

    /** A text box of width zero. */
    method EmptyTextBox(page: nat, seg: nat, text: seq<nat>, textLen: int, invert: bool)
      requires Valid() && Wired() && Printable(font, text) && textLen <= |text|
      requires page < segs.Length0 && seg <= segs.Length1 && (textLen > 0 ==> seg >= 1)
      modifies segs, this`panel, this`transfers, this`shown
      ensures Valid() && EmptyBoxShown(old(Mem()), old(shown), page, seg, text, textLen, invert)
      ensures old(Synced()) && LinkOk() && page < pages && 1 <= seg <= width ==>
                (Synced() <==> Mem()[page][seg - 1] == old(Mem())[page][seg - 1])
    {
      hide Strip, Synced, LinkOk;
      EmptyBox(page, seg, text[..TextLength(textLen, |text|)], invert);
    }

    /** `ssd1306_display_text_box1`: the first characters fill the box, the rest scroll through it. */
    method DisplayTextBox1(page: nat, seg: nat, text: seq<nat>, boxWidth: nat, textLen: int, invert: bool)
      requires Valid() && Wired() && Printable(font, text) && boxWidth <= |text| && textLen <= |text|
      requires page < pages && boxWidth == 0 && textLen > 0 ==> seg >= 1
      modifies segs, this`panel, this`transfers, this`shown
      ensures Valid() && (boxWidth >= 1 && old(Synced()) ==> Synced())
      ensures page >= pages || seg + 8 * boxWidth > width ==> Mem() == old(Mem()) && shown == old(shown)
      ensures page < pages && seg + 8 * boxWidth <= width && boxWidth >= 1 ==>
                Passed1(old(Mem()), old(shown), page, seg, text, boxWidth, textLen, invert)
      ensures page < pages && seg <= width && boxWidth == 0 ==>
                EmptyBoxShown(old(Mem()), old(shown), page, seg, text, textLen, invert)
      ensures page < pages && 1 <= seg <= width && boxWidth == 0 && old(Synced()) && LinkOk() ==>
                (Synced() <==> Mem()[page][seg - 1] == old(Mem())[page][seg - 1])
    {
      hide Overwritten, Synced, BoxFrames, Strip, BoxShown, EmptyBoxShown, LinkOk;
      if page >= pages {
        return;
      }
      if seg + 8 * boxWidth > width {
        return;
      }
      if boxWidth == 0 {
        EmptyTextBox(page, seg, text, textLen, invert);
        return;
      }
      var n := if textLen > boxWidth then textLen else boxWidth;
      StripSuffix(font, text[..n], boxWidth, invert, flip);
      assert text[..n][n - boxWidth..] == text[n - boxWidth..n];
      FillAndScroll(page, seg, text[..n], boxWidth, invert);
      BoxFramesShown(old(shown), page, seg, text[..n], boxWidth, invert);
    }

    /** Two texts scrolled into the box one after the other. */
    method MarqueeTwo(page: nat, seg: nat, boxWidth: nat, a: seq<nat>, b: seq<nat>, invert: bool,
                      ghost m: Memory, ghost full: seq<nat>)
      requires Valid() && Wired() && page < segs.Length0 && 1 <= boxWidth && seg + 8 * boxWidth <= segs.Length1
      requires Shaped(m, segs.Length0, segs.Length1) && Printable(font, full) && |full| == boxWidth + |a| + |b|
      requires a == full[boxWidth..boxWidth + |a|] && b == full[boxWidth + |a|..]
      requires Mem() == m[page := Overwritten(m[page], seg, Strip(font, full, invert, flip)[..8 * boxWidth])]
      modifies segs, this`panel, this`transfers, this`shown
      ensures Valid() && (old(Synced()) ==> Synced())
      ensures var strip := Strip(font, full, invert, flip);
              Mem() == m[page := Overwritten(m[page], seg, strip[|strip| - 8 * boxWidth..])]
      ensures var strip := Strip(font, full, invert, flip);
              shown == old(shown) + Windows(page, seg, strip, 8 * boxWidth, 0, 8 * (|a| + |b|))
    {
      hide Overwritten, Synced, Windows, Strip, LinkOk;
      ghost var strip := Strip(font, full, invert, flip);
      assert strip[8 * 0..8 * 0 + 8 * boxWidth] == strip[..8 * boxWidth];
      MarqueeText(page, seg, boxWidth, a, invert, m, full, 0);
      MarqueeText(page, seg, boxWidth, b, invert, m, full, |a|);
      WindowsConcat(page, seg, strip, 8 * boxWidth, 0, 8 * |a|, 8 * |b|);
      assert strip[8 * (|a| + |b|)..8 * (|a| + |b|) + 8 * boxWidth] == strip[|strip| - 8 * boxWidth..];
    }

    /** The three phases of `ssd1306_display_text_box2`. */
    method BlankAndScroll(page: nat, seg: nat, body: seq<nat>, boxWidth: nat, invert: bool)
      requires Valid() && Wired() && Printable(font, body) && 0x20 < |font| && 1 <= boxWidth
      requires page < segs.Length0 && seg + 8 * boxWidth <= segs.Length1
      modifies segs, this`panel, this`transfers, this`shown
      ensures Valid() && (old(Synced()) ==> Synced())
      ensures var strip := Strip(font, Blanks(boxWidth), invert, flip);
              Mem() == old(Mem())[page := Overwritten(old(Mem())[page], seg, strip)]
      ensures var passed := Blanks(boxWidth) + body + Blanks(boxWidth);
              shown == old(shown) + BoxFrames(font, page, seg, passed, boxWidth, invert, flip)
    {
      hide Overwritten, Synced, Windows, Strip, GlyphFrames, Blanks, LinkOk;
      ghost var m := Mem();
      ghost var passed := Blanks(boxWidth) + body + Blanks(boxWidth);
      BlanksAround(font, body, boxWidth);
      WriteGlyphs(page, seg, Blanks(boxWidth), invert);
      StripPrefix(font, passed, boxWidth, invert, flip);
      StripSuffix(font, passed, boxWidth, invert, flip);
      ghost var strip := Strip(font, passed, invert, flip);
      assert passed[boxWidth + |body|..] == Blanks(boxWidth);
      assert 8 * (|passed| - boxWidth) == |strip| - 8 * boxWidth && 8 * |passed| == |strip|;
      assert strip[|strip| - 8 * boxWidth..|strip|] == strip[|strip| - 8 * boxWidth..];
      MarqueeTwo(page, seg, boxWidth, body, Blanks(boxWidth), invert, m, passed);
    }

    /** `ssd1306_display_text_box2`: blanks fill the box, then the text and as many blanks again scroll through it. */
    method DisplayTextBox2(page: nat, seg: nat, text: seq<nat>, boxWidth: nat, textLen: int, invert: bool)
      requires Valid() && Wired() && Printable(font, text) && textLen <= |text| && 0x20 < |font|
      requires page < pages && boxWidth == 0 && textLen > 0 ==> seg >= 1
      modifies segs, this`panel, this`transfers, this`shown
      ensures Valid() && (boxWidth >= 1 && old(Synced()) ==> Synced())
      ensures page >= pages || seg + 8 * boxWidth > width ==> Mem() == old(Mem()) && shown == old(shown)
      ensures page < pages && seg + 8 * boxWidth <= width && boxWidth >= 1 ==>
                Passed2(old(Mem()), old(shown), page, seg, text, boxWidth, textLen, invert)
      ensures page < pages && seg <= width && boxWidth == 0 ==>
                EmptyBoxShown(old(Mem()), old(shown), page, seg, text, textLen, invert)
      ensures page < pages && 1 <= seg <= width && boxWidth == 0 && old(Synced()) && LinkOk() ==>
                (Synced() <==> Mem()[page][seg - 1] == old(Mem())[page][seg - 1])
    {
      hide Overwritten, Synced, BoxFrames, Strip, BoxShown, EmptyBoxShown, LinkOk;
      if page >= pages {
        return;
      }
      if seg + 8 * boxWidth > width {
        return;
      }
      if boxWidth == 0 {
        EmptyTextBox(page, seg, text, textLen, invert);
        return;
      }
      ghost var body := text[..TextLength(textLen, |text|)];
      BlanksAround(font, body, boxWidth);
      BlankAndScroll(page, seg, text[..TextLength(textLen, |text|)], boxWidth, invert);
      BoxFramesShown(old(shown), page, seg, Blanks(boxWidth) + body + Blanks(boxWidth), boxWidth, invert);
    }

    // ----- Bitmaps

    /** The byte arithmetic of `_ssd1306_bitmaps`. */
    method ByteWithBit(byte: bv8, src: bv8, srcBits: nat, dstBits: nat) returns (wk2: bv8)
      requires srcBits < 8 && dstBits < 8
      ensures Logical(wk2, flip) == PutBit(Logical(byte, flip), dstBits, Bit(src, srcBits))
    {
      hide Reversed, PutBit, Bit;
      var wk0 := byte;
      if flip {
        wk0 := RotateByte(wk0);
      }
      wk2 := CopyBit(src, srcBits, wk0, dstBits);
      CopyBitPuts(src, srcBits, wk0, dstBits);
      ReversedInvolution(wk2);
      if flip {
        wk2 := RotateByte(wk2);
      }
    }

    /** One pixel of the blit that is on the screen. */
    method BlitPixel(page: nat, seg: nat, dstBits: nat, src: bv8, srcBits: nat)
      requires Valid() && page < pages && seg < segs.Length1 && srcBits < 8 && dstBits < 8
      modifies segs
      ensures forall p, x :: 0 <= p < segs.Length0 && 0 <= x < segs.Length1 && (p != page || x != seg) ==>
                Mem()[p][x] == old(Mem())[p][x]
      ensures Picture() == Stamped(old(Picture()), seg, 8 * page + dstBits, [Bit(src, srcBits)])
    {
      hide Bit, Logical, PutBit;
      var wk2 := ByteWithBit(segs[page, seg], src, srcBits, dstBits);
      assert (8 * page + dstBits) / 8 == page && (8 * page + dstBits) % 8 == dstBits;
      PutBitPaints(Mem(), pages, segs.Length1, flip, seg, 8 * page + dstBits, Bit(src, srcBits), wk2);
      StampedOne(Picture(), seg, 8 * page + dstBits, Bit(src, srcBits));
      Store(page, seg, wk2);
    }

    lemma PictureShape()
      requires Valid()
      ensures |Picture()| == segs.Length1 && Rectangular(Picture(), 8 * pages)
    {
    }

    /**
      The eight pixels of one bitmap byte. `x0` is where they belong; the column counter keeps up with it
      until it reaches the edge of the row, and stays there.
     */
    method BlitByte(page: nat, start: nat, dstBits: nat, byte: bv8, invert: bool, ghost x0: nat) returns (seg: nat)
      requires Valid() && dstBits < 8
      requires page < pages ==> KeepsUp(start, x0, segs.Length1)
      modifies segs
      ensures page < pages ==> KeepsUp(seg, x0 + 8, segs.Length1)
      ensures Outside(old(Mem()), Mem(), x0, x0 + 8, page, page)
      ensures Picture() == Stamped(old(Picture()), x0, 8 * page + dstBits, ByteBits(byte, invert))
    {
      hide Bit, Picture, Stamped, ByteBits;
      ghost var m, pic, bits := Mem(), Picture(), ByteBits(byte, invert);
      ghost var y := 8 * page + dstBits;
      seg := start;
      StampedConcat(pic, x0, y, [], []);
      PictureShape();
      var srcBits := 7;
      while srcBits >= 0
        invariant -1 <= srcBits <= 7
        invariant page < pages ==> KeepsUp(seg, x0 + 7 - srcBits, segs.Length1)
        invariant Outside(m, Mem(), x0, x0 + 8, page, page)
        invariant Picture() == Stamped(pic, x0, y, bits[..7 - srcBits])
      {
        ghost var i := 7 - srcBits;
        var wk1 := if invert then Invert(byte) else byte;
        BitOfByte(byte, invert, srcBits);
        assert bits[..i + 1] == bits[..i] + [bits[i]];
        StampedConcat(pic, x0, y, bits[..i], [bits[i]]);
        if seg >= segs.Length1 || page >= pages {
          StampedRest(pic, 8 * pages, x0, y, bits, i, segs.Length1);
          break;
        }
        BlitPixel(page, seg, dstBits, wk1, srcBits);
        seg := seg + 1;
        srcBits := srcBits - 1;
      }
      assert bits[..8] == bits;
    }

    /** One row of the bitmap: its bytes side by side. */
    method BlitRow(xpos: nat, page: nat, dstBits: nat, bytes: seq<bv8>, invert: bool)
      requires Valid() && dstBits < 8
      modifies segs
      ensures Outside(old(Mem()), Mem(), xpos, xpos + 8 * |bytes|, page, page)
      ensures Picture() == Stamped(old(Picture()), xpos, 8 * page + dstBits, RowBits(bytes, invert))
    {
      hide Picture, Stamped, RowBits, ByteBits;
      ghost var m, pic := Mem(), Picture();
      ghost var y := 8 * page + dstBits;
      var seg := xpos;
      RowBitsNone(invert);
      StampedConcat(pic, xpos, y, [], []);
      for index := 0 to |bytes|
        invariant page < pages ==> KeepsUp(seg, xpos + 8 * index, segs.Length1)
        invariant Outside(m, Mem(), xpos, xpos + 8 * |bytes|, page, page)
        invariant Picture() == Stamped(pic, xpos, y, RowBits(bytes[..index], invert))
      {
        RowBitsNext(bytes, index, invert);
        StampedConcat(pic, xpos, y, RowBits(bytes[..index], invert), ByteBits(bytes[index], invert));
        seg := BlitByte(page, seg, dstBits, bytes[index], invert, xpos + 8 * index);
      }
      assert bytes[..|bytes|] == bytes;
    }

    /** The first `h` of `height` rows of a bitmap are drawn. */
    ghost predicate RowsBlitted(m: Memory, pic: Picture, x0: nat, y0: nat, bitmap: seq<bv8>, stride: nat,
                                height: nat, h: nat, invert: bool)
      requires Valid() && h * stride <= |bitmap| && Shaped(m, segs.Length0, segs.Length1)
      reads this, segs
    {
      && Picture() == StampedRows(pic, x0, y0, bitmap, stride, h, invert)
      && (y0 + height <= ROWS ==> Outside(m, Mem(), x0, x0 + 8 * stride, y0 / 8, (y0 + height - 1) / 8))
    }

    lemma NothingBlitted(x0: nat, y0: nat, bitmap: seq<bv8>, stride: nat, height: nat, invert: bool)
      requires Valid()
      ensures 0 * stride == 0
      ensures RowsBlitted(Mem(), Picture(), x0, y0, bitmap, stride, height, 0, invert)
    {
      hide Picture, Outside;
      StampedRowsNone(Picture(), x0, y0, bitmap, stride, invert);
      OutsideNothing(Mem(), x0, x0 + 8 * stride, y0 / 8, (y0 + height - 1) / 8);
    }

    lemma AllBlitted(m: Memory, pic: Picture, x0: nat, y0: nat, bitmap: seq<bv8>, stride: nat, height: nat,
                     invert: bool)
      requires Valid() && height * stride <= |bitmap| && Shaped(m, segs.Length0, segs.Length1)
      requires RowsBlitted(m, pic, x0, y0, bitmap, stride, height, height, invert)
      ensures Picture() == StampedRows(pic, x0, y0, bitmap, stride, height, invert)
      ensures y0 + height <= ROWS ==>
                && Picture() == Blitted(pic, x0, y0, bitmap, stride, height, invert)
                && Outside(m, Mem(), x0, x0 + 8 * stride, y0 / 8, (y0 + height - 1) / 8)
    {
      hide Picture, Outside, Blitted, StampedRows;
      if y0 + height <= ROWS {
        StampedRowsAreBlitted(pic, x0, y0, bitmap, stride, height, invert);
      }
    }

    /** One more row of the bitmap. */
    method BlitNextRow(x0: nat, page: nat, dstBits: nat, bitmap: seq<bv8>, stride: nat, offset: nat, invert: bool,
                       ghost m: Memory, ghost pic: Picture, ghost y0: nat, ghost height: nat, ghost h: nat)
      requires Valid() && Shaped(m, segs.Length0, segs.Length1) && dstBits < 8 && h < height
      requires 8 * page + dstBits == (y0 + h) % ROWS
      requires offset == h * stride && (h + 1) * stride <= |bitmap| && offset + stride == (h + 1) * stride
      requires RowsBlitted(m, pic, x0, y0, bitmap, stride, height, h, invert)
      modifies segs
      ensures RowsBlitted(m, pic, x0, y0, bitmap, stride, height, h + 1, invert)
    {
      hide Picture, Stamped, StampedRows, RowBits, Outside;
      StampedRowsNext(pic, x0, y0, bitmap, stride, h, invert);
      ghost var before := Mem();
      BlitRow(x0, page, dstBits, bitmap[offset..offset + stride], invert);
      if y0 + height <= ROWS {
        PageOfRow(y0, h, height, page, dstBits);
        OutsideGrows(m, before, Mem(), x0, x0 + 8 * stride, y0 / 8, (y0 + height - 1) / 8, page);
      }
    }

    /**
      `_ssd1306_bitmaps`: pixels off the panel are dropped, a width that is not a multiple of 8 is refused.
      The column and page counters are bytes: they start modulo 256, and a bitmap that runs past row 2047
      goes on at the top. A row number that is negative must be that of a page boundary; in between, C shifts
      a bit by more than the width of its type.
     */
    method Blit(xpos: int, ypos: int, bitmap: seq<bv8>, w: nat, height: nat, invert: bool)
      requires Valid() && segs.Length1 < 256 && height * (w / 8) <= |bitmap| && (ypos >= 0 || ypos % 8 == 0)
      modifies segs
      ensures w % 8 != 0 ==> Mem() == old(Mem())
      ensures w % 8 == 0 ==>
                Picture() == StampedRows(old(Picture()), xpos % 256, ypos % ROWS, bitmap, w / 8, height, invert)
      ensures w % 8 == 0 && ypos % ROWS + height <= ROWS ==>
                && Picture() == Blitted(old(Picture()), xpos % 256, ypos % ROWS, bitmap, w / 8, height, invert)
                && Outside(old(Mem()), Mem(), xpos % 256, xpos % 256 + w,
                           ypos % ROWS / 8, (ypos % ROWS + height - 1) / 8)
    {
      hide Picture, Blitted, StampedRows, Outside, RowsBlitted;
      if w % 8 != 0 {
        return;
      }
      ghost var m, pic := Mem(), Picture();
      var stride := w / 8;
      var page, dstBits, start := ypos / 8 % 256, ypos % 8, xpos % 256;
      var offset := 0;
      ghost var y0 := ypos % ROWS;
      RowStarts(ypos);
      NothingBlitted(start, y0, bitmap, stride, height, invert);
      for h := 0 to height
        invariant 0 <= page < 256 && 0 <= dstBits < 8 && 8 * page + dstBits == (y0 + h) % ROWS
        invariant offset == h * stride <= |bitmap|
        invariant RowsBlitted(m, pic, start, y0, bitmap, stride, height, h, invert)
      {
        RowInBitmap(h, height, stride);
        RowAdvances(y0 + h, page, dstBits);
        BlitNextRow(start, page, dstBits, bitmap, stride, offset, invert, m, pic, y0, height, h);
        offset := offset + stride;
        dstBits := dstBits + 1;
        if dstBits == 8 {
          page := (page + 1) % 256;
          dstBits := 0;
        }
      }
      AllBlitted(m, pic, start, y0, bitmap, stride, height, invert);
    }

    /** `n` bytes of the buffer from column `seg` of a page on, or of what lies beyond. */
    method ReadPart(page: nat, seg: nat, n: nat, beyond: nat -> bv8) returns (images: seq<bv8>)
      requires seg < segs.Length1
      ensures |images| == n
      ensures page < segs.Length0 ==> images == PartOf(Mem()[page], seg, n, beyond)
    {
      if page >= segs.Length0 {
        return Beyond(n, beyond);
      }
      var inRow := if seg + n <= segs.Length1 then n else segs.Length1 - seg;
      images := seq(inRow, x requires 0 <= x < inRow reads segs => segs[page, seg + x]) + Beyond(n - inRow, beyond);
      assert images == PartOf(Mem()[page], seg, n, beyond);
    }

    /**
      `ssd1306_display_image` of `n` bytes of the buffer itself. Bytes from beyond the end of the row, or of
      a page that the buffer does not have, are whatever memory holds; copying them onto themselves changes
      nothing.
     */
    method ShowPart(page: nat, seg: nat, n: nat, beyond: nat -> bv8)
      requires Valid() && Wired() && seg < segs.Length1
      modifies this`panel, this`transfers, this`shown
      ensures Valid()
      ensures page >= pages || seg >= width ==> panel == old(panel) && transfers == old(transfers)
      ensures page < pages && seg < width && LinkOk() ==>
                old(LinkOk()) &&
                panel == BySpi(old(panel), if flip then pages - page - 1 else page, seg,
                               PartOf(Mem()[page], seg, n, beyond))
    {
      hide LinkOk, BySpi, PartOf;
      var images := ReadPart(page, seg, n, beyond);
      SendImage(page, seg, images);
      shown := shown + [Shown(page, seg, images)];
    }

    /** A panel that mirrors the buffer and whose pointers have come to the end of page `page`. */
    ghost predicate SpilledFrom(q: Panel, page: nat)
      requires Valid() && Wired() && page < pages && q.Valid()
      reads this, segs
    {
      && q.page == PanelPage(page, pages, flip) && q.col == segs.Length1 % COLUMNS
      && Mirrors(q.ram, Mem(), pages, width, flip)
    }

    /** A part of page `page`, up to the end of the row at most, has been shown; the bytes `extra` went on after it. */
    ghost predicate Spilled(page: nat, extra: seq<bv8>)
      requires Valid() && Wired() && page < pages
      reads this, segs
    {
      LinkOk() ==>
        exists q: Panel :: q.Valid() && SpilledFrom(q, page) && panel == Stream(q, true, extra)
    }

    /** The last image goes over the end of the row, and it is sent. */
    ghost predicate Overruns(xpos: nat, endSeg: int, startPage: nat, endPage: int)
      reads this`pages, this`width
    {
      && endSeg >= segs.Length1 && startPage <= endPage < pages
      && (if startPage == endPage then xpos else 0) < width
    }

    lemma NothingSpilled(page: int, endSeg: int, beyond: nat -> bv8)
      requires Valid() && Wired() && !LinkOk()
      ensures 0 <= page < pages && endSeg >= segs.Length1 ==> Spilled(page, Beyond(endSeg + 1 - segs.Length1, beyond))
    {
      hide LinkOk;
    }

    /** The last image, when it goes over the end of the row. */
    lemma SpillingPart(m: Memory, xpos: nat, endSeg: nat, startPage: nat, page: nat, segStart: nat, beyond: nat -> bv8,
                       was: Panel)
      requires Valid() && Wired() && Shaped(m, segs.Length0, segs.Length1) && was.Valid()
      requires Outside(m, Mem(), xpos, endSeg + 1, startPage, page)
      requires segStart <= xpos < segs.Length1 <= endSeg && startPage <= page < pages && segStart < width
      requires panel == BySpi(was, PanelPage(page, pages, flip), segStart,
                              PartOf(Mem()[page], segStart, endSeg + 1 - segStart, beyond))
      requires Mirrors(was.ram, PartlyShown(m, Mem(), startPage, page), pages, width, flip)
      ensures Spilled(page, Beyond(endSeg + 1 - segs.Length1, beyond))
    {
      hide Overwritten, ImageShown, BySpi, LinkOk, Mirrors, Outside, PartOf, PartlyShown, Beyond;
      var n := Mem();
      var part := n[page][segStart..segs.Length1];
      var q := BySpi(was, PanelPage(page, pages, flip), segStart, part);
      InRowPart(was, m, n, pages, width, flip, segs.Length1, xpos, endSeg, startPage, page, page,
                segStart, segs.Length1 - 1);
      PartPastRow(n[page], segStart, endSeg + 1, beyond);
      SpillFollows(was, PanelPage(page, pages, flip), segStart, part, Beyond(endSeg + 1 - segs.Length1, beyond));
      RegionEnd(m, n, xpos, endSeg, startPage, page, page + 1);
      assert SpilledFrom(q, page);
    }

    /** One image of the refresh loop: either the next page is shown as well, or the last one has spilled. */
    lemma RegionPart(m: Memory, xpos: nat, endSeg: int, startPage: nat, endPage: int, page: nat,
                     segStart: nat, segEnd: int, beyond: nat -> bv8, was: Panel)
      requires Valid() && Wired() && Shaped(m, segs.Length0, segs.Length1) && was.Valid()
      requires Outside(m, Mem(), xpos, endSeg + 1, startPage, endPage)
      requires xpos < segs.Length1 && xpos - 1 <= endSeg && startPage <= page <= endPage
      requires segStart == if page == startPage then xpos else 0
      requires segEnd == if page == endPage then endSeg else segs.Length1 - 1
      requires page >= pages || segStart >= width ==> panel == was
      requires page < pages && segStart < width && LinkOk() ==>
                 panel == BySpi(was, PanelPage(page, pages, flip), segStart,
                                PartOf(Mem()[page], segStart, segEnd + 1 - segStart, beyond))
      requires LinkOk() ==> Mirrors(was.ram, PartlyShown(m, Mem(), startPage, page), pages, width, flip)
      ensures if page == endPage && Overruns(xpos, endSeg, startPage, endPage)
              then Spilled(endPage, Beyond(endSeg + 1 - segs.Length1, beyond))
              else LinkOk() ==> Mirrors(panel.ram, PartlyShown(m, Mem(), startPage, page + 1), pages, width, flip)
    {
      hide Overwritten, ImageShown, BySpi, LinkOk, Mirrors, Outside, PartOf, Spilled;
      var n := Mem();
      if !LinkOk() {
        NothingSpilled(endPage, endSeg, beyond);
      } else if page >= pages || segStart >= width {
        UnseenPart(was.ram, m, n, pages, width, flip, xpos, endSeg, startPage, endPage, page);
      } else if segEnd < segs.Length1 {
        InRowPart(was, m, n, pages, width, flip, segs.Length1, xpos, endSeg, startPage, endPage, page,
                  segStart, segEnd);
        PartInRow(n[page], segStart, segEnd + 1, beyond);
      } else {
        SpillingPart(m, xpos, endSeg, startPage, page, segStart, beyond, was);
      }
    }

    /** What the refresh loop has done when it comes to `page`. */
    ghost predicate RegionShown(m: Memory, xpos: nat, endSeg: int, startPage: nat, endPage: int, page: nat,
                                beyond: nat -> bv8)
      requires Valid() && Wired() && Shaped(m, segs.Length0, segs.Length1)
      reads this, segs
    {
      if page > endPage && Overruns(xpos, endSeg, startPage, endPage)
      then Spilled(endPage, Beyond(endSeg + 1 - segs.Length1, beyond))
      else LinkOk() ==> Mirrors(panel.ram, PartlyShown(m, Mem(), startPage, page), pages, width, flip)
    }

    /** One turn of the refresh loop. */
    method ShowRegionPart(xpos: nat, endSeg: int, startPage: nat, endPage: int, page: nat, beyond: nat -> bv8,
                          ghost m: Memory)
      requires Valid() && Wired() && Shaped(m, segs.Length0, segs.Length1)
      requires xpos < segs.Length1 && xpos - 1 <= endSeg && startPage <= page <= endPage
      modifies this`panel, this`transfers, this`shown
      ensures Valid()
      ensures Outside(m, Mem(), xpos, endSeg + 1, startPage, endPage) &&
              old(RegionShown(m, xpos, endSeg, startPage, endPage, page, beyond)) ==>
                RegionShown(m, xpos, endSeg, startPage, endPage, page + 1, beyond)
    {
      hide Overwritten, ImageShown, Mirrors, LinkOk, Spilled, PartOf, BySpi, Outside, PartlyShown;
      ghost var was := panel;
      ghost var known := Outside(m, Mem(), xpos, endSeg + 1, startPage, endPage) &&
                         RegionShown(m, xpos, endSeg, startPage, endPage, page, beyond);
      var segStart := if page == startPage then xpos else 0;
      var segEnd := if page == endPage then endSeg else segs.Length1 - 1;
      var segWidth := segEnd - segStart + 1;
      ShowPart(page, segStart, segWidth, beyond);
      if known {
        RegionPart(m, xpos, endSeg, startPage, endPage, page, segStart, segEnd, beyond, was);
      }
    }

    lemma RegionDone(m: Memory, xpos: nat, endSeg: int, startPage: nat, endPage: int, page: nat, beyond: nat -> bv8)
      requires Valid() && Wired() && Shaped(m, segs.Length0, segs.Length1)
      requires Outside(m, Mem(), xpos, endSeg + 1, startPage, endPage) && startPage <= page && page > endPage
      requires RegionShown(m, xpos, endSeg, startPage, endPage, page, beyond)
      ensures if Overruns(xpos, endSeg, startPage, endPage)
              then Spilled(endPage, Beyond(endSeg + 1 - segs.Length1, beyond))
              else Synced()
    {
      hide Mirrors, LinkOk, Spilled, Outside;
      RegionEnd(m, Mem(), xpos, endSeg, startPage, endPage, page);
    }

    /**
      The refresh loop of `ssd1306_bitmaps`: the pages of the bitmap, from its left edge on the first to its
      right edge on the last.
     */
    method ShowRegion(xpos: nat, endSeg: int, startPage: nat, endPage: int, beyond: nat -> bv8, ghost m: Memory)
      requires Valid() && Wired() && Shaped(m, segs.Length0, segs.Length1)
      requires xpos < segs.Length1 && xpos - 1 <= endSeg && startPage - 1 <= endPage
      modifies this`panel, this`transfers, this`shown
      ensures Valid()
      ensures Outside(m, Mem(), xpos, endSeg + 1, startPage, endPage) &&
              old(LinkOk() ==> Mirrors(panel.ram, m, pages, width, flip)) ==>
                if Overruns(xpos, endSeg, startPage, endPage)
                then Spilled(endPage, Beyond(endSeg + 1 - segs.Length1, beyond))
                else Synced()
    {
      ghost var known := Outside(m, Mem(), xpos, endSeg + 1, startPage, endPage) &&
                         (LinkOk() ==> Mirrors(panel.ram, m, pages, width, flip));
      RegionStart(m, Mem(), startPage);
      assert known ==> RegionShown(m, xpos, endSeg, startPage, endPage, startPage, beyond);
      hide Mirrors, LinkOk, Spilled, Overruns, Outside, RegionShown;
      var page := startPage;
      while page <= endPage
        invariant startPage <= page <= endPage + 1 && Valid()
        invariant known ==> RegionShown(m, xpos, endSeg, startPage, endPage, page, beyond)
      {
        ShowRegionPart(xpos, endSeg, startPage, endPage, page, beyond, m);
        page := page + 1;
      }
      if known {
        RegionDone(m, xpos, endSeg, startPage, endPage, page, beyond);
      }
    }

    /** `ssd1306_bitmaps`: draws, then shows the touched pages. */
    method Bitmaps(xpos: nat, ypos: nat, bitmap: seq<bv8>, w: nat, height: nat, invert: bool, beyond: nat -> bv8)
      requires Valid() && Wired() && height * (w / 8) <= |bitmap| && xpos < segs.Length1
      modifies segs, this`panel, this`transfers, this`shown
      ensures Valid()
      ensures w % 8 != 0 ==> Mem() == old(Mem())
      ensures w % 8 == 0 ==>
                Picture() == StampedRows(old(Picture()), xpos, ypos % ROWS, bitmap, w / 8, height, invert)
      ensures w % 8 == 0 && ypos < ROWS && ypos + height <= ROWS ==>
                Picture() == Blitted(old(Picture()), xpos, ypos, bitmap, w / 8, height, invert)
      ensures ypos < ROWS && ypos + height <= ROWS && old(Synced()) ==>
                if Overruns(xpos, xpos + w - 1, ypos / 8, LastPage(ypos, height))
                then Spilled(LastPage(ypos, height), Beyond(xpos + w - segs.Length1, beyond))
                else Synced()
    {
      hide PictureOf, Blitted, StampedRows, Mirrors, Outside, LinkOk, Spilled, Overruns, Beyond;
      ghost var m := Mem();
      assert xpos % 256 == xpos;
      Blit(xpos, ypos, bitmap, w, height, invert);
      if ypos < ROWS && ypos + height <= ROWS {
        assert ypos % ROWS == ypos;
        BitmapOutside(m, Mem(), xpos, ypos, w, height);
      }
      hide LastPage;
      var endPage := LastPage(ypos, height);
      ShowRegion(xpos, xpos + w - 1, ypos / 8, endPage, beyond, m);
    }

    // ----- Enlarged text

    /** The stretched columns of one character. */
    method StretchGlyph(c: nat) returns (outColumns: array<bv32>)
      requires Valid() && c < |font|
      ensures fresh(outColumns) && outColumns.Length == 8
      ensures forall x :: 0 <= x < 8 ==> outColumns[x] == Stretched(font[c][x], 8)
    {
      hide Stretched;
      outColumns := new bv32[8];
      for xx := 0 to 8
        invariant forall x :: 0 <= x < xx ==> outColumns[x] == Stretched(font[c][x], 8)
      {
        outColumns[xx] := StretchColumn(font[c][xx]);
      }
    }

    /** One of the three pages of an enlarged character. */
    method EnlargedPart(c: nat, outColumns: array<bv32>, yy: nat, invert: bool) returns (image: array<bv8>)
      requires Valid() && c < |font| && yy < 3 && outColumns.Length == 8
      requires forall x :: 0 <= x < 8 ==> outColumns[x] == Stretched(font[c][x], 8)
      ensures fresh(image) && image[..] == Shaded(TripledImage(font[c], yy), invert, flip)
    {
      hide Stretched, ByteOf, Tripled, Shaded;
      image := new bv8[24];
      for xx := 0 to 8
        invariant forall x :: 0 <= x < 3 * xx ==> image[x] == Tripled(font[c][x / 3], yy)
      {
        StretchedIsTripled(font[c][xx], yy);
        var byte := ByteOf(outColumns[xx], yy);
        image[xx * 3 + 0] := byte;
        image[xx * 3 + 1] := byte;
        image[xx * 3 + 2] := byte;
      }
      assert image[..] == TripledImage(font[c], yy);
      ShadedTwice(TripledImage(font[c], yy), invert);
      if invert {
        InvertBuffer(image);
      }
      if flip {
        FlipBuffer(image);
      }
    }

    /** One enlarged character: three images on consecutive pages. */
    method WriteEnlarged(page: nat, seg: nat, c: nat, invert: bool)
      requires Valid() && Wired() && c < |font| && page + 2 < segs.Length0 && seg + 24 <= segs.Length1
      modifies segs, this`panel, this`transfers, this`shown
      ensures Valid() && (old(Synced()) ==> Synced())
      ensures Mem() == ThreeRows(old(Mem()), page, seg, Shaded(TripledImage(font[c], 0), invert, flip),
                                 Shaded(TripledImage(font[c], 1), invert, flip),
                                 Shaded(TripledImage(font[c], 2), invert, flip))
    {
      hide Synced, Overwritten, Shaded, TripledImage, Stretched, ImageShown, LinkOk;
      var outColumns := StretchGlyph(c);
      var image := EnlargedPart(c, outColumns, 0, invert);
      DisplayImage(page, seg, image[..]);
      image := EnlargedPart(c, outColumns, 1, invert);
      DisplayImage(page + 1, seg, image[..]);
      image := EnlargedPart(c, outColumns, 2, invert);
      DisplayImage(page + 2, seg, image[..]);
    }

    /** The character loop of `ssd1306_display_text_x3`. */
    method WriteEnlargedText(page: nat, text: seq<nat>, invert: bool)
      requires Valid() && Wired() && Printable(font, text) && page + 2 < segs.Length0 && 24 * |text| <= segs.Length1
      modifies segs, this`panel, this`transfers, this`shown
      ensures Valid() && (old(Synced()) ==> Synced())
      ensures Mem() == EnlargedRows(old(Mem()), page, font, text, invert, flip)
    {
      hide Synced, ThreeRows, EnlargedRows, Shaded, TripledImage;
      ghost var m := Mem();
      EnlargedStart(m, page, font, text, invert, flip);
      var seg := 0;
      for nn := 0 to |text|
        invariant Valid() && seg == 24 * nn && (old(Synced()) ==> Synced())
        invariant Mem() == EnlargedRows(m, page, font, text[..nn], invert, flip)
      {
        EnlargedNext(m, page, font, text, nn, invert, flip);
        WriteEnlarged(page, seg, text[nn], invert);
        seg := seg + 24;
      }
      assert text[..|text|] == text;
    }

    /** `ssd1306_display_text_x3`: at most five characters, three pages high. */
    method DisplayTextX3(page: nat, text: seq<nat>, textLen: int, invert: bool)
      requires Valid() && Wired() && Printable(font, text) && textLen <= |text|
      requires page < pages ==> 24 * TextLength(textLen, 5) <= segs.Length1
      requires page < pages && TextLength(textLen, 5) > 0 ==> page + 2 < segs.Length0
      modifies segs, this`panel, this`transfers, this`shown
      ensures Valid() && (old(Synced()) ==> Synced())
      ensures page >= pages || textLen <= 0 ==> Mem() == old(Mem())
      ensures page < pages && textLen > 0 ==>
                Mem() == EnlargedRows(old(Mem()), page, font, text[..if textLen > 5 then 5 else textLen], invert, flip)
    {
      hide Synced, EnlargedRows;
      if page >= pages {
        return;
      }
      var length := textLen;
      if length > 5 {
        length := 5;
      }
      if length > 0 {
        WriteEnlargedText(page, text[..TextLength(length, 5)], invert);
      }
    }

    // ----- Software scroll

    /** What an accepted `SoftwareScroll` leaves behind. */
    ghost predicate ScrollArmed()
      reads this
    {
      scEnable ==> 0 <= scStart < pages && 0 <= scEnd < pages && scDirection == ScrollDirection(scStart, scEnd)
    }

    /** `ssd1306_software_scroll` */
    method SoftwareScroll(start: int, end: int)
      modifies this`scEnable, this`scStart, this`scEnd, this`scDirection
      ensures scEnable <==> 0 <= start < pages && 0 <= end < pages
      ensures scEnable ==> scStart == start && scEnd == end && scDirection == (if start > end then -1 else 1)
      ensures ScrollArmed()
    {
      if start < 0 || end < 0 {
        scEnable := false;
      } else if start >= pages || end >= pages {
        scEnable := false;
      } else {
        scEnable := true;
        scStart := start;
        scEnd := end;
        scDirection := 1;
        if start > end {
          scDirection := -1;
        }
      }
    }

    /** The visible bytes of a page copied over those of another. */
    method CopyVisible(dst: nat, src: nat)
      requires Valid() && dst < pages && src < pages && dst != src
      modifies segs
      ensures Mem() == old(Mem())[dst := Copied(old(Mem())[src], old(Mem())[dst], width)]
    {
      hide Copied;
      ghost var m := Mem();
      CopyStart(m[src], m[dst]);
      for seg := 0 to width
        invariant Mem() == m[dst := Copied(m[src], m[dst], seg)]
      {
        CopyStep(m[src], m[dst], seg);
        Store(dst, seg, segs[src, seg]);
      }
    }

    /** One turn of the scroll loop: a page takes the visible bytes of its neighbour and is shown. */
    method ScrollPage(dst: nat, src: nat)
      requires Valid() && Wired() && dst < pages && src < pages && dst != src
      modifies segs, this`panel, this`transfers
      ensures Valid() && (old(Synced()) ==> Synced())
      ensures Mem() == old(Mem())[dst := Copied(old(Mem())[src], old(Mem())[dst], width)]
    {
      hide Overwritten, ImageShown, Mirrors, Copied, LinkOk;
      ghost var m := Mem();
      CopyVisible(dst, src);
      var row := seq(segs.Length1, x requires 0 <= x < segs.Length1 reads segs => segs[dst, x]);
      assert row == Mem()[dst];
      ghost var ram := panel.ram;
      WholeRow(m[dst], row);
      SendImage(dst, 0, row);
      SyncKept(ram, m, dst, 0, row);
    }

    /** The scroll loop, from the far end of the range back to its start. */
    method ScrollRange()
      requires Valid() && Wired() && ScrollArmed() && scEnable && scStart != scEnd
      modifies segs, this`panel, this`transfers
      ensures Valid() && (old(Synced()) ==> Synced())
      ensures Mem() == RangeScrolled(old(Mem()), width, scStart, scEnd)
    {
      hide Copied, Synced, PartlyScrolled, RangeScrolled;
      ghost var m := Mem();
      var srcIndex := scEnd - scDirection;
      ghost var turn := 0;
      PartlyScrolledStart(m, width, scStart, scEnd);
      PartlyScrolledEnd(m, width, scStart, scEnd);
      while true
        invariant Valid() && (old(Synced()) ==> Synced())
        invariant InLoop(scStart, scEnd, srcIndex) && srcIndex == SourceIndex(scStart, scEnd, turn)
        invariant Mem() == PartlyScrolled(m, width, scStart, scEnd, srcIndex)
        decreases if scStart < scEnd then srcIndex - scStart else scStart - srcIndex
      {
        var dstIndex := srcIndex + scDirection;
        PartlyScrolledStep(m, width, scStart, scEnd, srcIndex);
        ScrollPage(dstIndex, srcIndex);
        if srcIndex == scStart {
          break;
        }
        srcIndex := srcIndex - scDirection;
        turn := turn + 1;
      }
    }

    /** `ssd1306_scroll_text`: the range moves on by one page and the new line appears at its start. */
    method ScrollText(text: seq<nat>, textLen: int, invert: bool)
      requires Valid() && Wired() && ScrollArmed() && Printable(font, text) && textLen <= |text|
      requires scEnable ==> scStart != scEnd && 8 * TextLength(textLen, 16) <= segs.Length1
      modifies segs, this`panel, this`transfers, this`shown
      ensures Valid() && (old(Synced()) ==> Synced())
      ensures !scEnable ==> Mem() == old(Mem())
      ensures scEnable ==>
                var n := if textLen < 0 then 0 else if textLen > 16 then 16 else textLen;
                var strip := Strip(font, text[..n], invert, flip);
                Mem() == RangeScrolled(old(Mem()), width, scStart, scEnd)
                           [scStart := Overwritten(old(Mem())[scStart], 0, strip)]
    {
      hide Copied, Synced, Overwritten, Strip;
      if !scEnable {
        return;
      }
      ScrollRange();
      DisplayText(scStart, text, textLen, invert);
    }

    // ----- Scrolling and showing

    /** The refresh loop after a scroll: every page, every column. */
    method ShowPages()
      requires Valid() && Wired()
      modifies this`panel, this`transfers, this`refreshed
      ensures Valid() && Synced() && refreshed == old(transfers) <= transfers
    {
      hide ImageShown;
      refreshed := transfers;
      for page := 0 to pages
        invariant panel.Valid() && refreshed == old(transfers) <= transfers
        invariant LinkOk() ==> forall q, x :: 0 <= q < page && 0 <= x < width ==>
                               panel.ram[PanelPage(q, pages, flip)][x] == Mem()[q][x]
      {
        ghost var ram := panel.ram;
        var row := seq(segs.Length1, x requires 0 <= x < segs.Length1 reads segs => segs[page, x]);
        assert row == Mem()[page];
        SendImage(page, 0, row);
        forall q, x | LinkOk() && 0 <= q <= page && 0 <= x < width
          ensures panel.ram[PanelPage(q, pages, flip)][x] == Mem()[q][x]
        {
          FullRowShown(ram, Mem(), pages, width, flip, page, q, x);
        }
      }
    }

    /**
      `ssd1306_wrap_arround`: one step of a cyclic scroll, then a refresh of the panel unless `delay` is
      negative. `start` and `end` are pages for the horizontal scrolls and columns for the vertical ones.
     */
    method WrapAround(scroll: Scroll, start: nat, end: int, delay: int)
      requires Valid() && (delay >= 0 ==> Wired())
      modifies segs, this`panel, this`transfers, this`refreshed
      ensures Valid() && Picture() == Wrapped(old(Picture()), scroll, pages, width, start, end)
      ensures delay >= 0 ==> Synced()
      ensures delay < 0 ==> panel == old(panel) && transfers == old(transfers) && refreshed == old(refreshed)
    {
      hide PictureOf, Panned, Scrolled, Mirrors;
      PictureShape();
      match scroll {
        case ScrollRight => ScrollPages(true, start, end);
        case ScrollLeft => ScrollPages(false, start, end);
        case ScrollUp => ScrollColumnsUp(start, end);
        case ScrollDown => ScrollColumnsDown(start, end);
        case PageScrollDown => ScrollPagesDown();
        case PageScrollUp => ScrollPagesUp();
        case ScrollStop =>
      }
      if delay >= 0 {
        ShowPages();
      }
    }

    // ----- Whole runs

    /** What the source asks of a caller: coordinates on the panel, text within the row, a range of two pages. */
    ghost predicate InRange(call: Call)
      requires IsFont(font)
      reads this`pages
    {
      match call
      case Image(page, seg, images) => page < segs.Length0 && seg + |images| <= segs.Length1
      case Text(page, text, textLen, _) =>
        Printable(font, text) && textLen <= |text| && (page < pages ==> 8 * TextLength(textLen, 16) <= segs.Length1)
      case TextBox1(page, seg, text, boxWidth, textLen, _) =>
        && Printable(font, text) && boxWidth <= |text| && textLen <= |text|
        && (page < pages && boxWidth == 0 && textLen > 0 ==> seg >= 1)
      case TextBox2(page, seg, text, boxWidth, textLen, _) =>
        && Printable(font, text) && textLen <= |text| && 0x20 < |font|
        && (page < pages && boxWidth == 0 && textLen > 0 ==> seg >= 1)
      case TextX3(page, text, textLen, _) =>
        && Printable(font, text) && textLen <= |text|
        && (page < pages ==> 24 * TextLength(textLen, 5) <= segs.Length1)
        && (page < pages && TextLength(textLen, 5) > 0 ==> page + 2 < segs.Length0)
      case Bitmap(xpos, _, bitmap, w, height, _) => height * (w / 8) <= |bitmap| && xpos < segs.Length1
      case ArmScroll(start, end) => start != end
      case ScrollLine(text, textLen, _) =>
        Printable(font, text) && textLen <= |text| && 8 * TextLength(textLen, 16) <= segs.Length1
      case Wrap(_, _, _, _) => true
      case ShowAll => true
      case SetPixel(xpos, ypos, _) => OnPanel(Point(xpos, ypos))
      case DrawLine(x1, y1, x2, y2, _) => OnPanel(Point(x1, y1)) && OnPanel(Point(x2, y2))
      case DrawCircle(x0, y0, r, opt, _) => AllOnPanel(CirclePoints(Point(x0, y0), r, opt))
      case DrawDisc(x0, y0, r, opt, _) => AllOnPanel(DiscPoints(Point(x0, y0), r, opt))
    }

    /** The scroll range is one that `ScrollText` can finish with. */
    ghost predicate ScrollReady()
      reads this
    {
      ScrollArmed() && (scEnable ==> scStart != scEnd)
    }

    /** The calls that show the whole buffer. */
    predicate Refreshes(call: Call) {
      call.ShowAll? || (call.Wrap? && call.delay >= 0)
    }

    /** The calls that show all they write: not the drawing ones, nor a box of width zero or a bitmap over the edge. */
    ghost predicate Keeps(call: Call)
      reads this`pages, this`width
    {
      match call
      case Image(_, _, _) => true
      case Text(_, _, _, _) => true
      case TextBox1(_, _, _, boxWidth, _, _) => boxWidth >= 1
      case TextBox2(_, _, _, boxWidth, _, _) => boxWidth >= 1
      case TextX3(_, _, _, _) => true
      case Bitmap(xpos, ypos, _, w, height, _) =>
        && ypos < ROWS && ypos + height <= ROWS
        && !Overruns(xpos, xpos + w - 1, ypos / 8, LastPage(ypos, height))
      case ArmScroll(_, _) => true
      case ScrollLine(_, _, _) => true
      case _ => false
    }

    /** Whether the panel is known to mirror the buffer after a run that started with `synced`. */
    ghost predicate InSyncAfter(synced: bool, calls: seq<Call>)
      reads this`pages, this`width
    {
      if calls == [] then synced
      else
        var call := calls[|calls| - 1];
        Refreshes(call) || (Keeps(call) && InSyncAfter(synced, calls[..|calls| - 1]))
    }

    lemma InSyncStep(synced: bool, calls: seq<Call>, call: Call)
      ensures InSyncAfter(synced, calls + [call]) <==> Refreshes(call) || (Keeps(call) && InSyncAfter(synced, calls))
    {
      assert (calls + [call])[..|calls|] == calls;
    }

    ghost function Now(): (v: View)
      reads this, segs
      ensures Shaped(v.mem, segs.Length0, segs.Length1)
    {
      View(Mem(), scEnable, scStart, scEnd)
    }

    ghost predicate Sized()
      reads this`pages, this`width
    {
      0 < pages <= segs.Length0 && 0 < width <= segs.Length1 && IsFont(font)
    }

    /** A buffer of the right size and a scroll range that `ScrollText` can finish with. */
    ghost predicate Sound(v: View)
      reads this`pages
    {
      && Shaped(v.mem, segs.Length0, segs.Length1)
      && (v.scEnable ==> 0 <= v.scStart < pages && 0 <= v.scEnd < pages && v.scStart != v.scEnd)
    }

    ghost function Seen(v: View): (pic: Picture)
      requires Sized() && Shaped(v.mem, segs.Length0, segs.Length1)
      reads this`pages, this`width, this`flip
      ensures |pic| == segs.Length1 && Rectangular(pic, 8 * pages)
    {
      PictureOf(v.mem, pages, segs.Length1, flip)
    }

    /** The operations that write the buffer alone, or show all of it. */
    predicate DrawsOrRefreshes(call: Call) {
      call.Wrap? || call.ShowAll? || call.SetPixel? || call.DrawLine? || call.DrawCircle? || call.DrawDisc?
    }

    /** A text box of width zero leaves the last column of the text before it. */
    ghost function EmptyBoxMade(page: nat, seg: nat, text: seq<nat>, textLen: int, invert: bool, v: View): View
      requires IsFont(font) && Printable(font, text) && textLen <= |text| && (textLen > 0 ==> seg >= 1)
      requires page < |v.mem| && seg <= |v.mem[page]|
      reads this`flip
    {
      v.(mem := BytesBefore(v.mem, page, seg, Strip(font, text[..TextLength(textLen, |text|)], invert, flip)))
    }

    /** What images and lines of text do to the buffer. */
    ghost predicate TextMade(call: Call, v: View, w: View)
      requires Sized() && InRange(call) && Sound(v) && Shaped(w.mem, segs.Length0, segs.Length1)
      requires call.Image? || call.Text? || call.TextX3?
      reads this`pages, this`width, this`flip
    {
      match call
      case Image(page, seg, images) =>
        w == v.(mem := v.mem[page := Overwritten(v.mem[page], seg, images)])
      case Text(page, text, textLen, invert) =>
        var strip := Strip(font, text[..TextLength(textLen, 16)], invert, flip);
        w == if page >= pages then v else v.(mem := v.mem[page := Overwritten(v.mem[page], 0, strip)])
      case TextX3(page, text, textLen, invert) =>
        w == if page >= pages || textLen <= 0 then v
             else v.(mem := EnlargedRows(v.mem, page, font, text[..TextLength(textLen, 5)], invert, flip))
    }

    /** What text boxes leave in the buffer. */
    ghost predicate BoxMade(call: Call, v: View, w: View)
      requires Sized() && InRange(call) && Sound(v) && Shaped(w.mem, segs.Length0, segs.Length1)
      requires call.TextBox1? || call.TextBox2?
      reads this`pages, this`width, this`flip
    {
      match call
      case TextBox1(page, seg, text, boxWidth, textLen, invert) =>
        w == if page >= pages || seg + 8 * boxWidth > width then v
             else if boxWidth >= 1 then v.(mem := After1(v.mem, page, seg, text, boxWidth, textLen, invert))
             else EmptyBoxMade(page, seg, text, textLen, invert, v)
      case TextBox2(page, seg, text, boxWidth, textLen, invert) =>
        var strip := Strip(font, Blanks(boxWidth), invert, flip);
        w == if page >= pages || seg + 8 * boxWidth > width then v
             else if boxWidth >= 1 then v.(mem := v.mem[page := Overwritten(v.mem[page], seg, strip)])
             else EmptyBoxMade(page, seg, text, textLen, invert, v)
    }

    /** What the software scroll does to its range and to the buffer. */
    ghost predicate ScrollMade(call: Call, v: View, w: View)
      requires Sized() && InRange(call) && Sound(v) && Shaped(w.mem, segs.Length0, segs.Length1)
      requires call.ArmScroll? || call.ScrollLine?
      reads this`pages, this`width, this`flip
    {
      match call
      case ArmScroll(start, end) =>
        && w.mem == v.mem && (w.scEnable <==> 0 <= start < pages && 0 <= end < pages)
        && (w.scEnable ==> w.scStart == start && w.scEnd == end)
      case ScrollLine(text, textLen, invert) =>
        var strip := Strip(font, text[..TextLength(textLen, 16)], invert, flip);
        w == if !v.scEnable then v
             else v.(mem := RangeScrolled(v.mem, width, v.scStart, v.scEnd)
                              [v.scStart := Overwritten(v.mem[v.scStart], 0, strip)])
    }

    /** What a bitmap does to the picture. */
    ghost predicate BitmapMade(call: Call, v: View, w: View)
      requires Sized() && InRange(call) && Sound(v) && Shaped(w.mem, segs.Length0, segs.Length1)
      requires call.Bitmap?
      reads this`pages, this`width, this`flip
    {
      match call
      case Bitmap(xpos, ypos, bitmap, bitmapWidth, height, invert) =>
        && w == v.(mem := w.mem) && (bitmapWidth % 8 != 0 ==> w == v)
        && (bitmapWidth % 8 == 0 ==>
              Seen(w) == StampedRows(Seen(v), xpos, ypos % ROWS, bitmap, bitmapWidth / 8, height, invert))
    }

    /** What a call that writes buffer and panel does to the buffer and the scroll range. */
    ghost predicate ShowMade(call: Call, v: View, w: View)
      requires Sized() && InRange(call) && Sound(v) && Shaped(w.mem, segs.Length0, segs.Length1)
      requires !DrawsOrRefreshes(call)
      reads this`pages, this`width, this`flip
    {
      if call.TextBox1? || call.TextBox2? then BoxMade(call, v, w)
      else if call.ArmScroll? || call.ScrollLine? then ScrollMade(call, v, w)
      else if call.Bitmap? then BitmapMade(call, v, w)
      else TextMade(call, v, w)
    }

    /** What a call that draws or refreshes does to the picture. */
    ghost predicate DrawMade(call: Call, v: View, w: View)
      requires Sized() && Shaped(v.mem, segs.Length0, segs.Length1) && Shaped(w.mem, segs.Length0, segs.Length1)
      requires DrawsOrRefreshes(call)
      reads this`pages, this`width, this`flip
    {
      && w == v.(mem := w.mem)
      && match call
         case Wrap(scroll, first, last, _) => Seen(w) == Wrapped(Seen(v), scroll, pages, width, first, last)
         case ShowAll => w == v
         case SetPixel(xpos, ypos, invert) => Seen(w) == PlottedOne(Seen(v), Point(xpos, ypos), !invert, flip)
         case DrawLine(x1, y1, x2, y2, invert) =>
           Seen(w) == Plotted(Seen(v), LinePath(Point(x1, y1), Point(x2, y2)), !invert, flip)
         case DrawCircle(x0, y0, r, opt, invert) =>
           Seen(w) == Plotted(Seen(v), CirclePath(Point(x0, y0), r, opt), !invert, flip)
         case DrawDisc(x0, y0, r, opt, invert) =>
           Seen(w) == Plotted(Seen(v), DiscPath(Point(x0, y0), r, opt), !invert, flip)
    }

    /** The call has been made: what is there afterwards follows from what was there before. */
    ghost predicate Made(call: Call, v: View, w: View)
      reads this`pages, this`width, this`flip
    {
      && Sized() && InRange(call) && Sound(v) && Sound(w)
      && if DrawsOrRefreshes(call) then DrawMade(call, v, w) else ShowMade(call, v, w)
    }

    /** Images and lines of text. */
    method ShowText(call: Call)
      requires Valid() && Wired() && ScrollReady() && InRange(call) && (call.Image? || call.Text? || call.TextX3?)
      modifies segs, this`panel, this`transfers, this`shown
      ensures Valid() && ScrollReady() && (old(Synced()) && Keeps(call) ==> Synced())
      ensures ShowMade(call, old(Now()), Now())
    {
      hide Synced, Overwritten, Strip, EnlargedRows, LinkOk, Picture, Bit, Mem;
      match call {
        case Image(page, seg, images) => DisplayImage(page, seg, images);
        case Text(page, text, textLen, invert) => DisplayText(page, text, textLen, invert);
        case TextX3(page, text, textLen, invert) => DisplayTextX3(page, text, textLen, invert);
      }
    }

    /** The first text box. */
    method ShowBox1(call: Call)
      requires Valid() && Wired() && ScrollReady() && InRange(call) && call.TextBox1?
      modifies segs, this`panel, this`transfers, this`shown
      ensures Valid() && ScrollReady() && (old(Synced()) && Keeps(call) ==> Synced())
      ensures ShowMade(call, old(Now()), Now())
    {
      hide After1, Synced, Overwritten, Strip, BoxShown, BytesBefore, LinkOk, Mem;
      DisplayTextBox1(call.page, call.seg, call.text, call.boxWidth, call.textLen, call.invert);
    }

    /** The second text box. */
    method ShowBox2(call: Call)
      requires Valid() && Wired() && ScrollReady() && InRange(call) && call.TextBox2?
      modifies segs, this`panel, this`transfers, this`shown
      ensures Valid() && ScrollReady() && (old(Synced()) && Keeps(call) ==> Synced())
      ensures ShowMade(call, old(Now()), Now())
    {
      hide Synced, Overwritten, Strip, BoxShown, BytesBefore, LinkOk, Mem, Blanks;
      DisplayTextBox2(call.page, call.seg, call.text, call.boxWidth, call.textLen, call.invert);
    }

    lemma SeenNow()
      requires Valid()
      ensures Picture() == Seen(Now())
    {
    }

    /** Bitmaps, whatever lies behind the buffer. */
    method ShowBitmap(call: Call)
      requires Valid() && Wired() && ScrollReady() && InRange(call) && (call.Bitmap?)
      modifies segs, this`panel, this`transfers, this`shown
      ensures Valid() && ScrollReady() && (old(Synced()) && Keeps(call) ==> Synced())
      ensures ShowMade(call, old(Now()), Now())
    {
      hide Synced, Blitted, StampedRows, Spilled, Overruns, Picture, Seen;
      SeenNow();
      var beyond: nat -> bv8 := *;
      Bitmaps(call.xpos, call.ypos, call.bitmap, call.w, call.height, call.invert, beyond);
      SeenNow();
    }

    /** Setting up the software scroll, and a line that scrolls. */
    method ShowScroll(call: Call)
      requires Valid() && Wired() && ScrollReady() && InRange(call) && (call.ArmScroll? || call.ScrollLine?)
      modifies segs, this`panel, this`transfers, this`shown
      modifies this`scEnable, this`scStart, this`scEnd, this`scDirection
      ensures Valid() && ScrollReady() && (old(Synced()) && Keeps(call) ==> Synced())
      ensures ShowMade(call, old(Now()), Now())
    {
      hide Overwritten, Strip, RangeScrolled, LinkOk, Mirrors, PictureOf;
      match call {
        case ArmScroll(start, end) => SoftwareScroll(start, end);
        case ScrollLine(text, textLen, invert) => ScrollText(text, textLen, invert);
      }
    }

    /** The operations that write buffer and panel together: those that show all they write keep the mirror. */
    method Show(call: Call)
      requires Valid() && Wired() && ScrollReady() && InRange(call) && !DrawsOrRefreshes(call)
      modifies segs, this`panel, this`transfers, this`shown, this`scEnable, this`scStart, this`scEnd, this`scDirection
      ensures Valid() && ScrollReady() && (old(Synced()) && Keeps(call) ==> Synced())
      ensures ShowMade(call, old(Now()), Now())
    {
      hide Synced, ShowMade, Keeps, InRange, ScrollReady;
      if call.TextBox1? {
        ShowBox1(call);
      } else if call.TextBox2? {
        ShowBox2(call);
      } else if call.Bitmap? {
        ShowBitmap(call);
      } else if call.ArmScroll? || call.ScrollLine? {
        ShowScroll(call);
      } else {
        ShowText(call);
      }
    }

    /** The operations that write the buffer alone may lose the mirror; those that show all of it establish it. */
    method DrawOrRefresh(call: Call)
      requires Valid() && Wired() && ScrollReady() && InRange(call) && DrawsOrRefreshes(call)
      modifies segs, this`panel, this`transfers, this`refreshed
      ensures Valid() && ScrollReady() && (Refreshes(call) ==> Synced())
      ensures DrawMade(call, old(Now()), Now())
    {
      hide Synced, Picture, Seen, Painted, Plotted, PlottedOne, Wrapped, CirclePoints, CirclePath, DiscPoints, DiscPath,
           LinePoints, LinePath, Mirrors, Symmetric, Logical, PutBit;
      SeenNow();
      match call {
        case Wrap(scroll, first, last, delay) => WrapAround(scroll, first, last, delay);
        case ShowAll => ShowBuffer();
        case SetPixel(xpos, ypos, invert) => Pixel(xpos, ypos, invert);
        case DrawLine(x1, y1, x2, y2, invert) => Line(x1, y1, x2, y2, invert);
        case DrawCircle(x0, y0, r, opt, invert) => Circle(x0, y0, r, opt, invert);
        case DrawDisc(x0, y0, r, opt, invert) => Disc(x0, y0, r, opt, invert);
      }
      SeenNow();
    }

    /** Calls that show all they write leave it as it was whether the mirror is known. */
    lemma {:induction false} ShowingRun(synced: bool, before: seq<Call>, after: seq<Call>)
      requires forall i :: 0 <= i < |after| ==>
                 var c := after[i];
                 || c.Image? || c.Text? || c.TextX3? || c.ArmScroll? || c.ScrollLine?
                 || (c.TextBox1? && c.boxWidth >= 1) || (c.TextBox2? && c.boxWidth >= 1)
                 || (c.Bitmap? && c.xpos + c.w <= segs.Length1 && c.ypos < 2048 && c.ypos + c.height <= 2048)
      ensures InSyncAfter(synced, before + after) == InSyncAfter(synced, before)
    {
      hide InSyncAfter;
      if after == [] {
        assert before + after == before;
      } else {
        var n := |after| - 1;
        ShowingRun(synced, before, after[..n]);
        InSyncStep(synced, before + after[..n], after[n]);
        assert before + after == before + after[..n] + [after[n]];
      }
    }

    lemma InSyncNothing(synced: bool)
      ensures InSyncAfter(synced, []) == synced
    {
    }

    /**
      When the mirror is known: at the start if it was, after calls that show all they write if it was before
      them, and from a refresh on whatever came before.
     */
    lemma MirrorOverRuns(synced: bool, before: seq<Call>, refresh: Call, after: seq<Call>)
      requires forall i :: 0 <= i < |after| ==>
                 var c := after[i];
                 || c.Image? || c.Text? || c.TextX3? || c.ArmScroll? || c.ScrollLine?
                 || (c.TextBox1? && c.boxWidth >= 1) || (c.TextBox2? && c.boxWidth >= 1)
                 || (c.Bitmap? && c.xpos + c.w <= segs.Length1 && c.ypos < 2048 && c.ypos + c.height <= 2048)
      ensures InSyncAfter(synced, []) == synced
      ensures InSyncAfter(synced, before + after) == InSyncAfter(synced, before)
      ensures refresh.ShowAll? || (refresh.Wrap? && refresh.delay >= 0) ==>
                InSyncAfter(synced, before + [refresh] + after)
    {
      InSyncNothing(synced);
      InSyncStep(synced, before, refresh);
      hide InSyncAfter;
      ShowingRun(synced, before, after);
      ShowingRun(synced, before + [refresh], after);
    }

    lemma DrawsNotKeeps(call: Call)
      ensures DrawsOrRefreshes(call) ==> !Keeps(call)
      ensures Refreshes(call) ==> DrawsOrRefreshes(call)
    {
    }

    lemma ReadyNow()
      requires Valid() && ScrollReady()
      ensures Sound(Now())
    {
    }

    /**
      Any sequence of calls: operations that show all they write keep the panel a mirror of the buffer, others
      may break that, and the next refresh restores it.
     */
    method Session(calls: seq<Call>) returns (ghost views: seq<View>)
      requires Valid() && Wired() && ScrollReady()
      requires forall i :: 0 <= i < |calls| ==> InRange(calls[i])
      modifies segs, this`panel, this`transfers, this`refreshed, this`shown
      modifies this`scEnable, this`scStart, this`scEnd, this`scDirection
      ensures Valid() && ScrollReady()
      ensures InSyncAfter(old(Synced()), calls) ==> Synced()
      ensures InSyncAfter(old(Synced()), calls) && (forall k: nat :: refreshed <= k < transfers ==> outcomes(k)) ==>
                forall x, y :: 0 <= x < width && 0 <= y < 8 * pages ==>
                  var row := if flip then 8 * pages - 1 - y else y;
                  Picture()[x][y] == Bit(panel.ram[row / 8][x], row % 8)
      ensures |views| == |calls| + 1 && views[0] == old(Now()) && views[|calls|] == Now()
      ensures forall i :: 0 <= i < |calls| ==> Made(calls[i], views[i], views[i + 1])
    {
      hide Synced, ScrollReady, InSyncAfter, Keeps, InRange, ShowMade, DrawMade, Picture, Bit;
      assert calls[..0] == [];
      InSyncNothing(Synced());
      ReadyNow();
      views := [Now()];
      for i := 0 to |calls|
        invariant Valid() && ScrollReady()
        invariant forall k :: 0 <= k < |calls| ==> InRange(calls[k])
        invariant InSyncAfter(old(Synced()), calls[..i]) ==> Synced()
        invariant |views| == i + 1 && views[0] == old(Now()) && views[i] == Now()
        invariant Sound(views[i])
        invariant forall k :: 0 <= k < i ==> Made(calls[k], views[k], views[k + 1])
      {
        InSyncStep(old(Synced()), calls[..i], calls[i]);
        assert calls[..i + 1] == calls[..i] + [calls[i]];
        if DrawsOrRefreshes(calls[i]) {
          DrawsNotKeeps(calls[i]);
          DrawOrRefresh(calls[i]);
        } else {
          DrawsNotKeeps(calls[i]);
          Show(calls[i]);
        }
        ReadyNow();
        views := views + [Now()];
      }
      assert calls[..|calls|] == calls;
      if Synced() && LinkOk() {
        SyncedMeans();
      }
    }

    // ----- Life cycle

    /**
      `ssd1306_init`: 8 pages, or 4 for a panel 32 rows high; an empty buffer; whatever the panel's own
      memory held at power-up.
     */
    constructor (transport: Transport, font: Font, width: nat, height: nat, flip: bool, panel: Panel,
                 outcomes: nat -> bool)
      requires IsFont(font) && 0 < width <= COLUMNS && panel.Valid()
      ensures Valid() && Wired() && fresh(segs) && !scEnable && ScrollArmed()
      ensures this.flip == flip && this.outcomes == outcomes && LinkOk()
      ensures segs.Length0 == PAGES && segs.Length1 == COLUMNS
      ensures this.transport == transport && this.font == font && this.width == width && this.panel == panel
      ensures pages == if height == 32 then 4 else 8
      ensures forall x, y :: 0 <= x < COLUMNS && 0 <= y < 8 * pages ==> !Picture()[x][y]
    {
      this.transport := transport;
      this.font := font;
      this.width := width;
      this.pages := if height == 32 then 4 else 8;
      this.flip := flip;
      this.panel := panel;
      this.outcomes := outcomes;
      this.transfers := 0;
      this.refreshed := 0;
      this.shown := [];
      this.scEnable := false;
      this.scStart := 0;
      this.scEnd := 0;
      this.scDirection := 1;
      segs := new bv8[PAGES, COLUMNS];
      new;
      forall p, x | 0 <= p < pages && 0 <= x < COLUMNS {
        segs[p, x] := 0;
      }
      hide Bit, Reversed;
      NoBits();
    }
  }

  lemma {:induction false} SourceIndexIs(start: int, end: int, k: nat)
    ensures SourceIndex(start, end, k) == if start > end then end + 1 + k else end - 1 - k
  {
    if k > 0 {
      SourceIndexIs(start, end, k - 1);
    }
  }

  /**
    The loop of `ssd1306_scroll_text` stops only when its source page is the start of the range. It gets
    there, and by pages of the panel only, exactly when the range has two different ends; an accepted range
    of a single page runs off the buffer.
   */
  lemma ScrollLoopStops(start: nat, end: nat, pages: nat)
    requires start < pages && end < pages
    ensures (exists k: nat :: SourceIndex(start, end, k) == start) <==> start != end
    ensures start != end ==>
              exists k: nat ::
                && SourceIndex(start, end, k) == start
                && forall j: nat :: j <= k ==> 0 <= SourceIndex(start, end, j) < pages
    ensures start == end ==> exists k: nat :: SourceIndex(start, end, k) < 0
  {
    forall k: nat
      ensures SourceIndex(start, end, k) == if start > end then end + 1 + k else end - 1 - k
    {
      SourceIndexIs(start, end, k);
    }
    if start < end {
      assert SourceIndex(start, end, end - 1 - start) == start;
    } else if start > end {
      assert SourceIndex(start, end, start - 1 - end) == start;
    } else {
      assert SourceIndex(start, end, end) < 0;
    }
  }

  /**
    Pixel (x, y) of a line of text that starts at column `start` of `page` is pixel ((x - start) % 8, y % 8) of
    the glyph of its character, inverted on request, on a flipped display as well; every other pixel keeps its
    value.
   */
  lemma TextPixel(m: Memory, page: nat, start: nat, font: Font, text: seq<nat>, invert: bool, flip: bool,
                  x: nat, y: nat)
    requires page < |m| && IsFont(font) && Printable(font, text) && start + 8 * |text| <= |m[page]|
    requires y / 8 < |m| && x < |m[y / 8]|
    ensures Lit(m[page := Overwritten(m[page], start, Strip(font, text, invert, flip))], flip, x, y)
         == if start <= x < start + 8 * |text| && y / 8 == page
            then Bit(font[text[(x - start) / 8]][(x - start) % 8], y % 8) != invert
            else Lit(m, flip, x, y)
  {
    hide Bit, Strip, Reversed, Invert;
    if start <= x < start + 8 * |text| && y / 8 == page {
      StripColumn(font, text, x - start, invert, flip);
    }
  }

  /** Page by page, what a line of enlarged characters does. */
  lemma EnlargedRow(m: Memory, page: nat, font: Font, text: seq<nat>, invert: bool, flip: bool, p: nat)
    requires page + 2 < |m| && IsFont(font) && Printable(font, text) && p < |m|
    requires 24 * |text| <= |m[page]| && 24 * |text| <= |m[page + 1]| && 24 * |text| <= |m[page + 2]|
    ensures EnlargedRows(m, page, font, text, invert, flip)[p]
         == if page <= p <= page + 2 then Overwritten(m[p], 0, TripledStrip(font, text, p - page, invert, flip))
            else m[p]
  {
    hide TripledStrip, Overwritten;
  }

  /** One pixel of one page of an enlarged line. */
  lemma EnlargedBit(font: Font, text: seq<nat>, invert: bool, flip: bool, part: nat, x: nat, k: nat)
    requires IsFont(font) && Printable(font, text) && part < 3 && x < 24 * |text| && k < 8
    ensures Bit(Logical(TripledStrip(font, text, part, invert, flip)[x], flip), k)
         == (Bit(font[text[x / 24]][x % 24 / 3], (8 * part + k) / 3) != invert)
  {
    hide Bit, TripledStrip, TripledImage, Reversed, Invert;
    var g := font[text[x / 24]];
    TripledStripColumn(font, text, part, x, invert, flip);
    var b := TripledImage(g, part)[x % 24];
    ReversedInvolution(if invert then Invert(b) else b);
    assert (8 * part + k) / 8 == part && (8 * part + k) % 8 == k;
    TripledPixel(g, x % 24, 8 * part + k);
  }

  /**
    Pixel (x, y) of an enlarged line is pixel (x % 24 / 3, y / 3) of the glyph of character x / 24, inverted
    on request, on a flipped display as well; every other pixel keeps its value.
   */
  lemma EnlargedPixel(m: Memory, page: nat, font: Font, text: seq<nat>, invert: bool, flip: bool, x: nat, y: nat)
    requires page + 2 < |m| && IsFont(font) && Printable(font, text)
    requires 24 * |text| <= |m[page]| && 24 * |text| <= |m[page + 1]| && 24 * |text| <= |m[page + 2]|
    requires y / 8 < |m| && x < |m[y / 8]|
    ensures Lit(EnlargedRows(m, page, font, text, invert, flip), flip, x, y)
         == if x < 24 * |text| && 8 * page <= y < 8 * page + 24
            then Bit(font[text[x / 24]][x % 24 / 3], (y - 8 * page) / 3) != invert
            else Lit(m, flip, x, y)
  {
    hide Bit, TripledStrip, EnlargedRows, Overwritten, Logical;
    EnlargedRow(m, page, font, text, invert, flip, y / 8);
    if x < 24 * |text| && 8 * page <= y < 8 * page + 24 {
      EnlargedBit(font, text, invert, flip, y / 8 - page, x, y % 8);
      assert 8 * (y / 8 - page) + y % 8 == y - 8 * page;
    }
  }
}
