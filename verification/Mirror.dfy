/** The driver's buffer and the panel's memory side by side. */
module Mirror {
  import opened Bits
  import opened Panel
  import opened Pictures

  /** A flipped display numbers its pages from the other end. */
  function PanelPage(page: nat, pages: nat, flip: bool): nat
    requires page < pages
  {
    if flip then pages - page - 1 else page
  }

  /** Every visible byte of the buffer is on the panel, at its page and column. */
  ghost predicate Mirrors(ram: seq<seq<bv8>>, m: Memory, pages: nat, width: nat, flip: bool)
    requires pages <= |m| && pages <= |ram|
    requires forall p :: 0 <= p < |m| ==> width <= |m[p]|
    requires forall p :: 0 <= p < |ram| ==> width <= |ram[p]|
  {
    forall p, x :: 0 <= p < pages && 0 <= x < width ==> ram[PanelPage(p, pages, flip)][x] == m[p][x]
  }

  function Overwritten(row: seq<bv8>, seg: nat, data: seq<bv8>): (r: seq<bv8>)
    requires seg + |data| <= |row|
    ensures |r| == |row|
    ensures forall x :: 0 <= x < |row| ==> r[x] == if seg <= x < seg + |data| then data[x - seg] else row[x]
  {
    row[..seg] + data + row[seg + |data|..]
  }

  /** Two writes side by side are one longer write. */
  lemma OverwrittenTwice(row: seq<bv8>, seg: nat, a: seq<bv8>, b: seq<bv8>)
    requires seg + |a| + |b| <= |row|
    ensures Overwritten(Overwritten(row, seg, a), seg + |a|, b) == Overwritten(row, seg, a + b)
  {
  }

  /** A second write over the same columns replaces the first. */
  lemma OverwrittenAgain(row: seq<bv8>, seg: nat, a: seq<bv8>, b: seq<bv8>)
    requires |a| == |b| && seg + |a| <= |row|
    ensures Overwritten(Overwritten(row, seg, a), seg, b) == Overwritten(row, seg, b)
    ensures Overwritten(row, seg, []) == row
  {
  }

  /** The panel's memory after one image write; off-panel requests are dropped by the transports. */
  function ImageShown(ram: seq<seq<bv8>>, pages: nat, width: nat, flip: bool,
                      page: nat, seg: nat, data: seq<bv8>): (r: seq<seq<bv8>>)
    requires |ram| == PAGES && (forall p :: 0 <= p < PAGES ==> |ram[p]| == COLUMNS)
    requires pages <= PAGES && seg + |data| <= COLUMNS
    ensures |r| == PAGES && forall p :: 0 <= p < PAGES ==> |r[p]| == COLUMNS
  {
    if page < pages && seg < width then RowWritten(ram, PanelPage(page, pages, flip), seg, data) else ram
  }

  /** Writing the same bytes to both sides keeps them equal, whether or not the request is on the panel. */
  lemma MirrorKept(ram: seq<seq<bv8>>, m: Memory, pages: nat, width: nat, flip: bool,
                   page: nat, seg: nat, data: seq<bv8>)
    requires |ram| == PAGES && (forall p :: 0 <= p < PAGES ==> |ram[p]| == COLUMNS)
    requires pages <= |m| && pages <= PAGES && width <= COLUMNS
    requires forall p :: 0 <= p < |m| ==> width <= |m[p]| <= COLUMNS
    requires page < |m| && seg + |data| <= |m[page]|
    requires Mirrors(ram, m, pages, width, flip)
    ensures Mirrors(ImageShown(ram, pages, width, flip, page, seg, data),
                    m[page := Overwritten(m[page], seg, data)], pages, width, flip)
  {
  }

  /** Whatever the panel held, showing a whole row makes that page agree and leaves the other pages alone. */
  lemma RowShown(ram: seq<seq<bv8>>, m: Memory, pages: nat, width: nat, flip: bool, page: nat, q: nat, x: nat)
    requires |ram| == PAGES && (forall p :: 0 <= p < PAGES ==> |ram[p]| == COLUMNS)
    requires pages <= |m| && pages <= PAGES && 0 < width <= COLUMNS
    requires page < pages && width <= |m[page]| && q < pages && x < width
    ensures ImageShown(ram, pages, width, flip, page, 0, m[page][..width])[PanelPage(q, pages, flip)][x]
         == if q == page then m[page][x] else ram[PanelPage(q, pages, flip)][x]
  {
  }

  lemma FullRowShown(ram: seq<seq<bv8>>, m: Memory, pages: nat, width: nat, flip: bool, page: nat, q: nat, x: nat)
    requires |ram| == PAGES && (forall p :: 0 <= p < PAGES ==> |ram[p]| == COLUMNS)
    requires pages <= |m| && pages <= PAGES && 0 < width
    requires page < pages && width <= |m[page]| <= COLUMNS && q < pages && x < width
    ensures ImageShown(ram, pages, width, flip, page, 0, m[page])[PanelPage(q, pages, flip)][x]
         == if q == page then m[page][x] else ram[PanelPage(q, pages, flip)][x]
  {
  }

  /** An empty image shows nothing. */
  lemma NothingShown(ram: seq<seq<bv8>>, pages: nat, width: nat, flip: bool, page: nat, seg: nat)
    requires |ram| == PAGES && (forall p :: 0 <= p < PAGES ==> |ram[p]| == COLUMNS)
    requires pages <= PAGES && seg <= COLUMNS
    ensures ImageShown(ram, pages, width, flip, page, seg, []) == ram
  {
    if page < pages && seg < width {
      var q := PanelPage(page, pages, flip);
      assert ram[q][..seg] + [] + ram[q][seg..] == ram[q];
    }
  }

  lemma DifferentByte(b: bv8)
    ensures !b != b
  {
  }

  /**
    Bytes that follow a page whose end is the end of the panel's row start again at its column 0. Whatever
    they are, the mirror survives exactly if there are none.
   */
  lemma SpillLosesMirror(q: Panel, m: Memory, pages: nat, width: nat, flip: bool, page: nat, k: nat)
    requires q.Valid() && pages <= |m| && pages <= PAGES && 0 < width <= COLUMNS && page < pages
    requires forall p :: 0 <= p < |m| ==> width <= |m[p]|
    requires q.page == PanelPage(page, pages, flip) && q.col == 0 && Mirrors(q.ram, m, pages, width, flip)
    ensures (forall extra: seq<bv8> :: |extra| == k ==> Mirrors(Stream(q, true, extra).ram, m, pages, width, flip))
       <==> k == 0
  {
    if k > 0 {
      var b: bv8 := !m[page][0];
      var extra := seq(k, _ => b);
      assert extra[0] == b && extra[1..] == seq(k - 1, _ => b);
      SameByteStays(Data(q, b), k - 1, b);
      assert Stream(q, true, extra) == Stream(Data(q, b), true, extra[1..]);
      assert Stream(q, true, extra).ram[PanelPage(page, pages, flip)][0] == b;
      DifferentByte(m[page][0]);
      assert !Mirrors(Stream(q, true, extra).ram, m, pages, width, flip);
    }
  }

  lemma LogicalBit(b: bv8, flip: bool, k: nat)
    requires k < 8
    ensures Bit(Logical(b, flip), k) == Bit(b, if flip then 7 - k else k)
  {
    hide Bit, Reversed;
  }

  lemma LogicalBitsDetermineByte(a: bv8, b: bv8, flip: bool)
    requires forall k :: 0 <= k < 8 ==> Bit(Logical(a, flip), k) == Bit(Logical(b, flip), k)
    ensures a == b
  {
    hide Bit, Reversed;
    BitsDetermineByte(Logical(a, flip), Logical(b, flip));
    ReversedInvolution(a);
    ReversedInvolution(b);
  }

  /** Where row `y` of the picture lies on the glass: in the same place, or upside down. */
  lemma RowOnGlass(pages: nat, flip: bool, y: nat)
    requires y < 8 * pages
    ensures var row := if flip then 8 * pages - 1 - y else y;
            && row / 8 == PanelPage(y / 8, pages, flip) && row % 8 == if flip then 7 - y % 8 else y % 8
  {
  }

  /** One dot of the glass, as a pixel of the panel's memory read in the way the buffer is. */
  lemma DotOnGlass(ram: seq<seq<bv8>>, pages: nat, flip: bool, x: nat, y: nat)
    requires y < 8 * pages && pages <= |ram| && forall p :: 0 <= p < |ram| ==> x < |ram[p]|
    ensures var row := if flip then 8 * pages - 1 - y else y;
            Bit(ram[row / 8][x], row % 8) == Bit(Logical(ram[PanelPage(y / 8, pages, flip)][x], flip), y % 8)
  {
    hide Bit, Logical;
    RowOnGlass(pages, flip, y);
    LogicalBit(ram[PanelPage(y / 8, pages, flip)][x], flip, y % 8);
  }

  /**
    What the mirror means to the viewer: every visible pixel of the picture is the dot at its place on the
    glass, which a flipped display turns upside down.
   */
  lemma MirrorMeans(ram: seq<seq<bv8>>, m: Memory, pages: nat, width: nat, segs: nat, flip: bool)
    requires Shaped(m, |m|, segs) && pages <= |m| && pages <= |ram| && width <= segs
    requires forall p :: 0 <= p < |ram| ==> width <= |ram[p]|
    ensures Mirrors(ram, m, pages, width, flip) <==>
            forall x, y :: 0 <= x < width && 0 <= y < 8 * pages ==>
              var row := if flip then 8 * pages - 1 - y else y;
              PictureOf(m, pages, segs, flip)[x][y] == Bit(ram[row / 8][x], row % 8)
  {
    hide Bit, Logical;
    var pic := PictureOf(m, pages, segs, flip);
    forall x, y | 0 <= x < width && 0 <= y < 8 * pages
      ensures var row := if flip then 8 * pages - 1 - y else y;
              && pic[x][y] == Bit(Logical(m[y / 8][x], flip), y % 8)
              && Bit(ram[row / 8][x], row % 8) == Bit(Logical(ram[PanelPage(y / 8, pages, flip)][x], flip), y % 8)
    {
      DotOnGlass(ram, pages, flip, x, y);
      assert pic[x][y] == Lit(m, flip, x, y);
    }
    if forall x, y :: 0 <= x < width && 0 <= y < 8 * pages ==>
                        (var row := if flip then 8 * pages - 1 - y else y; pic[x][y] == Bit(ram[row / 8][x], row % 8)) {
      forall p, x | 0 <= p < pages && 0 <= x < width
        ensures ram[PanelPage(p, pages, flip)][x] == m[p][x]
      {
        var a, b := ram[PanelPage(p, pages, flip)][x], m[p][x];
        forall k | 0 <= k < 8
          ensures Bit(Logical(a, flip), k) == Bit(Logical(b, flip), k)
        {
          var y := 8 * p + k;
          assert y / 8 == p && y % 8 == k;
          assert pic[x][y] == Bit(Logical(b, flip), k);
        }
        LogicalBitsDetermineByte(a, b, flip);
      }
    }
  }
}
