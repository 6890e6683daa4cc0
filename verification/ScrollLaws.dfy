/** The algebra of `ssd1306_wrap_arround`, stated on its effect on the screen. */
module ScrollLaws {
  import opened Cyclic
  import opened PageScroll
  import opened Pictures
  import opened Display

  lemma BandOnScreen(start: nat, last: int, pages: nat)
    requires last < pages
    ensures BandStart(start, last) <= BandEnd(start, last) <= 8 * pages
  {
  }

  lemma WrappedShape(pic: Picture, scroll: Scroll, pages: nat, width: nat, start: nat, end: int)
    requires pages > 0 && width > 0 && Rectangular(pic, 8 * pages)
    ensures Rectangular(Wrapped(pic, scroll, pages, width, start, end), 8 * pages)
  {
    hide BandStart, BandEnd;
    BandOnScreen(start, if end >= pages then pages - 1 else end, pages);
  }

  /** SCROLL_UP and SCROLL_DOWN over the same columns undo each other. */
  lemma UpAndDownUndo(pic: Picture, pages: nat, width: nat, start: nat, end: int)
    requires pages > 0 && width > 0 && Rectangular(pic, 8 * pages)
    ensures var up := Wrapped(pic, ScrollUp, pages, width, start, end);
            Rectangular(up, 8 * pages) && Wrapped(up, ScrollDown, pages, width, start, end) == pic
    ensures var down := Wrapped(pic, ScrollDown, pages, width, start, end);
            Rectangular(down, 8 * pages) && Wrapped(down, ScrollUp, pages, width, start, end) == pic
  {
    hide Scrolled;
    WrappedShape(pic, ScrollUp, pages, width, start, end);
    WrappedShape(pic, ScrollDown, pages, width, start, end);
    UpDownInverse(pic, start, if end >= width then width - 1 else end, 8 * pages);
  }

  /** SCROLL_LEFT and SCROLL_RIGHT over the same pages undo each other. */
  lemma LeftAndRightUndo(pic: Picture, pages: nat, width: nat, start: nat, end: int)
    requires pic != [] && pages > 0 && width > 0 && Rectangular(pic, 8 * pages)
    ensures var left := Wrapped(pic, ScrollLeft, pages, width, start, end);
            Rectangular(left, 8 * pages) && Wrapped(left, ScrollRight, pages, width, start, end) == pic
    ensures var right := Wrapped(pic, ScrollRight, pages, width, start, end);
            Rectangular(right, 8 * pages) && Wrapped(right, ScrollLeft, pages, width, start, end) == pic
  {
    hide BandStart, BandEnd, Panned;
    var last := if end >= pages then pages - 1 else end;
    BandOnScreen(start, last, pages);
    LeftRightInverse(pic, 8 * pages, BandStart(start, last), BandEnd(start, last));
  }

  /** No scroll lights or loses a pixel. */
  lemma ScrollConserves(pic: Picture, scroll: Scroll, pages: nat, width: nat, start: nat, end: int)
    requires pic != [] && pages > 0 && width > 0 && Rectangular(pic, 8 * pages)
    ensures LitPixels(Wrapped(pic, scroll, pages, width, start, end)) == LitPixels(pic)
  {
    hide BandStart, BandEnd, LitPixels, Panned, Scrolled;
    var lastPage := if end >= pages then pages - 1 else end;
    var lastColumn := if end >= width then width - 1 else end;
    BandOnScreen(start, lastPage, pages);
    match scroll {
      case ScrollRight =>
        PannedConserves(pic, 8 * pages, BandStart(start, lastPage), BandEnd(start, lastPage), |pic| - 1);
      case ScrollLeft => PannedConserves(pic, 8 * pages, BandStart(start, lastPage), BandEnd(start, lastPage), 1);
      case ScrollUp => ScrolledConserves(pic, start, lastColumn, 1);
      case ScrollDown => ScrolledConserves(pic, start, lastColumn, 8 * pages - 1);
      case PageScrollUp => ScrolledConserves(pic, 0, |pic| - 1, if pages > 1 then 8 else 0);
      case PageScrollDown => ScrolledConserves(pic, 0, |pic| - 1, 8 * (pages - 1));
      case ScrollStop =>
    }
  }

  /** The same scroll `n` times over. */
  function Repeated(pic: Picture, scroll: Scroll, pages: nat, width: nat, start: nat, end: int, n: nat): (r: Picture)
    requires pages > 0 && width > 0 && Rectangular(pic, 8 * pages)
    ensures |r| == |pic| && Rectangular(r, 8 * pages)
    decreases n
  {
    if n == 0 then pic
    else
      var before := Repeated(pic, scroll, pages, width, start, end, n - 1);
      WrappedShape(before, scroll, pages, width, start, end);
      Wrapped(before, scroll, pages, width, start, end)
  }

  lemma RotNothing(pic: Picture, pages: nat)
    requires pages > 0 && Rectangular(pic, 8 * pages)
    ensures forall x :: 0 <= x < |pic| ==> Rot(pic[x], 0) == pic[x]
  {
  }

  /** Repeated vertical steps add up to one rotation. */
  lemma {:induction false} RepeatedUp(pic: Picture, pages: nat, width: nat, start: nat, end: int, n: nat)
    requires pages > 0 && width > 0 && Rectangular(pic, 8 * pages)
    ensures Repeated(pic, ScrollUp, pages, width, start, end, n)
         == Scrolled(pic, start, if end >= width then width - 1 else end, n)
  {
    hide Scrolled;
    var last := if end >= width then width - 1 else end;
    if n == 0 {
      RotNothing(pic, pages);
      ScrolledByNothing(pic, start, last, 0);
    } else {
      RepeatedUp(pic, pages, width, start, end, n - 1);
      ScrolledAdd(pic, start, last, n - 1, 1);
    }
  }

  lemma {:induction false} RepeatedDown(pic: Picture, pages: nat, width: nat, start: nat, end: int, n: nat)
    requires pages > 0 && width > 0 && Rectangular(pic, 8 * pages)
    ensures Repeated(pic, ScrollDown, pages, width, start, end, n)
         == Scrolled(pic, start, if end >= width then width - 1 else end, n * (8 * pages - 1))
  {
    hide Scrolled;
    var last := if end >= width then width - 1 else end;
    if n == 0 {
      RotNothing(pic, pages);
      ScrolledByNothing(pic, start, last, 0);
    } else {
      RepeatedDown(pic, pages, width, start, end, n - 1);
      ScrolledAdd(pic, start, last, (n - 1) * (8 * pages - 1), 8 * pages - 1);
      assert (n - 1) * (8 * pages - 1) + (8 * pages - 1) == n * (8 * pages - 1);
    }
  }

  /** As many SCROLL_UPs as the screen has rows change nothing, for any range of columns. */
  lemma UpAllTheWayRound(pic: Picture, pages: nat, width: nat, start: nat, end: int)
    requires pages > 0 && width > 0 && Rectangular(pic, 8 * pages)
    ensures Repeated(pic, ScrollUp, pages, width, start, end, 8 * pages) == pic
  {
    RepeatedUp(pic, pages, width, start, end, 8 * pages);
    FullTurn(pic, start, if end >= width then width - 1 else end, 8 * pages);
  }

  /** Rotating by `a` or by `b` rows is the same when they differ by whole turns. */
  lemma ScrolledModuloHeight(pic: Picture, first: int, last: int, height: nat, a: nat, q: nat)
    requires height > 0 && Rectangular(pic, height)
    ensures Scrolled(pic, first, last, a + q * height) == Scrolled(pic, first, last, a)
  {
    forall x | 0 <= x < |pic|
      ensures Rot(pic[x], a + q * height) == Rot(pic[x], a)
    {
      ModPeriod(a, q, height);
    }
    hide Rot;
    assert Scrolled(pic, first, last, a + q * height) == Scrolled(pic, first, last, a);
  }

  lemma PartAndWhole(pic: Picture, width: nat, n: nat)
    requires 0 < width <= |pic| && forall x :: 0 <= x < |pic| ==> pic[x] != []
    ensures Scrolled(pic, 0, width - 1, n) == Scrolled(pic, 0, |pic| - 1, n)
       <==> forall x :: width <= x < |pic| ==> Rot(pic[x], n) == pic[x]
  {
    hide Rot;
    var part, whole := Scrolled(pic, 0, width - 1, n), Scrolled(pic, 0, |pic| - 1, n);
    if part == whole {
      forall x | width <= x < |pic|
        ensures Rot(pic[x], n) == pic[x]
      {
        assert part[x] == whole[x];
      }
    }
  }

  /**
    Eight SCROLL_UPs over the whole width are one PAGE_SCROLL_UP exactly when the columns beyond the
    visible width, which only the page scroll moves, do not notice; on a full-width panel there are none.
   */
  lemma EightUpsAreOnePage(pic: Picture, pages: nat, width: nat)
    requires pages > 0 && 0 < width <= |pic| && Rectangular(pic, 8 * pages)
    ensures Repeated(pic, ScrollUp, pages, width, 0, width - 1, 8) == Wrapped(pic, PageScrollUp, pages, width, 0, 0)
       <==> forall x :: width <= x < |pic| ==> Rot(pic[x], 8) == pic[x]
  {
    hide Scrolled, Rot;
    RepeatedUp(pic, pages, width, 0, width - 1, 8);
    if pages == 1 {
      ScrolledModuloHeight(pic, 0, |pic| - 1, 8, 0, 1);
    }
    PartAndWhole(pic, width, 8);
  }

  /** Likewise downwards: eight SCROLL_DOWNs against one PAGE_SCROLL_DOWN. */
  lemma EightDownsAreOnePage(pic: Picture, pages: nat, width: nat)
    requires pages > 0 && 0 < width <= |pic| && Rectangular(pic, 8 * pages)
    ensures Repeated(pic, ScrollDown, pages, width, 0, width - 1, 8) == Wrapped(pic, PageScrollDown, pages, width, 0, 0)
       <==> forall x :: width <= x < |pic| ==> Rot(pic[x], 8 * (pages - 1)) == pic[x]
  {
    hide Scrolled, Rot;
    RepeatedDown(pic, pages, width, 0, width - 1, 8);
    assert 8 * (8 * pages - 1) == 8 * (pages - 1) + 7 * (8 * pages);
    ScrolledModuloHeight(pic, 0, width - 1, 8 * pages, 8 * (pages - 1), 7);
    PartAndWhole(pic, width, 8 * (pages - 1));
  }

  /** Over the whole screen, one vertical and one horizontal step can be taken in either order. */
  lemma VerticalAndHorizontalCommute(pic: Picture, pages: nat, up: bool, left: bool)
    requires pic != [] && pages > 0 && Rectangular(pic, 8 * pages)
    ensures var v, h := if up then ScrollUp else ScrollDown, if left then ScrollLeft else ScrollRight;
            var vFirst := Wrapped(pic, v, pages, |pic|, 0, |pic| - 1);
            var hFirst := Wrapped(pic, h, pages, |pic|, 0, pages - 1);
            && Rectangular(vFirst, 8 * pages) && Rectangular(hFirst, 8 * pages)
            && Wrapped(vFirst, h, pages, |pic|, 0, pages - 1) == Wrapped(hFirst, v, pages, |pic|, 0, |pic| - 1)
  {
    hide Scrolled, Panned;
    VerticalHorizontalCommute(pic, 8 * pages, if up then 1 else 8 * pages - 1, if left then 1 else |pic| - 1);
    WrappedShape(pic, if up then ScrollUp else ScrollDown, pages, |pic|, 0, |pic| - 1);
    WrappedShape(pic, if left then ScrollLeft else ScrollRight, pages, |pic|, 0, pages - 1);
  }
}
