/** Character images: inversion, strips of text, the threefold enlargement, the quarter turn. */
module Glyphs {
  import opened Bits
  import opened Pictures

  /** `font8x8_basic_tr`: eight column bytes per character. */
  type Font = seq<seq<bv8>>

  ghost predicate IsFont(font: Font) {
    forall c :: 0 <= c < |font| ==> |font[c]| == 8
  }

  /** A string whose characters all have an image. */
  ghost predicate Printable(font: Font, text: seq<nat>) {
    forall i :: 0 <= i < |text| ==> text[i] < |font|
  }

  /** A byte of an image as it is stored: inverted on request, upside down on a flipped display. */
  function Shade(b: bv8, invert: bool, flip: bool): bv8 {
    Logical(if invert then Invert(b) else b, flip)
  }

  function Shaded(s: seq<bv8>, invert: bool, flip: bool): (r: seq<bv8>)
    ensures |r| == |s| && forall i :: 0 <= i < |s| ==> r[i] == Shade(s[i], invert, flip)
  {
    seq(|s|, i requires 0 <= i < |s| => Shade(s[i], invert, flip))
  }

  function Glyph(font: Font, c: nat, invert: bool, flip: bool): (g: seq<bv8>)
    requires IsFont(font) && c < |font|
    ensures |g| == 8
  {
    Shaded(font[c], invert, flip)
  }

  /** The column bytes of a line of text, glyph after glyph. */
  function Strip(font: Font, text: seq<nat>, invert: bool, flip: bool): (s: seq<bv8>)
    requires IsFont(font) && Printable(font, text)
    ensures |s| == 8 * |text|
  {
    if text == [] then []
    else Strip(font, text[..|text| - 1], invert, flip) + Glyph(font, text[|text| - 1], invert, flip)
  }

  /** A prefix of the text gives a prefix of the strip, and the next glyph follows it. */
  lemma {:induction false} StripPrefix(font: Font, text: seq<nat>, n: nat, invert: bool, flip: bool)
    requires IsFont(font) && Printable(font, text) && n <= |text|
    ensures Strip(font, text[..n], invert, flip) == Strip(font, text, invert, flip)[..8 * n]
    ensures n < |text| ==> Glyph(font, text[n], invert, flip) == Strip(font, text, invert, flip)[8 * n..8 * n + 8]
  {
    if n == |text| {
      assert text[..n] == text;
    } else {
      var init := text[..|text| - 1];
      StripPrefix(font, init, n, invert, flip);
      assert init[..n] == text[..n];
    }
  }

  lemma StripNext(font: Font, text: seq<nat>, i: nat, invert: bool, flip: bool)
    requires IsFont(font) && Printable(font, text) && i < |text|
    ensures Strip(font, text[..i + 1], invert, flip)
         == Strip(font, text[..i], invert, flip) + Glyph(font, text[i], invert, flip)
  {
    assert text[..i + 1][..i] == text[..i];
  }

  lemma {:induction false} StripConcat(font: Font, a: seq<nat>, b: seq<nat>, invert: bool, flip: bool)
    requires IsFont(font) && Printable(font, a) && Printable(font, b)
    ensures Strip(font, a + b, invert, flip) == Strip(font, a, invert, flip) + Strip(font, b, invert, flip)
  {
    hide Glyph;
    if b == [] {
      assert a + b == a;
    } else {
      assert (a + b)[..|a + b| - 1] == a + b[..|b| - 1];
      StripConcat(font, a, b[..|b| - 1], invert, flip);
    }
  }

  /** The last `w` glyphs of a strip are the strip of the last `w` characters. */
  lemma StripSuffix(font: Font, text: seq<nat>, w: nat, invert: bool, flip: bool)
    requires IsFont(font) && Printable(font, text) && w <= |text|
    ensures Strip(font, text, invert, flip)[8 * (|text| - w)..8 * |text|]
         == Strip(font, text[|text| - w..], invert, flip)
  {
    hide Strip;
    StripConcat(font, text[..|text| - w], text[|text| - w..], invert, flip);
    assert text == text[..|text| - w] + text[|text| - w..];
  }

  lemma ShadedTwice(s: seq<bv8>, invert: bool)
    ensures Shaded(Shaded(s, invert, false), false, true) == Shaded(s, invert, true)
    ensures Shaded(s, false, false) == s
  {
  }

  /** Column `x` of a strip is column `x % 8` of the glyph of character `x / 8`. */
  lemma StripColumn(font: Font, text: seq<nat>, x: nat, invert: bool, flip: bool)
    requires IsFont(font) && Printable(font, text) && x < 8 * |text|
    ensures Logical(Strip(font, text, invert, flip)[x], flip)
         == if invert then Invert(font[text[x / 8]][x % 8]) else font[text[x / 8]][x % 8]
  {
    hide Reversed, Invert;
    StripPrefix(font, text, x / 8, invert, flip);
    var b := font[text[x / 8]][x % 8];
    assert Glyph(font, text[x / 8], invert, flip)[x % 8] == Strip(font, text, invert, flip)[x];
    ReversedInvolution(if invert then Invert(b) else b);
  }

  // ----- Three times as large

  /** The source row of row `k` of page `part` of an enlarged column. */
  function SourceRow(part: nat, k: nat): (r: nat)
    requires part < 3 && k < 8
    ensures r < 8
  {
    (8 * part + k) / 3
  }

  /** Byte `part` of a column stretched to three times its height. */
  function Tripled(col: bv8, part: nat): (r: bv8)
    requires part < 3
    ensures forall k :: 0 <= k < 8 ==> Bit(r, k) == Bit(col, SourceRow(part, k))
  {
    hide Pack, Bit, SourceRow;
    Pack(seq(8, k requires 0 <= k < 8 => Bit(col, SourceRow(part, k))))
  }

  /** One page of an enlarged character: 24 columns, each source column three times. */
  function TripledImage(glyph: seq<bv8>, part: nat): (r: seq<bv8>)
    requires |glyph| == 8 && part < 3
    ensures |r| == 24
  {
    seq(24, x requires 0 <= x < 24 => Tripled(glyph[x / 3], part))
  }

  /** Pixel (x, y) of the enlarged character is pixel (x / 3, y / 3) of the original. */
  lemma TripledPixel(glyph: seq<bv8>, x: nat, y: nat)
    requires |glyph| == 8 && x < 24 && y < 24
    ensures Bit(TripledImage(glyph, y / 8)[x], y % 8) == Bit(glyph[x / 3], y / 3)
  {
    hide Bit, Tripled;
    assert 8 * (y / 8) + y % 8 == y;
    assert SourceRow(y / 8, y % 8) == y / 3;
  }

  /** One page of a line of enlarged characters. */
  function TripledStrip(font: Font, text: seq<nat>, part: nat, invert: bool, flip: bool): (s: seq<bv8>)
    requires IsFont(font) && Printable(font, text) && part < 3
    ensures |s| == 24 * |text|
  {
    if text == [] then [] else
    TripledStrip(font, text[..|text| - 1], part, invert, flip) +
    Shaded(TripledImage(font[text[|text| - 1]], part), invert, flip)
  }

  lemma TripledStripNext(font: Font, text: seq<nat>, i: nat, part: nat, invert: bool, flip: bool)
    requires IsFont(font) && Printable(font, text) && i < |text| && part < 3
    ensures TripledStrip(font, text[..i + 1], part, invert, flip)
         == TripledStrip(font, text[..i], part, invert, flip) + Shaded(TripledImage(font[text[i]], part), invert, flip)
  {
    hide Shaded, TripledImage;
    assert text[..i + 1][..i] == text[..i];
  }

  /** Column `x` of an enlarged line belongs to character `x / 24`. */
  lemma {:induction false} TripledStripColumn(font: Font, text: seq<nat>, part: nat, x: nat, invert: bool, flip: bool)
    requires IsFont(font) && Printable(font, text) && part < 3 && x < 24 * |text|
    ensures TripledStrip(font, text, part, invert, flip)[x]
         == Shade(TripledImage(font[text[x / 24]], part)[x % 24], invert, flip)
  {
    hide TripledImage, Shade;
    var n := |text| - 1;
    if x < 24 * n {
      TripledStripColumn(font, text[..n], part, x, invert, flip);
    } else {
      assert x / 24 == n && x % 24 == x - 24 * n;
    }
  }

  // ----- The 32-bit loop that stretches a column

  function OutMask(n: nat): bv32 {
    if n == 0 then 0x7 else OutMask(n - 1) << 3
  }

  function Stretched(col: bv8, n: nat): bv32
    requires n <= 8
  {
    if n == 0 then 0 else Stretched(col, n - 1) | (if Bit(col, n - 1) then OutMask(n - 1) else 0)
  }

  /** `out_columns[xx].u8[part]` on a little-endian machine. */
  function ByteOf(u32: bv32, part: nat): bv8
    requires part < 3
  {
    if part == 0 then (u32 & 0xFF) as bv8
    else if part == 1 then ((u32 >> 8) & 0xFF) as bv8
    else ((u32 >> 16) & 0xFF) as bv8
  }

  lemma OutMasks()
    ensures OutMask(0) == 0x000007 && OutMask(1) == 0x000038 && OutMask(2) == 0x0001C0 && OutMask(3) == 0x000E00
    ensures OutMask(4) == 0x007000 && OutMask(5) == 0x038000 && OutMask(6) == 0x1C0000 && OutMask(7) == 0xE00000
  {
    assert OutMask(0) == 0x000007;
    assert OutMask(1) == OutMask(0) << 3;
    assert OutMask(2) == OutMask(1) << 3;
    assert OutMask(3) == OutMask(2) << 3;
    assert OutMask(4) == OutMask(3) << 3;
    assert OutMask(5) == OutMask(4) << 3;
    assert OutMask(6) == OutMask(5) << 3;
    assert OutMask(7) == OutMask(6) << 3;
  }

  lemma StretchedStep(col: bv8, n: nat)
    requires n < 8
    ensures Stretched(col, n + 1) == Stretched(col, n) | (if Bit(col, n) then OutMask(n) else 0)
  {
  }

  /** One three-bit group per flag. */
  function Word(b0: bool, b1: bool, b2: bool, b3: bool, b4: bool, b5: bool, b6: bool, b7: bool): bv32 {
    (((((((if b0 then 0x000007 else 0) | (if b1 then 0x000038 else 0))
        | (if b2 then 0x0001C0 else 0)) | (if b3 then 0x000E00 else 0))
      | (if b4 then 0x007000 else 0)) | (if b5 then 0x038000 else 0))
    | (if b6 then 0x1C0000 else 0)) | (if b7 then 0xE00000 else 0)
  }

  lemma StretchedExplicit(col: bv8)
    ensures Stretched(col, 8) == Word(Bit(col, 0), Bit(col, 1), Bit(col, 2), Bit(col, 3),
                                      Bit(col, 4), Bit(col, 5), Bit(col, 6), Bit(col, 7))
  {
    OutMasks();
    assert Stretched(col, 0) == 0;
    hide Bit, OutMask, Stretched;
    StretchedStep(col, 0);
    StretchedStep(col, 1);
    StretchedStep(col, 2);
    StretchedStep(col, 3);
    StretchedStep(col, 4);
    StretchedStep(col, 5);
    StretchedStep(col, 6);
    StretchedStep(col, 7);
  }

  lemma WordBytes(b0: bool, b1: bool, b2: bool, b3: bool, b4: bool, b5: bool, b6: bool, b7: bool)
    ensures ByteOf(Word(b0, b1, b2, b3, b4, b5, b6, b7), 0)
         == (if b0 then 0x07 else 0) | (if b1 then 0x38 else 0) | (if b2 then 0xC0 else 0)
    ensures ByteOf(Word(b0, b1, b2, b3, b4, b5, b6, b7), 1)
         == (if b2 then 0x01 else 0) | (if b3 then 0x0E else 0) | (if b4 then 0x70 else 0) | (if b5 then 0x80 else 0)
    ensures ByteOf(Word(b0, b1, b2, b3, b4, b5, b6, b7), 2)
         == (if b5 then 0x03 else 0) | (if b6 then 0x1C else 0) | (if b7 then 0xE0 else 0)
  {
  }

  lemma TopBits(b0: bool, b1: bool, b2: bool)
    ensures var b: bv8 := (if b0 then 0x07 else 0) | (if b1 then 0x38 else 0) | (if b2 then 0xC0 else 0);
            && Bit(b, 0) == Bit(b, 1) == Bit(b, 2) == b0
            && Bit(b, 3) == Bit(b, 4) == Bit(b, 5) == b1
            && Bit(b, 6) == Bit(b, 7) == b2
  {
  }

  lemma MiddleBits(b2: bool, b3: bool, b4: bool, b5: bool)
    ensures var b: bv8 :=
              (if b2 then 0x01 else 0) | (if b3 then 0x0E else 0) | (if b4 then 0x70 else 0) | (if b5 then 0x80 else 0);
            && Bit(b, 0) == b2
            && Bit(b, 1) == Bit(b, 2) == Bit(b, 3) == b3
            && Bit(b, 4) == Bit(b, 5) == Bit(b, 6) == b4
            && Bit(b, 7) == b5
  {
  }

  lemma BottomBits(b5: bool, b6: bool, b7: bool)
    ensures var b: bv8 := (if b5 then 0x03 else 0) | (if b6 then 0x1C else 0) | (if b7 then 0xE0 else 0);
            && Bit(b, 0) == Bit(b, 1) == b5
            && Bit(b, 2) == Bit(b, 3) == Bit(b, 4) == b6
            && Bit(b, 5) == Bit(b, 6) == Bit(b, 7) == b7
  {
  }

  /** A word read back byte by byte and bit by bit. */
  lemma WordBit(b0: bool, b1: bool, b2: bool, b3: bool, b4: bool, b5: bool, b6: bool, b7: bool, part: nat, k: nat)
    requires part < 3 && k < 8
    ensures Bit(ByteOf(Word(b0, b1, b2, b3, b4, b5, b6, b7), part), k)
         == [b0, b1, b2, b3, b4, b5, b6, b7][SourceRow(part, k)]
  {
    hide Word, ByteOf, Bit;
    WordBytes(b0, b1, b2, b3, b4, b5, b6, b7);
    if part == 0 {
      TopBits(b0, b1, b2);
    } else if part == 1 {
      MiddleBits(b2, b3, b4, b5);
    } else {
      BottomBits(b5, b6, b7);
    }
  }

  lemma BitsInOrder(col: bv8, i: nat)
    requires i < 8
    ensures [Bit(col, 0), Bit(col, 1), Bit(col, 2), Bit(col, 3), Bit(col, 4), Bit(col, 5), Bit(col, 6), Bit(col, 7)][i]
         == Bit(col, i)
  {
    hide Bit;
  }

  lemma StretchedBit(col: bv8, part: nat, k: nat)
    requires part < 3 && k < 8
    ensures Bit(ByteOf(Stretched(col, 8), part), k) == Bit(col, SourceRow(part, k))
  {
    hide Stretched, ByteOf, Bit, Word, SourceRow;
    StretchedExplicit(col);
    WordBit(Bit(col, 0), Bit(col, 1), Bit(col, 2), Bit(col, 3), Bit(col, 4), Bit(col, 5), Bit(col, 6), Bit(col, 7),
            part, k);
    BitsInOrder(col, SourceRow(part, k));
  }

  /** The three bytes of a stretched column are the three parts of the enlarged one. */
  lemma StretchedIsTripled(col: bv8, part: nat)
    requires part < 3
    ensures ByteOf(Stretched(col, 8), part) == Tripled(col, part)
  {
    StretchedExplicit(col);
    var b := ByteOf(Stretched(col, 8), part);
    forall k | 0 <= k < 8
      ensures Bit(b, k) == Bit(Tripled(col, part), k)
    {
      StretchedBit(col, part, k);
    }
    BitsDetermineByte(b, Tripled(col, part));
  }

  // ----- The quarter turn

  /** An 8x8 image turned by a quarter: pixel (x, y) comes from (7 - y, x). */
  function Turned(image: seq<bv8>): (r: seq<bv8>)
    requires |image| == 8
    ensures |r| == 8
  {
    seq(8, x requires 0 <= x < 8 => Pack(seq(8, y requires 0 <= y < 8 => Bit(image[7 - y], x))))
  }

  lemma TurnedPixel(image: seq<bv8>, x: nat, y: nat)
    requires |image| == 8 && x < 8 && y < 8
    ensures Bit(Turned(image)[x], y) == Bit(image[7 - y], x)
  {
    hide Bit, Pack;
  }

  /** Turning twice turns the image upside down: columns in reverse order, each read from the other end. */
  lemma HalfTurn(image: seq<bv8>)
    requires |image| == 8
    ensures forall x :: 0 <= x < 8 ==> Turned(Turned(image))[x] == Reversed(image[7 - x])
  {
    hide Turned, Bit, Reversed;
    forall x | 0 <= x < 8
      ensures Turned(Turned(image))[x] == Reversed(image[7 - x])
    {
      forall y | 0 <= y < 8
        ensures Bit(Turned(Turned(image))[x], y) == Bit(Reversed(image[7 - x]), y)
      {
        TurnedPixel(Turned(image), x, y);
        TurnedPixel(image, 7 - y, x);
      }
      BitsDetermineByte(Turned(Turned(image))[x], Reversed(image[7 - x]));
    }
  }

  /** Turning four times is the identity. */
  lemma FullTurnOfImage(image: seq<bv8>)
    requires |image| == 8
    ensures Turned(Turned(Turned(Turned(image)))) == image
  {
    hide Turned, Reversed;
    var half := Turned(Turned(image));
    HalfTurn(image);
    HalfTurn(half);
    forall x | 0 <= x < 8
      ensures Turned(Turned(half))[x] == image[x]
    {
      ReversedInvolution(image[x]);
    }
  }

  lemma AddClearBit(b: bv8, m: bv8)
    requires b & m == 0
    ensures b + m == b | m
  {
  }

  lemma AddBit(b: bv8, k: nat)
    requires k < 8 && !Bit(b, k)
    ensures b + Mask(k) == PutBit(b, k, true)
  {
    hide Mask;
    AddClearBit(b, Mask(k));
  }

  lemma MaskShifts(k: nat)
    requires k < 8
    ensures k > 0 ==> Mask(k) >> 1 == Mask(k - 1)
    ensures k < 7 ==> Mask(k) << 1 == Mask(k + 1)
  {
  }

  /** The bits of turned column `i` that the first `j` source columns have contributed. */
  ghost predicate PartlyTurned(image: seq<bv8>, i: nat, j: nat, column: bv8)
    requires |image| == 8 && i < 8
  {
    forall y :: 0 <= y < 8 ==> Bit(column, y) == (y + j > 7 && Bit(image[7 - y], i))
  }

  lemma PartlyTurnedStep(image: seq<bv8>, i: nat, j: nat, column: bv8, dmask: bv8)
    requires |image| == 8 && i < 8 && j < 8 && PartlyTurned(image, i, j, column) && dmask == Mask(7 - j)
    ensures Bit(image[j], i) ==> PartlyTurned(image, i, j + 1, column + dmask)
    ensures !Bit(image[j], i) ==> PartlyTurned(image, i, j + 1, column)
  {
    hide Bit, Mask, PutBit;
    AddBit(column, 7 - j);
    var next := if Bit(image[j], i) then PutBit(column, 7 - j, true) else column;
    assert Bit(image[j], i) ==> next == column + dmask;
    forall y | 0 <= y < 8
      ensures Bit(next, y) == (y + (j + 1) > 7 && Bit(image[7 - y], i))
    {
      assert y == 7 - j ==> image[7 - y] == image[j] && !Bit(column, y);
    }
  }

  lemma NoBits()
    ensures Mask(7) == 0x80 && Mask(0) == 0x01
    ensures forall k :: 0 <= k < 8 ==> !Bit(0, k)
  {
  }

  lemma PartlyTurnedStart(image: seq<bv8>, i: nat)
    requires |image| == 8 && i < 8
    ensures PartlyTurned(image, i, 0, 0)
  {
    NoBits();
    hide Bit;
  }

  lemma PartlyTurnedEnd(image: seq<bv8>, i: nat, column: bv8)
    requires |image| == 8 && i < 8 && PartlyTurned(image, i, 8, column)
    ensures column == Turned(image)[i]
  {
    hide Bit, Turned;
    forall y | 0 <= y < 8
      ensures Bit(column, y) == Bit(Turned(image)[i], y)
    {
      TurnedPixel(image, i, y);
    }
    BitsDetermineByte(column, Turned(image)[i]);
  }

  /** One turn of the outer loop of `ssd1306_rotate_image`. */
  method TurnedColumn(image: seq<bv8>, i: nat) returns (column: bv8)
    requires |image| == 8 && i < 8
    ensures column == Turned(image)[i]
  {
    hide Bit, Mask, Turned, PartlyTurned;
    var dmask: bv8 := 0x80;
    column := 0;
    NoBits();
    PartlyTurnedStart(image, i);
    for j := 0 to 8
      invariant j < 8 ==> dmask == Mask(7 - j)
      invariant PartlyTurned(image, i, j, column)
    {
      PartlyTurnedStep(image, i, j, column, dmask);
      MaskShifts(7 - j);
      if Bit(image[j], i) {
        column := column + dmask;
      }
      dmask := dmask >> 1;
    }
    PartlyTurnedEnd(image, i, column);
  }

  /** `ssd1306_invert` */
  method InvertBuffer(buf: array<bv8>)
    modifies buf
    ensures buf[..] == Shaded(old(buf[..]), true, false)
  {
    hide Invert;
    for i := 0 to buf.Length
      invariant forall k :: 0 <= k < i ==> buf[k] == Invert(old(buf[k]))
      invariant forall k :: i <= k < buf.Length ==> buf[k] == old(buf[k])
    {
      buf[i] := Invert(buf[i]);
    }
  }

  /** `ssd1306_flip` */
  method FlipBuffer(buf: array<bv8>)
    modifies buf
    ensures buf[..] == Shaded(old(buf[..]), false, true)
  {
    hide Reversed;
    for i := 0 to buf.Length
      invariant forall k :: 0 <= k < i ==> buf[k] == Reversed(old(buf[k]))
      invariant forall k :: i <= k < buf.Length ==> buf[k] == old(buf[k])
    {
      buf[i] := RotateByte(buf[i]);
    }
  }

  /** `ssd1306_rotate_image` */
  method RotateImage(image: array<bv8>, flip: bool)
    requires image.Length == 8
    modifies image
    ensures image[..] == if flip then Shaded(Turned(old(image[..])), false, true) else Turned(old(image[..]))
  {
    hide Turned, Shaded;
    var turned := new bv8[8];
    for i := 0 to 8
      invariant image[..] == old(image[..])
      invariant forall k :: 0 <= k < i ==> turned[k] == Turned(old(image[..]))[k]
    {
      turned[i] := TurnedColumn(image[..], i);
    }
    forall i | 0 <= i < 8 {
      image[i] := turned[i];
    }
    assert image[..] == Turned(old(image[..]));
    if flip {
      FlipBuffer(image);
    }
  }

  lemma StretchStart(col: bv8)
    ensures Stretched(col, 0) == 0 && OutMask(0) == 0x7
  {
  }

  lemma OutMaskStep(n: nat)
    ensures OutMask(n + 1) == OutMask(n) << 3
  {
  }

  lemma OrZero(s: bv32)
    ensures s | 0 == s
  {
  }

  lemma StretchStep(col: bv8, yy: nat)
    requires yy < 8
    ensures Stretched(col, yy + 1)
         == if col & Mask(yy) != 0 then Stretched(col, yy) | OutMask(yy) else Stretched(col, yy)
    ensures OutMask(yy + 1) == OutMask(yy) << 3
  {
    hide Mask, Stretched, OutMask;
    OutMaskStep(yy);
    StretchedStep(col, yy);
    OrZero(Stretched(col, yy));
  }

  /** The three bytes of one column of `ssd1306_display_text_x3`, made by its 32-bit loop. */
  method StretchColumn(col: bv8) returns (u32: bv32)
    ensures u32 == Stretched(col, 8)
  {
    hide Bit, OutMask, Mask, Stretched;
    NoBits();
    var inBitmask: bv8 := 0x01;
    var outBitmask: bv32 := 0x7;
    u32 := 0;
    StretchStart(col);
    for yy := 0 to 8
      invariant u32 == Stretched(col, yy)
      invariant outBitmask == OutMask(yy)
      invariant yy < 8 ==> inBitmask == Mask(yy)
    {
      MaskShifts(yy);
      StretchStep(col, yy);
      if col & inBitmask != 0 {
        u32 := u32 | outBitmask;
      }
      inBitmask := inBitmask << 1;
      outBitmask := outBitmask << 3;
    }
  }
}
