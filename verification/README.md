# Verification of the firmware's stateful components

A Dafny model of the parts of the firmware whose correctness depends on state or arithmetic over many steps:

* **The SSD1306 framebuffer engine.** `Display.Ssd1306` is the driver object with its page buffer, updated in
  place by the same loops as the C code. What a reader wants to know is stated on pictures: `Pictures.PictureOf`
  turns the bytes of the buffer into columns of pixels as the viewer sees them, flip setting included. The
  rasterisers (`Lines`, `Circles`) are specified in closed form, the scrolls (`PageScroll`, `ScrollLaws`) as
  rotations with their algebra, bitmaps and text pixel by pixel (`Drawing`, `Glyphs`).
* **The panel behind the wire.** `Panel` decodes command and data bytes in page addressing mode (section 10.1.3
  of the SSD1306 datasheet) and receives them over each of the three transports. `Mirror` and the methods of
  `Display.Ssd1306` prove that the panel's memory follows the buffer over whole runs of calls (`Session`).
* **The self-healing I2C bus.** `I2cBus` holds the driver object and a specification function per operation;
  `BusRuns` proves what holds over every run, reading a trace of everything the bus did (bus clear procedure,
  section 3.1.16 of NXP UM10204).
* **The MCP23017 driver and its chip.** `Mcp23017` models both address maps of the chip (section 3.5.6 of
  Microchip DS20001952) and the driver with its shadow registers; `McpRuns` proves when the two agree, for
  writes that are acknowledged, refused by the chip, or latched although the driver is told otherwise.
* **Two protocols.** `SystemLog` is an interleaving model of the log hook and its forwarder task, one step per
  access to shared state; `Supervisor` is the feed and publish arithmetic of the supervisor loop, in 32 bits.

`Bits` and `Cyclic` are the shared facts about bytes and rotations.

The number of pages and the row width are parameters (`segs.Length0`, `segs.Length1`, `pages`, `width`); only
the wire protocol fixes them to at most 8 and 128. The font is any table of eight-byte images. A buffer byte's
bit 0 is its top pixel.

ESP-IDF calls are outcomes given from outside: `I2cBus.Env` for the bus, `Mcp23017.Outcome` for a register
write, `outcomes` of the display for its transfers and buffer allocations, numbered in order. `LinkOk` says that
every transfer since the last refresh of the whole panel began has succeeded, and the mirror is claimed under that
condition (`Synced`). A refresh starts the count afresh, so after a failure the next refresh whose transfers
succeed restores the mirror. `shown` of the display and `trace` of the bus are records for specifications; they
stand for what an observer on the wire would see.

## Where the code and its promises part

* `ssd1306_scroll_text` with an accepted range of a single page never meets its exit test and leaves the buffer
  (`firmware/components/ssd1306/ssd1306.c:311-323`); `Display.ScrollLoopStops` gives the exact condition.
* `_ssd1306_pixel` on a flipped display sets the bit before reversing the byte
  (`firmware/components/ssd1306/ssd1306.c:645-657`), which turns the block of eight pixels. The contracts of Line,
  Circle and Disc say what that draws; `Drawing.FlippedPlotExact` gives the exact condition for one pixel and
  `Drawing.FlippedPixelsClash` two pixels for which it fails.
* The page scrolls move all columns of the row, the pixel scrolls only the visible width, so eight of one are one
  of the other only on the condition in `ScrollLaws.EightUpsAreOnePage`.
* The MCP23017 header promises that shadows match the hardware at all times
  (`firmware/main/drivers/ic/mcp23017.h:120-122`); a refused pin write breaks it (`McpRuns.RefusedPinWriteDiverges`).
  One write is certain to keep the promise exactly when it asks for the byte the shadow already holds
  (`McpRuns.AgreementCertain`, `McpRuns.PinCertain`), and a run keeps it at all times exactly when no write to the
  register diverges (`McpRuns.AgreementOverRuns`).
* After a successful bus recovery the retry still uses the caller's device handle
  (`firmware/main/bus/i2c_bus.c:249-251`); `BusRuns.RetryUsesCallersHandle` says exactly when a transfer ends so.
* The comment "publish on first loop" (`firmware/main/system/system_supervisor.c:118`) fails when the heartbeat
  period plus one step exceeds 32 bits (`Supervisor.FirstTurnPublishes`).
* The marquee loops read one byte past the box (`firmware/components/ssd1306/ssd1306.c:131-135`), which for a box at
  the end of the row is outside the page; `Display.Ssd1306.ShiftBox` shows that the result does not depend on it.
* A text box of width zero passes the range check and then writes the byte before the box without showing it
  (`firmware/components/ssd1306/ssd1306.c:112-139`); `Display.Ssd1306.EmptyBox` says what is left there.
* A bitmap over the right edge is clipped in the buffer, but the refresh sends the bytes behind the row as well
  (`firmware/components/ssd1306/ssd1306.c:625-637`); `Mirror.SpillLosesMirror` says when the panel survives that,
  `Display.Ssd1306.Bitmaps` when it happens.

## Model

| member | source | states |
|---|---|---|
| Display.Ssd1306.Line | firmware/components/ssd1306/ssd1306.c:661-701 | under either flip setting the integer loop plots the pixels of `LinePath` one after the other; on an unflipped display that paints exactly the pixel set `LinePoints` and leaves every other pixel as it was |
| Lines.VisitedIsLine | firmware/components/ssd1306/ssd1306.c:680-699 | the error-term loop visits the pixels of the closed-form line in order, and nothing else |
| Lines.PlotterFollowsLine | firmware/components/ssd1306/ssd1306.c:680-699 | at step i the position is the closed-form pixel and the error term is twice the rounding residue minus the major length |
| Lines.MinorOffsetExact | firmware/components/ssd1306/ssd1306.c:680-699 | the minor offset k at step i is the one integer with -D <= 2(i·d - k·D) < D: equivalence, not only existence |
| Lines.MinorOffsetNearest | firmware/components/ssd1306/ssd1306.c:680-699 | no other pixel of the same step is closer to the true line |
| Lines.LineEnds | firmware/components/ssd1306/ssd1306.c:661-701 | the line starts at its first end, ends at its second and stays inside their bounding box |
| Lines.LineConnected | firmware/components/ssd1306/ssd1306.c:661-701 | consecutive pixels are 8-neighbours and both coordinates move only towards the far end |
| Lines.LineSize | firmware/components/ssd1306/ssd1306.c:680-699 | exactly max(dx,dy)+1 different pixels; one for a degenerate line |
| Lines.VerticalLine | firmware/components/ssd1306/ssd1306.c:691-699 | a vertical line is one contiguous run of rows, whichever end is given first |
| Lines.PlotterInBox | firmware/components/ssd1306/ssd1306.c:680-699 | no plotted pixel of the loop leaves the box of the ends, so two ends on the panel suffice |
| Display.Ssd1306.Circle | firmware/components/ssd1306/ssd1306.c:704-727 | under either flip setting the loop terminates and plots `CirclePath` in order, for any quadrant mask; unflipped, it paints exactly `CirclePoints` |
| Circles.NextAccurate | firmware/components/ssd1306/ssd1306.c:722-725 | every turn moves in x, in y or in both, and keeps the squared defect within max(abs x, abs y) and x within r |
| Circles.ErrStep | firmware/components/ssd1306/ssd1306.c:722-725 | the two updates of err keep err = (x+1)²+(y+1)²-r² |
| Circles.WalkEnds | firmware/components/ssd1306/ssd1306.c:710-726 | the walk meets the axis at (r,0) and nowhere else |
| Circles.ArcFromConnected | firmware/components/ssd1306/ssd1306.c:713-726 | consecutive positions are one loop turn apart and the one after the last is (r,0) |
| Circles.CircleAccurate | firmware/components/ssd1306/ssd1306.c:704-727 | every plotted pixel satisfies abs(x²+y²-r²) <= max(abs x, abs y) <= r about the centre |
| Circles.CircleTurns | firmware/components/ssd1306/ssd1306.c:714-721 | with all quadrants on, the pixel set is invariant under a quarter turn |
| Circles.RingClosed | firmware/components/ssd1306/ssd1306.c:713-726 | for r >= 1 every pixel of the four joined quadrants touches its successor, the last the first |
| Circles.RingIsCircle | firmware/components/ssd1306/ssd1306.c:713-726 | that closed ring visits exactly the pixels of the circle |
| Circles.RingSimple | firmware/components/ssd1306/ssd1306.c:713-726 | the ring is simple: different places on it are different pixels |
| Circles.CircleSize | firmware/components/ssd1306/ssd1306.c:713-726 | so a full circle has exactly four times as many pixels as one quadrant |
| Circles.CirclePathPoints | firmware/components/ssd1306/ssd1306.c:713-726 | the pixels plotted in order are the pixels of the circle |
| Circles.CircleQuadrants | firmware/components/ssd1306/ssd1306.c:714-721 | any mask draws exactly the part of the full circle its bits name: 0x01 right of and above the centre, 0x02 left and above, 0x04 left and below, 0x08 right and below |
| Display.Ssd1306.Disc | firmware/components/ssd1306/ssd1306.c:730-761 | under either flip setting the loop terminates and plots `DiscPath` in order, overlapping vertical lines included; unflipped, it paints exactly `DiscPoints` |
| Circles.DiscColumns | firmware/components/ssd1306/ssd1306.c:741-755 | for any mask: a pixel is filled if and only if it lies in a drawn quadrant, within r columns and within the column height |
| Circles.EachColumnOnce | firmware/components/ssd1306/ssd1306.c:741-760 | the loop draws the columns 0..r of each half exactly once each, in order: the pixels it plots, in order, are the lines of one turn after the other, and turn x is column x at its full height |
| Circles.HeightAccurate | firmware/components/ssd1306/ssd1306.c:741-760 | the height of every column obeys the circle accuracy bound |
| Circles.DiscSandwich | firmware/components/ssd1306/ssd1306.c:730-761 | every lattice point with x²+y² <= r²-r is filled, and only points with x²+y² <= r²+r are |
| Circles.DiscPathPoints | firmware/components/ssd1306/ssd1306.c:740-760 | the pixels plotted in order, each line pixel by pixel, are the pixels of the disc |
| Circles.DiscQuadrants | firmware/components/ssd1306/ssd1306.c:741-755 | likewise for the disc, with both half axes in each quadrant |
| Circles.DiscLoopGuard | firmware/components/ssd1306/ssd1306.c:760 | the guard y <= 0 admits one turn more than the circle: the turn at (r,0) is the last, and every other makes progress |
| Display.Ssd1306.Pixel | firmware/components/ssd1306/ssd1306.c:641-658 | the byte written under either flip setting; unflipped, exactly one pixel of the picture changes; flipped, that is so if and only if the rest of the block of eight reads the same from both ends, a condition on the picture before the call |
| Drawing.FlippedPlotExact | firmware/components/ssd1306/ssd1306.c:645-657 | turning the block before painting yields the picture asked for if and only if the rest of the block is symmetric |
| Drawing.FlippedPixelsClash | firmware/components/ssd1306/ssd1306.c:645-657 | two pixels of one column on a dark flipped display: the second write turns the first one away |
| Drawing.PlottedUnflipped | firmware/components/ssd1306/ssd1306.c:641-761 | on an unflipped display a sequence of pixel writes depends on the set of pixels only |
| Pictures.FlippedPixelExact | firmware/components/ssd1306/ssd1306.c:645-657 | the same condition on the stored byte: its seven other bits read the same from both ends |
| Bits.RotateByte | firmware/components/ssd1306/ssd1306.c:805-812 | the shift-and-add loop reverses the eight bits |
| Bits.ReversedInvolution | firmware/components/ssd1306/ssd1306.c:805-812 | reversing twice is the identity |
| Bits.CopyBit | firmware/components/ssd1306/ssd1306.c:784-801 | bit by bit: the addressed bit comes from the source, the seven others from the destination |
| Pictures.PictureDeterminesMemory | firmware/components/ssd1306/ssd1306.c:359-540 | two buffers of one shape that show the same picture hold the same bytes, so picture equations lose nothing |
| Display.Ssd1306.WrapAround | firmware/components/ssd1306/ssd1306.c:359-553 | the picture afterwards is `Wrapped` of the picture before, which `WrappedPixel` spells out, under both flip settings; a refresh (delay >= 0) makes the panel a mirror, and without one the panel is untouched |
| Display.WrappedPixel | firmware/components/ssd1306/ssd1306.c:359-540 | pixel by pixel, for every kind of scroll and with `end` clamped: which old pixel each pixel shows, right from the left, left from the right, up from below, down from above, pages by eight rows |
| Display.Ssd1306.ScrollPages | firmware/components/ssd1306/ssd1306.c:361-389 | SCROLL_RIGHT/LEFT: the selected pages rotate by one column, rows outside them stay |
| Display.Ssd1306.ScrollColumnsUp | firmware/components/ssd1306/ssd1306.c:391-447 | SCROLL_UP: each selected column, read as one word of 8·pages bits, rotates by one although it is updated page by page in place |
| Display.Ssd1306.ScrollColumnsDown | firmware/components/ssd1306/ssd1306.c:449-505 | SCROLL_DOWN: the inverse rotation, processed bottom to top |
| Display.Ssd1306.ScrollPagesDown | firmware/components/ssd1306/ssd1306.c:507-523 | PAGE_SCROLL_DOWN: the picture rotates by eight rows downwards |
| Display.Ssd1306.ScrollPagesUp | firmware/components/ssd1306/ssd1306.c:525-540 | PAGE_SCROLL_UP: the picture rotates by eight rows upwards |
| PageScroll.UpShows | firmware/components/ssd1306/ssd1306.c:391-447 | byte-level shifting with carries between pages is rotation of the pixel columns |
| PageScroll.DownShows | firmware/components/ssd1306/ssd1306.c:449-505 | the same for the downward carries |
| ScrollLaws.UpAndDownUndo | firmware/components/ssd1306/ssd1306.c:391-505 | SCROLL_UP and SCROLL_DOWN over the same columns undo each other in either order |
| ScrollLaws.LeftAndRightUndo | firmware/components/ssd1306/ssd1306.c:361-389 | SCROLL_LEFT and SCROLL_RIGHT over the same pages undo each other in either order |
| ScrollLaws.ScrollConserves | firmware/components/ssd1306/ssd1306.c:359-540 | no scroll of any kind changes the number of lit pixels |
| ScrollLaws.UpAllTheWayRound | firmware/components/ssd1306/ssd1306.c:391-447 | 8·pages SCROLL_UPs are the identity for any range of columns |
| ScrollLaws.EightUpsAreOnePage | firmware/components/ssd1306/ssd1306.c:391-447 | eight full-width SCROLL_UPs equal one PAGE_SCROLL_UP if and only if the columns beyond the visible width do not notice a rotation by eight |
| ScrollLaws.EightDownsAreOnePage | firmware/components/ssd1306/ssd1306.c:449-523 | likewise for SCROLL_DOWN and PAGE_SCROLL_DOWN |
| ScrollLaws.VerticalAndHorizontalCommute | firmware/components/ssd1306/ssd1306.c:361-505 | over the whole screen one vertical and one horizontal step commute |
| Display.Ssd1306.Blit | firmware/components/ssd1306/ssd1306.c:555-608 | any bitmap with width a multiple of 8, any xpos, any ypos that is not negative or lies on a page boundary, both flips: rows stamped at column xpos modulo 256 and at row numbers modulo 2048, what falls off the panel dropped; unless row numbers wrap this makes pixel (xpos+c, ypos+h) bit 7-c%8 of byte h·(width/8)+c/8 xor invert and leaves the rest of the picture; other widths change nothing |
| Display.Ssd1306.ByteWithBit | firmware/components/ssd1306/ssd1306.c:573-586 | un-rotate, copy one bit, rotate back puts that bit into the logical byte under either flip |
| Drawing.BlittedNext | firmware/components/ssd1306/ssd1306.c:570-608 | one more bitmap row stamped onto the picture is the specification for one row more |
| Drawing.StampedRowsAreBlitted | firmware/components/ssd1306/ssd1306.c:570-608 | as long as no row number wraps, the rows together are the bitmap at its place |
| Drawing.BlittedPixel | firmware/components/ssd1306/ssd1306.c:573-593 | pixel (x0+c, y0+h) is bit 7-c%8 of byte h·stride+c/8, xor invert; every other pixel stays |
| Display.Ssd1306.Bitmaps | firmware/components/ssd1306/ssd1306.c:621-638 | the same picture, over the right edge and past the last page as well; the refresh loop over first, middle and last pages re-establishes the mirror it broke, unless the last image goes over the end of its row: then the panel mirrored the buffer and got the bytes behind the row on top |
| Mirror.SpillLosesMirror | firmware/components/ssd1306/ssd1306.c:632-637 | bytes behind the row start again at column 0 of the page; whatever they are, the mirror survives if and only if there are none |
| Display.Ssd1306.ShowPart | firmware/components/ssd1306/ssd1306.c:632-637 | showing a slice of the buffer itself: what is sent, within the row and past it; the buffer copied onto itself stays |
| Panel.TransportsAgree | firmware/components/ssd1306/ssd1306_i2c_new.c:165-209 | for data of any length the new-I2C, legacy-I2C and SPI encodings, decoded by a panel in page addressing mode, lead to the same panel state; within the row its RAM is the row written |
| Panel.ImageCommandsAddress | firmware/components/ssd1306/ssd1306_i2c_new.c:188-193 | whatever the pointers held, the three command bytes set page and column |
| Panel.ImageCommandBytes | firmware/components/ssd1306/ssd1306_i2c_new.c:172-193 | the three bytes: seg%16, 0x10+seg/16, 0xB0+page |
| Panel.ControlBytes | firmware/components/ssd1306/ssd1306_i2c_new.c:187-204 | a transfer led by 0x00 is commands to its end, one led by 0x40 is data |
| Panel.DataStream | firmware/components/ssd1306/ssd1306_i2c_new.c:201-204 | a stream of data bytes fills consecutive columns of the addressed page |
| Panel.LinkDelivers | firmware/components/ssd1306/ssd1306_i2c_legacy.c:165-192 | a command link built operation by operation delivers its payload to the addressed panel |
| Display.Ssd1306.I2cNewDisplayImage | firmware/components/ssd1306/ssd1306_i2c_new.c:165-209 | for images of any length the buffer built through `out_index` is that encoding; off-panel requests send nothing; flip renumbers the page |
| Display.Ssd1306.I2cLegacyDisplayImage | firmware/components/ssd1306/ssd1306_i2c_legacy.c:147-193 | for images of any length the queued link operations are that encoding |
| Display.Ssd1306.SpiDisplayImage | firmware/components/ssd1306/ssd1306_spi.c:220-241 | for images of any length the command and data writes are that encoding |
| Display.Ssd1306.SpiWrite | firmware/components/ssd1306/ssd1306_spi.c:140-168 | bytes sent with the D/C level of their kind; an empty write starts no transfer, so neither panel nor the number of transfers changes |
| Display.Ssd1306.DisplayImage | firmware/components/ssd1306/ssd1306.c:76-84 | buffer and panel receive the same bytes, the panel on page p, or pages-1-p when flipped; a mirrored panel stays mirrored, so every visible pixel of the picture is the dot at its place on the glass |
| Mirror.MirrorKept | firmware/components/ssd1306/ssd1306.c:76-84 | writing the same bytes to both sides keeps them equal under the page map, on the panel or off it |
| Mirror.MirrorMeans | firmware/components/ssd1306/ssd1306.c:40-50 | the mirror is, in both directions, that every visible pixel (x, y) of the picture is dot (x, y) of the glass, or (x, 8·pages-1-y) when flipped |
| Display.Ssd1306.SyncedMeans | firmware/components/ssd1306/ssd1306.c:40-50 | the same for the driver and its panel |
| Display.Ssd1306.ShowBuffer | firmware/components/ssd1306/ssd1306.c:40-50 | whatever the panel held and whatever failed before: if all transfers of this refresh succeed, every visible pixel of the picture is the dot at its place on the glass |
| Display.Ssd1306.Session | firmware/components/ssd1306/ssd1306.c:40-701 | over any sequence of in-range calls: the panel mirrors the buffer, pixel by pixel on the glass, whenever it did at the start and every call since shows all it writes, or the buffer was refreshed and every call since does; transfers that failed before that refresh do not matter; and every call of the sequence is made, each with its effect on the buffer and the scroll range |
| Display.Ssd1306.MirrorOverRuns | firmware/components/ssd1306/ssd1306.c:40-701 | images, text, boxes of width >= 1, bitmaps within the row and the software scroll leave it as it was whether the mirror is known; a refresh establishes it whatever came before |
| Display.Ssd1306.Show | firmware/components/ssd1306/ssd1306.c:76-330 | each of the operations that write buffer and panel is made, keeps the mirror if it shows all it writes, which a box of width 0 and a bitmap over the edge do not, and keeps the scroll state valid |
| Display.Ssd1306.DrawOrRefresh | firmware/components/ssd1306/ssd1306.c:359-761 | the drawing, scroll or refresh asked for is made; a refresh, by itself or after a scroll, establishes the mirror |
| Display.Ssd1306.constructor | firmware/components/ssd1306/ssd1306.c:20-32 | 8 pages, or 4 for height 32; a dark picture; the flip setting of the caller kept; scrolling off, as in a device record of zeros |
| Display.Ssd1306.DisplayText | firmware/components/ssd1306/ssd1306.c:86-104 | the first sixteen characters at most, glyph by glyph from the left edge, the rest of the buffer unchanged |
| Display.TextPixel | firmware/components/ssd1306/ssd1306.c:86-104 | pixel by pixel: a line of text shows the font, inverted on request, under both flips, and nothing else changes |
| Display.Ssd1306.DisplayTextBox1 | firmware/components/ssd1306/ssd1306.c:106-144 | the exact sequence of images shown: w glyphs, then for every column that is left the window of the text strip one column further on; it ends on the last w glyphs and touches no other column. A box of width 0 writes the byte before it, shows empty images, and keeps the mirror if and only if that byte is the same in the end |
| Display.Ssd1306.DisplayTextBox2 | firmware/components/ssd1306/ssd1306.c:146-205 | the same for blanks, text, blanks, so that the text passes through the box; the box ends blank. Width 0 as for the first box |
| Display.BoxFrameAt | firmware/components/ssd1306/ssd1306.c:106-205 | image i of a box: glyph i of what passes for i < w, then window i-w+1 of its strip, w+8·(n-w) images in all |
| Display.Ssd1306.EmptyBox | firmware/components/ssd1306/ssd1306.c:119-143 | the scroll loops over a box of width 0: the last column of the text stays in the byte before the box, and the mirror is kept if and only if that is the byte it held |
| Display.Ssd1306.MarqueeText | firmware/components/ssd1306/ssd1306.c:124-143 | after n shifts the box holds columns [n, n+8w) of the glyph strip |
| Display.Ssd1306.ShiftBox | firmware/components/ssd1306/ssd1306.c:131-135 | the in-place shift, including the read past the box: only the box changes, whatever that read returns |
| Display.WindowShift | firmware/components/ssd1306/ssd1306.c:131-136 | a shifted window plus the incoming column is the next window |
| Glyphs.StripColumn | firmware/components/ssd1306/ssd1306.c:86-104 | column x of the strip is column x%8 of the glyph of character x/8 |
| Display.Ssd1306.DisplayTextX3 | firmware/components/ssd1306/ssd1306.c:208-260 | at most five characters over three pages, buffer and panel alike; no characters, no change |
| Display.EnlargedPixel | firmware/components/ssd1306/ssd1306.c:208-260 | output pixel (X,Y) is font pixel (X%24/3, Y/3) of its character xor invert, under both flips; every other pixel keeps its value |
| Glyphs.StretchedIsTripled | firmware/components/ssd1306/ssd1306.c:219-238 | the three bytes of the 32-bit column are the three parts of the tripled column |
| Glyphs.StretchColumn | firmware/components/ssd1306/ssd1306.c:226-236 | the two moving masks build that column |
| Glyphs.TripledPixel | firmware/components/ssd1306/ssd1306.c:219-245 | pixel (x,y) of the enlarged glyph is pixel (x/3,y/3) of the original |
| Glyphs.RotateImage | firmware/components/ssd1306/ssd1306.c:841-868 | the double mask loop computes the quarter turn, then flips if asked |
| Glyphs.TurnedPixel | firmware/components/ssd1306/ssd1306.c:841-857 | pixel (x,y) comes from (7-y,x) |
| Glyphs.HalfTurn | firmware/components/ssd1306/ssd1306.c:841-857 | turning twice turns every 8x8 image upside down and end to end |
| Glyphs.FullTurnOfImage | firmware/components/ssd1306/ssd1306.c:841-857 | turning four times is the identity on every 8x8 image |
| Glyphs.InvertBuffer | firmware/components/ssd1306/ssd1306.c:769-775 | every byte of the buffer is complemented |
| Glyphs.FlipBuffer | firmware/components/ssd1306/ssd1306.c:778-782 | every byte of the buffer is reversed |
| Display.Ssd1306.SoftwareScroll | firmware/components/ssd1306/ssd1306.c:284-298 | accepted if and only if both ends are pages; the direction points from start to end |
| Display.Ssd1306.ScrollText | firmware/components/ssd1306/ssd1306.c:300-330 | terminates; every page from start+dir to end receives its predecessor's old visible bytes, the first sixteen characters land on the start page, other pages stay, the panel follows |
| Display.Ssd1306.ScrollRange | firmware/components/ssd1306/ssd1306.c:312-323 | no page is overwritten before it has been copied, in either direction; the source page of every turn is `SourceIndex` |
| Display.RangeScrolledAt | firmware/components/ssd1306/ssd1306.c:312-323 | byte by byte: visible bytes after the start come from the page before in scroll direction, everything else stays |
| Display.ScrollLoopStops | firmware/components/ssd1306/ssd1306.c:311-323 | the source page of the loop reaches its exit value, inside the panel, if and only if start and end differ; otherwise it runs off the buffer |
| I2cBus.Driver.Transfer | firmware/main/bus/i2c_bus.c:230-336 | write, read and write_read end in the state and with the status of `Transferred`, which `TransferStatus` and `TransferRefused` spell out |
| BusRuns.TransferStatus | firmware/main/bus/i2c_bus.c:235-263 | with the lock held: the status is that of the first attempt, or of the second if the first timed out and the bus could be recovered (within nine clocks, rebuilt, every device accepted); it is how the last attempt ended, it goes back with the lock, and it is counted along with a first timeout |
| BusRuns.TransferRefused | firmware/main/bus/i2c_bus.c:232-239 | a bus that is down refuses and changes nothing; a lock not obtained is a counted timeout |
| I2cBus.Driver.RecoverLocked | firmware/main/bus/i2c_bus.c:131-226 | tear-down, clocking, STOP, rebuild and re-add lead to `Recovered`, every early return included |
| I2cBus.Driver.ClockOut | firmware/main/bus/i2c_bus.c:158-165 | the pulse loop sends min(n,9) pulses for a slave that needs n |
| I2cBus.Driver.ReAddDevices | firmware/main/bus/i2c_bus.c:204-221 | the registry loop re-adds entries in order and stops at the first refusal |
| I2cBus.ReAddedKeepsRegistry | firmware/main/bus/i2c_bus.c:204-221 | addresses, labels and count never change; on success every handle is new and the adds were announced in order |
| I2cBus.Driver.AddDevice | firmware/main/bus/i2c_bus.c:80-114 | registers the device or leaves everything as it was, with the matching status |
| BusRuns.RegistrationOutcome | firmware/main/bus/i2c_bus.c:80-114 | success if and only if the bus is up, fewer than 8 devices are registered and the driver accepts; then the entry is appended as asked, otherwise nothing changes, with the status of the failing test |
| I2cBus.Driver.Scan | firmware/main/bus/i2c_bus.c:339-372 | probes 0x03 to 0x77 within one hold of the lock |
| BusRuns.ScanOutcome | firmware/main/bus/i2c_bus.c:339-372 | the 117 addresses 0x03 to 0x77, once each in order, under one hold of the lock; both refusals |
| I2cBus.Driver.Init | firmware/main/bus/i2c_bus.c:18-63 | clears everything; live only if the mutex and the bus could be created |
| BusRuns.InitOutcome | firmware/main/bus/i2c_bus.c:18-63 | registry and count cleared; up if and only if mutex and bus could be created, with the status of the failing step |
| I2cBus.Driver.Deinit | firmware/main/bus/i2c_bus.c:66-77 | not initialized afterwards, with the status of deleting the bus; refused when it was not |
| BusRuns.DeinitOutcome | firmware/main/bus/i2c_bus.c:66-77 | taken down with registry and count kept and the status of the deletion; refused without change when down |
| BusRuns.RecoveryOutcome | firmware/main/bus/i2c_bus.c:131-226 | recovery succeeds if and only if the slave lets go within nine clocks, the bus is rebuilt and every device accepted; success means initialized, live handle, every entry re-added in order; failure means no handle and not initialized |
| BusRuns.AnnouncedInOrder | firmware/main/bus/i2c_bus.c:204-221 | the re-adding event by event: entry k under its address and new handle, in order |
| BusRuns.PulsesAndStop | firmware/main/bus/i2c_bus.c:158-178 | exactly min(n,9) pulses, and a STOP if and only if n <= 9 |
| BusRuns.DownUntilInit | firmware/main/bus/i2c_bus.c:82-83 | once down, every transfer, add, scan and deinit of any run is refused and changes nothing at all until an init |
| BusRuns.InitializedMeansLive | firmware/main/bus/i2c_bus.c:131-226 | in every run an initialized bus has a handle |
| BusRuns.RunAudited | firmware/main/bus/i2c_bus.c:230-372 | in every run between two inits: the lock is taken and given strictly in turn, at most two attempts and one recovery per hold, recovery only inside it, what goes back with the lock is how the last attempt ended, and error_count grows modulo 2^32 by exactly lock timeouts + first-attempt timeouts + last attempts that end non-OK |
| BusRuns.TransferAudited | firmware/main/bus/i2c_bus.c:230-336 | the same accounting for one transfer, on each of its paths |
| BusRuns.RetryUsesCallersHandle | firmware/main/bus/i2c_bus.c:249-251 | for a registered device and new handles: a transfer ends on an attempt under a handle of no registered device if and only if its first attempt timed out and the bus could be recovered |
| BusRuns.RecoveryEnds | firmware/main/bus/i2c_bus.c:131-226 | no recovery, successful or not, ends on an attempt |
| McpRuns.InitSynchronises | firmware/main/drivers/ic/mcp23017.c:75-149 | from either IOCON.BANK setting a successful init leaves BANK = 0, the configuration in the chip and all four shadows right |
| McpRuns.InitOutcome | firmware/main/drivers/ic/mcp23017.c:75-149 | success if and only if the address is in range, the bus registers the device and all eight writes are acknowledged; otherwise the status of the first thing that failed, and a driver that is not ready |
| McpRuns.BankForced | firmware/main/drivers/ic/mcp23017.c:101-108 | the first IOCON write already forces BANK = 0, whichever map the chip was in |
| McpRuns.RunKeepsMap | firmware/main/drivers/ic/mcp23017.c:75-322 | over every run of port, pin, toggle, init and deinit operations, however their writes end: a chip in BANK = 0 stays there, through an init that fails half way as well; from power-up a ready driver has it in BANK = 0 |
| McpRuns.PlainWrite | firmware/main/drivers/ic/mcp23017.c:41-48 | under BANK = 0 a driver write reaches its register and no other |
| McpRuns.StepEffect | firmware/main/drivers/ic/mcp23017.c:160-322 | the effect of one accepted port, pin or toggle write on every register and every shadow, for acknowledged, refused and lost writes |
| McpRuns.WantedPin | firmware/main/drivers/ic/mcp23017.c:239-322 | what a write asks of each pin: a mask bit, the value given, or for a toggle the complement of the shadow; other pins keep their shadow |
| McpRuns.RejectedStep | firmware/main/drivers/ic/mcp23017.c:160-322 | a driver that is not ready, or a pin above 7, leaves chip and shadows alone |
| McpRuns.AgreementAfter | firmware/main/drivers/ic/mcp23017.c:160-322 | whether a shadow agrees with its register after a write, for each way the write can end; an acknowledged one always brings agreement |
| McpRuns.AgreementCertain | firmware/main/drivers/ic/mcp23017.c:160-322 | from an agreeing register a write is certain to keep the agreement, however it ends, if and only if it asks for the byte the shadow already holds |
| McpRuns.PinCertain | firmware/main/drivers/ic/mcp23017.c:239-322 | for pins: if and only if the shadow bit already has the wanted value; a toggle is never certain |
| McpRuns.AgreementStep | firmware/main/drivers/ic/mcp23017.c:75-322 | an operation of any kind keeps the promise about a register if and only if it is not a diverging write to it |
| McpRuns.AgreementElsewhere | firmware/main/drivers/ic/mcp23017.c:160-322 | no write changes whether another register agrees |
| McpRuns.AgreementOverRuns | firmware/main/drivers/ic/mcp23017.c:75-322 | over every run, from any point of it: the shadow of a register is right at all times if and only if it is right there and no later write to the register diverges (accepted, asks for another byte than the shadow holds, and a pin write refused or a port write lost) |
| McpRuns.AcknowledgedWriteHeals | firmware/main/drivers/ic/mcp23017.c:160-322 | an acknowledged write to a register restores its agreement, whatever happened before |
| McpRuns.RefusedPinWriteDiverges | firmware/main/drivers/ic/mcp23017.h:120-122 | the promise that shadows match at all times fails: one refused pin write from an agreeing state |
| McpRuns.FaultFreeRun | firmware/main/drivers/ic/mcp23017.c:75-322 | in a run without faults, from power-up, each of the sixteen pins of IODIR and OLAT holds what the operations asked for: set by the last one naming it, negated by each toggle since, reset by an init; no other pin is disturbed, and readiness follows init and deinit |
| Mcp23017.Driver.Init | firmware/main/drivers/ic/mcp23017.c:75-149 | address check, registration and eight checked writes; ready only if all succeeded |
| Mcp23017.Driver.Deinit | firmware/main/drivers/ic/mcp23017.c:152-157 | the driver forgets everything and tells the chip nothing |
| Mcp23017.Driver.SetPortDirection | firmware/main/drivers/ic/mcp23017.c:160-180 | chip first, shadow only after a confirmed write |
| Mcp23017.Driver.WritePort | firmware/main/drivers/ic/mcp23017.c:182-201 | chip first, shadow only after a confirmed write |
| Mcp23017.Driver.SetPortPullup | firmware/main/drivers/ic/mcp23017.c:216-225 | one register write, no shadow |
| Mcp23017.Driver.SetPortPolarity | firmware/main/drivers/ic/mcp23017.c:227-236 | one register write, no shadow |
| Mcp23017.Driver.SetPinDirection | firmware/main/drivers/ic/mcp23017.c:239-261 | shadow bit first, then the whole shadow byte to the chip; the seven other bits unchanged |
| Mcp23017.Driver.WritePin | firmware/main/drivers/ic/mcp23017.c:263-283 | the same for the output latch |
| Mcp23017.Driver.TogglePin | firmware/main/drivers/ic/mcp23017.c:307-322 | toggling is a pin write of the complement of the shadow bit |
| Mcp23017.Driver.ReadPort | firmware/main/drivers/ic/mcp23017.c:203-214 | a successful read under BANK = 0 returns the live GPIO byte |
| Mcp23017.Driver.ReadPin | firmware/main/drivers/ic/mcp23017.c:285-305 | a successful read under BANK = 0 returns that bit of the live GPIO byte |
| SystemLog.StepInv | firmware/main/system/system_log.c:46-89 | every step of every task keeps the invariant: guard raised exactly around delivery, forwarder never admitted, queue bounded, pipeline genuine and in order |
| SystemLog.RunInv | firmware/main/system/system_log.c:46-89 | the invariant over every interleaving of any number of tasks |
| SystemLog.NoFeedback | firmware/main/system/system_log.c:46-89 | in every run nothing printed inside the forwarder is ever queued or delivered, the queue holds at most 16 lines of length 1..159, each a copy of a line another task printed |
| SystemLog.LineGetsThrough | firmware/main/system/system_log.c:46-63 | over every interleaving a line printed outside the forwarder is queued, cut at 159 characters, if and only if it is not empty, the sink is there at the first test, the flag down at the second, and the queue not full at the send |
| SystemLog.EntryGetsThrough | firmware/main/system/system_log.c:75-89 | over every interleaving the forwarder takes the oldest queued line and delivers it if and only if the sink is there when it looks, with the flag up before and after |
| SystemLog.DeliveredInOrder | firmware/main/system/system_log.c:46-89 | each task's delivered lines are an in-order subsequence of its serial output, without repetition |
| SystemLog.Drains | firmware/main/system/system_log.c:75-89 | once other tasks are silent the forwarder delivers at most what was queued or in hand, however much the sink logs; with the sink in place, exactly that and in order |
| Supervisor.Task.Init | firmware/main/system/system_supervisor.c:53-90 | zero timeout or a failed watchdog set-up changes nothing; otherwise the configuration is cached |
| Supervisor.Task.RunTurns | firmware/main/system/system_supervisor.c:117-140 | n turns of the loop feed n times and publish exactly at the multiples of the cadence |
| Supervisor.Task.TickStep | firmware/main/system/system_supervisor.c:111-115 | the step is positive and, with a heartbeat and a timeout of at least 2, the largest that exceeds neither the heartbeat nor half the timeout; 1000 without a heartbeat |
| Supervisor.StepIsTick | firmware/main/system/system_supervisor.c:111-115 | those facts determine the step |
| Supervisor.TickIsSmaller | firmware/main/system/system_supervisor.c:111-115 | for wdt >= 2 and heartbeat >= 1 the step is min(wdt/2, heartbeat) |
| Supervisor.FeedsInTime | firmware/main/system/system_supervisor.c:109-115 | the step is positive, and below the timeout if and only if the configuration is usable |
| Supervisor.FirstTurnPublishes | firmware/main/system/system_supervisor.c:118-127 | the first turn publishes if and only if the start value plus one step fits in 32 bits (or no period is set) |
| Supervisor.PublishesEveryCadence | firmware/main/system/system_supervisor.c:122-139 | over the whole run turn n publishes if and only if n is a multiple of ceil(heartbeat/step) |
| Supervisor.CadenceBounds | firmware/main/system/system_supervisor.c:122-139 | consecutive publish attempts are at least one heartbeat and less than one heartbeat plus one step apart |
| Supervisor.CadenceExact | firmware/main/system/system_supervisor.c:118-127 | the cadence holds over the whole run if and only if heartbeat plus step fits in 32 bits |

## Left out

- Display.Ssd1306.Line: both ends must be on the panel, and likewise all pixels of Circle and Disc, since the source does not clip and would write outside its page array.
- Display.Ssd1306.Pixel: coordinates on the panel only; the source indexes its page array unchecked.
- Display.Ssd1306.Blit: rows of fewer than 256 bytes (the source has 128), and no negative ypos between page boundaries, for which the source shifts a bit by more than the width of its type; a byte read outside the buffer just before the range check is not modelled because its value is discarded.
- Display.Ssd1306.Bitmaps: starts within the row and not above the panel; elsewhere the source copies blocks of negative length or from before its page array. Below row 2047, where row numbers wrap, the picture is stated but not the mirror. Pages beyond the buffer are copied onto themselves by the source and not shown, so they change nothing.
- Display.Ssd1306.DisplayTextBox1: negative box widths are excluded, and so is width zero at column 0 with text to scroll; the source then writes before the page. Box 1 also needs as many characters as the box is wide, which the source reads unchecked. DisplayTextBox2 likewise.
- Display.Ssd1306.DisplayTextX3: a line with characters needs three pages of buffer from its page on; on pages 6 and 7 of 8 the source accepts it and writes past `_page` (`firmware/components/ssd1306/ssd1306.c:210-256`), which is not modelled.
- Display.Ssd1306.ScrollText: requires different ends of an accepted range, the exact condition under which the source's loop ends, and a line of text no longer than the row.
- Display.Ssd1306.Synced: not claimed between a failed transfer and the next refresh, because the source ignores transfer errors and the panel may then hold part of an image.
- Display.Ssd1306.Session: covers images, text, both text boxes, enlarged text, bitmaps, software scroll, wrap-around scrolls, refresh and the four drawing calls, each within the bounds listed here for it; `ssd1306_clear_screen` and `ssd1306_clear_line` are text calls with constant arguments, `ssd1306_scroll_clear` clears a line per page of the range, `_ssd1306_cursor` is two lines. After a box of width 0 or a bitmap over the edge it claims the mirror only from the next refresh on; their exact conditions are in EmptyBox and SpillLosesMirror.
- Display.Ssd1306.DisplayImage: the image is a value. A slice of the buffer handed back to `ssd1306_display_image`, which the source then copies onto itself, is modelled by `ShowPart` in the bitmap refresh and by value in the text boxes.
- A column offset CONFIG_OFFSETX other than 0, negative pages and segments, and characters without a font image.
- Panel initialisation, hardware scroll and contrast byte lists, `ssd1306_fadeout`, `ssd1306_display_rotate_text`, set/get of pages and buffers: constant lists or single copies.
- Font contents, delays, log output, GPIO and SPI/I2C set-up.
- Panel.Command: only the commands of page addressing mode act on the pointers; all others are ignored, which is right for the three commands sent here. Bit 7 of the column address is dropped, as the panel has 128 columns.
- I2cBus.Driver.Transfer: one method stands for the three transfer functions, which differ in the driver call alone; payloads and buffers are not modelled.
- I2cBus.Driver.Init: null arguments are not modelled, nor those of the other operations, nor are the pins, the port and the device speed (which recovery resets to the default).
- I2cBus.Driver.Deinit: the mutex's own life is not modelled.
- BusRuns.RunAudited: sequential calls between two initialisations, as init clears the count; `initialized` is tested before the lock is taken, so the model makes no claim about tasks racing for a bus that is being torn down.
- Mcp23017.Driver.Init: null pointers and port or direction values outside their enumerations are not modelled.
- Mcp23017.Written: the pin levels behind GPIO are a register value; interrupt registers beyond being read-only are not modelled.
- McpRuns.AgreementOverRuns: speaks of a driver that is ready; after a deinit or a failed init the shadows mean nothing until the next successful init. A chip that loses power during a run is not modelled.
- SystemLog.NoFeedback: the hook is not called from interrupts, a serial line and its place in the output are one step, and failures of `system_log_init` are left out.
- Supervisor.Task.RunTurns: counts nominal steps; tick rounding of delays, the time a turn takes and the heartbeat payload (which may fail to format) are left out, so "publishes" means reaching the publish branch.
- WiFi, MQTT, OTA, configuration storage, the transport adapter, sensors, LEDs and the main SSD1306 driver: plumbing over libraries that are not part of this model, or code that would only add easy members.
