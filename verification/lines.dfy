/** Line and rectangle primitives of the SSD1306 renderer. Each primitive
    first runs a bounds test against the display size and then makes its
    pixel writes through the same byte/bit arithmetic as `draw_pixel`.

    The bounds tests of `draw_h_line` and `draw_v_line` compare the row
    (resp. column) against the display size with `>` where `>=` is meant.
    Both versions are modelled: the `AsWritten` members follow the source,
    and the corrected members are what `DrawRect` is built on. */
module Lines {
  import opened Core
  import opened Framebuffer

  /** The writes of `draw_h_line`'s loop, left to right. */
  function HWrites(x: int, y: int, w: int, on: bool): seq<PixelWrite>
  {
    seq(if w > 0 then w else 0, j => PixelWrite(x + j, y, on))
  }

  /** The writes of `draw_v_line`'s loop, top to bottom. */
  function VWrites(x: int, y: int, h: int, on: bool): seq<PixelWrite>
  {
    seq(if h > 0 then h else 0, j => PixelWrite(x, y + j, on))
  }

  /** `draw_h_line`'s bounds test as written: a row equal to the display
      height is let through. */
  predicate HAcceptsAsWritten(x: int, y: int, w: int)
  {
    !(x + w > Width || x < 0 || y < 0 || y > Height)
  }

  /** `draw_h_line`'s bounds test with the row compared by `>=`. */
  predicate HAccepts(x: int, y: int, w: int)
  {
    !(x + w > Width || x < 0 || y < 0 || y >= Height)
  }

  /** `draw_v_line`'s bounds test as written: a column equal to the
      display width is let through. */
  predicate VAcceptsAsWritten(x: int, y: int, h: int)
  {
    !(x > Width || x < 0 || y < 0 || y + h > Height)
  }

  /** `draw_v_line`'s bounds test with the column compared by `>=`. */
  predicate VAccepts(x: int, y: int, h: int)
  {
    !(x >= Width || x < 0 || y < 0 || y + h > Height)
  }

  /** Every write of an accepted line is on screen. */
  lemma AcceptedWritesOnScreen(x: int, y: int, len: int, on: bool)
    ensures HAccepts(x, y, len) ==> AllOnScreen(HWrites(x, y, len, on)) && AllAddressable(HWrites(x, y, len, on))
    ensures VAccepts(x, y, len) ==> AllOnScreen(VWrites(x, y, len, on)) && AllAddressable(VWrites(x, y, len, on))
  {
    var hs, vs := HWrites(x, y, len, on), VWrites(x, y, len, on);
    forall j | 0 <= j < |hs| && HAccepts(x, y, len)
      ensures OnScreen(hs[j].x, hs[j].y) && Addressable(hs[j].x, hs[j].y)
    {
      OnScreenIsAddressable(hs[j].x, hs[j].y);
    }
    forall j | 0 <= j < |vs| && VAccepts(x, y, len)
      ensures OnScreen(vs[j].x, vs[j].y) && Addressable(vs[j].x, vs[j].y)
    {
      OnScreenIsAddressable(vs[j].x, vs[j].y);
    }
  }

  /** `draw_h_line` with the corrected bounds test: an accepted line sets
      exactly the pixels (x .. x+w-1, y) to the colour; a rejected one
      changes nothing. */
  function HLine(fb: Buffer, x: int, y: int, w: int, color: bv8): (r: Buffer)
    ensures forall px, py | OnScreen(px, py) ::
              Pixel(r, px, py) == if HAccepts(x, y, w) && py == y && x <= px < x + w then color != 0 else Pixel(fb, px, py)
  {
    if HAccepts(x, y, w) then
      HWritesPixels(fb, x, y, w, color);
      ApplyWrites(fb, HWrites(x, y, w, color != 0))
    else fb
  }

  /** `draw_v_line` with the corrected bounds test: an accepted line sets
      exactly the pixels (x, y .. y+h-1) to the colour; a rejected one
      changes nothing. */
  function VLine(fb: Buffer, x: int, y: int, h: int, color: bv8): (r: Buffer)
    ensures forall px, py | OnScreen(px, py) ::
              Pixel(r, px, py) == if VAccepts(x, y, h) && px == x && y <= py < y + h then color != 0 else Pixel(fb, px, py)
  {
    if VAccepts(x, y, h) then
      VWritesPixels(fb, x, y, h, color);
      ApplyWrites(fb, VWrites(x, y, h, color != 0))
    else fb
  }

  /** The pixel writes a set of writes all aimed at the same value makes:
      a pixel hit by some write gets that value, every other pixel keeps
      its own. */
  lemma UniformWritesPixel(fb: Buffer, ws: seq<PixelWrite>, on: bool, px: int, py: int)
    requires AllOnScreen(ws) && OnScreen(px, py)
    requires forall j | 0 <= j < |ws| :: ws[j].on == on
    ensures AllAddressable(ws)
    ensures Pixel(ApplyWrites(fb, ws), px, py) ==
            if exists j | 0 <= j < |ws| :: ws[j].x == px && ws[j].y == py then on else Pixel(fb, px, py)
  {
    OnScreenWritesPixel(fb, ws, px, py, on);
  }

  /** The writes of an accepted horizontal line set exactly its pixels. */
  lemma HWritesPixels(fb: Buffer, x: int, y: int, w: int, color: bv8)
    requires HAccepts(x, y, w)
    ensures AllAddressable(HWrites(x, y, w, color != 0))
    ensures forall px, py | OnScreen(px, py) ::
              Pixel(ApplyWrites(fb, HWrites(x, y, w, color != 0)), px, py) ==
              if py == y && x <= px < x + w then color != 0 else Pixel(fb, px, py)
  {
    var ws := HWrites(x, y, w, color != 0);
    AcceptedWritesOnScreen(x, y, w, color != 0);
    OnScreenWritesAddressable(ws);
    forall px, py | OnScreen(px, py)
      ensures Pixel(ApplyWrites(fb, ws), px, py) == if py == y && x <= px < x + w then color != 0 else Pixel(fb, px, py)
    {
      UniformWritesPixel(fb, ws, color != 0, px, py);
      if py == y && x <= px < x + w {
        assert ws[px - x].x == px && ws[px - x].y == py;
      }
    }
  }

  /** The writes of an accepted vertical line set exactly its pixels. */
  lemma VWritesPixels(fb: Buffer, x: int, y: int, h: int, color: bv8)
    requires VAccepts(x, y, h)
    ensures AllAddressable(VWrites(x, y, h, color != 0))
    ensures forall px, py | OnScreen(px, py) ::
              Pixel(ApplyWrites(fb, VWrites(x, y, h, color != 0)), px, py) ==
              if px == x && y <= py < y + h then color != 0 else Pixel(fb, px, py)
  {
    var ws := VWrites(x, y, h, color != 0);
    AcceptedWritesOnScreen(x, y, h, color != 0);
    OnScreenWritesAddressable(ws);
    forall px, py | OnScreen(px, py)
      ensures Pixel(ApplyWrites(fb, ws), px, py) == if px == x && y <= py < y + h then color != 0 else Pixel(fb, px, py)
    {
      UniformWritesPixel(fb, ws, color != 0, px, py);
      if px == x && y <= py < y + h {
        assert ws[py - y].x == px && ws[py - y].y == py;
      }
    }
  }

  /** `draw_h_line` as written. The source writes without checking the
      byte index; the requires is that every write it makes stays inside
      the buffer. Under it the line is the corrected one: the two tests
      differ only on row 64, where every write is out of bounds. */
  function HLineAsWritten(fb: Buffer, x: int, y: int, w: int, color: bv8): (r: Buffer)
    requires HAcceptsAsWritten(x, y, w) ==> AllAddressable(HWrites(x, y, w, color != 0))
    ensures r == HLine(fb, x, y, w, color)
  {
    if HAcceptsAsWritten(x, y, w) then ApplyWrites(fb, HWrites(x, y, w, color != 0)) else fb
  }

  /** `draw_v_line` as written, under the same requirement. Away from
      column 128 it is the corrected line. */
  function VLineAsWritten(fb: Buffer, x: int, y: int, h: int, color: bv8): (r: Buffer)
    requires VAcceptsAsWritten(x, y, h) ==> AllAddressable(VWrites(x, y, h, color != 0))
    ensures x != Width || h <= 0 ==> r == VLine(fb, x, y, h, color)
  {
    if VAcceptsAsWritten(x, y, h) then ApplyWrites(fb, VWrites(x, y, h, color != 0)) else fb
  }

  /** The horizontal test lets a line on row 64 of a 64-row display
      through, and its first write lands one page past the buffer. */
  lemma HLineGuardCounterexample()
    ensures HAcceptsAsWritten(0, Height, 1) && !HAccepts(0, Height, 1)
    ensures ByteIndex(0, Height) == Size && !Addressable(0, Height)
  {
  }

  /** The vertical test lets column 128 through; its byte index wraps to
      column 0 of the next page, so a one-pixel line at (128, 0) lights
      pixel (0, 8) of a blank screen, which the corrected line leaves
      dark. */
  lemma VLineGuardCounterexample()
    ensures VAcceptsAsWritten(Width, 0, 1) && !VAccepts(Width, 0, 1)
    ensures AllAddressable(VWrites(Width, 0, 1, true))
    ensures Pixel(VLineAsWritten(Blank(), Width, 0, 1, 1), 0, 8)
    ensures !Pixel(VLine(Blank(), Width, 0, 1, 1), 0, 8)
  {
    var ws := VWrites(Width, 0, 1, true);
    assert ws == [PixelWrite(Width, 0, true)];
    assert Addressable(Width, 0);
    var lit := VLineAsWritten(Blank(), Width, 0, 1, 1);
    assert lit == DrawPixel(Blank(), Width, 0, 1);
    OnScreenIsAddressable(0, 8);
    assert ByteIndex(0, 8) == ByteIndex(Width, 0) && BitOf(8) == BitOf(0);
    assert BitAt(lit, ByteIndex(Width, 0), BitOf(0));
  }

  /** One line of a rectangle: `draw_h_line(x, y, len, ...)` or
      `draw_v_line(x, y, len, ...)`. */
  datatype Line = H(x: int, y: int, len: int) | V(x: int, y: int, len: int)

  function DrawLine(fb: Buffer, l: Line, color: bv8): Buffer
  {
    match l
    case H(x, y, len) => HLine(fb, x, y, len, color)
    case V(x, y, len) => VLine(fb, x, y, len, color)
  }

  /** Whether line `l` is accepted and passes through pixel (px, py). */
  predicate Covers(l: Line, px: int, py: int)
  {
    match l
    case H(x, y, len) => HAccepts(x, y, len) && py == y && x <= px < x + len
    case V(x, y, len) => VAccepts(x, y, len) && px == x && y <= py < y + len
  }

  /** Whether some line of `ls` covers pixel (px, py). */
  predicate AnyCovers(ls: seq<Line>, px: int, py: int)
  {
    exists j | 0 <= j < |ls| :: Covers(ls[j], px, py)
  }

  /** Draws the lines in order, all in the same colour. */
  function ApplyLines(fb: Buffer, ls: seq<Line>, color: bv8): Buffer
    decreases |ls|
  {
    if |ls| == 0 then fb else ApplyLines(DrawLine(fb, ls[0], color), ls[1..], color)
  }

  /** A sequence of lines in one colour sets exactly the pixels some line
      covers and leaves every other pixel as it was. */
  lemma {:induction false} ApplyLinesPixel(fb: Buffer, ls: seq<Line>, color: bv8, px: int, py: int)
    requires OnScreen(px, py)
    ensures Pixel(ApplyLines(fb, ls, color), px, py) ==
            if AnyCovers(ls, px, py) then color != 0 else Pixel(fb, px, py)
    decreases |ls|
  {
    if |ls| > 0 {
      var fb1 := DrawLine(fb, ls[0], color);
      ApplyLinesPixel(fb1, ls[1..], color, px, py);
      assert ls == [ls[0]] + ls[1..];
      AnyCoversConcat([ls[0]], ls[1..], px, py);
      assert AnyCovers([ls[0]], px, py) <==> Covers(ls[0], px, py) by {
        assert [ls[0]][0] == ls[0];
      }
    }
  }

  /** `draw_rect`'s bounds test. */
  predicate RectAccepts(x: int, y: int, w: int, h: int)
  {
    !(x + w > Width || x < 0 || y < 0 || y + h > Height)
  }

  function Count(n: int): nat
  {
    if n > 0 then n else 0
  }

  /** `n` rows of width `w` from row `y` downwards. */
  function RowsDown(x: int, y: int, w: int, n: nat): seq<Line>
  {
    seq(n, k => H(x, y + k, w))
  }

  /** `n` rows of width `w` from row `y` upwards. */
  function RowsUp(x: int, y: int, w: int, n: nat): seq<Line>
  {
    seq(n, k => H(x, y - k, w))
  }

  /** `n` columns of height `h` from column `x` rightwards. */
  function ColsRight(x: int, y: int, h: int, n: nat): seq<Line>
  {
    seq(n, k => V(x + k, y, h))
  }

  /** `n` columns of height `h` from column `x` leftwards. */
  function ColsLeft(x: int, y: int, h: int, n: nat): seq<Line>
  {
    seq(n, k => V(x - k, y, h))
  }

  /** The lines `draw_rect` draws, in the order its loops draw them. With
      a positive outline: `outline` rows from the top edge down, `outline`
      rows from the bottom edge up, `outline` columns from the left edge
      rightwards and `outline` columns from the right edge leftwards.
      Otherwise a fill: one row per pixel of height when the rectangle is
      wider than tall, else one column per pixel of width. */
  function RectLines(x: int, y: int, w: int, h: int, outline: int): (ls: seq<Line>)
    ensures outline > 0 ==> |ls| == 4 * outline
    ensures outline <= 0 ==> |ls| == if w > h then Count(h) else Count(w)
    ensures forall j | 0 <= j < |ls| ::
              (ls[j].H? ==> ls[j].x == x && ls[j].len == w) && (ls[j].V? ==> ls[j].y == y && ls[j].len == h)
  {
    if outline > 0 then
      RowsDown(x, y, w, outline) + RowsUp(x, y + h - 1, w, outline)
      + ColsRight(x, y, h, outline) + ColsLeft(x + w - 1, y, h, outline)
    else if w > h then RowsDown(x, y, w, Count(h))
    else ColsRight(x, y, h, Count(w))
  }

  /** `draw_rect`, drawing its lines with the corrected line primitives.
      A rectangle inside the display sets exactly the pixels of its
      outline band (positive outline) or of its area (fill); one outside
      the display changes nothing. */
  function DrawRect(fb: Buffer, x: int, y: int, w: int, h: int, outline: int, color: bv8): (r: Buffer)
    ensures forall px, py | OnScreen(px, py) ::
              Pixel(r, px, py) ==
              if RectAccepts(x, y, w, h) && RectCovers(x, y, w, h, outline, px, py) then color != 0 else Pixel(fb, px, py)
  {
    if RectAccepts(x, y, w, h) then
      RectLinesPixels(fb, x, y, w, h, outline, color);
      ApplyLines(fb, RectLines(x, y, w, h, outline), color)
    else fb
  }

  /** The pixels `draw_rect` colours: the outline band when the outline is
      positive, the whole rectangle otherwise. */
  predicate RectCovers(x: int, y: int, w: int, h: int, outline: int, px: int, py: int)
  {
    if outline > 0 then InOutline(x, y, w, h, outline, px, py) else InRect(x, y, w, h, px, py)
  }

  predicate InRect(x: int, y: int, w: int, h: int, px: int, py: int)
  {
    x <= px < x + w && y <= py < y + h
  }

  /** The pixels an outline of thickness `outline` covers: rows within
      `outline` of the top or bottom edge across the rectangle's width, and
      columns within `outline` of the left or right edge down its height.
      A thickness above the height (width) makes the rows (columns) run
      past the opposite edge, as the source's loops do. */
  predicate InOutline(x: int, y: int, w: int, h: int, outline: int, px: int, py: int)
  {
    (x <= px < x + w && (y <= py < y + outline || y + h - outline <= py < y + h))
    || (y <= py < y + h && (x <= px < x + outline || x + w - outline <= px < x + w))
  }

  lemma AnyCoversConcat(a: seq<Line>, b: seq<Line>, px: int, py: int)
    ensures AnyCovers(a + b, px, py) <==> AnyCovers(a, px, py) || AnyCovers(b, px, py)
  {
    if AnyCovers(a + b, px, py) {
      var j :| 0 <= j < |a + b| && Covers((a + b)[j], px, py);
      if j >= |a| {
        assert Covers(b[j - |a|], px, py);
      }
    }
    if AnyCovers(b, px, py) {
      var j :| 0 <= j < |b| && Covers(b[j], px, py);
      assert Covers((a + b)[j + |a|], px, py);
    }
    if AnyCovers(a, px, py) {
      var j :| 0 <= j < |a| && Covers(a[j], px, py);
      assert Covers((a + b)[j], px, py);
    }
  }

  /** Rows inside the display's width cover a block of rows. */
  lemma RowsCover(x: int, y: int, w: int, n: nat, px: int, py: int)
    requires 0 <= x && x + w <= Width && OnScreen(px, py)
    ensures AnyCovers(RowsDown(x, y, w, n), px, py) <==> x <= px < x + w && y <= py < y + n
    ensures AnyCovers(RowsUp(x, y, w, n), px, py) <==> x <= px < x + w && y - n < py <= y
  {
    var down, up := RowsDown(x, y, w, n), RowsUp(x, y, w, n);
    if AnyCovers(down, px, py) {
      var j :| 0 <= j < n && Covers(down[j], px, py);
    }
    if x <= px < x + w && y <= py < y + n {
      assert Covers(down[py - y], px, py);
    }
    if AnyCovers(up, px, py) {
      var j :| 0 <= j < n && Covers(up[j], px, py);
    }
    if x <= px < x + w && y - n < py <= y {
      assert Covers(up[y - py], px, py);
    }
  }

  /** Columns inside the display's height cover a block of columns. */
  lemma ColsCover(x: int, y: int, h: int, n: nat, px: int, py: int)
    requires 0 <= y && y + h <= Height && OnScreen(px, py)
    ensures AnyCovers(ColsRight(x, y, h, n), px, py) <==> x <= px < x + n && y <= py < y + h
    ensures AnyCovers(ColsLeft(x, y, h, n), px, py) <==> x - n < px <= x && y <= py < y + h
  {
    var right, left := ColsRight(x, y, h, n), ColsLeft(x, y, h, n);
    if AnyCovers(right, px, py) {
      var j :| 0 <= j < n && Covers(right[j], px, py);
    }
    if x <= px < x + n && y <= py < y + h {
      assert Covers(right[px - x], px, py);
    }
    if AnyCovers(left, px, py) {
      var j :| 0 <= j < n && Covers(left[j], px, py);
    }
    if x - n < px <= x && y <= py < y + h {
      assert Covers(left[x - px], px, py);
    }
  }

  /** Which on-screen pixels an outline's lines cover, once the rectangle
      is inside the display. */
  lemma OutlineCovers(x: int, y: int, w: int, h: int, outline: int, px: int, py: int)
    requires RectAccepts(x, y, w, h) && OnScreen(px, py) && outline > 0
    ensures AnyCovers(RectLines(x, y, w, h, outline), px, py) <==> InOutline(x, y, w, h, outline, px, py)
  {
    var top, bottom := RowsDown(x, y, w, outline), RowsUp(x, y + h - 1, w, outline);
    var left, right := ColsRight(x, y, h, outline), ColsLeft(x + w - 1, y, h, outline);
    AnyCoversConcat(top, bottom, px, py);
    AnyCoversConcat(top + bottom, left, px, py);
    AnyCoversConcat(top + bottom + left, right, px, py);
    RowsCover(x, y, w, outline, px, py);
    RowsCover(x, y + h - 1, w, outline, px, py);
    ColsCover(x, y, h, outline, px, py);
    ColsCover(x + w - 1, y, h, outline, px, py);
  }

  /** Which on-screen pixels a fill's lines cover, once the rectangle is
      inside the display. */
  lemma FillCovers(x: int, y: int, w: int, h: int, outline: int, px: int, py: int)
    requires RectAccepts(x, y, w, h) && OnScreen(px, py) && outline <= 0
    ensures AnyCovers(RectLines(x, y, w, h, outline), px, py) <==> InRect(x, y, w, h, px, py)
  {
    RowsCover(x, y, w, Count(h), px, py);
    ColsCover(x, y, h, Count(w), px, py);
  }

  /** The lines of an accepted rectangle set exactly the pixels it
      covers. */
  lemma RectLinesPixels(fb: Buffer, x: int, y: int, w: int, h: int, outline: int, color: bv8)
    requires RectAccepts(x, y, w, h)
    ensures forall px, py | OnScreen(px, py) ::
              Pixel(ApplyLines(fb, RectLines(x, y, w, h, outline), color), px, py) ==
              if RectCovers(x, y, w, h, outline, px, py) then color != 0 else Pixel(fb, px, py)
  {
    forall px, py | OnScreen(px, py)
      ensures Pixel(ApplyLines(fb, RectLines(x, y, w, h, outline), color), px, py) ==
              if RectCovers(x, y, w, h, outline, px, py) then color != 0 else Pixel(fb, px, py)
    {
      ApplyLinesPixel(fb, RectLines(x, y, w, h, outline), color, px, py);
      if outline > 0 {
        OutlineCovers(x, y, w, h, outline, px, py);
      } else {
        FillCovers(x, y, w, h, outline, px, py);
      }
    }
  }

  /** Filling by rows and filling by columns give the same buffer, so the
      `w > h` test only decides how many lines are drawn. */
  lemma FillDirectionIrrelevant(fb: Buffer, x: int, y: int, w: int, h: int, color: bv8)
    requires RectAccepts(x, y, w, h)
    ensures ApplyLines(fb, RowsDown(x, y, w, Count(h)), color) == ApplyLines(fb, ColsRight(x, y, h, Count(w)), color)
  {
    var rows, cols := RowsDown(x, y, w, Count(h)), ColsRight(x, y, h, Count(w));
    forall px, py | OnScreen(px, py)
      ensures Pixel(ApplyLines(fb, rows, color), px, py) == Pixel(ApplyLines(fb, cols, color), px, py)
    {
      ApplyLinesPixel(fb, rows, color, px, py);
      ApplyLinesPixel(fb, cols, color, px, py);
      RowsCover(x, y, w, Count(h), px, py);
      ColsCover(x, y, h, Count(w), px, py);
    }
    PixelsDetermineBuffer(ApplyLines(fb, rows, color), ApplyLines(fb, cols, color));
  }

  /** A line the as-written primitives draw without writing past the
      buffer. */
  predicate LineDefined(l: Line, on: bool)
  {
    match l
    case H(x, y, len) => HAcceptsAsWritten(x, y, len) ==> AllAddressable(HWrites(x, y, len, on))
    case V(x, y, len) => VAcceptsAsWritten(x, y, len) ==> AllAddressable(VWrites(x, y, len, on))
  }

  function DrawLineAsWritten(fb: Buffer, l: Line, color: bv8): Buffer
    requires LineDefined(l, color != 0)
  {
    match l
    case H(x, y, len) => HLineAsWritten(fb, x, y, len, color)
    case V(x, y, len) => VLineAsWritten(fb, x, y, len, color)
  }

  function ApplyLinesAsWritten(fb: Buffer, ls: seq<Line>, color: bv8): Buffer
    requires forall j | 0 <= j < |ls| :: LineDefined(ls[j], color != 0)
    decreases |ls|
  {
    if |ls| == 0 then fb else ApplyLinesAsWritten(DrawLineAsWritten(fb, ls[0], color), ls[1..], color)
  }

  /** `draw_rect` as written, drawing with the as-written line primitives;
      the requires is that none of its lines writes past the buffer. */
  function DrawRectAsWritten(fb: Buffer, x: int, y: int, w: int, h: int, outline: int, color: bv8): (r: Buffer)
    requires RectAccepts(x, y, w, h) ==>
               forall j | 0 <= j < |RectLines(x, y, w, h, outline)| :: LineDefined(RectLines(x, y, w, h, outline)[j], color != 0)
    ensures !RectAccepts(x, y, w, h) ==> r == fb
  {
    if RectAccepts(x, y, w, h) then ApplyLinesAsWritten(fb, RectLines(x, y, w, h, outline), color) else fb
  }

  /** The outline precondition of `RectAsWrittenAgrees` is needed: an
      outline thicker than the space left of the right edge makes the
      left-edge loop reach column 128, which the as-written vertical test
      lets through. For `draw_rect(100, 0, 28, 10, 30, 1)` the 89th line
      drawn is the column at x = 128, whose first write lands on pixel
      (0, 8), outside the rectangle and its outline. */
  lemma RectGuardCounterexample()
    ensures RectAccepts(100, 0, 28, 10)
    ensures RectLines(100, 0, 28, 10, 30)[88] == V(Width, 0, 10)
    ensures VAcceptsAsWritten(Width, 0, 10) && !VAccepts(Width, 0, 10)
    ensures AllAddressable(VWrites(Width, 0, 10, true))
    ensures Pixel(VLineAsWritten(Blank(), Width, 0, 10, 1), 0, 8)
    ensures !Pixel(VLine(Blank(), Width, 0, 10, 1), 0, 8)
    ensures !InOutline(100, 0, 28, 10, 30, 0, 8)
  {
    var ls := RectLines(100, 0, 28, 10, 30);
    assert ls[88] == ColsRight(100, 0, 10, 30)[28];
    Column128LightsNextPage();
  }

  /** The ten-pixel column at x = 128 stays inside the buffer and lights
      pixel (0, 8) of a blank screen. */
  lemma Column128LightsNextPage()
    ensures AllAddressable(VWrites(Width, 0, 10, true))
    ensures Pixel(VLineAsWritten(Blank(), Width, 0, 10, 1), 0, 8)
  {
    var ws := VWrites(Width, 0, 10, true);
    forall j | 0 <= j < |ws| ensures Addressable(ws[j].x, ws[j].y) {
      ByteIndexMonotone(Width, 0, Width, ws[j].y);
      ByteIndexMonotone(Width, ws[j].y, Width, 9);
    }
    assert Targets(ws[0], 128, 0);
    ApplyWritesBit(Blank(), ws, 128, 0, true);
    OnScreenIsAddressable(0, 8);
    assert ByteIndex(0, 8) == 128 && BitOf(8) == 0;
  }

  /** Lines that stay off column 128 are drawn the same by both versions. */
  lemma {:induction false} ApplyLinesAsWrittenAgrees(fb: Buffer, ls: seq<Line>, color: bv8)
    requires forall j | 0 <= j < |ls| :: LineDefined(ls[j], color != 0)
    requires forall j | 0 <= j < |ls| :: ls[j].V? && ls[j].len > 0 ==> ls[j].x != Width
    ensures ApplyLinesAsWritten(fb, ls, color) == ApplyLines(fb, ls, color)
    decreases |ls|
  {
    if |ls| > 0 {
      ApplyLinesAsWrittenAgrees(DrawLine(fb, ls[0], color), ls[1..], color);
    }
  }

  /** A rectangle whose outline fits inside the display (or a filled one)
      is drawn identically by the source's line primitives and the
      corrected ones; in particular the source draws it without an
      out-of-bounds write. */
  lemma RectAsWrittenAgrees(fb: Buffer, x: int, y: int, w: int, h: int, outline: int, color: bv8)
    requires RectAccepts(x, y, w, h)
    requires outline <= 0 || (y + outline <= Height && x + outline <= Width)
    ensures forall j | 0 <= j < |RectLines(x, y, w, h, outline)| :: LineDefined(RectLines(x, y, w, h, outline)[j], color != 0)
    ensures DrawRectAsWritten(fb, x, y, w, h, outline, color) == DrawRect(fb, x, y, w, h, outline, color)
  {
    var ls := RectLines(x, y, w, h, outline);
    forall j | 0 <= j < |ls|
      ensures LineDefined(ls[j], color != 0)
      ensures ls[j].V? && ls[j].len > 0 ==> ls[j].x != Width
    {
      match ls[j] {
        case H(lx, ly, len) =>
          assert ly < Height;
          assert HAcceptsAsWritten(lx, ly, len) ==> HAccepts(lx, ly, len);
          AcceptedWritesOnScreen(lx, ly, len, color != 0);
        case V(lx, ly, len) =>
          assert 0 <= lx < Width || len <= 0 || !VAcceptsAsWritten(lx, ly, len);
          AcceptedWritesOnScreen(lx, ly, len, color != 0);
      }
    }
    ApplyLinesAsWrittenAgrees(fb, ls, color);
  }
}
