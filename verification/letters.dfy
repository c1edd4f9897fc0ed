/** The glyph blitter `draw_letter` and the character-level entry point
    `draw_letter_c`. A glyph is drawn column by column, top to bottom, one
    block of `s` x `s` pixels per glyph bit, `s` being 2 for size 'L' and 1
    otherwise; colour 0 draws the complement of the glyph. */
module Letters {
  import opened Core
  import opened Framebuffer
  import opened Font

  /** Side of the block each glyph bit is drawn as (`px_incr`). */
  function Scale(size: char): (s: int)
    ensures s == 1 || s == 2
  {
    if size == 'L' then 2 else 1
  }

  /** `!(!(w & (1 << k)))`: whether bit k of a word is set. */
  predicate WordBit(w: bv32, k: int)
    requires 0 <= k < 32
  {
    w & (1 << k) != 0
  }

  /** The bit `draw_letter` reads at step n: step n of its first loop
      (`w_iter` = 31 - n) reads the first word, step n of the second
      (`w_iter` = 47 - n) the second word. */
  predicate StepBit(g: Glyph, n: int)
    requires 0 <= n < 48
  {
    if n < 32 then WordBit(g.w0, 31 - n) else WordBit(g.w1, 47 - n)
  }

  /** Pixel (col, row) of a glyph: bit `31 - (8*col + row)` of the first
      word for the four left columns, bit `15 - (8*(col-4) + row)` of the
      second word for the two right ones. */
  predicate GlyphPixel(g: Glyph, col: int, row: int)
    requires 0 <= col < 6 && 0 <= row < 8
  {
    if col < 4 then WordBit(g.w0, 31 - (8 * col + row))
    else WordBit(g.w1, 15 - (8 * (col - 4) + row))
  }

  /** The words `draw_letter` actually scans: complemented when colour is 0. */
  function Ink(g: Glyph, color: bv8): Glyph
  {
    if color == 0 then Glyph(!g.w0, !g.w1) else g
  }

  lemma SingleBitComplement(w: bv32, m: bv32)
    requires m != 0 && m & (m - 1) == 0
    ensures (!w & m != 0) == (w & m == 0)
  {
  }

  /** Complementing a word complements each of its bits. */
  lemma InvertedBit(w: bv32, k: int)
    requires 0 <= k < 32
    ensures WordBit(!w, k) == !WordBit(w, k)
  {
    var m: bv32 := 1 << k;
    assert m != 0 && m & (m - 1) == 0;
    SingleBitComplement(w, m);
  }

  /** Step 8*col + row of the scan draws pixel (col, row) of the glyph, in
      the ink colour: set where the glyph is set when colour is non-zero,
      set where the glyph is clear when colour is 0. */
  lemma StepBitIsGlyphPixel(g: Glyph, color: bv8, col: int, row: int)
    requires 0 <= col < 6 && 0 <= row < 8
    ensures StepBit(Ink(g, color), 8 * col + row) == (GlyphPixel(g, col, row) == (color != 0))
  {
    var n := 8 * col + row;
    if col < 4 {
      InvertedBit(g.w0, 31 - n);
    } else {
      InvertedBit(g.w1, 47 - n);
    }
  }

  /** The same, read off the precomputed step bits. */
  lemma StepBitsAreGlyph(g: Glyph, color: bv8, n: int)
    requires 0 <= n < 48
    ensures StepBits(Ink(g, color))[n] == (GlyphPixel(g, n / 8, n % 8) == (color != 0))
  {
    hide StepBit, GlyphPixel, WordBit, Ink, StepBitsFrom;
    StepBitsFromAt(Ink(g, color), 0, n);
    StepBitIsGlyphPixel(g, color, n / 8, n % 8);
  }

  /** `draw_letter`'s drawing position (`cur_x`, `cur_y`). */
  datatype Cursor = Cursor(x: int, y: int)

  /** `cur_y += px_incr`, wrapping back to the top row `top` and one block
      to the right once it reaches `top + line_h`. */
  function Step(top: int, s: int, c: Cursor): Cursor
  {
    if c.y + s == top + 8 * s then Cursor(c.x + s, top) else Cursor(c.x, c.y + s)
  }

  /** The block for one glyph bit, by columns then rows as the source's
      nested `cx`/`cy` loops draw it. */
  function Block(c: Cursor, s: int, on: bool): seq<PixelWrite>
    requires s == 1 || s == 2
  {
    seq(s * s, m => PixelWrite(c.x + m / s, c.y + m % s, on))
  }

  /** The values `t_col` takes from step n on, in scan order. */
  function StepBitsFrom(aw: Glyph, n: int): (bits: seq<bool>)
    requires 0 <= n <= 48
    ensures |bits| == 48 - n
    decreases 48 - n
  {
    if n == 48 then [] else [StepBit(aw, n)] + StepBitsFrom(aw, n + 1)
  }

  /** All 48 values `t_col` takes. */
  function StepBits(aw: Glyph): (bits: seq<bool>)
    ensures |bits| == 48
  {
    StepBitsFrom(aw, 0)
  }

  lemma {:induction false} StepBitsFromAt(aw: Glyph, n: int, m: int)
    requires 0 <= n <= m < 48
    ensures StepBitsFrom(aw, n)[m - n] == StepBit(aw, m)
    decreases m - n
  {
    if n < m {
      StepBitsFromAt(aw, n + 1, m);
    }
  }

  /** The scan from step n on, the cursor standing at `c`. */
  function Scan(top: int, s: int, bits: seq<bool>, n: int, c: Cursor): seq<PixelWrite>
    requires s == 1 || s == 2
    requires 0 <= n <= 48 == |bits|
    decreases 48 - n
  {
    if n == 48 then []
    else Block(c, s, bits[n]) + Scan(top, s, bits, n + 1, Step(top, s, c))
  }

  /** Every pixel write `draw_letter(x, y, w0, w1, color, size)` makes;
      whatever the glyph and colour, each lands in the glyph's cell. */
  function LetterWrites(x: int, y: int, g: Glyph, color: bv8, size: char): (ws: seq<PixelWrite>)
    ensures AllInCell(ws, x, y, Scale(size))
  {
    assert Origin(x, y, Scale(size), 0) == Cursor(x, y);
    ScanInCell(x, y, Scale(size), StepBits(Ink(g, color)), 0);
    Scan(y, Scale(size), StepBits(Ink(g, color)), 0, Cursor(x, y))
  }

  /** The `6s` x `8s` cell of a glyph drawn at (x, y). */
  predicate InCell(x: int, y: int, s: int, px: int, py: int)
  {
    x <= px < x + 6 * s && y <= py < y + 8 * s
  }

  predicate AllInCell(ws: seq<PixelWrite>, x: int, y: int, s: int)
  {
    forall j | 0 <= j < |ws| :: InCell(x, y, s, ws[j].x, ws[j].y)
  }

  /** `draw_letter` checks nothing. Its writes stay inside the buffer
      when the cell's first and last pixels do, byte indices growing with
      both coordinates. */
  predicate LetterDefined(x: int, y: int, size: char)
  {
    Addressable(x, y) && Addressable(x + 6 * Scale(size) - 1, y + 8 * Scale(size) - 1)
  }

  /** That is exactly the condition that every pixel of the cell is
      addressable. */
  lemma LetterDefinedIsCellAddressable(x: int, y: int, size: char)
    ensures LetterDefined(x, y, size) <==>
            forall px, py | InCell(x, y, Scale(size), px, py) :: Addressable(px, py)
  {
    var s := Scale(size);
    if LetterDefined(x, y, size) {
      forall px, py | InCell(x, y, s, px, py) ensures Addressable(px, py) {
        ByteIndexMonotone(x, y, px, py);
        ByteIndexMonotone(px, py, x + 6 * s - 1, y + 8 * s - 1);
      }
    } else {
      assert InCell(x, y, s, x, y) && InCell(x, y, s, x + 6 * s - 1, y + 8 * s - 1);
    }
  }

  predicate CellOnScreen(x: int, y: int, s: int)
  {
    OnScreen(x, y) && OnScreen(x + 6 * s - 1, y + 8 * s - 1)
  }

  /** Where step n's block starts: column n / 8, row n % 8 of the cell. */
  function Origin(x: int, y: int, s: int, n: int): Cursor
  {
    if s == 2 then Cursor(x + 2 * (n / 8), y + 2 * (n % 8)) else Cursor(x + n / 8, y + n % 8)
  }

  /** The cursor update moves from each step's block to the next one's. */
  lemma StepMovesToNextOrigin(x: int, y: int, s: int, n: int)
    requires (s == 1 || s == 2) && 0 <= n < 48
    ensures Step(y, s, Origin(x, y, s, n)) == Origin(x, y, s, n + 1)
  {
    if n % 8 == 7 {
      assert (n + 1) / 8 == n / 8 + 1 && (n + 1) % 8 == 0;
    } else {
      assert (n + 1) / 8 == n / 8 && (n + 1) % 8 == n % 8 + 1;
    }
  }

  /** Every step's block lies inside the cell. */
  lemma BlockInCell(x: int, y: int, s: int, n: int, on: bool)
    requires (s == 1 || s == 2) && 0 <= n < 48
    ensures AllInCell(Block(Origin(x, y, s, n), s, on), x, y, s)
  {
    var b := Block(Origin(x, y, s, n), s, on);
    forall m | 0 <= m < |b| ensures InCell(x, y, s, b[m].x, b[m].y) {
      assert 0 <= m / s < s && 0 <= m % s < s by {
        if s == 2 { assert m < 4; }
      }
      assert 0 <= n / 8 < 6 && 0 <= n % 8 < 8;
    }
  }

  /** The scan from step n on stays inside the cell. */
  lemma {:induction false} ScanInCell(x: int, y: int, s: int, bits: seq<bool>, n: int)
    requires (s == 1 || s == 2) && 0 <= n <= 48 == |bits|
    ensures AllInCell(Scan(y, s, bits, n, Origin(x, y, s, n)), x, y, s)
    decreases 48 - n
  {
    if n < 48 {
      var blk := Block(Origin(x, y, s, n), s, bits[n]);
      StepMovesToNextOrigin(x, y, s, n);
      var rest := Scan(y, s, bits, n + 1, Origin(x, y, s, n + 1));
      BlockInCell(x, y, s, n, bits[n]);
      ScanInCell(x, y, s, bits, n + 1);
      var ws: seq<PixelWrite> := blk + rest;
      assert Scan(y, s, bits, n, Origin(x, y, s, n)) == ws;
      forall j | 0 <= j < |ws| ensures InCell(x, y, s, ws[j].x, ws[j].y) {
        if j < |blk| { assert ws[j] == blk[j]; } else { assert ws[j] == rest[j - |blk|]; }
      }
    }
  }

  /** With the cell addressable, so is every write of `draw_letter`. */
  lemma LetterWritesAddressable(x: int, y: int, g: Glyph, color: bv8, size: char)
    requires LetterDefined(x, y, size)
    ensures AllAddressable(LetterWrites(x, y, g, color, size))
  {
    LetterDefinedIsCellAddressable(x, y, size);
  }

  /** A cell inside the screen is addressable, and the writes into it stay
      on screen. */
  lemma LetterOnScreen(x: int, y: int, g: Glyph, color: bv8, size: char)
    requires CellOnScreen(x, y, Scale(size))
    ensures LetterDefined(x, y, size)
    ensures AllOnScreen(LetterWrites(x, y, g, color, size))
  {
    OnScreenIsAddressable(x, y);
    OnScreenIsAddressable(x + 6 * Scale(size) - 1, y + 8 * Scale(size) - 1);
  }

  /** Drawing a cell that lies on screen leaves every pixel outside the
      cell as it was. */
  lemma LetterFrame(fb: Buffer, x: int, y: int, g: Glyph, color: bv8, size: char)
    requires CellOnScreen(x, y, Scale(size))
    ensures AllAddressable(LetterWrites(x, y, g, color, size))
    ensures forall px, py | OnScreen(px, py) && !InCell(x, y, Scale(size), px, py) ::
              Pixel(ApplyWrites(fb, LetterWrites(x, y, g, color, size)), px, py) == Pixel(fb, px, py)
  {
    var ws := LetterWrites(x, y, g, color, size);
    LetterOnScreen(x, y, g, color, size);
    OnScreenWritesAddressable(ws);
    forall px, py | OnScreen(px, py) && !InCell(x, y, Scale(size), px, py)
      ensures Pixel(ApplyWrites(fb, ws), px, py) == Pixel(fb, px, py)
    {
      OnScreenWritesPixel(fb, ws, px, py, false);
    }
  }

  /** `draw_letter`. On a cell inside the screen, nothing outside the cell
      changes. */
  function DrawLetter(fb: Buffer, x: int, y: int, g: Glyph, color: bv8, size: char): (r: Buffer)
    requires LetterDefined(x, y, size)
    ensures CellOnScreen(x, y, Scale(size)) ==>
              forall px, py | OnScreen(px, py) && !InCell(x, y, Scale(size), px, py) :: Pixel(r, px, py) == Pixel(fb, px, py)
  {
    LetterWritesAddressable(x, y, g, color, size);
    if CellOnScreen(x, y, Scale(size)) then
      LetterFrame(fb, x, y, g, color, size);
      ApplyWrites(fb, LetterWrites(x, y, g, color, size))
    else ApplyWrites(fb, LetterWrites(x, y, g, color, size))
  }

  /** `draw_letter_c`: looks the character up and draws its glyph, again
      leaving everything outside an on-screen cell alone. */
  function DrawChar(fb: Buffer, x: int, y: int, c: char, color: bv8, size: char): (r: Buffer)
    requires LetterDefined(x, y, size)
    ensures CellOnScreen(x, y, Scale(size)) ==>
              forall px, py | OnScreen(px, py) && !InCell(x, y, Scale(size), px, py) :: Pixel(r, px, py) == Pixel(fb, px, py)
  {
    DrawLetter(fb, x, y, GlyphOf(c), color, size)
  }

  /** A block sets exactly its own pixels. */
  lemma BlockValue(c: Cursor, s: int, on: bool, px: int, py: int, d: bool)
    requires s == 1 || s == 2
    ensures LastWrite(Block(c, s, on), px, py, d) ==
            if c.x <= px < c.x + s && c.y <= py < c.y + s then on else d
  {
    var b := Block(c, s, on);
    LastWriteUniform(b, px, py, d, on);
    if exists m | 0 <= m < |b| :: b[m].x == px && b[m].y == py {
      var m :| 0 <= m < |b| && b[m].x == px && b[m].y == py;
      assert 0 <= m / s < s && 0 <= m % s < s by {
        if s == 2 { assert m < 4; }
      }
    }
    if c.x <= px < c.x + s && c.y <= py < c.y + s {
      var m := (px - c.x) * s + (py - c.y);
      assert m / s == px - c.x && m % s == py - c.y by {
        if s == 2 { assert m == 2 * (px - c.x) + (py - c.y); }
      }
      assert b[m].x == px && b[m].y == py;
    }
  }

  /** The glyph column a pixel of the cell at x belongs to. */
  function CellCol(x: int, s: int, px: int): (col: int)
    requires s == 1 || s == 2
    ensures x <= px < x + 6 * s ==> 0 <= col < 6
  {
    if s == 2 then (px - x) / 2 else px - x
  }

  /** The glyph row a pixel of the cell at y belongs to. */
  function CellRow(y: int, s: int, py: int): (row: int)
    requires s == 1 || s == 2
    ensures y <= py < y + 8 * s ==> 0 <= row < 8
  {
    if s == 2 then (py - y) / 2 else py - y
  }

  /** The cell index of a pixel: the step whose block contains it. */
  function CellStep(x: int, y: int, s: int, px: int, py: int): (n: int)
    requires s == 1 || s == 2
    ensures InCell(x, y, s, px, py) ==> 0 <= n < 48
    ensures InCell(x, y, s, px, py) ==> n / 8 == CellCol(x, s, px) && n % 8 == CellRow(y, s, py)
  {
    8 * CellCol(x, s, px) + CellRow(y, s, py)
  }

  /** Step n's block holds exactly the cell pixels whose index is n. */
  lemma BlockOfStep(x: int, y: int, s: int, n: int, px: int, py: int)
    requires (s == 1 || s == 2) && 0 <= n < 48
    ensures (Origin(x, y, s, n).x <= px < Origin(x, y, s, n).x + s && Origin(x, y, s, n).y <= py < Origin(x, y, s, n).y + s)
            <==> (InCell(x, y, s, px, py) && CellStep(x, y, s, px, py) == n)
  {
    if s == 2 {
      var c := Origin(x, y, s, n);
      if c.x <= px < c.x + 2 && c.y <= py < c.y + 2 {
        assert (px - x) / 2 == n / 8 && (py - y) / 2 == n % 8;
      }
    }
  }

  /** From step n on, the scan sets every cell pixel of index n or more
      to its step's bit and leaves every other pixel as it was. */
  lemma {:induction false} ScanValue(x: int, y: int, s: int, bits: seq<bool>, n: int, px: int, py: int, d: bool)
    requires (s == 1 || s == 2) && 0 <= n <= 48 == |bits|
    ensures LastWrite(Scan(y, s, bits, n, Origin(x, y, s, n)), px, py, d) ==
            if InCell(x, y, s, px, py) && CellStep(x, y, s, px, py) >= n
            then bits[CellStep(x, y, s, px, py)] else d
    decreases 48 - n
  {
    if n < 48 {
      var c := Origin(x, y, s, n);
      var blk := Block(c, s, bits[n]);
      StepMovesToNextOrigin(x, y, s, n);
      var rest := Scan(y, s, bits, n + 1, Origin(x, y, s, n + 1));
      assert Scan(y, s, bits, n, c) == blk + rest;
      LastWriteConcat(blk, rest, px, py, d);
      BlockValue(c, s, bits[n], px, py, d);
      ScanValue(x, y, s, bits, n + 1, px, py, LastWrite(blk, px, py, d));
      BlockOfStep(x, y, s, n, px, py);
    }
  }

  /** The whole scan, read through the glyph: the pixel at step
      `8*col + row` is the glyph's pixel (col, row) in the ink colour. */
  lemma LetterValue(x: int, y: int, g: Glyph, color: bv8, s: int, px: int, py: int, d: bool)
    requires s == 1 || s == 2
    ensures LastWrite(Scan(y, s, StepBits(Ink(g, color)), 0, Cursor(x, y)), px, py, d) ==
            if InCell(x, y, s, px, py)
            then GlyphPixel(g, CellCol(x, s, px), CellRow(y, s, py)) == (color != 0)
            else d
  {
    assert Origin(x, y, s, 0) == Cursor(x, y);
    ScanValue(x, y, s, StepBits(Ink(g, color)), 0, px, py, d);
    if InCell(x, y, s, px, py) {
      StepBitsAreGlyph(g, color, CellStep(x, y, s, px, py));
    }
  }

  /** `draw_letter` on a cell inside the screen: every pixel of the cell
      takes the glyph's pixel in the ink colour (each glyph bit filling an
      `s` x `s` block), and no pixel outside the cell changes. */
  lemma LetterPixel(fb: Buffer, x: int, y: int, g: Glyph, color: bv8, size: char, px: int, py: int)
    requires CellOnScreen(x, y, Scale(size)) && OnScreen(px, py)
    ensures LetterDefined(x, y, size)
    ensures Pixel(DrawLetter(fb, x, y, g, color, size), px, py) ==
            if InCell(x, y, Scale(size), px, py)
            then GlyphPixel(g, CellCol(x, Scale(size), px), CellRow(y, Scale(size), py)) == (color != 0)
            else Pixel(fb, px, py)
  {
    LetterOnScreen(x, y, g, color, size);
    ApplyWritesPixel(fb, LetterWrites(x, y, g, color, size), px, py);
    LetterValue(x, y, g, color, Scale(size), px, py, Pixel(fb, px, py));
  }

  /** `draw_letter_c` on a cell inside the screen draws the character's
      glyph from the font. */
  lemma CharPixel(fb: Buffer, x: int, y: int, c: char, color: bv8, size: char, px: int, py: int)
    requires CellOnScreen(x, y, Scale(size)) && OnScreen(px, py)
    ensures LetterDefined(x, y, size)
    ensures Pixel(DrawChar(fb, x, y, c, color, size), px, py) ==
            if InCell(x, y, Scale(size), px, py)
            then GlyphPixel(GlyphOf(c), CellCol(x, Scale(size), px), CellRow(y, Scale(size), py)) == (color != 0)
            else Pixel(fb, px, py)
  {
    LetterPixel(fb, x, y, GlyphOf(c), color, size, px, py);
  }
}
