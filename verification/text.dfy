/** Runs of characters: `draw_text` and the digit sequence of
    `draw_letter_i` both draw one character after another along a row,
    stepping the cursor by a fixed advance per character. */
module Text {
  import opened Core
  import opened Framebuffer
  import opened Font
  import opened Letters

  /** One character of a run and the column it is drawn at. */
  datatype Placed = Placed(x: int, c: char)

  /** The cursor step after each character: 6 for size 'S', 12 for size
      'L', and no step at all for any other size. */
  function Advance(size: char): (adv: int)
    ensures adv == 6 * Scale(size) || adv == 0
    ensures adv != 0 <==> size == 'S' || size == 'L'
  {
    if size == 'S' then 6 else if size == 'L' then 12 else 0
  }

  /** Characters laid out from column x on, `adv` apart. */
  function Layout(x: int, cs: seq<char>, adv: int): (run: seq<Placed>)
    ensures |run| == |cs|
    ensures forall i | 0 <= i < |run| :: run[i].c == cs[i]
  {
    seq(|cs|, i requires 0 <= i < |cs| => Placed(x + i * adv, cs[i]))
  }

  /** A layout is its first character followed by the layout of the rest
      one advance further on. */
  lemma LayoutTail(x: int, cs: seq<char>, adv: int)
    requires |cs| > 0
    ensures Layout(x, cs, adv) == [Placed(x, cs[0])] + Layout(x + adv, cs[1..], adv)
  {
    var l, t := Layout(x, cs, adv), Layout(x + adv, cs[1..], adv);
    forall i | 0 <= i < |t|
      ensures l[i + 1] == t[i]
    {
      assert x + (i + 1) * adv == x + adv + i * adv;
    }
  }

  /** What keeps every `draw_letter` call of a run inside the buffer. */
  predicate RunDefined(y: int, run: seq<Placed>, size: char)
  {
    forall i | 0 <= i < |run| :: LetterDefined(run[i].x, y, size)
  }

  /** Draws the run's characters with `draw_letter_c`, first to last.
      When every cell is on screen, a pixel outside all of them keeps its
      value. */
  function DrawRun(fb: Buffer, y: int, run: seq<Placed>, color: bv8, size: char): (r: Buffer)
    requires RunDefined(y, run, size)
    ensures (forall i | 0 <= i < |run| :: CellOnScreen(run[i].x, y, Scale(size))) ==>
              forall px, py | OnScreen(px, py) && LastCover(run, y, Scale(size), px, py) == -1 ::
                Pixel(r, px, py) == Pixel(fb, px, py)
    decreases |run|
  {
    if |run| == 0 then fb
    else
      var pre, last := run[..|run| - 1], run[|run| - 1];
      assert forall i | 0 <= i < |pre| :: pre[i] == run[i];
      DrawChar(DrawRun(fb, y, pre, color, size), last.x, y, last.c, color, size)
  }

  /** The last character of the run whose cell holds pixel (px, py), or -1
      when no cell holds it. */
  function LastCover(run: seq<Placed>, y: int, s: int, px: int, py: int): (k: int)
    ensures -1 <= k < |run|
    ensures k >= 0 ==> InCell(run[k].x, y, s, px, py)
    ensures forall j | k < j < |run| :: !InCell(run[j].x, y, s, px, py)
    decreases |run|
  {
    if |run| == 0 then -1
    else if InCell(run[|run| - 1].x, y, s, px, py) then |run| - 1
    else LastCover(run[..|run| - 1], y, s, px, py)
  }

  /** Drawing a run whose cells are all on screen: a pixel inside some
      cell shows the glyph of the last character covering it, in the ink
      colour; a pixel outside every cell keeps its value. */
  lemma {:induction false} RunPixel(fb: Buffer, y: int, run: seq<Placed>, color: bv8, size: char, px: int, py: int)
    requires forall i | 0 <= i < |run| :: CellOnScreen(run[i].x, y, Scale(size))
    requires OnScreen(px, py)
    ensures RunDefined(y, run, size)
    ensures var k := LastCover(run, y, Scale(size), px, py);
            Pixel(DrawRun(fb, y, run, color, size), px, py) ==
            if k >= 0
            then GlyphPixel(GlyphOf(run[k].c), CellCol(run[k].x, Scale(size), px), CellRow(y, Scale(size), py)) == (color != 0)
            else Pixel(fb, px, py)
    decreases |run|
  {
    hide DrawChar;
    if |run| > 0 {
      var pre, last := run[..|run| - 1], run[|run| - 1];
      assert forall i | 0 <= i < |pre| :: pre[i] == run[i];
      RunPixel(fb, y, pre, color, size, px, py);
      CharPixel(DrawRun(fb, y, pre, color, size), last.x, y, last.c, color, size, px, py);
    }
  }

  /** Length of the C string starting at index i of a character array:
      the index of the first NUL from i on, or the array's end. */
  function CLengthFrom(cc: seq<char>, i: int): (n: int)
    requires 0 <= i <= |cc|
    ensures i <= n <= |cc|
    ensures forall j | i <= j < n :: cc[j] != '\0'
    ensures n < |cc| ==> cc[n] == '\0'
    decreases |cc| - i
  {
    if i == |cc| || cc[i] == '\0' then i else CLengthFrom(cc, i + 1)
  }

  /** The number of characters `draw_text` reads before the NUL. */
  function CLength(cc: seq<char>): (n: int)
    ensures 0 <= n <= |cc|
    ensures forall j | 0 <= j < n :: cc[j] != '\0'
    ensures n < |cc| ==> cc[n] == '\0'
  {
    CLengthFrom(cc, 0)
  }

  /** Drawing a run one character longer draws that character last. */
  lemma DrawRunSnoc(fb: Buffer, y: int, run: seq<Placed>, p: Placed, size: char, color: bv8)
    requires RunDefined(y, run, size) && LetterDefined(p.x, y, size)
    ensures RunDefined(y, run + [p], size)
    ensures DrawRun(fb, y, run + [p], color, size) == DrawChar(DrawRun(fb, y, run, color, size), p.x, y, p.c, color, size)
  {
    hide DrawChar;
    assert (run + [p])[..|run|] == run;
  }

  lemma DrawRunNil(fb: Buffer, y: int, color: bv8, size: char)
    ensures RunDefined(y, [], size) && DrawRun(fb, y, [], color, size) == fb
  {
  }

  /** The full run `draw_text` draws for the string in `cc`. */
  function TextRun(x: int, cc: seq<char>, size: char): (run: seq<Placed>)
    ensures |run| == CLength(cc)
  {
    Layout(x, cc[..CLength(cc)], Advance(size))
  }

  /** One pass of the loop of `draw_text`: while characters of the string
      remain, the next one is the run's next element, drawn at
      `x + offset`, and drawing it extends the run drawn so far. */
  lemma TextStep(fb: Buffer, x: int, y: int, cc: seq<char>, color: bv8, size: char, i: int, offset: int, drawn: seq<Placed>)
    requires 0 <= i <= CLength(cc) && i < |cc| && cc[i] != '\0'
    requires offset == i * Advance(size)
    requires RunDefined(y, TextRun(x, cc, size), size)
    requires drawn == TextRun(x, cc, size)[..i]
    ensures i + 1 <= CLength(cc)
    ensures LetterDefined(x + offset, y, size)
    ensures drawn + [Placed(x + offset, cc[i])] == TextRun(x, cc, size)[..i + 1]
    ensures offset + Advance(size) == (i + 1) * Advance(size)
    ensures RunDefined(y, drawn, size) && RunDefined(y, drawn + [Placed(x + offset, cc[i])], size)
    ensures DrawRun(fb, y, drawn + [Placed(x + offset, cc[i])], color, size) ==
            DrawChar(DrawRun(fb, y, drawn, color, size), x + offset, y, cc[i], color, size)
  {
    hide DrawChar, DrawRun;
    TextStepLayout(x, cc, size, i, offset);
    DrawRunSnoc(fb, y, drawn, Placed(x + offset, cc[i]), size, color);
  }

  /** The layout half of a loop pass: character i of the run sits at
      `x + offset`, and the run so far grows by it. */
  lemma TextStepLayout(x: int, cc: seq<char>, size: char, i: int, offset: int)
    requires 0 <= i <= CLength(cc) && i < |cc| && cc[i] != '\0'
    requires offset == i * Advance(size)
    ensures i < CLength(cc)
    ensures TextRun(x, cc, size)[i] == Placed(x + offset, cc[i])
    ensures TextRun(x, cc, size)[..i + 1] == TextRun(x, cc, size)[..i] + [Placed(x + offset, cc[i])]
    ensures offset + Advance(size) == (i + 1) * Advance(size)
  {
    var full := TextRun(x, cc, size);
    assert i < |full|;
    assert full[i] == Placed(x + offset, cc[i]);
    assert full[..i + 1] == full[..i] + [full[i]];
  }

  /** `draw_text`: draws each character of the string at `x + offset`,
      the offset growing by the size's advance after every character. */
  method DrawText(fb: Buffer, x: int, y: int, cc: seq<char>, color: bv8, size: char) returns (r: Buffer)
    requires RunDefined(y, TextRun(x, cc, size), size)
    ensures r == DrawRun(fb, y, TextRun(x, cc, size), color, size)
  {
    ghost var drawn: seq<Placed> := [];
    DrawRunNil(fb, y, color, size);
    hide DrawChar, DrawRun, TextRun;
    var i := 0;
    var offset := 0;
    r := fb;
    while i < |cc| && cc[i] != '\0'
      invariant 0 <= i <= CLength(cc)
      invariant offset == i * Advance(size)
      invariant drawn == TextRun(x, cc, size)[..i]
      invariant RunDefined(y, drawn, size)
      invariant r == DrawRun(fb, y, drawn, color, size)
      decreases |cc| - i
    {
      TextStep(fb, x, y, cc, color, size, i, offset, drawn);
      r := DrawChar(r, x + offset, y, cc[i], color, size);
      drawn := drawn + [Placed(x + offset, cc[i])];
      if size == 'S' {
        offset := offset + 6;
      } else if size == 'L' {
        offset := offset + 12;
      }
      i := i + 1;
    }
    assert i == CLength(cc);
    assert drawn == TextRun(x, cc, size);
  }
}
