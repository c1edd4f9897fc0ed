/** The SSD1306 framebuffer: 1024 bytes organised as eight 128-byte pages.
    Byte `x + (y/8)*128` holds the column of eight pixels of page `y/8` at
    column `x`, pixel `y` in bit `y & 7`. */
module Framebuffer {
  import opened Core

  const Width: int := 128
  const Height: int := 64
  /** `OLED_MAX_FB_SIZE`, `(128*64)/8`. */
  const Size: int := (128 * 64) / 8

  type Buffer = b: seq<bv8> | |b| == Size witness seq(1024, i => 0 as bv8)

  /** The buffer the display constructor leaves behind: every byte 0. */
  function Blank(): (b: Buffer)
    ensures forall i | 0 <= i < Size :: b[i] == 0
  {
    seq(Size, i => 0 as bv8)
  }

  /** The page of row `y`, computed with C's truncating `y / 8`. */
  function Page(y: int): (p: int)
    ensures 0 <= y ==> 8 * p <= y < 8 * p + 8
    ensures y < 0 ==> 8 * p - 8 < y <= 8 * p
  {
    CDiv(y, 8)
  }

  /** Byte holding pixel (x, y): `x + (y / 8) * 128`, the row stride being
      the literal 128 whatever the display width. */
  function ByteIndex(x: int, y: int): (i: int)
    ensures OnScreen(x, y) ==> 0 <= i < Size && i % 128 == x && i / 128 == y / 8
  {
    x + Page(y) * 128
  }

  /** Bit holding pixel row `y`: `y & 7`, which for two's-complement `int`
      is the non-negative remainder of `y` by 8. */
  function BitOf(y: int): int
  {
    y % 8
  }

  /** Pixel (x, y) maps to a byte inside the buffer. Nothing in the
      renderer checks this before writing; it is what a write needs to
      stay in bounds. */
  predicate Addressable(x: int, y: int)
  {
    0 <= ByteIndex(x, y) < Size
  }

  /** Byte indices grow with both coordinates. */
  lemma ByteIndexMonotone(x1: int, y1: int, x2: int, y2: int)
    requires x1 <= x2 && y1 <= y2
    ensures ByteIndex(x1, y1) <= ByteIndex(x2, y2)
  {
    assert Page(y1) <= Page(y2) by {
      if y1 >= 0 {
        assert y1 / 8 <= y2 / 8;
      } else if y2 < 0 {
        assert (-y2) / 8 <= (-y1) / 8;
      }
    }
  }

  predicate OnScreen(x: int, y: int)
  {
    0 <= x < Width && 0 <= y < Height
  }

  lemma OnScreenIsAddressable(x: int, y: int)
    requires OnScreen(x, y)
    ensures Addressable(x, y)
    ensures Page(y) == y / 8 && 0 <= Page(y) < 8
  {
  }

  /** Distinct on-screen pixels live in distinct (byte, bit) locations. */
  lemma ScreenLocationsDistinct(x1: int, y1: int, x2: int, y2: int)
    requires OnScreen(x1, y1) && OnScreen(x2, y2)
    ensures (ByteIndex(x1, y1) == ByteIndex(x2, y2) && BitOf(y1) == BitOf(y2)) <==> (x1 == x2 && y1 == y2)
  {
  }

  /** `0x01 << k`, the mask of bit k of a byte. */
  function Mask(k: int): bv8
    requires 0 <= k < 8
  {
    if k == 0 then 0x01 else if k == 1 then 0x02 else if k == 2 then 0x04
    else if k == 3 then 0x08 else if k == 4 then 0x10 else if k == 5 then 0x20
    else if k == 6 then 0x40 else 0x80
  }

  predicate BitAt(fb: Buffer, i: int, k: int)
    requires 0 <= i < Size && 0 <= k < 8
  {
    fb[i] & Mask(k) != 0
  }

  /** Whether on-screen pixel (x, y) is lit. */
  predicate Pixel(fb: Buffer, x: int, y: int)
    requires OnScreen(x, y)
  {
    OnScreenIsAddressable(x, y);
    BitAt(fb, ByteIndex(x, y), BitOf(y))
  }

  /** `b | m` when setting, `b & ~m` when clearing. */
  function MaskWrite(b: bv8, m: bv8, on: bool): bv8
  {
    if on then b | m else b & !m
  }

  /** Writing bit j of a byte under its mask. */
  function SetBit(b: bv8, j: int, on: bool): bv8
    requires 0 <= j < 8
  {
    MaskWrite(b, Mask(j), on)
  }

  /** A masked write fixes the masked bits and keeps the others. */
  lemma MaskWriteMask(b: bv8, m: bv8, on: bool)
    ensures MaskWrite(b, m, on) & m == if on then m else 0
    ensures MaskWrite(b, m, on) & !m == b & !m
  {
  }

  /** A second masked write under the same mask overrides the first. */
  lemma MaskWriteTwice(b: bv8, m: bv8, on1: bool, on2: bool)
    ensures MaskWrite(MaskWrite(b, m, on1), m, on2) == MaskWrite(b, m, on2)
  {
    if on2 {
      assert MaskWrite(MaskWrite(b, m, on1), m, on2) == MaskWrite(b, m, on1) | m;
    } else {
      assert MaskWrite(MaskWrite(b, m, on1), m, on2) == MaskWrite(b, m, on1) & !m;
    }
  }

  /** Setting then clearing restores the byte exactly when its masked bits
      were clear. */
  lemma MaskWriteRestore(b: bv8, m: bv8)
    ensures MaskWrite(MaskWrite(b, m, true), m, false) == b <==> b & m == 0
  {
  }

  /** Setting or clearing bit j fixes that bit and keeps the others. */
  lemma SetBitMask(b: bv8, j: int, on: bool)
    requires 0 <= j < 8
    ensures SetBit(b, j, on) & Mask(j) == if on then Mask(j) else 0
    ensures SetBit(b, j, on) & !Mask(j) == b & !Mask(j)
  {
    hide Mask;
    MaskWriteMask(b, Mask(j), on);
  }

  /** A second write of the same bit overrides the first. */
  lemma SetBitTwice(b: bv8, j: int, on1: bool, on2: bool)
    requires 0 <= j < 8
    ensures SetBit(SetBit(b, j, on1), j, on2) == SetBit(b, j, on2)
  {
    hide Mask;
    MaskWriteTwice(b, Mask(j), on1, on2);
  }

  /** Setting then clearing a bit restores the byte exactly when the bit
      was clear to begin with. */
  lemma SetBitRestore(b: bv8, j: int)
    requires 0 <= j < 8
    ensures SetBit(SetBit(b, j, true), j, false) == b <==> b & Mask(j) == 0
  {
    hide Mask;
    MaskWriteRestore(b, Mask(j));
  }

  /** A byte is determined by its eight bits. */
  lemma ByteFromBits(a: bv8, b: bv8)
    requires forall k | 0 <= k < 8 :: (a & Mask(k) != 0) == (b & Mask(k) != 0)
    ensures a == b
  {
    assert (a & Mask(0) != 0) == (b & Mask(0) != 0);
    assert (a & Mask(1) != 0) == (b & Mask(1) != 0);
    assert (a & Mask(2) != 0) == (b & Mask(2) != 0);
    assert (a & Mask(3) != 0) == (b & Mask(3) != 0);
    assert (a & Mask(4) != 0) == (b & Mask(4) != 0);
    assert (a & Mask(5) != 0) == (b & Mask(5) != 0);
    assert (a & Mask(6) != 0) == (b & Mask(6) != 0);
    assert (a & Mask(7) != 0) == (b & Mask(7) != 0);
  }

  /** Two buffers with the same bits everywhere are equal. */
  lemma BitsDetermineBuffer(a: Buffer, b: Buffer)
    requires forall i, k | 0 <= i < Size && 0 <= k < 8 :: BitAt(a, i, k) == BitAt(b, i, k)
    ensures a == b
  {
    forall i | 0 <= i < Size
      ensures a[i] == b[i]
    {
      forall k | 0 <= k < 8
        ensures (a[i] & Mask(k) != 0) == (b[i] & Mask(k) != 0)
      {
        assert BitAt(a, i, k) == BitAt(b, i, k);
      }
      ByteFromBits(a[i], b[i]);
    }
  }

  /** Every bit of the buffer is exactly one on-screen pixel, so two
      buffers that show the same picture are byte-for-byte equal. */
  lemma PixelsDetermineBuffer(a: Buffer, b: Buffer)
    requires forall x, y | OnScreen(x, y) :: Pixel(a, x, y) == Pixel(b, x, y)
    ensures a == b
  {
    forall i, k | 0 <= i < Size && 0 <= k < 8
      ensures BitAt(a, i, k) == BitAt(b, i, k)
    {
      var x, y := i % 128, (i / 128) * 8 + k;
      assert OnScreen(x, y);
      assert ByteIndex(x, y) == i && BitOf(y) == k;
      assert Pixel(a, x, y) == Pixel(b, x, y);
    }
    BitsDetermineBuffer(a, b);
  }

  /** Sets or clears bit j of byte i, leaving every other bit alone. */
  function WriteBit(fb: Buffer, i: int, j: int, on: bool): (r: Buffer)
    requires 0 <= i < Size && 0 <= j < 8
    ensures forall n | 0 <= n < Size && n != i :: r[n] == fb[n]
    ensures r[i] & Mask(j) == if on then Mask(j) else 0
    ensures r[i] & !Mask(j) == fb[i] & !Mask(j)
  {
    SetBitMask(fb[i], j, on);
    fb[i := SetBit(fb[i], j, on)]
  }

  /** `draw_pixel`: set (color != 0) or clear (color == 0) one bit. The
      source performs no bounds check; the requires is what keeps its
      write inside the buffer. */
  function DrawPixel(fb: Buffer, x: int, y: int, color: bv8): (r: Buffer)
    requires Addressable(x, y)
    ensures forall i | 0 <= i < Size && i != ByteIndex(x, y) :: r[i] == fb[i]
    ensures r[ByteIndex(x, y)] & Mask(BitOf(y)) == if color != 0 then Mask(BitOf(y)) else 0
    ensures r[ByteIndex(x, y)] & !Mask(BitOf(y)) == fb[ByteIndex(x, y)] & !Mask(BitOf(y))
  {
    WriteBit(fb, ByteIndex(x, y), BitOf(y), color != 0)
  }

  /** On screen, `draw_pixel` lights or darkens exactly the requested pixel
      and leaves every other pixel alone. */
  lemma DrawPixelOnScreen(fb: Buffer, x: int, y: int, color: bv8)
    requires OnScreen(x, y)
    ensures Addressable(x, y)
    ensures Pixel(DrawPixel(fb, x, y, color), x, y) == (color != 0)
    ensures forall px, py | OnScreen(px, py) && (px != x || py != y) ::
              Pixel(DrawPixel(fb, x, y, color), px, py) == Pixel(fb, px, py)
  {
    OnScreenIsAddressable(x, y);
    forall px, py | OnScreen(px, py) && (px != x || py != y)
      ensures Pixel(DrawPixel(fb, x, y, color), px, py) == Pixel(fb, px, py)
    {
      ScreenLocationsDistinct(x, y, px, py);
    }
  }

  /** A second write of the same bit overrides the first. */
  lemma WriteBitTwice(fb: Buffer, i: int, j: int, on1: bool, on2: bool)
    requires 0 <= i < Size && 0 <= j < 8
    ensures WriteBit(WriteBit(fb, i, j, on1), i, j, on2) == WriteBit(fb, i, j, on2)
  {
    SetBitTwice(fb[i], j, on1, on2);
    assert WriteBit(fb, i, j, on1)[i] == SetBit(fb[i], j, on1);
  }

  /** Setting then clearing a bit restores the buffer exactly when the bit
      was clear. */
  lemma WriteBitRestore(fb: Buffer, i: int, j: int)
    requires 0 <= i < Size && 0 <= j < 8
    ensures WriteBit(WriteBit(fb, i, j, true), i, j, false) == fb <==> fb[i] & Mask(j) == 0
  {
    var back := WriteBit(WriteBit(fb, i, j, true), i, j, false);
    SetBitRestore(fb[i], j);
    assert back[i] == SetBit(SetBit(fb[i], j, true), j, false);
    if fb[i] & Mask(j) == 0 {
      assert back == fb;
    }
  }

  /** A second draw of the same pixel overrides the first; in
      particular drawing a pixel twice is the same as drawing it once. */
  lemma DrawPixelTwice(fb: Buffer, x: int, y: int, c1: bv8, c2: bv8)
    requires Addressable(x, y)
    ensures DrawPixel(DrawPixel(fb, x, y, c1), x, y, c2) == DrawPixel(fb, x, y, c2)
    ensures DrawPixel(DrawPixel(fb, x, y, c1), x, y, c1) == DrawPixel(fb, x, y, c1)
  {
    WriteBitTwice(fb, ByteIndex(x, y), BitOf(y), c1 != 0, c2 != 0);
    WriteBitTwice(fb, ByteIndex(x, y), BitOf(y), c1 != 0, c1 != 0);
  }

  /** Lighting a pixel and then clearing it restores the buffer exactly
      when the pixel was dark before. */
  lemma DrawPixelRestore(fb: Buffer, x: int, y: int)
    requires Addressable(x, y)
    ensures (DrawPixel(DrawPixel(fb, x, y, 1), x, y, 0) == fb) <==> !BitAt(fb, ByteIndex(x, y), BitOf(y))
  {
    WriteBitRestore(fb, ByteIndex(x, y), BitOf(y));
  }

  /** One pixel write of a drawing primitive, in the order it is made. */
  datatype PixelWrite = PixelWrite(x: int, y: int, on: bool)

  predicate AllAddressable(ws: seq<PixelWrite>)
  {
    forall j | 0 <= j < |ws| :: Addressable(ws[j].x, ws[j].y)
  }

  predicate AllOnScreen(ws: seq<PixelWrite>)
  {
    forall j | 0 <= j < |ws| :: OnScreen(ws[j].x, ws[j].y)
  }

  /** Performs the writes left to right with `draw_pixel` (color 1 or 0). */
  function ApplyWrites(fb: Buffer, ws: seq<PixelWrite>): Buffer
    requires AllAddressable(ws)
    decreases |ws|
  {
    if |ws| == 0 then fb
    else ApplyWrites(DrawPixel(fb, ws[0].x, ws[0].y, if ws[0].on then 1 else 0), ws[1..])
  }

  predicate Targets(w: PixelWrite, i: int, k: int)
  {
    ByteIndex(w.x, w.y) == i && BitOf(w.y) == k
  }

  /** The last-writer rule: a bit that some write targets ends with the
      value the writes to it carry; a bit no write targets is unchanged. */
  lemma {:induction false} ApplyWritesBit(fb: Buffer, ws: seq<PixelWrite>, i: int, k: int, v: bool)
    requires AllAddressable(ws) && 0 <= i < Size && 0 <= k < 8
    requires forall j | 0 <= j < |ws| && Targets(ws[j], i, k) :: ws[j].on == v
    ensures BitAt(ApplyWrites(fb, ws), i, k) ==
            if exists j | 0 <= j < |ws| :: Targets(ws[j], i, k) then v else BitAt(fb, i, k)
    decreases |ws|
  {
    if |ws| > 0 {
      var fb1 := DrawPixel(fb, ws[0].x, ws[0].y, if ws[0].on then 1 else 0);
      var rest := ws[1..];
      assert AllAddressable(rest) by {
        forall j | 0 <= j < |rest| ensures Addressable(rest[j].x, rest[j].y) {
          assert rest[j] == ws[j + 1];
        }
      }
      assert forall j | 0 <= j < |rest| && Targets(rest[j], i, k) :: rest[j].on == v by {
        forall j | 0 <= j < |rest| && Targets(rest[j], i, k) ensures rest[j].on == v {
          assert rest[j] == ws[j + 1];
        }
      }
      ApplyWritesBit(fb1, rest, i, k, v);
      var inRest := exists j | 0 <= j < |rest| :: Targets(rest[j], i, k);
      var inAll := exists j | 0 <= j < |ws| :: Targets(ws[j], i, k);
      if inRest {
        var j :| 0 <= j < |rest| && Targets(rest[j], i, k);
        assert Targets(ws[j + 1], i, k);
      } else if Targets(ws[0], i, k) {
        assert BitAt(fb1, i, k) == v;
      } else {
        if i == ByteIndex(ws[0].x, ws[0].y) {
          assert k != BitOf(ws[0].y);
        }
        assert BitAt(fb1, i, k) == BitAt(fb, i, k);
      }
    }
  }

  /** The last-writer rule at pixel level, for writes that all stay on
      screen: a pixel takes the value of the writes that hit it, or keeps
      its value when none does. */
  lemma OnScreenWritesPixel(fb: Buffer, ws: seq<PixelWrite>, px: int, py: int, v: bool)
    requires AllOnScreen(ws) && OnScreen(px, py)
    requires forall j | 0 <= j < |ws| && ws[j].x == px && ws[j].y == py :: ws[j].on == v
    ensures AllAddressable(ws)
    ensures Pixel(ApplyWrites(fb, ws), px, py) ==
            if exists j | 0 <= j < |ws| :: ws[j].x == px && ws[j].y == py then v else Pixel(fb, px, py)
  {
    forall j | 0 <= j < |ws| ensures Addressable(ws[j].x, ws[j].y) {
      OnScreenIsAddressable(ws[j].x, ws[j].y);
    }
    OnScreenIsAddressable(px, py);
    var i, k := ByteIndex(px, py), BitOf(py);
    forall j | 0 <= j < |ws|
      ensures Targets(ws[j], i, k) <==> (ws[j].x == px && ws[j].y == py)
    {
      ScreenLocationsDistinct(ws[j].x, ws[j].y, px, py);
    }
    ApplyWritesBit(fb, ws, i, k, v);
  }

  /** Writes in sequence: the writes of `a + b` are those of `a` followed
      by those of `b`. */
  lemma {:induction false} ApplyWritesConcat(fb: Buffer, a: seq<PixelWrite>, b: seq<PixelWrite>)
    requires AllAddressable(a) && AllAddressable(b)
    ensures AllAddressable(a + b)
    ensures ApplyWrites(fb, a + b) == ApplyWrites(ApplyWrites(fb, a), b)
    decreases |a|
  {
    assert AllAddressable(a + b) by {
      forall j | 0 <= j < |a + b| ensures Addressable((a + b)[j].x, (a + b)[j].y) {
        if j < |a| { assert (a + b)[j] == a[j]; } else { assert (a + b)[j] == b[j - |a|]; }
      }
    }
    if |a| > 0 {
      var fb1 := DrawPixel(fb, a[0].x, a[0].y, if a[0].on then 1 else 0);
      assert AllAddressable(a[1..]) by {
        forall j | 0 <= j < |a[1..]| ensures Addressable(a[1..][j].x, a[1..][j].y) {
          assert a[1..][j] == a[j + 1];
        }
      }
      ApplyWritesConcat(fb1, a[1..], b);
      assert (a + b)[0] == a[0] && (a + b)[1..] == a[1..] + b;
    } else {
      assert a + b == b;
    }
  }

  lemma AllOnScreenConcat(a: seq<PixelWrite>, b: seq<PixelWrite>)
    ensures AllOnScreen(a + b) <==> AllOnScreen(a) && AllOnScreen(b)
  {
    if AllOnScreen(a + b) {
      forall j | 0 <= j < |a| ensures OnScreen(a[j].x, a[j].y) { assert (a + b)[j] == a[j]; }
      forall j | 0 <= j < |b| ensures OnScreen(b[j].x, b[j].y) { assert (a + b)[j + |a|] == b[j]; }
    }
  }

  lemma OnScreenWritesAddressable(ws: seq<PixelWrite>)
    requires AllOnScreen(ws)
    ensures AllAddressable(ws)
  {
    forall j | 0 <= j < |ws| ensures Addressable(ws[j].x, ws[j].y) {
      OnScreenIsAddressable(ws[j].x, ws[j].y);
    }
  }

  /** The value the writes leave at pixel (px, py), starting from `d`:
      that of the last write hitting the pixel, or `d` if none does. */
  function LastWrite(ws: seq<PixelWrite>, px: int, py: int, d: bool): (v: bool)
    ensures (forall j | 0 <= j < |ws| :: ws[j].x != px || ws[j].y != py) ==> v == d
    decreases |ws|
  {
    if |ws| == 0 then d
    else LastWrite(ws[1..], px, py, if ws[0].x == px && ws[0].y == py then ws[0].on else d)
  }

  /** Writes that all carry the same value v leave v on every pixel they
      hit and leave every other pixel alone. */
  lemma {:induction false} LastWriteUniform(ws: seq<PixelWrite>, px: int, py: int, d: bool, v: bool)
    requires forall j | 0 <= j < |ws| :: ws[j].on == v
    ensures LastWrite(ws, px, py, d) ==
            if exists j | 0 <= j < |ws| :: ws[j].x == px && ws[j].y == py then v else d
    decreases |ws|
  {
    if |ws| > 0 {
      var d1 := if ws[0].x == px && ws[0].y == py then v else d;
      LastWriteUniform(ws[1..], px, py, d1, v);
      if exists j | 0 <= j < |ws| :: ws[j].x == px && ws[j].y == py {
        var j :| 0 <= j < |ws| && ws[j].x == px && ws[j].y == py;
        if j > 0 { assert ws[1..][j - 1] == ws[j]; }
      } else {
        assert forall j | 0 <= j < |ws[1..]| :: ws[1..][j] == ws[j + 1];
      }
    }
  }

  /** The writes of `a + b` leave what those of `b` leave when started
      from what those of `a` leave. */
  lemma {:induction false} LastWriteConcat(a: seq<PixelWrite>, b: seq<PixelWrite>, px: int, py: int, d: bool)
    ensures LastWrite(a + b, px, py, d) == LastWrite(b, px, py, LastWrite(a, px, py, d))
    decreases |a|
  {
    if |a| > 0 {
      assert (a + b)[0] == a[0] && (a + b)[1..] == a[1..] + b;
      LastWriteConcat(a[1..], b, px, py, if a[0].x == px && a[0].y == py then a[0].on else d);
    } else {
      assert a + b == b;
    }
  }

  /** On-screen writes applied to the buffer set each pixel to what the
      writes leave there, starting from its old value. */
  lemma {:induction false} ApplyWritesPixel(fb: Buffer, ws: seq<PixelWrite>, px: int, py: int)
    requires AllOnScreen(ws) && OnScreen(px, py)
    ensures AllAddressable(ws)
    ensures Pixel(ApplyWrites(fb, ws), px, py) == LastWrite(ws, px, py, Pixel(fb, px, py))
    decreases |ws|
  {
    OnScreenWritesAddressable(ws);
    if |ws| > 0 {
      var fb1 := DrawPixel(fb, ws[0].x, ws[0].y, if ws[0].on then 1 else 0);
      DrawPixelOnScreen(fb, ws[0].x, ws[0].y, if ws[0].on then 1 else 0);
      assert AllOnScreen(ws[1..]) by {
        forall j | 0 <= j < |ws[1..]| ensures OnScreen(ws[1..][j].x, ws[1..][j].y) {
          assert ws[1..][j] == ws[j + 1];
        }
      }
      ApplyWritesPixel(fb1, ws[1..], px, py);
    }
  }
}
