/** The renderer's built-in 6x8 font. Each glyph is 48 bits: the first
    word holds columns 0-3 and the low half of the second word columns 4-5,
    one byte per column with the top row in the most significant bit. The
    header packs the last two columns of two characters into one shared
    word: the first character of a pair takes its high half, the second its
    low half. */
module Font {
  import opened Core

  /** The two words `draw_letter` is called with. */
  datatype Glyph = Glyph(w0: bv32, w1: bv32)

  /** The glyph drawn for a character the font does not know. */
  const Empty: Glyph := Glyph(0, 0)

  /** The shared word's half for the first character of a pair. */
  function Hi(w: bv32): (h: bv32)
    ensures h <= 0xFFFF
  {
    w >> 16
  }

  /** The shared word's half for the second character of a pair. */
  function Lo(w: bv32): (l: bv32)
    ensures l <= 0xFFFF
  {
    w & 0xFFFF
  }

  /** The characters the font has a glyph for: the two alphabets, the
      digits and eight punctuation marks. */
  predicate InFont(c: char)
  {
    'A' <= c <= 'Z' || 'a' <= c <= 'z' || '0' <= c <= '9' || c in ":.!/-+<>"
  }

  /** `draw_letter_c`'s character lookup. */
  function GlyphOf(c: char): (g: Glyph)
    ensures g.w1 <= 0xFFFF
    ensures InFont(c) <==> g.w0 != 0
    ensures !InFont(c) ==> g == Empty
  {
    if c == 'A' then Glyph(0x1F68_8868, Hi(0x1F00_7600))
    else if c == 'B' then Glyph(0xFF89_8989, Lo(0x1F00_7600))
    else if c == 'C' then Glyph(0x7E81_8181, Hi(0x6600_7E00))
    else if c == 'D' then Glyph(0xFF81_8181, Lo(0x6600_7E00))
    else if c == 'E' then Glyph(0xFF89_8989, Hi(0x8100_8000))
    else if c == 'F' then Glyph(0xFF88_8888, Lo(0x8100_8000))
    else if c == 'G' then Glyph(0x7E81_8989, Hi(0x6E00_FF00))
    else if c == 'H' then Glyph(0xFF08_0808, Lo(0x6E00_FF00))
    else if c == 'I' then Glyph(0x8181_FF81, Hi(0x8100_8000))
    else if c == 'J' then Glyph(0x8681_81FE, Lo(0x8100_8000))
    else if c == 'K' then Glyph(0xFF18_2442, Hi(0x8100_0100))
    else if c == 'L' then Glyph(0xFF01_0101, Lo(0x8100_0100))
    else if c == 'M' then Glyph(0xFF40_3040, Hi(0xFF00_FF00))
    else if c == 'N' then Glyph(0xFF60_1806, Lo(0xFF00_FF00))
    else if c == 'O' then Glyph(0x7E81_8181, Hi(0x7E00_7000))
    else if c == 'P' then Glyph(0xFF88_8888, Lo(0x7E00_7000))
    else if c == 'Q' then Glyph(0x7E81_8582, Hi(0x7D00_7100))
    else if c == 'R' then Glyph(0xFF88_8C8A, Lo(0x7D00_7100))
    else if c == 'S' then Glyph(0x6691_9989, Hi(0x6600_8000))
    else if c == 'T' then Glyph(0x8080_FF80, Lo(0x6600_8000))
    else if c == 'U' then Glyph(0xFE01_0101, Hi(0xFE00_E000))
    else if c == 'V' then Glyph(0x701C_031C, Lo(0xFE00_E000))
    else if c == 'W' then Glyph(0xFE01_0601, Hi(0xFE00_C300))
    else if c == 'X' then Glyph(0xC324_1824, Lo(0xFE00_C300))
    else if c == 'Y' then Glyph(0xE010_0F10, Hi(0xE000_C100))
    else if c == 'Z' then Glyph(0x8385_99A1, Lo(0xE000_C100))
    else if c == 'a' then Glyph(0x0629_2929, Hi(0x1F00_0600))
    else if c == 'b' then Glyph(0xFF09_0909, Lo(0x1F00_0600))
    else if c == 'c' then Glyph(0x1E21_2121, Hi(0x1200_0100))
    else if c == 'd' then Glyph(0x0609_09FF, Lo(0x1200_0100))
    else if c == 'e' then Glyph(0x3E49_4949, Hi(0x3A00_6000))
    else if c == 'f' then Glyph(0x087F_8888, Lo(0x3A00_6000))
    else if c == 'g' then Glyph(0x3249_4949, Hi(0x3E00_0700))
    else if c == 'h' then Glyph(0xFF08_0808, Lo(0x3E00_0700))
    else if c == 'i' then Glyph(0x0000_4F00, Hi(0x0000_0000))
    else if c == 'j' then Glyph(0x0006_015E, Lo(0x0000_0000))
    else if c == 'k' then Glyph(0x00FF_1C23, Hi(0x0000_0000))
    else if c == 'l' then Glyph(0x0000_FF00, Lo(0x0000_0000))
    else if c == 'm' then Glyph(0x3F10_1F10, Hi(0x0F00_0000))
    else if c == 'n' then Glyph(0x3F10_100F, Lo(0x0F00_0000))
    else if c == 'o' then Glyph(0x0E11_1111, Hi(0x0E00_1800))
    else if c == 'p' then Glyph(0x003F_2424, Lo(0x0E00_1800))
    else if c == 'q' then Glyph(0x3048_487E, Hi(0x0100_0800))
    else if c == 'r' then Glyph(0x003F_1010, Lo(0x0100_0800))
    else if c == 's' then Glyph(0x0032_4949, Hi(0x2600_0200))
    else if c == 't' then Glyph(0x20FE_2121, Lo(0x2600_0200))
    else if c == 'u' then Glyph(0x3C02_023E, Hi(0x0300_1800))
    else if c == 'v' then Glyph(0x1806_0106, Lo(0x0300_1800))
    else if c == 'w' then Glyph(0x1E01_0201, Hi(0x1E00_1100))
    else if c == 'x' then Glyph(0x110A_040A, Lo(0x1E00_1100))
    else if c == 'y' then Glyph(0x3209_093E, Hi(0x0000_1100))
    else if c == 'z' then Glyph(0x1113_1519, Lo(0x0000_1100))
    else if c == '0' then Glyph(0x7EE1_9987, Hi(0x7E00_0100))
    else if c == '1' then Glyph(0x2141_FF01, Lo(0x7E00_0100))
    else if c == '2' then Glyph(0x6387_8D99, Hi(0x7100_7600))
    else if c == '3' then Glyph(0x6681_8989, Lo(0x7100_7600))
    else if c == '4' then Glyph(0xF808_08FF, Hi(0x0800_8E00))
    else if c == '5' then Glyph(0xE291_9191, Lo(0x0800_8E00))
    else if c == '6' then Glyph(0x7E91_9191, Hi(0x4E00_C000))
    else if c == '7' then Glyph(0x6083_8CB0, Lo(0x4E00_C000))
    else if c == '8' then Glyph(0x6E91_9191, Hi(0x6E00_7E00))
    else if c == '9' then Glyph(0x7289_8989, Lo(0x6E00_7E00))
    else if c == ':' then Glyph(0x0000_2400, Hi(0x0000_0000))
    else if c == '.' then Glyph(0x0000_0002, Lo(0x0000_0000))
    else if c == '!' then Glyph(0x007A_0000, Hi(0x0000_0000))
    else if c == '/' then Glyph(0x0006_1860, Lo(0x0000_0000))
    else if c == '-' then Glyph(0x0008_0808, Hi(0x0000_0000))
    else if c == '+' then Glyph(0x0008_1C08, Lo(0x0000_0000))
    else if c == '<' then Glyph(0x0008_1422, Hi(0x0000_0000))
    else if c == '>' then Glyph(0x0044_2810, Lo(0x0000_0000))
    else Glyph(0, 0)
  }
}
