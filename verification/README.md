# SSD1306 / I2C / GPIO driver core, modelled in Dafny

This project models the peripheral library of a small STM32 firmware. The
library has four parts:

- **`pIO`**, the peripheral base object. It holds a status (`ERR`, `SET`,
  `ON`, `RUN`), the clock-enable and reset registers, and their bits. Its
  virtual operations default to doing nothing.
- **`pSSD1306`**, the OLED display driver. It keeps a 128x64 monochrome
  framebuffer of 1024 bytes, laid out in eight 128-byte pages with one bit
  per pixel. It draws into that buffer:
  - pixels, horizontal and vertical lines, and outlined or filled
    rectangles;
  - 6x8 glyphs from a packed 48-bit font, at size `'S'` or doubled at
    size `'L'`;
  - NUL-terminated strings and signed 32-bit integers.

  It sends the buffer and its command bytes to the panel over I2C.
- **`pI2C`**, the I2C master driver for F1 and F3 parts, including F3
  "stream" transfers. An F3 transfer splits a buffer into frames of at
  most 255 bytes using the NBYTES field and the RELOAD flag.
- **`pGPIO` and `pGPIO_pin`**, the GPIO bank and pin drivers:
  - bank lookup;
  - ODR set, clear and toggle operations;
  - the MODER, OTYPER, OSPEEDR, PUPDR and AFR field writers on F0, F3 and
    L0;
  - the packed CRL/CRH configuration nibbles on F1;
  - the sixteen (F0/F3/L0) or eight (F1) pin presets a pin object is
    built from.

How the source is modelled:

- Hardware registers are fields of immutable records.
- Every driver call is a pure function from the old record to the new one.
- Writes to the I2C peripheral are also recorded as a bus trace: start,
  NBYTES, RELOAD, data byte, stop. Properties of transfers are stated over
  that trace.
- C's truncating division, 32-bit negation of `INT_MIN` and shifts into
  the sign bit are written out explicitly (`Core.CDiv`, `Numbers.Neg32`,
  `Bits.Shl`).

Modules:

- `Core`: status codes, the `pIO` base object and truncating division.
- `Bits`: mask and field facts on 32-bit registers.
- `Framebuffer`: byte/bit addressing, `draw_pixel`, and sequences of pixel
  writes.
- `Lines`: `draw_h_line`, `draw_v_line`, `draw_rect`.
- `Font`: the glyph table of `draw_letter_c`.
- `Letters`: `draw_letter` and `draw_letter_c`.
- `Text`: `draw_text`.
- `Numbers`: `draw_letter_i`.
- `I2c`: `pI2C`.
- `Ssd1306`: the display constructor and its I2C transfers.
- `Gpio`: `pGPIO` and `pGPIO_pin`.

## Model

| member | source | states |
|---|---|---|
| Core.Code | lib/core.h:20-23 | every status has a code in 0..3 |
| Core.FromCode | lib/core.h:20-23 | exactly the codes 0..3 name a status |
| Core.CodeRoundTrip | lib/core.h:20-23 | a status decodes back from its code, and no two statuses share a code |
| Core.DefaultIo | lib/core.h:47-53 | a new peripheral object is in status ERR, with null clock registers and zero bits |
| Core.DefaultOpsAreInert | lib/core.cpp:20-36 | the base read, write, clock_en, reset and disable change nothing and return 0; get_status returns the code of the stored status |
| Core.CDiv | lib/ssd1306.cpp:138 | C division rounds toward zero: the remainder has the sign of the dividend and is smaller than the divisor |
| Bits.SetFieldEffect | lib/gpio.cpp:256-260 | clearing a field mask and OR-ing in a value that fits puts the value in the field and leaves every other register bit alone |
| Framebuffer.Blank | lib/ssd1306.cpp:8-18 | the constructor's buffer has every byte zero |
| Framebuffer.Page | lib/ssd1306.cpp:138 | the page of row y is the 8-row band holding it; C division puts negative rows in the band above 0 |
| Framebuffer.ByteIndex | lib/ssd1306.cpp:138-139 | an on-screen pixel's byte offset is inside the buffer, in column x of page y/8 |
| Framebuffer.ByteIndexMonotone | lib/ssd1306.cpp:135-148 | the byte offset x + (y/8)*128 grows with x and with y |
| Framebuffer.OnScreenIsAddressable | lib/ssd1306.cpp:135-148 | every on-screen pixel lies in one of the 1024 buffer bytes, in page y/8 of 8 |
| Framebuffer.ScreenLocationsDistinct | lib/ssd1306.cpp:135-148 | two on-screen pixels share a byte and bit exactly when they are the same pixel |
| Framebuffer.MaskWriteMask | lib/ssd1306.cpp:140-147 | OR-ing a mask sets its bits, AND-ing its complement clears them, and other bits are kept |
| Framebuffer.MaskWriteTwice | lib/ssd1306.cpp:140-147 | writing the same mask twice is the same as writing it once with the second colour |
| Framebuffer.MaskWriteRestore | lib/ssd1306.cpp:140-147 | setting then clearing a mask gives back the byte exactly when those bits were clear |
| Framebuffer.SetBitMask | lib/ssd1306.cpp:140-147 | the single-bit write sets or clears bit j and keeps the other seven |
| Framebuffer.SetBitTwice | lib/ssd1306.cpp:140-147 | a second single-bit write overrides the first |
| Framebuffer.SetBitRestore | lib/ssd1306.cpp:140-147 | setting then clearing bit j restores the byte exactly when the bit was clear |
| Framebuffer.ByteFromBits | lib/ssd1306.cpp:135-148 | a byte is determined by its eight bits |
| Framebuffer.BitsDetermineBuffer | lib/ssd1306.h:21 | two 1024-byte buffers with the same bits are equal |
| Framebuffer.PixelsDetermineBuffer | lib/ssd1306.h:21 | two buffers showing the same 128x64 pixels are equal: every buffer bit is a pixel |
| Framebuffer.WriteBit | lib/ssd1306.cpp:140-147 | one bit of one byte gets the colour; every other byte and bit is unchanged |
| Framebuffer.DrawPixel | lib/ssd1306.cpp:135-148 | pixel (x,y) lands in byte x+(y/8)*128, bit y%8; it is set for non-zero colour and cleared for zero; nothing else changes |
| Framebuffer.DrawPixelOnScreen | lib/ssd1306.cpp:135-148 | for an on-screen pixel, that pixel reads back as the colour and every other pixel is unchanged |
| Framebuffer.WriteBitTwice | lib/ssd1306.cpp:140-147 | the second write to a bit wins |
| Framebuffer.WriteBitRestore | lib/ssd1306.cpp:140-147 | set-then-clear is the identity exactly when the bit was clear |
| Framebuffer.DrawPixelTwice | lib/ssd1306.cpp:135-148 | drawing a pixel twice equals drawing it once with the last colour; redrawing the same colour is idempotent |
| Framebuffer.DrawPixelRestore | lib/ssd1306.cpp:135-148 | drawing a pixel on and then off gives back the buffer exactly when it was off |
| Framebuffer.ApplyWritesBit | lib/ssd1306.cpp:135-148 | after a run of pixel writes that agree on a bit, the bit holds their value if any write touched it, else its old value |
| Framebuffer.OnScreenWritesPixel | lib/ssd1306.cpp:135-148 | the same, stated per on-screen pixel |
| Framebuffer.ApplyWritesConcat | lib/ssd1306.cpp:135-148 | drawing two runs in a row equals drawing their concatenation |
| Framebuffer.AllOnScreenConcat | lib/ssd1306.cpp:135-148 | a concatenated run is on screen exactly when both parts are |
| Framebuffer.OnScreenWritesAddressable | lib/ssd1306.cpp:135-148 | on-screen writes never index outside the buffer |
| Framebuffer.LastWrite | lib/ssd1306.cpp:135-148 | a pixel no write touches keeps its value |
| Framebuffer.LastWriteUniform | lib/ssd1306.cpp:135-148 | when all writes have the same colour, the last-writer value is that colour if any write hits the pixel |
| Framebuffer.LastWriteConcat | lib/ssd1306.cpp:135-148 | the last writer of a concatenation is found in the second part, falling back to the first |
| Framebuffer.ApplyWritesPixel | lib/ssd1306.cpp:135-148 | each on-screen pixel after a run of writes shows the colour of the last write to it, else its old value |
| Lines.AcceptedWritesOnScreen | lib/ssd1306.cpp:26-70 | a line that passes the (corrected) bounds guards only touches on-screen pixels |
| Lines.UniformWritesPixel | lib/ssd1306.cpp:26-70 | a single-colour run sets exactly the pixels it lists |
| Lines.HLine | lib/ssd1306.cpp:26-44 | the corrected h_line colours exactly the pixels x..x+w-1 of row y when the line fits; otherwise nothing changes |
| Lines.VLine | lib/ssd1306.cpp:52-70 | the corrected v_line colours exactly the pixels y..y+h-1 of column x when the line fits; otherwise nothing changes |
| Lines.HLineGuardCounterexample | lib/ssd1306.cpp:28 | the guard as written accepts row 64, whose byte offset is 1024, past the end of the buffer |
| Lines.HLineAsWritten | lib/ssd1306.cpp:26-44 | whenever every write the as-written guard lets through stays in the buffer, the as-written h_line equals the corrected one |
| Lines.VLineGuardCounterexample | lib/ssd1306.cpp:54 | the guard as written accepts column 128; on a blank buffer this lights pixel (0,8) of the next page, which the corrected v_line leaves dark |
| Lines.VLineAsWritten | lib/ssd1306.cpp:52-70 | apart from column 128, the as-written v_line equals the corrected one |
| Lines.ApplyLinesPixel | lib/ssd1306.cpp:81-121 | after a sequence of accepted lines, a pixel is coloured exactly when some line covers it |
| Lines.AnyCoversConcat | lib/ssd1306.cpp:81-121 | a pixel is covered by two line lists exactly when it is covered by one of them |
| Lines.RowsCover | lib/ssd1306.cpp:88-94 | n horizontal lines stepping down (or up) from row y cover exactly the rectangle x..x+w-1 by those rows |
| Lines.ColsCover | lib/ssd1306.cpp:96-101 | n vertical lines stepping right (or left) from column x cover exactly the matching columns |
| Lines.OutlineCovers | lib/ssd1306.cpp:83-104 | with a positive outline, the four bands cover exactly the pixels within `outline` of an edge of the rectangle |
| Lines.FillCovers | lib/ssd1306.cpp:105-120 | with outline 0 or less, the lines cover exactly the rectangle |
| Lines.RectLines | lib/ssd1306.cpp:81-121 | draw_rect draws 4*outline lines for a positive outline, else one line per row (wider than tall) or per column; every row spans the width from x and every column the height from y |
| Lines.DrawRect | lib/ssd1306.cpp:81-121 | an accepted rectangle colours exactly its outline band (positive outline) or its whole area (fill) and leaves every other pixel alone; a rejected one changes nothing |
| Lines.DrawRectAsWritten | lib/ssd1306.cpp:81-84 | draw_rect as written changes nothing when the rectangle fails its bounds test |
| Lines.FillDirectionIrrelevant | lib/ssd1306.cpp:105-120 | filling with rows (w > h) or with columns (otherwise) gives the same buffer |
| Lines.ApplyLinesAsWrittenAgrees | lib/ssd1306.cpp:81-121 | drawing lines with the as-written guards equals drawing them with the corrected guards when no vertical line sits at column 128 |
| Lines.RectAsWrittenAgrees | lib/ssd1306.cpp:81-121 | an accepted rectangle that is filled, or whose outline satisfies y+outline <= 64 and x+outline <= 128, is drawn through the as-written line guards without leaving the buffer and equals the corrected rectangle |
| Lines.RectGuardCounterexample | lib/ssd1306.cpp:96-98 | without the outline condition the two differ (through the line-54 guard): draw_rect(100, 0, 28, 10, 30) is accepted, its 89th line is the column at x = 128, the as-written v_line lets it through and it lights pixel (0, 8), which lies outside the outline and which the corrected v_line leaves dark |
| Font.Hi | lib/ssd1306.cpp:215-218 | the high half of a shared glyph word fits in 16 bits |
| Font.Lo | lib/ssd1306.cpp:219-222 | the low half of a shared glyph word fits in 16 bits |
| Font.GlyphOf | lib/ssd1306.cpp:211-498 | a character has a non-empty glyph exactly when it is A-Z, a-z, 0-9 or one of `:.!/-+<>`; anything else draws a blank cell; the second word always fits in 16 bits |
| Letters.Scale | lib/ssd1306.cpp:169-177 | each font pixel is drawn as a 1x1 or 2x2 block |
| Letters.InvertedBit | lib/ssd1306.cpp:165-168 | inverting a glyph word flips every bit |
| Letters.StepBitIsGlyphPixel | lib/ssd1306.cpp:165-203 | the scan's n-th bit is on exactly when the glyph pixel at column n/8, row n%8 matches "colour is non-zero" |
| Letters.StepBitsAreGlyph | lib/ssd1306.cpp:165-203 | the 48 scanned bits are the glyph's pixels in column-major order, inverted for colour 0 |
| Letters.StepBitsFrom | lib/ssd1306.cpp:178-203 | from step n the scan yields 48-n bits |
| Letters.StepBits | lib/ssd1306.cpp:178-203 | a glyph yields 48 bits: 32 from the first word and 16 from the second |
| Letters.StepBitsFromAt | lib/ssd1306.cpp:178-203 | entry m-n of the bits from step n is step m's bit |
| Letters.LetterDefinedIsCellAddressable | lib/ssd1306.cpp:156-204 | the precondition on a letter's origin holds exactly when every pixel of its cell is inside the buffer |
| Letters.StepMovesToNextOrigin | lib/ssd1306.cpp:185-189 | the cursor moves down one block and wraps to the next column after 8 blocks |
| Letters.BlockInCell | lib/ssd1306.cpp:180-184 | every block of the scan lies inside the letter's 6x8 (or 12x16) cell |
| Letters.ScanInCell | lib/ssd1306.cpp:178-203 | all pixel writes of a scan lie in the cell |
| Letters.LetterWrites | lib/ssd1306.cpp:156-204 | every pixel write of draw_letter lies inside its 6x8 (or 12x16) cell |
| Letters.LetterWritesAddressable | lib/ssd1306.cpp:156-204 | a letter whose cell is addressable never writes outside the buffer |
| Letters.LetterOnScreen | lib/ssd1306.cpp:156-204 | a letter whose cell is on screen writes only on-screen pixels |
| Letters.BlockValue | lib/ssd1306.cpp:180-184 | a block sets exactly its s-by-s square to the bit value |
| Letters.CellCol | lib/ssd1306.cpp:156-204 | a pixel inside the cell maps to a glyph column 0..5 |
| Letters.CellRow | lib/ssd1306.cpp:156-204 | a pixel inside the cell maps to a glyph row 0..7 |
| Letters.CellStep | lib/ssd1306.cpp:156-204 | a pixel inside the cell maps to the scan step of its column and row |
| Letters.BlockOfStep | lib/ssd1306.cpp:178-203 | a pixel is in step n's block exactly when it is in the cell and maps to step n |
| Letters.ScanValue | lib/ssd1306.cpp:178-203 | the last write to a cell pixel from step n on is the bit of the step it maps to |
| Letters.LetterValue | lib/ssd1306.cpp:156-204 | the last write to a cell pixel is its glyph pixel, inverted for colour 0 |
| Letters.LetterPixel | lib/ssd1306.cpp:156-204 | for a letter cell wholly on screen: after draw_letter, every cell pixel shows its scaled glyph pixel in the given colour, and every pixel outside the cell is unchanged |
| Letters.CharPixel | lib/ssd1306.cpp:211-498 | for a letter cell wholly on screen, draw_letter_c draws the glyph of its character the same way; unknown characters blank the cell |
| Letters.DrawLetter | lib/ssd1306.cpp:156-204 | for a cell wholly on screen, draw_letter leaves every pixel outside the cell unchanged |
| Letters.DrawChar | lib/ssd1306.cpp:211-498 | the same for draw_letter_c, whatever the character |
| Text.Advance | lib/ssd1306.cpp:579-584 | the pen advances 6 pixels at size 'S', 12 at 'L' and not at all for any other size |
| Text.Layout | lib/ssd1306.cpp:573-587 | the layout places each character of the string, in order |
| Text.LayoutTail | lib/ssd1306.cpp:573-587 | the first character sits at x and the rest are laid out from x plus one advance |
| Text.LastCover | lib/ssd1306.cpp:573-587 | finds the last character whose cell covers a pixel, if there is one |
| Text.RunPixel | lib/ssd1306.cpp:573-587 | when every character cell lies wholly on screen, each pixel of a drawn string shows the glyph of the last character whose cell covers it, else its old value |
| Text.CLength | lib/ssd1306.cpp:577 | a C string's length is the position of its first NUL, or the whole sequence when there is none |
| Text.CLengthFrom | lib/ssd1306.cpp:577 | the same search, starting at position i |
| Text.DrawRunSnoc | lib/ssd1306.cpp:578 | drawing one more character extends the drawn run by that character |
| Text.DrawRunNil | lib/ssd1306.cpp:573-587 | an empty string leaves the buffer unchanged |
| Text.DrawRun | lib/ssd1306.cpp:573-587 | when every character cell is wholly on screen, a pixel in no character's cell is unchanged |
| Text.TextRun | lib/ssd1306.cpp:573-587 | the string draws one character per character before the NUL |
| Text.TextStep | lib/ssd1306.cpp:577-586 | one loop iteration draws character i at x + i*advance and keeps the loop invariant |
| Text.DrawText | lib/ssd1306.cpp:573-587 | draw_text draws the characters before the NUL, each at x plus its index times the advance |
| Numbers.Neg32 | lib/ssd1306.cpp:510-512 | `ic * -1` in 32 bits negates every value except INT_MIN, which it maps to itself |
| Numbers.Pow10 | lib/ssd1306.cpp:520-566 | powers of ten are positive, and equal to 1 only at exponent 0 |
| Numbers.Pow10Grows | lib/ssd1306.cpp:520-566 | powers of ten strictly increase |
| Numbers.DigitChar | lib/ssd1306.cpp:525-562 | the digit glyph for 0..9; any other remainder draws a space |
| Numbers.SplitPlace | lib/ssd1306.cpp:520-566 | a value below 10p splits into a leading digit and a remainder below p; the digit is 0 exactly when the value is below p |
| Numbers.CDivNonNegative | lib/ssd1306.cpp:520-566 | for non-negative operands C division and remainder agree with the mathematical ones |
| Numbers.CDivNonPositive | lib/ssd1306.cpp:520-566 | for a non-positive dividend the C quotient is non-positive and the remainder is minus the magnitude's remainder |
| Numbers.Padded | lib/ssd1306.cpp:520-566 | the k-digit zero-padded form has exactly k characters |
| Numbers.PaddedValue | lib/ssd1306.cpp:520-566 | the padded digits are all digits and read back as the value |
| Numbers.NumDigits | lib/ssd1306.cpp:520-566 | a value has the least number of digits n with value < 10^n |
| Numbers.NumDigitsExact | lib/ssd1306.cpp:520-566 | a value between 10^k and 10^(k+1) has k+1 digits |
| Numbers.Decimal | lib/ssd1306.cpp:520-566 | the decimal text has exactly that many digits |
| Numbers.DecimalCanonical | lib/ssd1306.cpp:520-566 | the decimal text is non-empty, all digits, reads back as the value, and has no leading zero except for 0 itself |
| Numbers.EmitIsLayoutPrefix | lib/ssd1306.cpp:563-565 | stopping at the right edge draws a non-empty prefix of the full layout |
| Numbers.EmitIsWholeLayout | lib/ssd1306.cpp:563-565 | the whole text is drawn exactly when every digit but the first starts left of column 128 |
| Numbers.DigitLoopPadded | lib/ssd1306.cpp:520-566 | once the first digit is found, the loop draws the zero-padded digits |
| Numbers.DigitLoopStarted | lib/ssd1306.cpp:520-566 | a non-zero place (or the last place) starts printing |
| Numbers.DigitLoopSkip | lib/ssd1306.cpp:520-566 | leading zero places are skipped without drawing |
| Numbers.DigitLoop | lib/ssd1306.cpp:520-566 | the loop draws 1 to k+1 characters, each a digit or a space, one advance apart from the start column, and it goes on only while the next character starts left of column 128 |
| Numbers.DigitLoopLast | lib/ssd1306.cpp:520-566 | the units place is always drawn |
| Numbers.DigitLoopSkips | lib/ssd1306.cpp:520-566 | a value below 10^k skips place k |
| Numbers.DigitLoopDecimal | lib/ssd1306.cpp:520-566 | for a non-negative value the loop draws its decimal text, clipped at the right edge |
| Numbers.IntText | lib/ssd1306.cpp:505-567 | the intended text of an integer is non-empty |
| Numbers.MagnitudeFits | lib/ssd1306.cpp:520 | every 32-bit magnitude has at most ten digits, so the loop from 10^9 covers it |
| Numbers.DigitLoopIsText | lib/ssd1306.cpp:520-566 | the digit loop draws a clipped layout of the decimal text; it draws all of it exactly when the last digit starts left of column 128 |
| Numbers.ClippedCons | lib/ssd1306.cpp:505-567 | a clipped run stays clipped when the same character is put in front of both runs |
| Numbers.SignedRun | lib/ssd1306.cpp:510-566 | the run starts at x with '-' exactly for a negative value, is followed by digits or spaces, and its characters are one advance apart |
| Numbers.IntRunAsWritten | lib/ssd1306.cpp:505-567 | draw_letter_i as written starts at x with '-' exactly for a negative value and spaces its characters one advance apart |
| Numbers.IntRun | lib/ssd1306.cpp:505-567 | the corrected draw_letter_i starts at x with '-' exactly for a negative value and spaces its characters one advance apart |
| Numbers.DrawInt | lib/ssd1306.cpp:505-567 | when its cells are on screen, draw_letter_i changes no pixel left of x or outside its text line's rows |
| Numbers.IntRunNegative | lib/ssd1306.cpp:510-519 | a negative number draws '-' and then its magnitude one advance to the right |
| Numbers.NegativeRunIsText | lib/ssd1306.cpp:505-567 | a negative number draws a clipped layout of its text |
| Numbers.IntRunIsText | lib/ssd1306.cpp:505-567 | the corrected draw_letter_i draws a clipped layout of the integer's decimal text, with '-' for negatives |
| Numbers.AsWrittenAgrees | lib/ssd1306.cpp:505-567 | apart from INT_MIN, draw_letter_i as written equals the corrected version |
| Numbers.DigitLoopNonPositive | lib/ssd1306.cpp:520-566 | for a non-positive value above -10^(k+1), every place divides to 0 or less, so only the units place is drawn, with a negative remainder |
| Numbers.IntMinDrawsSpace | lib/ssd1306.cpp:510-512 | as written, INT_MIN draws "-" and then a single space |
| Numbers.IntMinDrawsText | lib/ssd1306.cpp:505-567 | corrected, INT_MIN draws all eleven characters of "-2147483648" |
| I2c.LowByte | lib/i2c.cpp:43-55 | the byte written is the low 8 bits of the argument |
| I2c.ToByte | lib/i2c.cpp:62-96 | a count 0..255 is carried unchanged into the NBYTES byte |
| I2c.Construct | lib/i2c.cpp:8-21 | I2C1 gets status SET and the APB1 enable and reset register and bit; any other block keeps the default ERR object |
| I2c.ConstructDefault | lib/i2c.cpp:4 | the default constructor leaves a base object in ERR with no block |
| I2c.Init | lib/i2c.cpp:101-153 | i2c_init on an ERR object does nothing; otherwise it writes the init registers and sets status RUN, changing nothing else |
| I2c.InitRegs | lib/i2c.cpp:103-150 | the init register writes: on F3 they enable the peripheral with the filters and SMBus features cleared, touching only CR1, CR2 and TIMINGR; on F1 they leave software reset, set a 36 MHz input frequency and a fast-mode CCR of 0x24 and enable the peripheral, touching only CR1, CR2 and CCR |
| I2c.InitF3Cr2 | lib/i2c.cpp:103-133 | F3 init clears RD_WRN, NACK, RELOAD and AUTOEND and keeps the other CR2 bits |
| I2c.InitF3Timing | lib/i2c.cpp:103-133 | F3 init programs the timing value 0x50100103 and keeps the reserved nibble |
| I2c.ReadF1 | lib/i2c.cpp:33-35 | read returns 0 |
| I2c.WriteByte | lib/i2c.cpp:43-55 | write appends one data byte to the bus and leaves the status and block alone |
| I2c.WriteF3Effect | lib/i2c.cpp:46 | on F3 the byte is OR-ed into TXDR, whose low byte then holds it; no other register changes |
| I2c.WriteF3ByteKeepsUpper | lib/i2c.cpp:46 | writing a byte value keeps TXDR's upper bits |
| I2c.WriteF1Effect | lib/i2c.cpp:52 | on F1 the byte replaces DR's low byte, keeps its second byte and clears the rest |
| I2c.SetNumBytesOp | lib/i2c.cpp:210-214 | set_num_bytes announces a frame of n bytes on the bus |
| I2c.SetReloadOp | lib/i2c.cpp:219-226 | set_reload_flag records the reload state on the bus |
| I2c.NumBytesEffect | lib/i2c.cpp:210-214 | the NBYTES field holds n and no other CR2 bit changes |
| I2c.ReloadEffect | lib/i2c.cpp:219-226 | RELOAD is set exactly when requested and no other CR2 bit changes |
| I2c.StartOp | lib/i2c.cpp:159-181 | start begins a transfer to the address on the bus |
| I2c.StopOp | lib/i2c.cpp:186-201 | stop ends the transfer on the bus |
| I2c.StartF3Effect | lib/i2c.cpp:160-166 | on F3 the address goes into SADD with START left clear, and other CR2 bits are kept |
| I2c.StartF1Effect | lib/i2c.cpp:167-180 | on F1 START is raised in CR1 and the address is written to DR |
| I2c.StopEffect | lib/i2c.cpp:186-201 | on F3 STOP and RELOAD are cleared in CR2 and nothing else changes; on F1 STOP is raised in CR1 |
| I2c.WriteRun | lib/i2c.cpp:62-96 | a run of byte writes keeps the status and block |
| I2c.Writes | lib/i2c.cpp:62-96 | one bus write per byte |
| I2c.WritesConcat | lib/i2c.cpp:62-96 | the writes of two byte strings are the writes of each, in order |
| I2c.WriteRunTrace | lib/i2c.cpp:62-96 | writing bytes pos..pos+n-1 appends exactly their writes to the bus |
| I2c.WriteRunLast | lib/i2c.cpp:43-55 | after a run of writes the data register's low byte is the last byte |
| I2c.StreamF3From | lib/i2c.cpp:64-87 | the F3 frame loop keeps the status and block |
| I2c.Stream | lib/i2c.cpp:62-96 | stream keeps the status and block |
| I2c.TakeWrites | lib/i2c.cpp:64-87 | reading n writes back from a trace gives n bytes |
| I2c.TakeWritesOfWrites | lib/i2c.cpp:64-87 | the n writes of a byte string read back as that string |
| I2c.FramesCons | lib/i2c.cpp:64-87 | an NBYTES(k) marker followed by k writes parses as one frame in front of the rest |
| I2c.ChunkedCons | lib/i2c.cpp:64-87 | a full 255-byte frame in front of a chunked rest is a chunked whole |
| I2c.FramesLast | lib/i2c.cpp:64-87 | one marker and its writes parse as a single frame |
| I2c.ChunkedLast | lib/i2c.cpp:64-87 | a final frame of 1..255 bytes is a valid chunking of itself |
| I2c.AddedIs | lib/i2c.cpp:62-96 | the events an operation adds are what follows the old trace |
| I2c.StreamF3Whole | lib/i2c.cpp:72-78 | if the rest chunks correctly after one full 255-byte frame, so does the whole |
| I2c.StreamF3Last | lib/i2c.cpp:80-87 | 1..255 remaining bytes go out as one final frame |
| I2c.StreamF3Chunks | lib/i2c.cpp:64-87 | the F3 loop always produces a valid chunking of the bytes it sends |
| I2c.FlattenLength | lib/i2c.cpp:64-87 | the length of joined frames adds up frame by frame |
| I2c.FrameCount | lib/i2c.cpp:64-87 | n bytes go out in ceil(n/255) frames, and the last one carries the remainder |
| I2c.FrameSizes | lib/i2c.cpp:64-87 | frames of 255 bytes followed by a last frame of 1..255 bytes number ceil(n/255) |
| I2c.StreamTrace | lib/i2c.cpp:62-96 | F1 stream writes the first len bytes one after another; F3 stream sends them in valid NBYTES frames (nothing for len of 0 or less) |
| I2c.FrameSizesPlan | lib/i2c.cpp:64-87 | a chunked trace's frame sizes are 255, 255, ..., remainder |
| I2c.StreamF3Carries | lib/i2c.cpp:64-87 | F3 stream of a positive length carries exactly the first len bytes of the buffer |
| I2c.Stream300 | lib/i2c.cpp:64-87 | streaming 300 bytes on F3 sends frames of 255 and 45 |
| I2c.Stream1024 | lib/i2c.cpp:64-87 | streaming a 1024-byte framebuffer sends frames of 255, 255, 255, 255 and 4 |
| I2c.WrittenBytesConcat | lib/i2c.cpp:62-96 | the data bytes of two traces are those of each, in order |
| I2c.WrittenBytesOfWrites | lib/i2c.cpp:62-96 | the data bytes of a write run are its bytes |
| I2c.TakeWritesPrefix | lib/i2c.cpp:64-87 | the read-back bytes are exactly the trace's first n events |
| I2c.FramesWritten | lib/i2c.cpp:64-87 | the data bytes of a framed trace are its frames joined |
| I2c.FramesHead | lib/i2c.cpp:64-87 | a framed trace starts with an NBYTES marker followed by that many writes |
| I2c.WrittenBytesSplit | lib/i2c.cpp:62-96 | splitting a trace anywhere splits its data bytes |
| I2c.FramesWrittenStep | lib/i2c.cpp:64-87 | if a trace's tail yields its frames' bytes, so does the whole trace |
| I2c.ChunkedWritten | lib/i2c.cpp:64-87 | a chunked trace's data bytes are the streamed bytes: nothing is lost, reordered or duplicated |
| Ssd1306.Construct | lib/ssd1306.cpp:8-18 | the display keeps its address and size, starts in ERR, and has an all-zero framebuffer with no lit pixel |
| Ssd1306.SendByte | lib/ssd1306.cpp:594-628 | a two-byte transfer keeps the I2C object's status and block |
| Ssd1306.WriteCommandByte | lib/ssd1306.cpp:594-607 | write_command_byte keeps the I2C status and block |
| Ssd1306.WriteDataByte | lib/ssd1306.cpp:615-628 | write_data_byte keeps the I2C status and block |
| Ssd1306.SendByteFrame | lib/ssd1306.cpp:594-628 | a two-byte transfer adds exactly one control/byte frame to the bus |
| Ssd1306.SingleByteFrames | lib/ssd1306.cpp:594-628 | a command byte goes out behind control byte 0x00 and a data byte behind 0x40, as one frame each |
| Ssd1306.OneFrame | lib/ssd1306.cpp:594-628 | each two-byte transfer parses as one frame carrying its control byte and payload |
| Ssd1306.SendCommands | lib/ssd1306.cpp:634-674 | a run of commands keeps the I2C status and block |
| Ssd1306.CommandFrames | lib/ssd1306.cpp:634-674 | one frame per command |
| Ssd1306.SendCommandsFrames | lib/ssd1306.cpp:634-674 | sending commands puts one command frame per command on the bus, in order |
| Ssd1306.InitDisplay | lib/ssd1306.cpp:634-674 | init_display keeps the I2C status and block |
| Ssd1306.InitDisplayFrames | lib/ssd1306.cpp:634-674 | init_display sends the 24 initialisation commands as command frames, from clock-divide 0xD5 to display-on 0xAF |
| Ssd1306.FrameBytesFull | lib/ssd1306.cpp:682 | w*h/8 equals the 1024-byte buffer exactly when w*h is 8192..8199; the 128x64 panel streams the whole buffer |
| Ssd1306.DrawFramebuffer | lib/ssd1306.cpp:680-703 | draw_framebuffer keeps the I2C status and block |
| Ssd1306.DrawFramebufferTrace | lib/ssd1306.cpp:680-703 | draw_framebuffer sends the address/control preamble, then the buffer bytes (in NBYTES frames on F3, as plain writes on F1), then one stop |
| Ssd1306.PreambleBytes | lib/ssd1306.cpp:680-703 | the only data byte in the preamble is the data control byte 0x40 |
| Ssd1306.TransferBytes | lib/ssd1306.cpp:680-703 | a transfer's data bytes are the control byte followed by the body's |
| Ssd1306.DrawFramebufferBytes | lib/ssd1306.cpp:680-703 | on both platforms the bytes on the bus are 0x40 and then the streamed framebuffer bytes |
| Ssd1306.FullPanelStreamsBuffer | lib/ssd1306.cpp:680-703 | for a 128x64 panel the streamed bytes are exactly the framebuffer |
| Gpio.Construct | lib/gpio.cpp:10-152 | a bank keeps its register block |
| Gpio.ConstructDefault | lib/gpio.cpp:7 | the default bank is an ERR base object with no bank |
| Gpio.ConstructLookup | lib/gpio.cpp:10-152 | on F1 and F3 a bank is SET exactly when it is recognised, with its own AHB (F3) or APB2 (F1) enable and reset bits, and stays ERR otherwise; F0 and L0 banks are SET |
| Gpio.ConstructDistinct | lib/gpio.cpp:13-148 | different banks get different enable and reset bits |
| Gpio.Read | lib/gpio.cpp:157-161 | read returns IDR on a bank not in ERR and 0 on one in ERR |
| Gpio.ReadPin | lib/gpio.cpp:189-192 | read_pin is true exactly when the bank is live and the pin's bit is set in IDR |
| Gpio.Write | lib/gpio.cpp:167-171 | write on a live bank puts the value's low 16 bits in ODR and clears its upper half, touching nothing else; a bank in ERR is untouched |
| Gpio.ReadPinAgrees | lib/gpio.cpp:189-192 | read_pin reports whether the pin's bit is set in the value read |
| Gpio.ReadGuarded | lib/gpio.cpp:157-192 | a bank in ERR reads 0 and every pin reads low |
| Gpio.WriteEffect | lib/gpio.cpp:167-171 | write on a bank not in ERR puts the low 16 bits of the value in ODR and clears the upper half; an ERR bank is untouched |
| Gpio.WriteOverrides | lib/gpio.cpp:167-171 | a write on a bank not in ERR does not depend on the previous ODR |
| Gpio.Stream | lib/gpio.cpp:177-184 | stream writes each value in turn, so ODR ends as the last value written; a bank in ERR, or a non-positive length, changes nothing |
| Gpio.OdrGuarded | lib/gpio.cpp:197-244 | the ODR operations do nothing on a bank in ERR |
| Gpio.SetOdrEffect | lib/gpio.cpp:205-209 | pins_on sets the mask's bits in ODR and keeps every other bit and register |
| Gpio.ClearOdrEffect | lib/gpio.cpp:223-227 | pins_off clears the mask's bits and keeps everything else |
| Gpio.ToggleOdrEffect | lib/gpio.cpp:240-244 | pins_toggle flips the mask's bits and keeps everything else |
| Gpio.SetOdrBits | lib/gpio.cpp:205-209 | on a live bank the mask's bits are set in ODR and its other bits kept; only ODR changes, and an ERR bank is untouched |
| Gpio.ClearOdrBits | lib/gpio.cpp:223-227 | on a live bank the mask's bits are cleared in ODR and its other bits kept; only ODR changes, and an ERR bank is untouched |
| Gpio.ToggleOdrBits | lib/gpio.cpp:240-244 | on a live bank the mask's bits are flipped in ODR and its other bits kept; only ODR changes, and an ERR bank is untouched |
| Gpio.PinOn | lib/gpio.cpp:197-200 | pin_on sets only pin k's ODR bit on a live bank |
| Gpio.PinsOn | lib/gpio.cpp:205-209 | pins_on sets exactly the 16-bit mask's ODR bits on a live bank |
| Gpio.PinOff | lib/gpio.cpp:214-218 | pin_off clears only pin k's ODR bit on a live bank |
| Gpio.PinsOff | lib/gpio.cpp:223-227 | pins_off clears exactly the mask's ODR bits on a live bank |
| Gpio.PinToggle | lib/gpio.cpp:232-235 | pin_toggle flips only pin k's ODR bit on a live bank |
| Gpio.PinsToggle | lib/gpio.cpp:240-244 | pins_toggle flips exactly the mask's ODR bits on a live bank |
| Gpio.ToggleTwice | lib/gpio.cpp:240-244 | toggling twice restores the bank |
| Gpio.PinIsMask | lib/gpio.cpp:197-244 | pin_on, pin_off and pin_toggle of pin k are pins_on, pins_off and pins_toggle of the one-bit mask 1<<k |
| Gpio.FieldWritersGuarded | lib/gpio.cpp:247-349 | the field writers do nothing on a bank in ERR |
| Gpio.SetPinMode | lib/gpio.cpp:256-260 | set_pin_mode changes only MODER, and nothing on a bank in ERR |
| Gpio.SetPinType | lib/gpio.cpp:268-272 | set_pin_type changes only OTYPER, and nothing on a bank in ERR |
| Gpio.SetPinSpeed | lib/gpio.cpp:282-286 | set_pin_speed changes only OSPEEDR, and nothing on a bank in ERR |
| Gpio.SetPinPupd | lib/gpio.cpp:297-301 | set_pin_pupd changes only PUPDR, and nothing on a bank in ERR |
| Gpio.SetPinAf | lib/gpio.cpp:310-320 | set_pin_af changes only AFRL for pins 0-7 and only AFRH for pins 8 and up, and nothing on a bank in ERR |
| Gpio.SetPinCfg | lib/gpio.cpp:337-347 | set_pin_cfg changes only CRL for pins 0-7 and only CRH for pins 8 and up, and nothing on a bank in ERR |
| Gpio.ModeEffect | lib/gpio.cpp:256-260 | set_pin_mode puts the value in pin k's 2-bit MODER field and changes no other bit or register |
| Gpio.TypeEffect | lib/gpio.cpp:268-272 | set_pin_type puts the value in pin k's OTYPER bit and changes nothing else |
| Gpio.SpeedEffect | lib/gpio.cpp:282-286 | set_pin_speed puts the value in pin k's OSPEEDR field and changes nothing else |
| Gpio.PupdEffect | lib/gpio.cpp:297-301 | set_pin_pupd puts the value in pin k's PUPDR field and changes nothing else |
| Gpio.AfEffect | lib/gpio.cpp:310-320 | set_pin_af puts the value in pin k's 4-bit AFRL (pins 0-7) or AFRH (pins 8-15) nibble and changes nothing else |
| Gpio.CfgEffect | lib/gpio.cpp:337-347 | set_pin_cfg puts the value in pin k's CRL (pins 0-7) or CRH (pins 8-15) nibble and changes nothing else |
| Gpio.PresetOf | lib/gpio.h:35-54 | the preset enum has 16 values on F0/F3/L0 and 8 on F1; nothing else names a preset |
| Gpio.PresetOfInjective | lib/gpio.h:35-54 | different enum values name different presets |
| Gpio.PinDefault | lib/gpio.cpp:353 | a default pin is unbound, pin 0, status ERR |
| Gpio.ChainApplies | lib/gpio.cpp:364-455 | the set_pin_mode/type/speed/pupd chain leaves the mode field and, when given, the type field (with low speed) and the pull field at their values, and changes no other register |
| Gpio.ModernPresetWrites | lib/gpio.cpp:364-455 | exactly the sixteen preset values take a case; a case keeps IDR and ODR and the bank, and writes nothing on a bank in ERR |
| Gpio.F1PresetWrites | lib/gpio.cpp:457-487 | exactly the eight F1 preset values take a case; a case keeps IDR and the bank, and writes nothing on a bank in ERR |
| Gpio.ConstructPin | lib/gpio.cpp:356-491 | the pin constructor binds pin k; the pin is SET exactly when the preset is known and ERR otherwise, with the bank then untouched; it never changes IDR or the bank's status, and writes nothing on a bank in ERR |
| Gpio.ModernPresetIsChain | lib/gpio.cpp:364-455 | each known preset case is the set_pin_mode/type/speed/pupd chain of its mode, type and pull; an unknown value takes no case |
| Gpio.ModernPresetCorrect | lib/gpio.cpp:356-491 | on F0/F3/L0 a pin is SET exactly for a known preset, whose fields are then applied; an unknown preset leaves the pin in ERR and the bank untouched |
| Gpio.F1PresetCorrect | lib/gpio.cpp:457-490 | on F1 a pin is SET exactly for a known preset; its CRL/CRH nibble gets the preset's configuration, and pull-up/pull-down presets drive ODR high or low |
| Gpio.F1PresetIsCfg | lib/gpio.cpp:457-487 | each F1 preset case is set_pin_cfg, followed by pin_on for pull-up and pin_off for pull-down |
| Gpio.F1PresetStep | lib/gpio.cpp:457-487 | the F1 sequence sets the configuration nibble and the pull level and nothing else |
| Gpio.F1CfgStep | lib/gpio.cpp:337-347 | the configuration step changes only CRL/CRH, to the preset's nibble |
| Gpio.F1OdrStep | lib/gpio.cpp:197-218 | the pull step changes only ODR, to the preset's level |
| Gpio.PresetOnErrBank | lib/gpio.cpp:356-491 | on a bank in ERR the pin constructor writes nothing; the pin's status still reflects whether the preset is known |
| Gpio.PinStatus | lib/gpio.cpp:520 | get_status returns the code of the pin's status |
| Gpio.PinObjectGuarded | lib/gpio.cpp:494-515 | a pin in ERR (including an unbound one) on, off and toggle do nothing, and its read is false |
| Gpio.On | lib/gpio.cpp:494-497 | a live pin on a live bank sets its ODR bit and nothing else; otherwise nothing changes |
| Gpio.Off | lib/gpio.cpp:500-503 | a live pin on a live bank clears its ODR bit and nothing else; otherwise nothing changes |
| Gpio.Toggle | lib/gpio.cpp:506-509 | a live pin on a live bank flips its ODR bit and nothing else; otherwise nothing changes |
| Gpio.ReadVia | lib/gpio.cpp:512-515 | a pin reads high exactly when it is live, its bank is live and its IDR bit is set |
| Gpio.SetMode | lib/gpio.cpp:525-528 | a pin's set_mode changes only MODER, and nothing for a dead pin or bank |
| Gpio.SetType | lib/gpio.cpp:531-534 | a pin's set_type changes only OTYPER, and nothing for a dead pin or bank |
| Gpio.SetSpeed | lib/gpio.cpp:537-540 | a pin's set_speed changes only OSPEEDR, and nothing for a dead pin or bank |
| Gpio.SetPupd | lib/gpio.cpp:543-546 | a pin's set_pupd changes only PUPDR, and nothing for a dead pin or bank |
| Gpio.SetAltFunc | lib/gpio.cpp:549-552 | a pin's set_alt_func changes only AFRL/AFRH, and nothing for a dead pin or bank |
| Gpio.SetCfg | lib/gpio.cpp:557-560 | a pin's set_cfg changes only CRL/CRH, and nothing for a dead pin or bank |
| Gpio.PinObjectOn | lib/gpio.cpp:494-497 | a live pin's on sets its ODR bit and nothing else |
| Gpio.PinObjectOff | lib/gpio.cpp:500-503 | a live pin's off clears its ODR bit and nothing else |
| Gpio.PinObjectToggle | lib/gpio.cpp:506-509 | a live pin's toggle flips its ODR bit and nothing else; toggling twice restores the bank |
| Gpio.PinObjectRead | lib/gpio.cpp:512-515 | a live pin reads high exactly when its IDR bit is set |
| Gpio.PinObjectFields | lib/gpio.cpp:522-560 | a dead pin's setters do nothing; a live pin's mode, speed and pupd setters write its fields |

## Left out

- Busy-waits on status flags (TXIS, TC, BUSY, SB, ADDR, TXE, BTF) and writes to I2C ICR: the model assumes every wait ends. Timing and hardware responses are outside a pure model.
- F3 I2C read (RXDR) and the start of a read transfer: the display never reads.
- Peripheral register addresses and RCC bit values are vendor constants. They are kept symbolic (`RegRef`, `RccBit`, `GpioPort`).
- Which GPIO banks exist on a given chip (`#ifdef GPIOx`) is the `defined` parameter of `Gpio.Construct`.
- `pIO::clock_en`, `reset` and `disable`: the drivers do not override them and the base versions do nothing (`Core.DefaultOpsAreInert`).
- `pIO::stream` is declared in lib/core.h:40, but no definition appears in lib/core.cpp, so it has no model.
- `sys_clock_hz` is declared but not used by the modelled code.
- Gpio.ModeEffect: shifts such as `3 << 30`, `0xF << 28` and `1 << 31` overflow a C `int`, which is undefined behaviour. The model gives them their two's-complement result, and the field facts are stated on 32-bit values.
- Bits.SetFieldEffect: a field value is stated in its shifted position, not as a value extracted by shifting back.
- Ssd1306.FrameBytesFull: the display may be built with any w and h. Only panels with w*h of 8192..8199 stream exactly the whole buffer, and `StreamFits` requires w*h/8 to be at most 1024. Larger sizes would read past the array in C, which the model rules out.
- Lines.HLine: the bounds tests compare with the display's `oled_w` and `oled_h`. The model fixes them at 128 and 64, the only size the driver supports (lib/ssd1306.cpp:6-7). For other sizes the guards let through different lines.
- Framebuffer.DrawPixel: draw_pixel and draw_letter do no bounds checks. `Addressable` (and `LetterDefined`) are the memory-safety conditions under which the C code is defined; calls outside them are out of bounds in C and are not modelled.
- Lines.RectAsWrittenAgrees: the agreement is stated only for fills and for outlines with y+outline <= 64 and x+outline <= 128. A thicker outline makes the left-edge loop reach column 128, where the as-written vertical guard draws into the next page (Lines.RectGuardCounterexample).
- Letters.LetterPixel: a cell that crosses the right edge is not described pixel by pixel. Its bytes wrap into the next page (x = 125 writes bytes 128..130, pixels (0..2, 8..15)); Letters.LetterWrites and Framebuffer.ApplyWritesBit state that effect byte by byte. A cell crossing the bottom edge writes past the buffer and is excluded by `LetterDefined`.
- Letters.CharPixel: the same restriction to cells wholly on screen, for the same reason.
- Text.RunPixel: the same restriction, for every character cell of the string.
- Gpio.ConstructPin: a pin number of 16 or more on a live bank is excluded. The F0/F3/L0 presets shift by `k*2`, and `1 << (k*2)` or `3 << (k*2)` past bit 31 is undefined behaviour in C.
- Text.DrawText: the C string is a sequence of characters ending at its first NUL, or at the sequence's end when there is none. Reading past the end of the C array is not modelled.
- Integer overflow of `x+w`, `y+h`, `x+offset` and similar expressions is not modelled, because the model's integers are unbounded. Coordinates stay small for on-screen drawing.
- `draw_letter_i`'s comment allows values up to 9,999,999,999. An `int` holds at most ten digits, and the loop from 10^9 covers them all (`Numbers.MagnitudeFits`).
- The default `pSSD1306()` constructor (lib/ssd1306.cpp:4) leaves the fields uninitialised, so it has no model.
- The application code (src/main.cpp, src/global.cpp, src/util.cpp) and FreeRTOSConfig.h are not part of this model.

## Findings

| source | as written | input that shows it | evidently intended | confidence | as-written member | corrected member |
|---|---|---|---|---|---|---|
| lib/ssd1306.cpp:28 | `draw_h_line` rejects only `y > oled_h` | y = 64, x = 0, w = 1: byte offset 0 + 8*128 = 1024, one past the 1024-byte framebuffer | reject `y >= oled_h` | not executed | Lines.HLineGuardCounterexample | Lines.HLine |
| lib/ssd1306.cpp:54 | `draw_v_line` rejects only `x > oled_w` | x = 128, y = 0, h = 1 on a blank buffer: pixel (0, 8) of the next page lights up | reject `x >= oled_w` | not executed | Lines.VLineGuardCounterexample | Lines.VLine |
| lib/ssd1306.cpp:96-98 | `draw_rect` checks only the rectangle, then draws `outline` columns from x rightwards through `draw_v_line` | draw_rect(100, 0, 28, 10, 30, 1) on a blank buffer: the column at x = 128 passes the line-54 guard and lights pixel (0, 8), outside the outline | with the corrected `x >= oled_w` test the column is rejected and only the outline band is drawn | not executed | Lines.RectGuardCounterexample | Lines.DrawRect |
| lib/ssd1306.cpp:510-512 | `draw_letter_i` negates with `ic * -1` | ic = -2147483648, x = 0, size 'S': the product wraps back to INT_MIN, every place divides to 0 or less, and the screen shows "-" then a space | draw "-2147483648" | not executed | Numbers.IntMinDrawsSpace | Numbers.IntMinDrawsText |
