/** `draw_letter_i`: a signed 32-bit integer drawn in decimal, one
    `draw_letter_c` call per character, the digits stopping once the
    cursor has left the screen. */
module Numbers {
  import opened Core
  import opened Framebuffer
  import opened Letters
  import opened Text

  /** `v * -1` on a 32-bit `int` as two's-complement hardware computes it:
      the one value without a positive counterpart wraps onto itself. */
  function Neg32(v: int): (r: int)
    requires IsInt32(v)
    ensures IsInt32(r)
    ensures v != IntMin ==> r == -v
    ensures v == IntMin ==> r == IntMin
  {
    (-v - IntMin) % 0x1_0000_0000 + IntMin
  }

  function Pow10(k: nat): (p: nat)
    ensures p >= 1
    ensures p == 1 <==> k == 0
  {
    if k == 0 then 1 else 10 * Pow10(k - 1)
  }

  lemma Pow10Step(k: nat)
    ensures Pow10(k + 1) == 10 * Pow10(k)
  {
  }

  lemma {:induction false} Pow10Grows(i: nat, j: nat)
    requires i < j
    ensures Pow10(i) < Pow10(j)
    decreases j
  {
    if i < j - 1 {
      Pow10Grows(i, j - 1);
    }
  }

  predicate IsDigit(c: char)
  {
    '0' <= c <= '9'
  }

  function DigitVal(c: char): int
  {
    c as int - '0' as int
  }

  /** The character `draw_letter_i` picks for a quotient: the digit for 0
      to 9 and a space for anything else. */
  function DigitChar(m: int): (c: char)
    ensures 0 <= m <= 9 ==> IsDigit(c) && DigitVal(c) == m
    ensures !(0 <= m <= 9) ==> c == ' '
  {
    if m == 0 then '0'
    else if m == 1 then '1'
    else if m == 2 then '2'
    else if m == 3 then '3'
    else if m == 4 then '4'
    else if m == 5 then '5'
    else if m == 6 then '6'
    else if m == 7 then '7'
    else if m == 8 then '8'
    else if m == 9 then '9'
    else ' '
  }

  /** The number a string of decimal digits denotes: each digit weighted
      by the place value of its position. */
  function Value(cs: seq<char>): int
  {
    if |cs| == 0 then 0 else DigitVal(cs[0]) * Pow10(|cs| - 1) + Value(cs[1..])
  }

  /** The quotient and remainder of a value by a place value below the
      next one up: a single digit and what is left for the lower places. */
  lemma SplitPlace(v: nat, p: nat)
    requires 1 <= p && v < 10 * p
    ensures 0 <= v / p <= 9
    ensures v % p < p
    ensures v == (v / p) * p + v % p
    ensures v / p == 0 <==> v < p
  {
  }

  /** C division of a value that is not negative: the quotient and
      remainder of ordinary division. */
  lemma CDivNonNegative(a: int, b: int)
    requires a >= 0 && b >= 1
    ensures CDiv(a, b) == a / b
    ensures a - CDiv(a, b) * b == a % b
  {
  }

  /** C division of a value below the divisor: nothing goes into it. */
  lemma CDivSmall(a: int, b: int)
    requires 0 <= a < b
    ensures CDiv(a, b) == 0 && a - CDiv(a, b) * b == a
  {
    assert a / b == 0;
  }

  /** C division of a value that is not positive: a quotient of at most
      zero and a remainder of at most zero, the negated remainder of the
      negated value. */
  lemma CDivNonPositive(a: int, b: int)
    requires a <= 0 && b >= 1
    ensures CDiv(a, b) <= 0
    ensures a - CDiv(a, b) * b == -((-a) % b)
  {
  }

  /** The k-digit zero-padded decimal form of v, most significant digit
      first. */
  function Padded(v: nat, k: nat): (cs: seq<char>)
    requires v < Pow10(k)
    ensures |cs| == k
    decreases k
  {
    if k == 0 then []
    else
      Pow10Step(k - 1);
      SplitPlace(v, Pow10(k - 1));
      [DigitChar(v / Pow10(k - 1))] + Padded(v % Pow10(k - 1), k - 1)
  }

  /** A padded form consists of digits and reads back as the value. */
  lemma {:induction false} PaddedValue(v: nat, k: nat)
    requires v < Pow10(k)
    ensures forall i | 0 <= i < k :: IsDigit(Padded(v, k)[i])
    ensures Value(Padded(v, k)) == v
    decreases k
  {
    hide Pow10;
    if k > 0 {
      var p := Pow10(k - 1);
      Pow10Step(k - 1);
      SplitPlace(v, p);
      var rest := Padded(v % p, k - 1);
      PaddedValue(v % p, k - 1);
      var cs := Padded(v, k);
      assert cs == [DigitChar(v / p)] + rest;
      assert cs[1..] == rest;
    }
  }

  /** The number of decimal digits of v, at least one. */
  function NumDigits(v: nat): (n: nat)
    ensures 1 <= n && v < Pow10(n)
    ensures n > 1 ==> Pow10(n - 1) <= v
  {
    if v < 10 then 1
    else
      var n := NumDigits(v / 10);
      Pow10Step(n);
      1 + n
  }

  /** A value between two neighbouring place values has as many digits as
      the upper one's exponent. */
  lemma NumDigitsExact(v: nat, k: nat)
    requires v < Pow10(k + 1)
    requires k == 0 || Pow10(k) <= v
    ensures NumDigits(v) == k + 1
  {
    hide Pow10;
    var n := NumDigits(v);
    if n < k + 1 {
      Pow10Grows(n, k);
    } else if n > k + 1 {
      Pow10Grows(k + 1, n - 1);
    }
  }

  /** v in decimal without leading zeros: "0" for zero. */
  function Decimal(v: nat): (cs: seq<char>)
    ensures |cs| == NumDigits(v)
  {
    Padded(v, NumDigits(v))
  }

  /** The decimal form is canonical: digits only, reading back as v, with
      no leading zero unless v is zero itself. */
  lemma DecimalCanonical(v: nat)
    ensures |Decimal(v)| >= 1
    ensures forall i | 0 <= i < |Decimal(v)| :: IsDigit(Decimal(v)[i])
    ensures Value(Decimal(v)) == v
    ensures Decimal(v)[0] == '0' <==> v == 0
  {
    hide Pow10;
    var n := NumDigits(v);
    PaddedValue(v, n);
    var p := Pow10(n - 1);
    Pow10Step(n - 1);
    SplitPlace(v, p);
    assert Decimal(v)[0] == DigitChar(v / p);

  }

  /** The digit loop of `draw_letter_i`, from magnitude 10^k down: a digit
      is drawn once a nonzero quotient has been seen, or at magnitude 1,
      and the loop returns once the cursor reaches column 128. */
  function DigitLoop(pv: int, k: nat, found: bool, cur: int, adv: int): (run: seq<Placed>)
    ensures 1 <= |run| <= k + 1
    ensures forall i | 0 <= i < |run| :: run[i].x == cur + i * adv
    ensures forall i | 0 <= i < |run| - 1 :: run[i].x + adv < 128
    ensures forall i | 0 <= i < |run| :: IsDigit(run[i].c) || run[i].c == ' '
    ensures adv >= 0 ==> forall i | 0 <= i < |run| :: cur <= run[i].x
    decreases k
  {
    var mag := Pow10(k);
    var m := CDiv(pv, mag);
    var rest := pv - m * mag;
    if m > 0 || found || mag == 1 then
      var here := [Placed(cur, DigitChar(m))];
      if cur + adv >= 128 || k == 0 then here
      else
        var tail := DigitLoop(rest, k - 1, true, cur + adv, adv);
        ConsSpaced(here[0], tail, cur, adv);
        here + tail
    else
      DigitLoop(rest, k - 1, found, cur, adv)
  }

  /** Characters laid out from column `cur` on, `adv` apart, ending after
      the first one whose successor would start at column 128 or beyond. */
  function Emit(cur: int, cs: seq<char>, adv: int): (run: seq<Placed>)
    decreases |cs|
  {
    if |cs| == 0 then []
    else [Placed(cur, cs[0])] + (if cur + adv >= 128 then [] else Emit(cur + adv, cs[1..], adv))
  }

  /** Emitting lays out a nonempty prefix of the string exactly where the
      full layout puts it. */
  lemma {:induction false} EmitIsLayoutPrefix(cur: int, cs: seq<char>, adv: int)
    ensures |Emit(cur, cs, adv)| <= |cs|
    ensures |cs| > 0 ==> |Emit(cur, cs, adv)| > 0
    ensures Emit(cur, cs, adv) == Layout(cur, cs, adv)[..|Emit(cur, cs, adv)|]
    decreases |cs|
  {
    if |cs| > 0 {
      LayoutTail(cur, cs, adv);
      if cur + adv < 128 {
        EmitIsLayoutPrefix(cur + adv, cs[1..], adv);
      }
    }
  }

  /** Emitting lays out the whole string precisely when its last character
      starts left of column 128, or there is only one. */
  lemma {:induction false} EmitIsWholeLayout(cur: int, cs: seq<char>, adv: int)
    requires adv >= 0
    ensures |Emit(cur, cs, adv)| == |cs| <==> |cs| <= 1 || cur + (|cs| - 1) * adv < 128
    decreases |cs|
  {
    if |cs| > 1 {
      if cur + adv < 128 {
        EmitIsWholeLayout(cur + adv, cs[1..], adv);
        assert cur + (|cs| - 1) * adv == (cur + adv) + (|cs[1..]| - 1) * adv;
      } else {
        assert cur + (|cs| - 1) * adv >= cur + adv;
      }
    }
  }

  /** A character at column `x` in front of characters spaced `adv` apart
      from the next column on keeps the spacing from `x`. */
  lemma ConsSpaced(p: Placed, rest: seq<Placed>, x: int, adv: int)
    requires p.x == x
    requires forall i | 0 <= i < |rest| :: rest[i].x == x + adv + i * adv
    ensures forall i | 0 <= i < |[p] + rest| :: ([p] + rest)[i].x == x + i * adv
  {
    forall i | 0 < i < |[p] + rest|
      ensures ([p] + rest)[i].x == x + i * adv
    {
      assert ([p] + rest)[i] == rest[i - 1];
      assert x + adv + (i - 1) * adv == x + i * adv;
    }
  }

  /** One step of the loop once a digit has been drawn: the quotient's
      digit here, then the remainder one column and one magnitude on. */
  lemma DigitLoopFoundStep(pv: int, k: nat, cur: int, adv: int)
    ensures DigitLoop(pv, k, true, cur, adv) ==
              [Placed(cur, DigitChar(CDiv(pv, Pow10(k))))] +
              (if cur + adv >= 128 || k == 0 then []
               else DigitLoop(pv - CDiv(pv, Pow10(k)) * Pow10(k), k - 1, true, cur + adv, adv))
  {
  }

  /** Past the leading digit, the loop draws the zero-padded rest. */
  lemma {:induction false} DigitLoopPadded(v: nat, k: nat, cur: int, adv: int)
    requires v < Pow10(k + 1)
    ensures DigitLoop(v, k, true, cur, adv) == Emit(cur, Padded(v, k + 1), adv)
    decreases k
  {
    hide Pow10;
    var p := Pow10(k);
    Pow10Step(k);
    SplitPlace(v, p);
    CDivNonNegative(v, p);
    DigitLoopFoundStep(v, k, cur, adv);
    hide DigitLoop;
    var ds := Padded(v, k + 1);
    assert ds == [DigitChar(v / p)] + Padded(v % p, k);
    assert ds[1..] == Padded(v % p, k);
    if cur + adv < 128 && k > 0 {
      DigitLoopPadded(v % p, k - 1, cur + adv, adv);
    }
  }

  /** Once the current quotient is positive, or at magnitude 1, whether a
      digit was seen before makes no difference. */
  lemma DigitLoopStarted(pv: int, k: nat, cur: int, adv: int)
    requires CDiv(pv, Pow10(k)) > 0 || k == 0
    ensures DigitLoop(pv, k, false, cur, adv) == DigitLoop(pv, k, true, cur, adv)
  {
  }

  /** A quotient of at most zero before any digit draws nothing and
      leaves the remainder for the next magnitude. */
  lemma DigitLoopSkip(pv: int, k: nat, cur: int, adv: int)
    requires 0 < k && CDiv(pv, Pow10(k)) <= 0
    ensures DigitLoop(pv, k, false, cur, adv) == DigitLoop(pv - CDiv(pv, Pow10(k)) * Pow10(k), k - 1, false, cur, adv)
  {
  }

  /** At magnitude 1 the quotient is the value itself, and it is drawn. */
  lemma DigitLoopLast(pv: int, found: bool, cur: int, adv: int)
    ensures DigitLoop(pv, 0, found, cur, adv) == [Placed(cur, DigitChar(pv))]
  {
  }

  /** A value below the magnitude skips it unchanged. */
  lemma DigitLoopSkips(pv: int, k: nat, cur: int, adv: int)
    requires 0 < k && 0 <= pv < Pow10(k)
    ensures DigitLoop(pv, k, false, cur, adv) == DigitLoop(pv, k - 1, false, cur, adv)
  {
    hide Pow10;
    CDivSmall(pv, Pow10(k));
    DigitLoopSkip(pv, k, cur, adv);
  }

  /** From any magnitude above the value, the loop draws exactly the
      decimal form, leading zeros skipped, cut off at the screen edge. */
  lemma {:induction false} DigitLoopDecimal(v: nat, k: nat, cur: int, adv: int)
    requires v < Pow10(k + 1)
    ensures DigitLoop(v, k, false, cur, adv) == Emit(cur, Decimal(v), adv)
    decreases k
  {
    hide Pow10;
    var p := Pow10(k);
    Pow10Step(k);
    if k == 0 || p <= v {
      NumDigitsExact(v, k);
      SplitPlace(v, p);
      CDivNonNegative(v, p);
      DigitLoopStarted(v, k, cur, adv);
      DigitLoopPadded(v, k, cur, adv);
      hide DigitLoop, Emit, Padded;
    } else {
      DigitLoopSkips(v, k, cur, adv);
      DigitLoopDecimal(v, k - 1, cur, adv);
      hide DigitLoop, Emit;
    }
  }

  /** The characters `draw_letter_i` draws for sign and magnitude: the
      minus sign first when negative, then the digit loop from magnitude
      10^9 at the next column. */
  function SignedRun(x: int, neg: bool, pv: int, size: char): (run: seq<Placed>)
    ensures |run| >= 1 && run[0].x == x
    ensures neg <==> run[0].c == '-'
    ensures forall i | 0 <= i < |run| :: run[i].x == x + i * Advance(size)
    ensures forall i | 1 <= i < |run| :: IsDigit(run[i].c) || run[i].c == ' '
    ensures forall i | 0 <= i < |run| :: x <= run[i].x
  {
    var adv := Advance(size);
    if neg then
      var loop := DigitLoop(pv, 9, false, x + adv, adv);
      ConsSpaced(Placed(x, '-'), loop, x, adv);
      [Placed(x, '-')] + loop
    else DigitLoop(pv, 9, false, x, adv)
  }

  /** `draw_letter_i` as written: the magnitude of a negative value is
      taken with a wrapping `* -1`. */
  function IntRunAsWritten(x: int, ic: int, size: char): (run: seq<Placed>)
    requires IsInt32(ic)
    ensures |run| >= 1 && run[0].x == x
    ensures ic < 0 <==> run[0].c == '-'
    ensures forall i | 0 <= i < |run| :: run[i].x == x + i * Advance(size)
    ensures forall i | 0 <= i < |run| :: x <= run[i].x
  {
    SignedRun(x, ic < 0, if ic < 0 then Neg32(ic) else ic, size)
  }

  /** `draw_letter_i` with the magnitude of a negative value taken exactly. */
  function IntRun(x: int, ic: int, size: char): (run: seq<Placed>)
    requires IsInt32(ic)
    ensures |run| >= 1 && run[0].x == x
    ensures ic < 0 <==> run[0].c == '-'
    ensures forall i | 0 <= i < |run| :: run[i].x == x + i * Advance(size)
    ensures forall i | 0 <= i < |run| :: x <= run[i].x
  {
    SignedRun(x, ic < 0, if ic < 0 then -ic else ic, size)
  }

  /** The text of an integer: a minus sign for a negative one, then its
      magnitude in decimal. */
  function IntText(ic: int): (t: seq<char>)
    ensures |t| >= 1
  {
    if ic < 0 then ['-'] + Decimal(-ic) else Decimal(ic)
  }

  /** What `draw_letter_i` shows of a laid-out text: a nonempty prefix of
      it, and all of it when its last character starts left of column 128. */
  predicate Clipped(run: seq<Placed>, full: seq<Placed>)
  {
    1 <= |run| <= |full| && run == full[..|run|] &&
    (full[|full| - 1].x < 128 ==> run == full)
  }

  /** Every 32-bit magnitude has at most ten digits. */
  lemma MagnitudeFits(v: nat)
    requires v <= 0x8000_0000
    ensures v < Pow10(10)
  {
  }

  /** The loop as the run of the decimal text from the loop's first
      column. */
  lemma DigitLoopIsText(v: nat, cur: int, adv: int)
    requires v <= 0x8000_0000 && adv >= 0
    ensures var run, full := DigitLoop(v, 9, false, cur, adv), Layout(cur, Decimal(v), adv);
            Clipped(run, full) && (run == full <==> |full| <= 1 || full[|full| - 1].x < 128)
  {
    MagnitudeFits(v);
    DigitLoopDecimal(v, 9, cur, adv);
    EmitIsLayoutPrefix(cur, Decimal(v), adv);
    EmitIsWholeLayout(cur, Decimal(v), adv);
    hide DigitLoop, Emit;
    var full := Layout(cur, Decimal(v), adv);
    assert full[..|full|] == full;
  }

  /** Putting a character in front of a clipped run and of its layout
      keeps it clipped. */
  lemma ClippedCons(p: Placed, run: seq<Placed>, full: seq<Placed>)
    requires Clipped(run, full)
    ensures Clipped([p] + run, [p] + full)
  {
    var run', full' := [p] + run, [p] + full;
    assert full'[|full'| - 1] == full[|full| - 1];
  }

  /** The run of a negative integer is the sign followed by the digit
      loop over its magnitude, one advance on. */
  lemma IntRunNegative(x: int, ic: int, size: char)
    requires IsInt32(ic) && ic < 0
    ensures IntRun(x, ic, size) == [Placed(x, '-')] + DigitLoop(-ic, 9, false, x + Advance(size), Advance(size))
    ensures Layout(x, IntText(ic), Advance(size)) == [Placed(x, '-')] + Layout(x + Advance(size), Decimal(-ic), Advance(size))
  {
    LayoutTail(x, IntText(ic), Advance(size));
    assert IntText(ic)[1..] == Decimal(-ic);
  }

  /** The text of a negative integer: see `IntRunIsText`. */
  lemma NegativeRunIsText(x: int, ic: int, size: char)
    requires IsInt32(ic) && ic < 0
    ensures Clipped(IntRun(x, ic, size), Layout(x, IntText(ic), Advance(size)))
  {
    hide DigitLoop, Layout, Decimal, IntRun, IntText, Clipped, Emit, SignedRun;
    var adv := Advance(size);
    DigitLoopIsText(-ic, x + adv, adv);
    IntRunNegative(x, ic, size);
    ClippedCons(Placed(x, '-'), DigitLoop(-ic, 9, false, x + adv, adv), Layout(x + adv, Decimal(-ic), adv));
  }

  /** `draw_letter_i` draws the integer's decimal text where `draw_text`
      would: the sign always, the digits until the cursor reaches column
      128, and all of it when the last character starts left of 128. */
  lemma IntRunIsText(x: int, ic: int, size: char)
    requires IsInt32(ic)
    ensures Clipped(IntRun(x, ic, size), Layout(x, IntText(ic), Advance(size)))
  {
    if ic < 0 {
      NegativeRunIsText(x, ic, size);
    } else {
      DigitLoopIsText(ic, x, Advance(size));
      assert IntRun(x, ic, size) == DigitLoop(ic, 9, false, x, Advance(size));
      assert IntText(ic) == Decimal(ic);
    }
  }

  /** Away from the one value without a 32-bit negation, the source's
      negation is exact. */
  lemma AsWrittenAgrees(x: int, ic: int, size: char)
    requires IsInt32(ic) && ic != IntMin
    ensures IntRunAsWritten(x, ic, size) == IntRun(x, ic, size)
  {
    hide DigitLoop;
    assert (if ic < 0 then Neg32(ic) else ic) == (if ic < 0 then -ic else ic);
  }

  /** The remainder of a by 10 survives first taking it modulo a larger
      power of ten. */
  lemma LastDigitOfRest(a: nat, q: nat)
    requires q >= 1
    ensures (a % (10 * q)) % 10 == a % 10
  {
    var t, r := a / (10 * q), a % (10 * q);
    assert a == 10 * (t * q) + r;
  }

  /** With a value of at most zero every quotient is at most zero, so no
      digit is drawn before magnitude 1, where the one character drawn is
      picked by the negated last digit: '0' for a multiple of ten, else the
      space for an out-of-range quotient. */
  lemma {:induction false} DigitLoopNonPositive(pv: int, k: nat, cur: int, adv: int)
    requires 0 < pv + Pow10(k + 1) && pv <= 0
    ensures DigitLoop(pv, k, false, cur, adv) == [Placed(cur, DigitChar(-((-pv) % 10)))]
    decreases k
  {
    hide Pow10, DigitLoop;
    var mag := Pow10(k);
    CDivNonPositive(pv, mag);
    Pow10Step(k);
    if k == 0 {
      DigitLoopLast(pv, false, cur, adv);
    } else {
      var rest := pv - CDiv(pv, mag) * mag;
      DigitLoopSkip(pv, k, cur, adv);
      Pow10Step(k - 1);
      LastDigitOfRest(-pv, Pow10(k - 1));
      DigitLoopNonPositive(rest, k - 1, cur, adv);
    }
  }

  /** For the most negative value the wrapped magnitude stays negative and
      only magnitude 1 draws a character: the space, after the sign. */
  lemma IntMinDrawsSpace()
    ensures IntRunAsWritten(0, IntMin, 'S') == [Placed(0, '-'), Placed(6, ' ')]
  {
    MagnitudeFits(0x8000_0000);
    DigitLoopNonPositive(IntMin, 9, 6, 6);
    hide DigitLoop;
  }

  /** With the exact magnitude the most negative value is drawn in full,
      all eleven characters of "-2147483648". */
  lemma IntMinDrawsText()
    ensures IntRun(0, IntMin, 'S') == Layout(0, IntText(IntMin), 6)
    ensures |IntText(IntMin)| == 11
  {
    NumDigitsExact(0x8000_0000, 9);
    IntRunIsText(0, IntMin, 'S');
    hide DigitLoop, Decimal;
  }

  /** `draw_letter_i`: draws the integer's characters one after another. */
  function DrawInt(fb: Buffer, x: int, y: int, ic: int, color: bv8, size: char): (r: Buffer)
    requires IsInt32(ic) && RunDefined(y, IntRun(x, ic, size), size)
    ensures (forall i | 0 <= i < |IntRun(x, ic, size)| :: CellOnScreen(IntRun(x, ic, size)[i].x, y, Scale(size))) ==>
              forall px, py | OnScreen(px, py) && (px < x || py < y || py >= y + 8 * Scale(size)) ::
                Pixel(r, px, py) == Pixel(fb, px, py)
  {
    OutsideBandUncovered(IntRun(x, ic, size), x, y, Scale(size));
    DrawRun(fb, y, IntRun(x, ic, size), color, size)
  }

  /** No cell of a run starting at or right of `x` holds a pixel left of
      `x` or outside the text line's rows. */
  lemma OutsideBandUncovered(run: seq<Placed>, x: int, y: int, s: int)
    requires forall i | 0 <= i < |run| :: x <= run[i].x
    ensures forall px, py | px < x || py < y || py >= y + 8 * s :: LastCover(run, y, s, px, py) == -1
  {
  }
}
