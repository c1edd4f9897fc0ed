/** Bit-level facts about 32-bit register values: masks set, cleared and
    flipped, and packed fields written with a clear-then-or. A shift by n
    places is n shifts by one place, which keeps every bit-vector fact
    below about shifts by a literal amount. */
module Bits {
  /** `v << n` on a 32-bit value (bits shifted past bit 31 are lost). */
  function Shl(v: bv32, n: nat): bv32
  {
    if n == 0 then v else Shl(v, n - 1) << 1
  }

  /** After an ODR operation on mask m: the mask's bits are all set, all
      clear, or flipped, and every other bit is as before. */
  predicate BitsSet(before: bv32, after: bv32, m: bv32)
  {
    after & m == m && after & !m == before & !m
  }

  predicate BitsCleared(before: bv32, after: bv32, m: bv32)
  {
    after & m == 0 && after & !m == before & !m
  }

  predicate BitsFlipped(before: bv32, after: bv32, m: bv32)
  {
    after & m == (before & m) ^ m && after & !m == before & !m
  }

  // The lemmas named ...Raw state their facts on bit-vector expressions
  // alone; the ones without the suffix restate them through the
  // definitions above.

  lemma OrSetsRaw(x: bv32, m: bv32)
    ensures (x | m) & m == m && (x | m) & !m == x & !m
  {
  }

  lemma OrSets(x: bv32, m: bv32)
    ensures BitsSet(x, x | m, m)
  {
    OrSetsRaw(x, m);
  }

  lemma AndNotClearsRaw(x: bv32, m: bv32)
    ensures (x & !m) & m == 0 && (x & !m) & !m == x & !m
  {
  }

  lemma AndNotClears(x: bv32, m: bv32)
    ensures BitsCleared(x, x & !m, m)
  {
    AndNotClearsRaw(x, m);
  }

  lemma XorFlipsRaw(x: bv32, m: bv32)
    ensures (x ^ m) & m == (x & m) ^ m && (x ^ m) & !m == x & !m
  {
  }

  lemma XorFlips(x: bv32, m: bv32)
    ensures BitsFlipped(x, x ^ m, m)
  {
    XorFlipsRaw(x, m);
  }

  lemma XorTwice(x: bv32, m: bv32)
    ensures (x ^ m) ^ m == x
  {
  }

  /** Clear the bits of mask m, then OR in x. */
  function Put(reg: bv32, m: bv32, x: bv32): bv32
  {
    (reg & !m) | x
  }

  /** The bits of mask m hold x and every other bit is as before. */
  predicate Holds(before: bv32, after: bv32, m: bv32, x: bv32)
  {
    after & m == x && after & !m == before & !m
  }

  /** `reg &= ~(fm << s); reg |= (v << s);` */
  function SetField(reg: bv32, fm: bv32, s: nat, v: bv32): bv32
  {
    Put(reg, Shl(fm, s), Shl(v, s))
  }

  /** The bits of field mask fm at bit s hold v (placed at bit s), and
      every bit outside the field is as before. */
  predicate FieldIs(before: bv32, after: bv32, fm: bv32, s: nat, v: bv32)
  {
    Holds(before, after, Shl(fm, s), Shl(v, s))
  }

  lemma ClearOrRaw(reg: bv32, m: bv32, x: bv32)
    requires x & !m == 0
    ensures ((reg & !m) | x) & m == x
    ensures ((reg & !m) | x) & !m == reg & !m
  {
  }

  lemma ClearOr(reg: bv32, m: bv32, x: bv32)
    requires x & !m == 0
    ensures Holds(reg, Put(reg, m, x), m, x)
  {
    ClearOrRaw(reg, m, x);
  }

  lemma ShiftStep(a: bv32, b: bv32)
    requires a & !b == 0
    ensures (a << 1) & !(b << 1) == 0
  {
  }

  /** A value inside a mask stays inside the mask when both are shifted. */
  lemma {:induction false} ShiftIn(v: bv32, fm: bv32, s: nat)
    requires v & !fm == 0
    ensures Shl(v, s) & !Shl(fm, s) == 0
  {
    if s > 0 {
      ShiftIn(v, fm, s - 1);
      ShiftStep(Shl(v, s - 1), Shl(fm, s - 1));
    }
  }

  /** Writing a value that fits the field: the field's bits hold it and
      every bit outside the field is unchanged. */
  lemma SetFieldEffect(reg: bv32, fm: bv32, s: nat, v: bv32)
    requires v & !fm == 0
    ensures FieldIs(reg, SetField(reg, fm, s, v), fm, s, v)
  {
    hide Shl, Put, Holds;
    ShiftIn(v, fm, s);
    ClearOr(reg, Shl(fm, s), Shl(v, s));
  }

  /** Some bit of mask m is set in v. */
  predicate AnySet(v: bv32, m: bv32)
  {
    v & m != 0
  }

  lemma AndZero(m: bv32)
    ensures 0 & m == 0
  {
  }

  /** No bit of any mask is set in zero. */
  lemma NoneSetInZero(m: bv32)
    ensures !AnySet(0, m)
  {
    AndZero(m);
  }

  /** Values below 2, 4 and 16 fit the 1-, 2- and 4-bit fields. */
  lemma Fits(v: bv32)
    ensures v < 2 ==> v & !1 == 0
    ensures v < 4 ==> v & !3 == 0
    ensures v < 16 ==> v & !0xF == 0
  {
  }
}
