/** The code units of the transcoders, and the first bytes of UTF-8 sequences. */
module Utf8Lead {
  import opened Basics

  type unit = x: int | 0 <= x < 0x1_0000

  /** A word shifted right by k pairs of bits. */
  function ShiftPairs(x: nat, k: nat): nat
    decreases k
  {
    if k == 0 then x else ShiftPairs(x, k - 1) / 4
  }

  /** The length that a first byte announces, by its leading one bits; extension bytes stand alone. */
  function SeqLength(b: byte): nat {
    if b < 0xc0 then 1 else if b < 0xe0 then 2 else if b < 0xf0 then 3 else 4
  }

  predicate IsExtension(b: byte) {
    0x80 <= b < 0xc0
  }

  lemma HighShifts(w: nat)
    requires w == 0xe500_0000
    ensures forall k | 0 <= k <= 8 :: ShiftPairs(w, k) % 4 == 0
    ensures ShiftPairs(w, 8) == 0xe500
  {
    assert ShiftPairs(w, 2) == 0x0e50_0000;
    assert ShiftPairs(w, 4) == 0xe5_0000;
    assert ShiftPairs(w, 6) == 0x0e_5000;
  }

  lemma LowShifts(w: nat)
    requires w == 0xe500_0000
    ensures forall k | 8 <= k < 12 :: ShiftPairs(w, k) % 4 == 0
    ensures ShiftPairs(w, 12) % 4 == ShiftPairs(w, 13) % 4 == 1
    ensures ShiftPairs(w, 14) % 4 == 2 && ShiftPairs(w, 15) % 4 == 3
  {
    HighShifts(w);
    assert ShiftPairs(w, 10) == 0x0e50;
    assert ShiftPairs(w, 12) == 0xe5;
    assert ShiftPairs(w, 14) == 0x0e;
  }

  /** ((0xe5000000 >> ((ch >> 3) & 0x1e)) & 3) + 1: two bits of a table, picked by the high nibble. */
  function TableLength(b: byte): (n: nat)
    ensures n == SeqLength(b)
  {
    HighShifts(0xe500_0000);
    LowShifts(0xe500_0000);
    ShiftPairs(0xe500_0000, b / 16) % 4 + 1
  }
}
