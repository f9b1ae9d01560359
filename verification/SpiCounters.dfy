/**
 The 16-bit slot counters of the C-SPI transport (nrc-hif-cspi.c) and the unbounded counts they
 stand for.
 */
module SpiCounters {
  import opened Arith

  /** More outstanding slots than this are taken for garbage. */
  const MAX_GAP: nat := 32

  /** c_spi_num_slots: head - tail in 16 bits. */
  function NumSlots(head: nat, tail: nat): (n: nat)
    ensures n < U16
  {
    (head - tail) % U16
  }

  lemma WrapDifference(a: nat, b: nat)
    requires b <= a < b + U16
    ensures NumSlots(a % U16, b % U16) == a - b
  {
    var d := a % U16 - b % U16;
    DivMod(a, U16);
    DivMod(b, U16);
    assert d == (a - b) - (a / U16 - b / U16) * U16;
    ModOfShift(a - b, d, b / U16 - a / U16);
  }

  lemma ModOfShift(x: nat, d: int, k: int)
    requires x < U16 && d == x + k * U16
    ensures d % U16 == x
  {
  }

  lemma AddMod(a: nat, n: nat)
    ensures (a % U16 + n) % U16 == (a + n) % U16
  {
  }
}
