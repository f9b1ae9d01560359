/**
 The CRC-7 of C-SPI commands (nrc-hif-cspi.c), against the bit-serial register it
 implements, and the errors it detects in messages of any length.
 */
module Crc7 {

  /** An octet as its eight bits. */
  datatype Octet = Octet(b7: bool, b6: bool, b5: bool, b4: bool, b3: bool, b2: bool, b1: bool, b0: bool)

  const ZERO := Octet(false, false, false, false, false, false, false, false)

  /** The generator x^7 + x^3 + 1: 0x89. */
  const GENERATOR := Octet(true, false, false, false, true, false, false, true)

  function Xor(a: Octet, b: Octet): Octet {
    Octet(a.b7 != b.b7, a.b6 != b.b6, a.b5 != b.b5, a.b4 != b.b4,
          a.b3 != b.b3, a.b2 != b.b2, a.b1 != b.b1, a.b0 != b.b0)
  }

  /** `a << 1` in an octet. */
  function ShiftLeft(a: Octet): Octet {
    Octet(a.b6, a.b5, a.b4, a.b3, a.b2, a.b1, a.b0, false)
  }

  /** `a >> 1` */
  function ShiftRight(a: Octet): Octet {
    Octet(false, a.b7, a.b6, a.b5, a.b4, a.b3, a.b2, a.b1)
  }

  // ---- the source's byte loop ---------------------------------------------------------------

  /** One round of the loop in crc7. */
  function Round(seed: Octet): Octet {
    ShiftLeft(if seed.b7 then Xor(seed, GENERATOR) else seed)
  }

  function Rounds(seed: Octet, n: nat): Octet
    decreases n
  {
    if n == 0 then seed else Rounds(Round(seed), n - 1)
  }

  /** crc7: one data byte. */
  function Update(seed: Octet, data: Octet): Octet {
    Rounds(Xor(seed, data), 8)
  }

  function Fold(seed: Octet, data: seq<Octet>): Octet
    decreases |data|
  {
    if data == [] then seed else Fold(Update(seed, data[0]), data[1..])
  }

  function Crc(data: seq<Octet>): Octet {
    ShiftRight(Fold(ZERO, data))
  }

  method Crc7Byte(seed0: Octet, data: Octet) returns (seed: Octet)
    ensures seed == Update(seed0, data)
  {
    seed := Xor(seed0, data);
    var i := 0;
    while i < 8
      invariant 0 <= i <= 8 && Rounds(seed, 8 - i) == Update(seed0, data)
    {
      if seed.b7 {
        seed := Xor(seed, GENERATOR);
      }
      seed := ShiftLeft(seed);
      i := i + 1;
    }
  }

  method ComputeCrc7(data: seq<Octet>) returns (crc: Octet)
    ensures crc == Crc(data)
  {
    crc := ZERO;
    var i := 0;
    while i < |data|
      invariant 0 <= i <= |data| && Fold(crc, data[i..]) == Fold(ZERO, data)
    {
      assert data[i..][0] == data[i] && data[i..][1..] == data[i + 1..];
      crc := Crc7Byte(crc, data[i]);
      i := i + 1;
    }
    crc := ShiftRight(crc);
  }

  // ---- linearity ------------------------------------------------------------------------------

  lemma ShiftLeftIsLinear(a: Octet, b: Octet)
    ensures ShiftLeft(Xor(a, b)) == Xor(ShiftLeft(a), ShiftLeft(b))
  {
  }

  lemma XorCancels(a: Octet, b: Octet, g: Octet)
    ensures Xor(Xor(a, g), Xor(b, g)) == Xor(a, b)
  {
  }

  lemma XorMoves(a: Octet, b: Octet, g: Octet)
    ensures Xor(Xor(a, g), b) == Xor(Xor(a, b), g) == Xor(a, Xor(b, g))
  {
  }

  lemma RoundIsLinear(a: Octet, b: Octet)
    ensures Round(Xor(a, b)) == Xor(Round(a), Round(b))
  {
    XorCancels(a, b, GENERATOR);
    XorMoves(a, b, GENERATOR);
    ShiftLeftIsLinear(if a.b7 then Xor(a, GENERATOR) else a, if b.b7 then Xor(b, GENERATOR) else b);
  }

  lemma {:induction false} RoundsAreLinear(a: Octet, b: Octet, n: nat)
    ensures Rounds(Xor(a, b), n) == Xor(Rounds(a, n), Rounds(b, n))
    decreases n
  {
    if n > 0 {
      RoundIsLinear(a, b);
      RoundsAreLinear(Round(a), Round(b), n - 1);
    }
  }

  lemma XorShuffle(a: Octet, b: Octet, c: Octet, d: Octet)
    ensures Xor(Xor(a, b), Xor(c, d)) == Xor(Xor(a, c), Xor(b, d))
  {
  }

  lemma UpdateIsLinear(s: Octet, t: Octet, a: Octet, b: Octet)
    ensures Update(Xor(s, t), Xor(a, b)) == Xor(Update(s, a), Update(t, b))
  {
    XorShuffle(s, t, a, b);
    RoundsAreLinear(Xor(s, a), Xor(t, b), 8);
  }

  /** Two messages of one length, XORed byte by byte. */
  function XorAll(x: seq<Octet>, y: seq<Octet>): (z: seq<Octet>)
    requires |x| == |y|
    ensures |z| == |x|
  {
    if x == [] then [] else [Xor(x[0], y[0])] + XorAll(x[1..], y[1..])
  }

  lemma {:induction false} FoldIsLinear(s: Octet, t: Octet, x: seq<Octet>, y: seq<Octet>)
    requires |x| == |y|
    ensures Fold(Xor(s, t), XorAll(x, y)) == Xor(Fold(s, x), Fold(t, y))
    decreases |x|
  {
    if x != [] {
      UpdateIsLinear(s, t, x[0], y[0]);
      assert XorAll(x, y)[1..] == XorAll(x[1..], y[1..]);
      FoldIsLinear(Update(s, x[0]), Update(t, y[0]), x[1..], y[1..]);
    }
  }

  lemma ShiftIsLinear(a: Octet, b: Octet)
    ensures ShiftRight(Xor(a, b)) == Xor(ShiftRight(a), ShiftRight(b))
  {
  }

  /** The CRC of a bytewise XOR is the XOR of the CRCs. */
  lemma CrcIsXorLinear(x: seq<Octet>, y: seq<Octet>)
    requires |x| == |y|
    ensures Crc(XorAll(x, y)) == Xor(Crc(x), Crc(y))
  {
    FoldIsLinear(ZERO, ZERO, x, y);
    assert Xor(ZERO, ZERO) == ZERO;
    ShiftIsLinear(Fold(ZERO, x), Fold(ZERO, y));
  }

  // ---- error detection --------------------------------------------------------------------------

  predicate Even(s: Octet) {
    !s.b0
  }

  lemma RoundKills(s: Octet)
    ensures Even(Round(s))
    ensures Round(s) == ZERO <==> s == ZERO || s == GENERATOR
  {
  }

  /** An even register never reaches zero on its own: the generator is odd. */
  lemma {:induction false} EvenSurvives(s: Octet, n: nat)
    requires Even(s)
    ensures Even(Rounds(s, n)) && (Rounds(s, n) == ZERO <==> s == ZERO)
    decreases n
  {
    if n > 0 {
      RoundKills(s);
      EvenSurvives(Round(s), n - 1);
    }
  }

  lemma EightRoundsKill(s: Octet)
    ensures Even(Rounds(s, 8)) && (Rounds(s, 8) == ZERO <==> s == ZERO || s == GENERATOR)
  {
    RoundKills(s);
    EvenSurvives(Round(s), 7);
  }

  lemma XorFacts(s: Octet, t: Octet)
    ensures Xor(s, s) == ZERO && Xor(ZERO, s) == s && Xor(s, ZERO) == s
    ensures Xor(s, t) == ZERO <==> s == t
    ensures Even(s) && Even(t) ==> Even(Xor(s, t))
  {
    if Xor(s, t) == ZERO {
      SameBits(s, t);
    }
  }

  lemma SameBits(s: Octet, t: Octet)
    requires Xor(s, t) == ZERO
    ensures s == t
  {
    assert s.b7 == t.b7 && s.b6 == t.b6 && s.b5 == t.b5 && s.b4 == t.b4;
    assert s.b3 == t.b3 && s.b2 == t.b2 && s.b1 == t.b1 && s.b0 == t.b0;
  }

  lemma XorTwice(a: Octet, e: Octet)
    ensures Xor(a, Xor(a, e)) == e
  {
  }

  /** Two registers that both take the byte `a` stay as different as they were. */
  lemma UpdateKeepsDifference(s: Octet, t: Octet, a: Octet)
    requires Even(s) && Even(t) && s != t
    ensures Even(Update(s, a)) && Even(Update(t, a)) && Update(s, a) != Update(t, a)
  {
    UpdateIsLinear(s, t, a, a);
    XorFacts(a, a);
    XorFacts(s, t);
    XorFacts(Xor(s, t), ZERO);
    EvenSurvives(Xor(s, t), 8);
    EightRoundsKill(Xor(s, a));
    EightRoundsKill(Xor(t, a));
    XorFacts(Update(s, a), Update(t, a));
  }

  /** A difference in the register survives any number of equal bytes. */
  lemma {:induction false} DifferenceSurvives(s: Octet, t: Octet, tail: seq<Octet>)
    requires Even(s) && Even(t) && s != t
    ensures Even(Fold(s, tail)) && Even(Fold(t, tail)) && Fold(s, tail) != Fold(t, tail)
    decreases |tail|
  {
    if tail != [] {
      UpdateKeepsDifference(s, t, tail[0]);
      DifferenceSurvives(Update(s, tail[0]), Update(t, tail[0]), tail[1..]);
    }
  }

  lemma EvenShift(s: Octet, t: Octet)
    requires Even(s) && Even(t)
    ensures ShiftRight(s) == ShiftRight(t) <==> s == t
  {
  }

  lemma {:induction false} FoldAppend(s: Octet, x: seq<Octet>, y: seq<Octet>)
    ensures Fold(s, x + y) == Fold(Fold(s, x), y)
    decreases |x|
  {
    if x == [] {
      assert x + y == y;
    } else {
      assert (x + y)[1..] == x[1..] + y;
      FoldAppend(Update(s, x[0]), x[1..], y);
    }
  }

  lemma FoldAround(front: seq<Octet>, a: Octet, tail: seq<Octet>)
    ensures Fold(ZERO, front + [a] + tail) == Fold(Update(Fold(ZERO, front), a), tail)
  {
    FoldAppend(ZERO, front + [a], tail);
    FoldAppend(ZERO, front, [a]);
    assert [a][1..] == [];
  }

  /**
   * Changing one byte of a message of any length goes unnoticed exactly when the change
   * is the generator itself.
   */
  lemma ByteErrorDetectedIffNotGenerator(front: seq<Octet>, a: Octet, b: Octet, tail: seq<Octet>)
    requires a != b
    ensures Crc(front + [a] + tail) == Crc(front + [b] + tail) <==> Xor(a, b) == GENERATOR
  {
    var s := Fold(ZERO, front);
    FoldAround(front, a, tail);
    FoldAround(front, b, tail);
    var u, v := Update(s, a), Update(s, b);
    UpdateIsLinear(s, s, a, b);
    XorFacts(s, s);
    XorFacts(Xor(a, b), ZERO);
    XorFacts(a, b);
    XorFacts(u, v);
    EightRoundsKill(Xor(a, b));
    EightRoundsKill(Xor(s, a));
    EightRoundsKill(Xor(s, b));
    if u != v {
      DifferenceSurvives(u, v, tail);
      EvenShift(Fold(u, tail), Fold(v, tail));
    }
  }

  /** Exactly one bit set. */
  predicate OneBit(e: Octet) {
    var n := (if e.b7 then 1 else 0) + (if e.b6 then 1 else 0) + (if e.b5 then 1 else 0) + (if e.b4 then 1 else 0)
           + (if e.b3 then 1 else 0) + (if e.b2 then 1 else 0) + (if e.b1 then 1 else 0) + (if e.b0 then 1 else 0);
    n == 1
  }

  /** In particular every single-bit error is detected, in messages of any length. */
  lemma SingleBitErrorDetected(front: seq<Octet>, a: Octet, e: Octet, tail: seq<Octet>)
    requires OneBit(e)
    ensures Crc(front + [a] + tail) != Crc(front + [Xor(a, e)] + tail)
  {
    XorTwice(a, e);
    XorFacts(a, e);
    assert Xor(a, e) != a;
    ByteErrorDetectedIffNotGenerator(front, a, Xor(a, e), tail);
  }

  // ---- the bit-serial register ------------------------------------------------------------------

  /**
   * The seven-bit register of a serial CRC-7: shift in a zero, and feed the bit shifted
   * out, XORed with the message bit, back into places 3 and 0.  Bit b7 stays clear.
   */
  function Clock(r: Octet, bit: bool): Octet {
    var feed := r.b6 != bit;
    Octet(false, r.b5, r.b4, r.b3, r.b2 != feed, r.b1, r.b0, feed)
  }

  function ClockOctet(r: Octet, d: Octet): Octet {
    var r4 := Clock(Clock(Clock(Clock(r, d.b7), d.b6), d.b5), d.b4);
    Clock(Clock(Clock(Clock(r4, d.b3), d.b2), d.b1), d.b0)
  }

  function ClockAll(r: Octet, data: seq<Octet>): Octet
    decreases |data|
  {
    if data == [] then r else ClockAll(ClockOctet(r, data[0]), data[1..])
  }

  /** One round with the message bits aligned below the register. */
  lemma RoundIsClock(r: Octet, d: Octet)
    requires !r.b7
    ensures Round(Xor(ShiftLeft(r), d)) == Xor(ShiftLeft(Clock(r, d.b7)), ShiftLeft(d))
  {
    if r.b6 == d.b7 {
    } else {
    }
  }

  function FourClocks(r: Octet, d: Octet): Octet {
    Clock(Clock(Clock(Clock(r, d.b7), d.b6), d.b5), d.b4)
  }

  /** `d << 4` */
  function ShiftFour(d: Octet): Octet {
    ShiftLeft(ShiftLeft(ShiftLeft(ShiftLeft(d))))
  }

  lemma ShiftedOut(d: Octet)
    ensures ShiftFour(ShiftFour(d)) == ZERO
  {
  }

  lemma FourAndFour(r: Octet, d: Octet)
    ensures FourClocks(FourClocks(r, d), ShiftFour(d)) == ClockOctet(r, d)
  {
  }

  lemma FourRounds(r: Octet, d: Octet)
    requires !r.b7
    ensures Rounds(Xor(ShiftLeft(r), d), 4) == Xor(ShiftLeft(FourClocks(r, d)), ShiftFour(d))
    ensures !FourClocks(r, d).b7
  {
    var r1, d1 := Clock(r, d.b7), ShiftLeft(d);
    var r2, d2 := Clock(r1, d1.b7), ShiftLeft(d1);
    var r3, d3 := Clock(r2, d2.b7), ShiftLeft(d2);
    RoundIsClock(r, d);
    RoundIsClock(r1, d1);
    RoundIsClock(r2, d2);
    RoundIsClock(r3, d3);
    FourUnfolded(Xor(ShiftLeft(r), d));
  }

  lemma FourUnfolded(s: Octet)
    ensures Rounds(s, 4) == Round(Round(Round(Round(s))))
  {
    assert Rounds(s, 4) == Rounds(Round(s), 3);
    assert Rounds(Round(s), 3) == Rounds(Round(Round(s)), 2);
  }

  /** A byte through the loop is its eight bits through the register, one place higher. */
  lemma UpdateIsEightClocks(r: Octet, d: Octet)
    requires !r.b7
    ensures Update(ShiftLeft(r), d) == ShiftLeft(ClockOctet(r, d)) && !ClockOctet(r, d).b7
  {
    FourRounds(r, d);
    FourRounds(FourClocks(r, d), ShiftFour(d));
    FourAndFour(r, d);
    ShiftedOut(d);
    RoundsAdd(Xor(ShiftLeft(r), d), 4, 4);
    XorFacts(ShiftLeft(ClockOctet(r, d)), ZERO);
  }

  lemma {:induction false} RoundsAdd(s: Octet, n: nat, m: nat)
    ensures Rounds(s, n + m) == Rounds(Rounds(s, n), m)
    decreases n
  {
    if n > 0 {
      RoundsAdd(Round(s), n - 1, m);
    }
  }

  lemma {:induction false} FoldIsClocked(r: Octet, data: seq<Octet>)
    requires !r.b7
    ensures Fold(ShiftLeft(r), data) == ShiftLeft(ClockAll(r, data)) && !ClockAll(r, data).b7
    decreases |data|
  {
    if data != [] {
      UpdateIsEightClocks(r, data[0]);
      FoldIsClocked(ClockOctet(r, data[0]), data[1..]);
    }
  }

  /** The byte-wise loop computes the serial CRC-7 of the message's bits. */
  lemma CrcIsSerialRegister(data: seq<Octet>)
    ensures Crc(data) == ClockAll(ZERO, data)
  {
    FoldIsClocked(ZERO, data);
    assert ShiftLeft(ZERO) == ZERO;
  }
}
