/**
 Quantising the TWT wake interval (nrc-twt-sched.c).

 The TWT element of section 9.4.2.199 of IEEE Std 802.11-2020 carries a wake
 interval as a 16-bit mantissa and a 5-bit exponent.  At start-up the AP derives
 whichever of service period, service count and interval was left at zero, then
 replaces the interval by a representable one and works with that.
 */
module TwtInterval {
  import opened Arith

  const MAX_MANTISSA: nat := 65535
  const MAX_EXPONENT: nat := 31

  /** From here on the nearest candidate is 65536 << 31, which does not fit. */
  const LIMIT: nat := 65535 * 0x8000_0000 + 0x4000_0000

  predicate Representable(m: int, e: int) {
    0 <= m <= MAX_MANTISSA && 0 <= e <= MAX_EXPONENT
  }

  /** How far the interval denoted by mantissa x and exponent y is from i. */
  function Error(i: nat, x: int, y: nat): nat {
    Abs(Shl(x, y) - i)
  }

  /** No representable pair is nearer to i. */
  ghost predicate IsNearest(i: nat, m: nat, e: nat) {
    && Representable(m, e)
    && forall x: nat, y: nat | Representable(x, y) :: Error(i, m, e) <= Error(i, x, y)
  }

  /** The exponents cal_twt_interval tries. */
  predicate Fits(i: nat, y: nat) {
    Shr(i, y) <= MAX_MANTISSA
  }

  lemma FitsIff(i: nat, y: nat)
    ensures Fits(i, y) <==> i < 65536 * Pow2(y)
  {
    ShrIsDiv(i, y);
    DivBelow(i, Pow2(y), 65536);
  }

  lemma FitsMono(i: nat, y: nat, z: nat)
    requires y <= z && Fits(i, y)
    ensures Fits(i, z)
  {
    Pow2Mono(y, z);
    FitsIff(i, y);
    FitsIff(i, z);
  }

  lemma Pow2Values()
    ensures Pow2(30) == 0x4000_0000 && Pow2(31) == 0x8000_0000
  {
    assert Pow2(5) == 32;
    Pow2Add(5, 5);
    Pow2Add(10, 10);
    Pow2Add(20, 10);
    Pow2Add(30, 1);
  }

  /** For a fixed exponent the two multiples around i are the nearest. */
  lemma NeighboursAreNearest(i: nat, y: nat, q: nat, x: int)
    requires q == Shr(i, y)
    ensures Error(i, q, y) <= Pow2(y)
    ensures Error(i, x, y) >= Min(Error(i, q, y), Error(i, q + 1, y))
  {
    ShrIsDiv(i, y);
    ShlIsMul(q, y);
    ShlIsMul(q + 1, y);
    ShlIsMul(x, y);
    DivMod(i, Pow2(y));
    NearestMultiple(i, Pow2(y), q, x);
  }

  lemma NearestMultiple(i: int, p: nat, q: int, x: int)
    requires q * p <= i < q * p + p
    ensures Abs(q * p - i) <= p
    ensures Abs(x * p - i) >= Min(Abs(q * p - i), Abs((q + 1) * p - i))
  {
    assert (q + 1) * p == q * p + p;
    MulMono(x, q, p);
    MulMono(q + 1, x, p);
  }

  /** An exponent too small for i loses to the smallest one that fits. */
  lemma SmallExponentLoses(i: nat, k: nat, y: nat, x: nat)
    requires k < y && Fits(i, y) && !Fits(i, y - 1)
    requires x <= MAX_MANTISSA
    ensures Error(i, Shr(i, y), y) <= Error(i, x, k)
  {
    var p, h := Pow2(y), Pow2(y - 1);
    Pow2Mono(k, y - 1);
    FitsIff(i, y - 1);
    DivBelow(i, p, 32768);
    ShrIsDiv(i, y);
    var q := i / p;
    ShlIsMul(q, y);
    ShlIsMul(x, k);
    DivMod(i, p);
    MulMono(32768, q, p);
    MulMono(x, 65535, Pow2(k));
  }

  /** The smallest exponent that fits. */
  function FirstFit(i: nat, y: nat): (z: nat)
    requires Fits(i, y)
    ensures z <= y && Fits(i, z)
    ensures z == 0 || !Fits(i, z - 1)
  {
    if y == 0 || !Fits(i, y - 1) then y else FirstFit(i, y - 1)
  }

  /** What the loop has established before it tries exponent y. */
  ghost predicate Tried(i: nat, y: nat, minDiff: nat) {
    forall k: nat, x: int {:trigger Error(i, x, k)} | k < y && Fits(i, k) :: minDiff <= Error(i, x, k)
  }

  lemma TriedIsNearest(i: nat, m: nat, e: nat)
    requires Representable(m, e) && Fits(i, MAX_EXPONENT)
    requires Tried(i, MAX_EXPONENT + 1, Error(i, m, e))
    ensures IsNearest(i, m, e)
  {
    var f := FirstFit(i, MAX_EXPONENT);
    forall x: nat, y: nat | Representable(x, y)
      ensures Error(i, m, e) <= Error(i, x, y)
    {
      if !Fits(i, y) {
        if f <= y {
          FitsMono(i, f, y);
        }
        SmallExponentLoses(i, y, f, x);
        assert Error(i, m, e) <= Error(i, Shr(i, f), f);
      }
    }
  }

  /** Having tried both neighbours of i at exponent y is having tried every mantissa there. */
  lemma TriedAt(i: nat, y: nat, q: nat, after: nat)
    requires q == Shr(i, y)
    requires after <= Error(i, q, y) && after <= Error(i, q + 1, y)
    ensures forall x: int :: after <= Error(i, x, y)
  {
    forall x: int
      ensures after <= Error(i, x, y)
    {
      NeighboursAreNearest(i, y, q, x);
    }
  }

  lemma TryStep(i: nat, y: nat, before: nat, after: nat)
    requires Tried(i, y, before) && after <= before
    requires Fits(i, y) ==> forall x: int :: after <= Error(i, x, y)
    ensures Tried(i, y + 1, after)
  {
  }

  lemma SmallPower(y: nat)
    requires y <= MAX_EXPONENT
    ensures Pow2(y) <= 0x8000_0000
  {
    Pow2Mono(y, 31);
    Pow2Values();
  }

  /** (65536, y - 1) and (32768, y) denote the same interval, and y is tried next. */
  lemma HalvesOverflow(i: nat, y: nat)
    requires y > 0 && Shr(i, y - 1) == 65535
    ensures Shr(i, y) == 32767
    ensures Error(i, 32768, y) == Error(i, 65536, y - 1)
  {
    var h := Pow2(y - 1);
    ShrIsDiv(i, y - 1);
    ShrIsDiv(i, y);
    ShlIsMul(65536, y - 1);
    ShlIsMul(32768, y);
    DivMod(i, h);
    DivBounds(i, 2 * h, 32767);
  }

  /** At the limit only exponent 31 fits, and there the upper neighbour is 65536. */
  lemma LimitStep(i: nat)
    requires LIMIT <= i && Fits(i, 31)
    ensures !Fits(i, 30)
    ensures Shr(i, 31) == 65535 && Error(i, 65536, 31) <= Error(i, 65535, 31)
  {
    Pow2Values();
    FitsIff(i, 30);
    FitsIff(i, 31);
    ShrIsDiv(i, 31);
    ShlIsMul(65535, 31);
    ShlIsMul(65536, 31);
  }

  /** The running best: whether a pair was taken, the pair, and its error. */
  datatype Best = Best(found: bool, x: nat, y: nat, diff: nat)

  /** Take (x, y) when it is better than, or on a tie permitted to replace, the best so far. */
  function Offer(b: Best, i: nat, x: nat, y: nat, ties: bool): Best {
    var d := Error(i, x, y);
    if d < b.diff || (ties && d == b.diff) then Best(true, x, y, d) else b
  }

  function OfferBoth(b: Best, i: nat, y: nat): Best {
    if Fits(i, y) then
      Offer(Offer(b, i, Shr(i, y), y, false), i, Shr(i, y) + 1, y, true)
    else
      b
  }

  ghost predicate Running(i: nat, y: nat, b: Best) {
    && b.y <= MAX_EXPONENT && b.x <= 65536
    && (b.found <==> y > 0 && Fits(i, y - 1))
    && Tried(i, y, b.diff)
    && (b.found ==> b.diff == Error(i, b.x, b.y))
    && (b.found && b.x == 65536 ==> b.y == y - 1 && Shr(i, b.y) == 65535)
    && (!b.found ==> b == Best(false, 0, 0, U64 - 1))
    && (y == 32 && b.found && i >= LIMIT ==> b.x == 65536 && b.y == 31)
  }

  lemma OfferBothTried(i: nat, y: nat, b: Best)
    requires Tried(i, y, b.diff)
    ensures Tried(i, y + 1, OfferBoth(b, i, y).diff)
  {
    var after := OfferBoth(b, i, y).diff;
    if Fits(i, y) {
      TriedAt(i, y, Shr(i, y), after);
    }
    TryStep(i, y, b.diff, after);
  }

  lemma OfferBothOverflow(i: nat, y: nat, b: Best)
    requires Running(i, y, b) && y <= MAX_EXPONENT && Fits(i, y)
    ensures var c := OfferBoth(b, i, y); c.x == 65536 ==> c.y == y && Shr(i, y) == 65535
  {
    if b.found && b.x == 65536 {
      HalvesOverflow(i, y);
    }
  }

  lemma OfferBothLimit(i: nat, b: Best)
    requires Running(i, 31, b) && i >= LIMIT && Fits(i, 31)
    ensures OfferBoth(b, i, 31).x == 65536 && OfferBoth(b, i, 31).y == 31
  {
    LimitStep(i);
    NeighboursAreNearest(i, 31, 65535, 0);
    SmallPower(31);
  }

  lemma OfferBothKeepsRunning(i: nat, y: nat, b: Best)
    requires Running(i, y, b) && y <= MAX_EXPONENT
    ensures Running(i, y + 1, OfferBoth(b, i, y))
  {
    var c := OfferBoth(b, i, y);
    OfferBothTried(i, y, b);
    if b.found {
      FitsMono(i, y - 1, y);
    }
    if Fits(i, y) {
      NeighboursAreNearest(i, y, Shr(i, y), 0);
      SmallPower(y);
      OfferBothOverflow(i, y, b);
      if y == 31 && i >= LIMIT {
        OfferBothLimit(i, b);
      }
    }
  }

  lemma RunningToResult(i: nat, b: Best)
    requires Running(i, 32, b)
    ensures b.found <==> i < 65536 * 0x8000_0000
    ensures b.found && i < LIMIT ==> IsNearest(i, b.x, b.y)
  {
    Pow2Values();
    FitsIff(i, 31);
    if b.found && i < LIMIT {
      assert b.diff <= Error(i, 65535, 31);
      ShlIsMul(65535, 31);
      ShlIsMul(65536, 31);
      TriedIsNearest(i, b.x, b.y);
    }
  }

  // ---- which of the nearest pairs ---------------------------------------------------------

  lemma {:induction false} ShlTwice(x: int, a: nat, b: nat)
    ensures Shl(x, a + b) == Shl(Shl(x, a), b)
    decreases a
  {
    if a > 0 {
      ShlTwice(2 * x, a - 1, b);
    }
  }

  lemma {:induction false} ShrStep(i: nat, y: nat)
    ensures Shr(i, y + 1) == Shr(i, y) / 2
  {
    if y > 0 {
      ShrStep(i / 2, y - 1);
    }
  }

  lemma FirstFitIs(i: nat, z: nat)
    requires z <= MAX_EXPONENT && Fits(i, z) && (z == 0 || !Fits(i, z - 1)) && Fits(i, MAX_EXPONENT)
    ensures FirstFit(i, MAX_EXPONENT) == z
  {
    var f := FirstFit(i, MAX_EXPONENT);
    if f < z {
      FitsMono(i, f, z - 1);
    } else if z < f {
      FitsMono(i, z, f - 1);
    }
  }

  /** The multiple of 2^y next above i, when it is even, is the one next above i at y + 1. */
  lemma EvenUpper(i: nat, y: nat)
    requires Shr(i, y) % 2 == 1
    ensures Error(i, Shr(i, y + 1) + 1, y + 1) == Error(i, Shr(i, y) + 1, y)
  {
    ShrStep(i, y);
    ShlTwice(Shr(i, y + 1) + 1, 1, y);
    assert Shl(Shr(i, y + 1) + 1, 1) == Shr(i, y) + 1;
  }

  /** A candidate at y is a multiple at any smaller exponent, where it has been beaten already. */
  lemma NotBetter(i: nat, k: nat, y: nat, x: int, diff: nat)
    requires k < y && Fits(i, k) && Tried(i, y, diff)
    ensures diff <= Error(i, x, y)
  {
    ShlTwice(x, y - k, k);
    assert Error(i, Shl(x, y - k), k) == Error(i, x, y);
  }

  /** Every multiple above i tried so far is strictly worse. */
  ghost predicate UpperWorse(i: nat, y: nat, diff: nat) {
    forall k: nat | k < y && Fits(i, k) :: diff < Error(i, Shr(i, k) + 1, k)
  }

  /** Which candidate the running best is. */
  ghost predicate Side(i: nat, y: nat, b: Best) {
    b.found ==>
      && Fits(i, MAX_EXPONENT) && b.y < y && b.y <= MAX_EXPONENT && Fits(i, b.y)
      && ((b.x == Shr(i, b.y) && b.y == FirstFit(i, MAX_EXPONENT) && UpperWorse(i, y, b.diff))
          || (b.x == Shr(i, b.y) + 1 && (b.y == y - 1 || b.x % 2 == 1)))
  }

  /** The first exponent that fits: the nearer neighbour is taken, the upper one on a tie. */
  lemma FirstOffer(i: nat, y: nat, b: Best)
    requires Running(i, y, b) && !b.found && y <= MAX_EXPONENT && Fits(i, y)
    ensures var c, q := OfferBoth(b, i, y), Shr(i, y);
            && c.found && c.y == y && (c.x == q || c.x == q + 1)
            && (c.x == q ==> c.diff < Error(i, q + 1, y))
  {
    NeighboursAreNearest(i, y, Shr(i, y), 0);
    SmallPower(y);
  }

  lemma FirstCandidates(i: nat, y: nat, b: Best)
    requires Running(i, y, b) && !b.found && y <= MAX_EXPONENT && Fits(i, y)
    ensures Side(i, y + 1, OfferBoth(b, i, y))
  {
    FitsMono(i, y, MAX_EXPONENT);
    FirstFitIs(i, y);
    FirstOffer(i, y, b);
    var c := OfferBoth(b, i, y);
    if c.x == Shr(i, y) {
      forall k: nat | k < y + 1 && Fits(i, k)
        ensures c.diff < Error(i, Shr(i, k) + 1, k)
      {
        if k < y {
          FitsMono(i, k, y - 1);
        }
      }
    }
  }

  lemma OfferBothKeepsSide(i: nat, y: nat, b: Best)
    requires Running(i, y, b) && Side(i, y, b) && y <= MAX_EXPONENT
    ensures Side(i, y + 1, OfferBoth(b, i, y))
  {
    if b.found {
      FitsMono(i, y - 1, y);
      NotBetter(i, b.y, y, Shr(i, y), b.diff);
      NotBetter(i, b.y, y, Shr(i, y) + 1, b.diff);
      if b.x == Shr(i, b.y) + 1 && b.y == y - 1 && b.x % 2 == 0 {
        EvenUpper(i, y - 1);
      }
    } else if Fits(i, y) {
      FirstCandidates(i, y, b);
    }
  }

  /** The pair below i that the smallest exponent gives, and every pair above i is farther away. */
  ghost predicate BelowAndAlone(i: nat, m: nat, e: nat) {
    && m == Shr(i, e) && Fits(i, MAX_EXPONENT) && e == FirstFit(i, MAX_EXPONENT)
    && forall x: nat, y: nat | Representable(x, y) && Shl(x, y) > i :: Error(i, m, e) < Error(i, x, y)
  }

  /** The pair above i with the largest exponent that denotes the same interval. */
  predicate AboveAndReduced(i: nat, m: nat, e: nat) {
    Shl(m, e) > i && (m % 2 == 1 || e == MAX_EXPONENT)
  }

  /** Which nearest pair is taken: on a tie the one above i, and of its spellings the last. */
  ghost predicate Preferred(i: nat, m: nat, e: nat) {
    BelowAndAlone(i, m, e) || AboveAndReduced(i, m, e)
  }

  lemma Bracket(i: nat, y: nat)
    ensures Shl(Shr(i, y), y) <= i < Shl(Shr(i, y) + 1, y)
  {
    ShrIsDiv(i, y);
    ShlIsMul(Shr(i, y), y);
    ShlIsMul(Shr(i, y) + 1, y);
    DivMod(i, Pow2(y));
    assert (Shr(i, y) + 1) * Pow2(y) == Shr(i, y) * Pow2(y) + Pow2(y);
  }

  /** A representable value above i is no nearer than the next multiple of its power of two. */
  lemma AboveIsFar(i: nat, x: nat, y: nat)
    requires Representable(x, y) && Shl(x, y) > i
    ensures Fits(i, y) && Error(i, Shr(i, y) + 1, y) <= Error(i, x, y)
  {
    Bracket(i, y);
    ShlIsMul(x, y);
    ShlIsMul(Shr(i, y) + 1, y);
    ShlIsMul(Shr(i, y), y);
    MulMono(x, Shr(i, y), Pow2(y));
    MulMono(Shr(i, y) + 1, x, Pow2(y));
    FitsIff(i, y);
    MulMono(x, 65535, Pow2(y));
  }

  lemma SideToPreferred(i: nat, b: Best)
    requires Running(i, 32, b) && Side(i, 32, b) && b.found
    ensures Preferred(i, b.x, b.y)
  {
    Bracket(i, b.y);
    if b.x == Shr(i, b.y) {
      forall x: nat, y: nat | Representable(x, y) && Shl(x, y) > i
        ensures Error(i, b.x, b.y) < Error(i, x, y)
      {
        AboveIsFar(i, x, y);
      }
    }
  }

  /** The pair cal_twt_interval is to find. */
  ghost predicate IsChosen(i: nat, m: nat, e: nat) {
    IsNearest(i, m, e) && Preferred(i, m, e)
  }

  /** The pair is thereby fixed: no other is nearest and preferred. */
  lemma ChosenIsUnique(i: nat, m: nat, e: nat, n: nat, d: nat)
    requires IsChosen(i, m, e) && IsChosen(i, n, d)
    ensures m == n && e == d
  {
    assert Error(i, m, e) == Error(i, n, d);
    if AboveAndReduced(i, m, e) && AboveAndReduced(i, n, d) {
      if e <= d {
        SameValueReduced(m, e, n, d);
      } else {
        SameValueReduced(n, d, m, e);
      }
    } else {
      Bracket(i, e);
      Bracket(i, d);
    }
  }

  lemma SameValueReduced(m: nat, e: nat, n: nat, d: nat)
    requires Shl(m, e) == Shl(n, d) && e <= d <= MAX_EXPONENT && (m % 2 == 1 || e == MAX_EXPONENT)
    ensures m == n && e == d
  {
    ShlTwice(n, d - e, e);
    var k := Shl(n, d - e);
    ShlIsMul(m, e);
    ShlIsMul(k, e);
    MulCancels(m, k, Pow2(e));
    ShiftedIsEven(n, d - e);
  }

  lemma {:induction false} ShiftedIsEven(n: int, s: nat)
    ensures s > 0 ==> Shl(n, s) % 2 == 0
    decreases s
  {
    if s > 1 {
      ShiftedIsEven(2 * n, s - 1);
    }
  }

  lemma MulCancels(a: int, b: int, p: nat)
    requires a * p == b * p && p > 0
    ensures a == b
  {
    assert (a + 1) * p == a * p + p && (b + 1) * p == b * p + p;
    MulMono(a + 1, b, p);
    MulMono(b + 1, a, p);
  }

  /** The loop invariant of cal_twt_interval. */
  ghost predicate Looped(i: nat, y: nat, b: Best) {
    Running(i, y, b) && Side(i, y, b)
  }

  lemma LoopStarts(i: nat)
    ensures Looped(i, 0, Best(false, 0, 0, U64 - 1))
  {
  }

  lemma LoopStep(i: nat, y: nat, b: Best)
    requires Looped(i, y, b) && y <= MAX_EXPONENT
    ensures Looped(i, y + 1, OfferBoth(b, i, y))
  {
    OfferBothKeepsRunning(i, y, b);
    OfferBothKeepsSide(i, y, b);
  }

  lemma LoopResult(i: nat, b: Best)
    requires Looped(i, 32, b)
    ensures b.found <==> i < 65536 * 0x8000_0000
    ensures b.found && i < LIMIT ==> IsChosen(i, b.x, b.y)
    ensures b.found && i >= LIMIT ==> b.x == 65536 && b.y == MAX_EXPONENT
    ensures !b.found ==> b.x == 0 && b.y == 0
    ensures b.x <= 65536
  {
    RunningToResult(i, b);
    if b.found {
      SideToPreferred(i, b);
    }
  }

  /**
   * cal_twt_interval: the running best over all exponents.  The result is the preferred one
   * of the nearest representable pairs exactly below LIMIT; from LIMIT to 2^47 the 16-bit mantissa
   * silently becomes zero, and above that the request is refused.
   */
  method CalTwtInterval(i: nat) returns (ok: bool, m: nat, e: nat)
    requires i < U64
    ensures ok <==> i < 65536 * 0x8000_0000
    ensures ok && i < LIMIT ==> IsChosen(i, m, e)
    ensures ok && i >= LIMIT ==> m == 0 && e == MAX_EXPONENT
    ensures !ok ==> m == 0 && e == 0
  {
    var bestX: nat, bestY: nat, minDiff: nat := 0, 0, U64 - 1;
    ok := false;
    LoopStarts(i);
    var y := 0;
    while y <= MAX_EXPONENT
      invariant 0 <= y <= 32
      invariant Looped(i, y, Best(ok, bestX, bestY, minDiff))
    {
      ghost var before := Best(ok, bestX, bestY, minDiff);
      var x := Shr(i, y);
      if x <= MAX_MANTISSA {
        var diff := Error(i, x, y);
        if diff < minDiff {
          minDiff := diff;
          bestX := x;
          bestY := y;
          ok := true;
        }
        x := x + 1;
        diff := Error(i, x, y);
        if diff <= minDiff {
          minDiff := diff;
          bestX := x;
          bestY := y;
          ok := true;
        }
      }
      assert Best(ok, bestX, bestY, minDiff) == OfferBoth(before, i, y);
      LoopStep(i, y, before);
      y := y + 1;
    }
    m := bestX % 65536;
    e := bestY;
    LoopResult(i, Best(ok, bestX, bestY, minDiff));
  }

  /** The nearest pair is exact for 16-bit intervals and within one part in 65536 above. */
  lemma NearestErrorBound(i: nat, m: nat, e: nat)
    requires IsNearest(i, m, e) && i < LIMIT
    ensures i <= MAX_MANTISSA ==> Shl(m, e) == i
    ensures i > MAX_MANTISSA ==> 65536 * Error(i, m, e) <= i
  {
    if i <= MAX_MANTISSA {
      assert Representable(i, 0);
      assert Error(i, i, 0) == 0;
    } else {
      FitsIff(i, 31);
      Pow2Values();
      NearMultiple(i, FirstFit(i, 31), m, e);
    }
  }

  lemma NearMultiple(i: nat, f: nat, m: nat, e: nat)
    requires IsNearest(i, m, e) && MAX_MANTISSA < i < LIMIT
    requires f <= MAX_EXPONENT && Fits(i, f) && (f == 0 || !Fits(i, f - 1))
    ensures 65536 * Error(i, m, e) <= i
  {
    var q := Shr(i, f);
    FitsIff(i, 0);
    var h := Pow2(f - 1);
    FitsIff(i, f - 1);
    assert Representable(q, f);
    if Error(i, q, f) > h {
      UpperIsNear(i, f, q);
      if q + 1 <= MAX_MANTISSA {
        assert Representable(q + 1, f);
      } else if f < 31 {
        HalvesOverflow(i, f + 1);
        assert Representable(32768, f + 1);
      } else {
        Pow2Values();
        ShlIsMul(65535, 31);
        ShrIsDiv(i, 31);
      }
    }
  }

  lemma UpperIsNear(i: nat, f: nat, q: nat)
    requires f > 0 && q == Shr(i, f) && Error(i, q, f) > Pow2(f - 1)
    ensures Error(i, q + 1, f) <= Pow2(f - 1)
  {
    var p := Pow2(f);
    ShrIsDiv(i, f);
    ShlIsMul(q, f);
    ShlIsMul(q + 1, f);
    DivMod(i, p);
    assert (q + 1) * p == q * p + p;
  }

  datatype Params = Params(sp: nat, num: nat, interval: nat) | Unsuitable | DivideByZero

  /**
   * twt_param_check: the value that is zero is derived from the other two, in the
   * source's 64- and 32-bit arithmetic.
   */
  function TwtParamCheck(sp: nat, num: nat, interval: nat, group: nat): Params
    requires group > 0
  {
    if sp != 0 && num != 0 && interval == 0 then
      Params(sp, num, sp * (num / group) % U64)
    else if sp != 0 && num == 0 && interval != 0 then
      Params(sp, interval / sp * group % U64 % U32, interval)
    else if sp == 0 && num != 0 && interval != 0 then
      if num / group == 0 then DivideByZero else Params(interval / (num / group), num, interval)
    else
      Unsuitable
  }

  /**
   * The slots fit the interval in every case but one: a 64-bit overflow of the product
   * when the interval is the derived value.
   */
  lemma SlotsFitInterval(sp: nat, num: nat, interval: nat, group: nat)
    requires group > 0
    ensures var p := TwtParamCheck(sp, num, interval, group);
            p.Params? ==> (p.num / group * p.sp <= p.interval <==> interval != 0 || sp * (num / group) < U64)
  {
    if interval == 0 {
      Commute(num / group, sp);
      OverflowLoses(sp * (num / group));
    } else if sp != 0 && num == 0 {
      TruncationShrinks(interval / sp * group);
      CountCaseFits(interval, sp, group, interval / sp * group % U64 % U32);
    } else if sp == 0 && num / group != 0 {
      QuotientFits(interval, num / group, interval / (num / group));
      Commute(num / group, interval / (num / group));
    }
  }

  lemma Commute(a: int, b: int)
    ensures a * b == b * a
  {
  }

  /** c stands for the derived count after its truncation to 32 bits. */
  lemma CountCaseFits(interval: nat, sp: nat, group: nat, c: nat)
    requires sp > 0 && group > 0
    requires c <= interval / sp * group
    ensures c / group * sp <= interval
  {
    DerivedCount(interval / sp, group, c);
    QuotientFits(interval, sp, c / group);
  }

  lemma TruncationShrinks(a: nat)
    ensures a % U64 % U32 <= a
  {
  }

  lemma OverflowLoses(a: nat)
    ensures a <= a % U64 <==> a < U64
  {
  }

  lemma DerivedCount(q: nat, group: nat, c: nat)
    requires group > 0 && c <= q * group
    ensures c / group <= q
  {
    assert (q + 1) * group == q * group + group;
    DivBelow(c, group, q + 1);
  }

  lemma QuotientFits(a: nat, b: nat, q: nat)
    requires b > 0 && q <= a / b
    ensures q * b <= a
  {
    DivMod(a, b);
    MulMono(q, a / b, b);
  }

  /** A derived interval is the shortest for its slots, unless it overflowed. */
  lemma DerivedIntervalIsTight(sp: nat, num: nat, group: nat)
    requires group > 0 && sp != 0 && num != 0
    ensures sp * (num / group) < U64 ==> TwtParamCheck(sp, num, 0, group) == Params(sp, num, num / group * sp)
  {
    Commute(num / group, sp);
  }

  /** A derived count is in whole groups, and not one group more would fit, up to 32 bits. */
  lemma DerivedCountIsTight(sp: nat, interval: nat, group: nat)
    requires group > 0 && sp != 0 && interval != 0
    ensures var p := TwtParamCheck(sp, 0, interval, group);
      && p.Params? && p.sp == sp && p.interval == interval
      && (interval / sp * group < U32 ==>
            p.num % group == 0 && p.num / group * sp <= interval < (p.num / group + 1) * sp)
  {
    if interval / sp * group < U32 {
      WholeGroups(interval, sp, group, interval / sp);
    }
  }

  /** A derived service period is the longest that lets the slots fit. */
  lemma DerivedPeriodIsTight(num: nat, interval: nat, group: nat)
    requires group > 0 && num != 0 && interval != 0
    ensures var p := TwtParamCheck(0, num, interval, group);
      if num / group == 0 then p == DivideByZero
      else
        && p.Params? && p.num == num && p.interval == interval
        && num / group * p.sp <= interval < num / group * (p.sp + 1)
  {
    if num / group != 0 {
      var q := interval / (num / group);
      NextMultiple(interval, num / group);
      QuotientFits(interval, num / group, q);
      Commute(num / group, q);
      Commute(num / group, q + 1);
    }
  }

  /** TWT stays off unless exactly two of the three parameters are given. */
  lemma UnsuitableIff(sp: nat, num: nat, interval: nat, group: nat)
    requires group > 0
    ensures TwtParamCheck(sp, num, interval, group) == Unsuitable <==>
            (if sp == 0 then 0 else 1) + (if num == 0 then 0 else 1) + (if interval == 0 then 0 else 1) != 2
  {
  }

  /** A product of 2^64 is lost altogether, and so is what a count has above 32 bits. */
  lemma DerivedValuesWrap()
    ensures TwtParamCheck(0x2_0000_0000, 0x8000_0000, 0, 1) == Params(0x2_0000_0000, 0x8000_0000, 0)
    ensures TwtParamCheck(1, 0, 0x1_0000_0005, 1) == Params(1, 5, 0x1_0000_0005)
  {
    assert 0x1_0000_0005 % 0x1_0000_0000 == 5;
  }

  lemma NextMultiple(a: nat, b: nat)
    requires b > 0
    ensures a < (a / b + 1) * b
  {
    DivMod(a, b);
    assert (a / b + 1) * b == a / b * b + b;
  }

  lemma WholeGroups(interval: nat, sp: nat, group: nat, q: nat)
    requires sp > 0 && group > 0 && q == interval / sp
    ensures q * group % group == 0 && q * group / group == q && q * sp <= interval < (q + 1) * sp
  {
    DivBounds(q * group, group, q);
    NextMultiple(interval, sp);
    QuotientFits(interval, sp, q);
  }

  datatype Algo = Balanced | Fcfs

  /** The fields nrc_twt_sched_init leaves fixed. */
  datatype Config = Config(interval: nat, sp: nat, num: nat, mantissa: nat, exponent: nat,
                           maxInGroup: nat, algo: Algo)
  {
    function Slots(): nat
      requires maxInGroup > 0
    {
      num / maxInGroup
    }

    /** Some setup divides by zero, or writes past a table without slots. */
    predicate Faulty()
      requires maxInGroup > 0
    {
      interval == 0 || (Slots() == 0 && algo == Balanced && maxInGroup >= 2)
    }

    predicate Valid() {
      && maxInGroup > 0 && !Faulty()
      && interval == Shl(mantissa, exponent) && Representable(mantissa, exponent)
    }
  }

  datatype Init = Ready(config: Config) | Disabled | Fault

  /** What nrc_twt_sched_init makes of checked parameters. */
  ghost predicate InitResult(p: Params, group: nat, algo: nat, r: Init) {
    match p
    case DivideByZero => r == Fault
    case Unsuitable => r == Disabled
    case Params(sp, num, interval) =>
      if algo >= 2 || interval >= 65536 * 0x8000_0000 then r == Disabled
      else
        && r.Ready?
        && var c := r.config;
        && c.sp == sp && c.num == num && c.maxInGroup == group && c.algo == (if algo == 0 then Balanced else Fcfs)
        && c.interval == Shl(c.mantissa, c.exponent) && Representable(c.mantissa, c.exponent)
        && if interval < LIMIT then IsChosen(interval, c.mantissa, c.exponent)
           else c.interval == 0
  }

  function Made(sp: nat, num: nat, group: nat, algo: nat, m: nat, e: nat): Config {
    ShlNonNeg(m, e);
    Config(Shl(m, e), sp, num, m, e, group, if algo == 0 then Balanced else Fcfs)
  }

  lemma MakesReady(sp: nat, num: nat, interval: nat, group: nat, algo: nat, m: nat, e: nat)
    requires algo < 2 && interval < 65536 * 0x8000_0000
    requires if interval < LIMIT then IsChosen(interval, m, e) else m == 0 && e == MAX_EXPONENT
    ensures InitResult(Params(sp, num, interval), group, algo, Ready(Made(sp, num, group, algo, m, e)))
  {
    ShlIsMul(m, e);
  }

  method FinishInit(p: Params, group: nat, algo: nat) returns (r: Init)
    requires p.Params? ==> p.interval < U64
    ensures InitResult(p, group, algo, r)
  {
    match p {
      case Unsuitable => return Disabled;
      case DivideByZero => return Fault;
      case Params(sp, num, interval) =>
        var ok, m, e := CalTwtInterval(interval);
        if !ok || algo >= 2 {
          return Disabled;
        }
        MakesReady(sp, num, interval, group, algo, m, e);
        return Ready(Made(sp, num, group, algo, m, e));
    }
  }

  lemma ParamsAreU64(sp: nat, num: nat, interval: nat, group: nat)
    requires group > 0 && interval < U64
    ensures var p := TwtParamCheck(sp, num, interval, group); p.Params? ==> p.interval < U64
  {
  }

  /**
   * The arithmetic of nrc_twt_sched_init; `algo` is the module parameter (0 Balanced,
   * 1 FCFS).
   */
  method TwtSchedInit(sp: nat, num: nat, interval: nat, group: nat, algo: nat) returns (r: Init)
    requires group > 0 && sp < U64 && num < U32 && interval < U64
    ensures InitResult(TwtParamCheck(sp, num, interval, group), group, algo, r)
  {
    var p := TwtParamCheck(sp, num, interval, group);
    ParamsAreU64(sp, num, interval, group);
    r := FinishInit(p, group, algo);
  }

  /**
   * The slots laid out from the requested interval exceed the interval the AP then works
   * with by no more than the quantisation error: not at all for 16-bit intervals, and by
   * at most one part in 65536 of the requested interval otherwise.
   */
  lemma SlotsOverrun(sp: nat, num: nat, interval: nat, group: nat, m: nat, e: nat)
    requires group > 0 && TwtParamCheck(sp, num, interval, group).Params?
    requires interval != 0 || sp * (num / group) < U64
    requires var p := TwtParamCheck(sp, num, interval, group); p.interval < LIMIT && IsNearest(p.interval, m, e)
    ensures var p := TwtParamCheck(sp, num, interval, group);
            var overrun := p.num / group * p.sp - Shl(m, e);
            if p.interval <= MAX_MANTISSA then overrun <= 0 else 65536 * overrun <= p.interval
  {
    var p := TwtParamCheck(sp, num, interval, group);
    SlotsFitInterval(sp, num, interval, group);
    NearestErrorBound(p.interval, m, e);
  }

  /**
   * A scheduler that came up is safe from faults exactly when its interval was above zero
   * and below LIMIT, and it has a slot or an algorithm that does not need one: FCFS, or
   * Balanced with groups of one.
   */
  lemma ReadyIsSafeIff(p: Params, group: nat, algo: nat, c: Config)
    requires group > 0 && p.Params? && InitResult(p, group, algo, Ready(c))
    ensures c.Valid() <==> 0 < p.interval < LIMIT && (p.num / group > 0 || algo != 0 || group == 1)
  {
    if p.interval < LIMIT {
      if p.interval > 0 {
        OneIsNearerThanZero(p.interval, c.mantissa, c.exponent);
      } else {
        NearestErrorBound(0, c.mantissa, c.exponent);
      }
    }
  }

  /** When start-up succeeds, and what it takes over: algorithm 0 is Balanced and 1 is FCFS. */
  lemma ComesUpIff(p: Params, group: nat, algo: nat, r: Init)
    requires InitResult(p, group, algo, r)
    ensures r.Ready? <==> p.Params? && algo <= 1 && p.interval < 0x8000_0000_0000
    ensures r.Fault? <==> p.DivideByZero?
    ensures r.Ready? ==>
      && r.config.sp == p.sp && r.config.num == p.num && r.config.maxInGroup == group
      && (r.config.algo == Balanced <==> algo == 0) && (r.config.algo == Fcfs <==> algo == 1)
  {
  }

  lemma OneIsNearerThanZero(i: nat, m: nat, e: nat)
    requires i > 0 && IsNearest(i, m, e)
    ensures Shl(m, e) > 0
  {
    assert Representable(1, 0) && Error(i, 1, 0) < i;
    ShlNonNeg(m, e);
  }

  /** For 16-bit intervals the slots of the scheduler fit the interval it works with. */
  lemma ShortIntervalsFit(sp: nat, num: nat, interval: nat, group: nat, algo: nat, c: Config)
    requires group > 0 && InitResult(TwtParamCheck(sp, num, interval, group), group, algo, Ready(c))
    requires TwtParamCheck(sp, num, interval, group).Params?
    requires TwtParamCheck(sp, num, interval, group).interval <= MAX_MANTISSA
    requires interval != 0 || sp * (num / group) < U64
    ensures c.Slots() * c.sp <= c.interval
  {
    SlotsOverrun(sp, num, interval, group, c.mantissa, c.exponent);
  }
}
