/**
 Runs in which the access point answers in a way its conditions warn of: each of them starts
 with the scheduler, lets one station associate, and looks at the answers it gets.
 */
module TwtWitness {
  import opened Arith
  import opened TwtFaults
  import opened TwtInterval
  import opened TwtNegotiation
  import opened TwtRuns
  import opened TwtScheduler

  const OPENING := [Start(0, 1, 0), Join(0)]

  lemma FirstStateIsReached(c: Config)
    requires c.Valid()
    ensures Reached(c, OPENING) == FirstState(c, 1, 0, 0)
    ensures Exchange(c, FirstState(c, 1, 0, 0), 0, BaseRequest(c))
  {
    var s0 := InitState(c);
    var s1 := Step(c, s0, Start(0, 1, 0));
    assert OPENING[1..] == [Join(0)] && [Join(0)][1..] == [];
    assert Run(c, s1, [Join(0)]) == Run(c, Step(c, s1, Join(0)), []);
  }

  lemma FirstSlotIsFree(c: Config)
    requires c.Valid() && c.Slots() > 0
    ensures Choose(c, FirstState(c, 1, 0, 0).table).0.Some?
  {
    FirstStateIsReached(c);
    AllocationFailsIffFull(c, FirstState(c, 1, 0, 0));
    assert FirstState(c, 1, 0, 0).table.slots[0].subNum == 0;
  }

  // ---- an interval of zero --------------------------------------------------------------------

  /** A request for interval zero, accepted at the base interval. */
  lemma ZeroIntervalIsAccepted(c: Config)
    requires c.Valid() && c.Slots() > 0
    ensures var r := AddTwtSetup(c, Reached(c, OPENING), 0, SetupFrame(true, Request, 0, 0, 0, 0, 0), 0, 0, true);
      r.frame.cmd == Accept && r.state.stations[0].flow.Interval() == c.interval > 0
  {
    FirstStateIsReached(c);
    FirstSlotIsFree(c);
    var f := SetupFrame(true, Request, 0, 0, 0, 0, 0);
    assert f.Interval() == 0 && GradeRequest(c.interval, 0, 0) == Grade(false, 0);
    AnswerMeaning(c, FirstState(c, 1, 0, 0), 0, f, 0, 0, true);
  }

  // ---- another spelling -----------------------------------------------------------------------

  /** Half the mantissa with one more in the exponent: accepted once, and rejected when repeated. */
  lemma OtherSpellingIsRejectedAgain(c: Config)
    requires c.Valid() && c.Slots() > 0 && c.mantissa % 2 == 0 && c.exponent < MAX_EXPONENT
    ensures var f := SetupFrame(true, Request, 0, c.exponent + 1, c.mantissa / 2, 0, 0);
      var r := AddTwtSetup(c, Reached(c, OPENING), 0, f, 0, 0, true);
      && r.frame.cmd == Accept && 0 in r.state.stations
      && AddTwtSetup(c, r.state, 0, f, 0, 0, true).frame.cmd == Reject
  {
    FirstStateIsReached(c);
    FirstSlotIsFree(c);
    var s, f := FirstState(c, 1, 0, 0), SetupFrame(true, Request, 0, c.exponent + 1, c.mantissa / 2, 0, 0);
    assert f.Interval() == Shl(2 * (c.mantissa / 2), c.exponent) == c.interval;
    assert c.interval * 1 == c.interval;
    GradeOfMultiple(c.interval, 1, 0);
    AnswerMeaning(c, s, 0, f, 0, 0, true);
    MantissaPositive(c.mantissa, c.exponent);
    RepeatAcceptedIff(c, s, 0, f, 0, 0, 0, true);
  }

  // ---- a reservation without a node --------------------------------------------------------------

  /** One failed allocation, and the counts disagree from then on. */
  lemma FailedNodeLeaks(c: Config)
    requires c.Valid() && c.Slots() > 0
    ensures var s := Reached(c, OPENING);
      && LeaksAt(c, s, Setup(0, BaseRequest(c), 0, 0, false))
      && Step(c, s, Setup(0, BaseRequest(c), 0, 0, false)).leaked == 1
  {
    FirstStateIsReached(c);
    FirstSlotIsFree(c);
    assert c.interval * 1 == c.interval;
    GradeOfMultiple(c.interval, 1, 0);
    StepLeaks(c, FirstState(c, 1, 0, 0), Setup(0, BaseRequest(c), 0, 0, false));
  }

  // ---- an exponent that does not fit ---------------------------------------------------------------

  lemma {:induction false} OddIsNotShifted(x: nat, y: nat)
    requires y > 0
    ensures Shl(x, y) % 2 == 0
  {
    ShiftedIsEven(x, y);
  }

  lemma OddIntervalIsMissed(i: nat, x: int, y: nat)
    requires i % 2 == 1 && Representable(x, y) && (y > 0 || i > 65535)
    ensures Error(i, x, y) >= 1
  {
    if y > 0 {
      OddIsNotShifted(x, y);
    }
  }

  /** An interval of 2^32 - 1 microseconds is rounded up and gets the largest exponent. */
  lemma RoundedUp(m: nat, e: nat)
    requires IsChosen(4294967295, m, e)
    ensures m == 2 && e == 31
  {
    var i := 4294967295;
    ShlIsMul(2, 31);
    Pow2Values();
    assert Error(i, 2, 31) == 1;
    forall x: nat, y: nat | Representable(x, y)
      ensures Error(i, 2, 31) <= Error(i, x, y)
    {
      OddIntervalIsMissed(i, x, y);
    }
    assert IsNearest(i, 2, 31) && AboveAndReduced(i, 2, 31);
    ChosenIsUnique(i, m, e, 2, 31);
  }

  lemma TwoToTheSeventeen()
    ensures Shl(1, 17) == 131072 && Shl(65535, 1) == 131070
  {
    ShlIsMul(1, 17);
    assert Pow2(4) == 16;
    Pow2Add(4, 4);
    Pow2Add(8, 8);
    Pow2Add(16, 1);
    assert Shl(65535, 1) == Shl(131070, 0);
  }

  /** An interval of 2^17 - 1 is as far from 2^17 - 2 as from 2^17, and the one above is taken. */
  lemma TieGoesUp(m: nat, e: nat)
    requires IsChosen(131071, m, e)
    ensures m == 1 && e == 17
    ensures Representable(65535, 1) && Error(131071, 65535, 1) == Error(131071, 1, 17) == 1
  {
    TwoToTheSeventeen();
    forall x: nat, y: nat | Representable(x, y)
      ensures Error(131071, 1, 17) <= Error(131071, x, y)
    {
      OddIntervalIsMissed(131071, x, y);
    }
    assert IsNearest(131071, 1, 17) && AboveAndReduced(131071, 1, 17);
    ChosenIsUnique(131071, m, e, 1, 17);
  }

  lemma FiveHalves(base: nat)
    requires base == 4294967296
    ensures GradeRequest(base, 5 * 2147483648, 0) == Grade(true, 2)
  {
  }

  /**
   * An access point with that interval: a request for 5 * 2^31 microseconds is dictated the
   * mantissa 2 and the exponent 0, which is 2 microseconds, and whoever asks for that is
   * dictated the same again.
   */
  lemma WrappedExponentIsDictated(algo: nat, c: Config)
    requires InitResult(TwtParamCheck(0, 1, 4294967295, 1), 1, algo, Ready(c))
    ensures c.Valid() && c.mantissa == 2 && c.exponent == 31
    ensures var s, f := Reached(c, OPENING), SetupFrame(true, Request, 0, 31, 5, 0, 0);
      var r := AddTwtSetup(c, s, 0, f, 0, 0, true);
      && r.frame.cmd == Dictate && r.frame.mantissa == 2 && r.frame.exp == 0 && r.frame.Interval() == 2
      && 0 in r.state.stations
      && AddTwtSetup(c, r.state, 0, Resubmission(f, r.frame), 0, 0, true).frame.cmd == Dictate
  {
    var p := Params(4294967295, 1, 4294967295);
    assert TwtParamCheck(0, 1, 4294967295, 1) == p;
    ReadyIsSafeIff(p, 1, algo, c);
    RoundedUp(c.mantissa, c.exponent);
    FirstStateIsReached(c);
    DictatedWrapped(c, FirstState(c, 1, 0, 0));
  }

  lemma DictatedWrapped(c: Config, s: State)
    requires c.Valid() && c.mantissa == 2 && c.exponent == 31 && Exchange(c, s, 0, BaseRequest(c))
    ensures var f := SetupFrame(true, Request, 0, 31, 5, 0, 0);
      var r := AddTwtSetup(c, s, 0, f, 0, 0, true);
      && r.frame.cmd == Dictate && r.frame.mantissa == 2 && r.frame.exp == 0 && r.frame.Interval() == 2
      && 0 in r.state.stations
      && AddTwtSetup(c, r.state, 0, Resubmission(f, r.frame), 0, 0, true).frame.cmd == Dictate
  {
    var f := SetupFrame(true, Request, 0, 31, 5, 0, 0);
    ShlIsMul(2, 31);
    ShlIsMul(5, 31);
    Pow2Values();
    FiveHalves(c.interval);
    AnswerMeaning(c, s, 0, f, 0, 0, true);
    var r := AddTwtSetup(c, s, 0, f, 0, 0, true);
    DictatedCanAskAgain(c, s, 0, f, 0, 0, true);
    ResubmissionSettles(c, s, r.state, 0, f, 0, 0, 0, true, true);
  }
}
