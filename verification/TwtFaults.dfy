/**
 Configurations whose setups fault (nrc-twt-sched.c): a division by a zero interval, or the
 Balanced fallback writing into a table without slots.
 */
module TwtFaults {
  import opened Arith
  import opened TwtInterval
  import opened TwtNegotiation
  import opened TwtRuns
  import opened TwtScheduler

  /** What nrc_twt_sched_init can bring up. */
  predicate BroughtUp(c: Config) {
    c.maxInGroup > 0 && c.interval == Shl(c.mantissa, c.exponent) && Representable(c.mantissa, c.exponent)
  }

  /** Just started, with one associated station that has no agreement. */
  function FirstState(c: Config, tsf: nat, time: nat, sta: nat): State
    requires c.maxInGroup > 0
  {
    State(true, tsf, 0, time, EmptyTable(c.Slots()), map[sta := Station(false, NO_FLOW)], 0)
  }

  /** A request for exactly the base interval. */
  function BaseRequest(c: Config): SetupFrame
    requires Representable(c.mantissa, c.exponent)
  {
    SetupFrame(true, Request, 0, c.exponent, c.mantissa, 0, 0)
  }

  lemma BaseRequestFaults(c: Config, tsf: nat, time: nat, sta: nat)
    requires BroughtUp(c) && c.Faulty()
    ensures AddTwtSetup(c, FirstState(c, tsf, time, sta), sta, BaseRequest(c), 0, 0, true).Crash?
  {
    var f := BaseRequest(c);
    if c.interval != 0 {
      assert c.interval * 1 == c.interval;
      GradeOfMultiple(c.interval, 1, 0);
      assert !GradeRequest(c.interval, f.Interval(), BssMaxIdle(0)).dictate;
    }
  }

  /** Some setup in the first state faults. */
  ghost predicate SomeSetupFaults(c: Config, tsf: nat, time: nat, sta: nat)
    requires c.maxInGroup > 0
  {
    exists f: SetupFrame, idle: nat, now: nat, gotNode: bool ::
      f.Valid() && AddTwtSetup(c, FirstState(c, tsf, time, sta), sta, f, idle, now, gotNode).Crash?
  }

  /**
   * Some setup faults if and only if the interval is zero, or there is no slot and the
   * algorithm is Balanced with groups of two or more.
   */
  lemma SomeSetupFaultsIff(c: Config, tsf: nat, time: nat, sta: nat)
    requires BroughtUp(c)
    ensures SomeSetupFaults(c, tsf, time, sta) <==>
            c.interval == 0 || (c.Slots() == 0 && c.algo == Balanced && c.maxInGroup >= 2)
  {
    if c.Faulty() {
      BaseRequestFaults(c, tsf, time, sta);
      assert BaseRequest(c).Valid();
    }
  }

  /** In a configuration without these faults no setup faults in any state of any run. */
  lemma NoSetupFaultsInRuns(c: Config, events: seq<Event>, sta: nat, f: SetupFrame, idle: nat, now: nat, gotNode: bool)
    requires BroughtUp(c) && !SomeSetupFaults(c, 0, 0, 0)
    ensures c.Valid()
    ensures var s := Reached(c, events);
            sta in s.stations ==> AddTwtSetup(c, s, sta, f, idle, now, gotNode).Response?
  {
    SomeSetupFaultsIff(c, 0, 0, 0);
  }

  lemma TinyInterval(group: nat)
    requires group > 0
    ensures TwtParamCheck(10, 0, 5, group) == Params(10, 0, 5)
  {
    assert 5 / 10 == 0 && 0 * group == 0;
  }

  /** A service period longer than the interval leaves no slot; that faults unless groups are single or with FCFS. */
  lemma WithoutSlots(group: nat, algo: nat, c: Config)
    requires group > 0 && InitResult(TwtParamCheck(10, 0, 5, group), group, algo, Ready(c))
    ensures BroughtUp(c) && c.Slots() == 0
    ensures c.Faulty() <==> algo == 0 && group >= 2
  {
    TinyInterval(group);
    ReadyIsSafeIff(Params(10, 0, 5), group, algo, c);
    assert c.num == 0 && 0 / group == 0;
  }
}
