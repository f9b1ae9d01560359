/**
 When service windows of two accepted flows meet (nrc-twt-sched.c): exactly when the slots do
 not fit the interval, which the quantisation of the interval can bring about.
 */
module TwtOverlap {
  import opened Arith
  import opened TwtFill
  import opened TwtInterval
  import opened TwtReach
  import opened TwtRuns
  import opened TwtScheduler
  import opened TwtWindows

  /** A run that leaves an agreed station in slot 0 and one in slot j. */
  lemma BothFilled(c: Config, j: nat) returns (s: State, n: nat)
    requires c.Valid() && j < c.Slots()
    ensures Filling(c, s, n) && j < |s.table.slots| && s.table.slots[0].flows != [] && s.table.slots[j].flows != []
  {
    s := StartFilling(c);
    s, n := FillSlot(c, s, 0, 0, 1);
    s, n := FillSlot(c, s, n, j, 1);
    CountsAreLists(c, s);
  }

  // ---- windows that meet ------------------------------------------------------------------------

  /** Slots that do not fit: some slot meets the next repetition of slot 0, every time. */
  lemma MeetsNextZero(start: nat, interval: nat, sp: nat, slots: nat, n: nat) returns (b: nat)
    requires interval > 0 && sp > 0 && slots >= 2 && slots * sp > interval
    ensures 0 < b < slots
    ensures Overlap(SlotTime(start, interval, sp, b, n), SlotTime(start, interval, sp, 0, n + 1), sp)
    ensures b == if interval < sp then 1 else interval / sp
  {
    DivBelow(interval, sp, slots);
    DivBelow(interval, sp, 1);
    DivMod(interval, sp);
    b := if interval < sp then 1 else interval / sp;
    assert interval * (n + 1) == interval * n + interval;
  }

  /** The k-th window of a flow of the base interval that first wakes in repetition x. */
  lemma BaseWindow(c: Config, s: State, sta: nat, i: nat, k: nat) returns (x: nat)
    requires Inv(c, s) && AllBase(c, s) && Agreed(s, sta, i)
    ensures forall n: nat :: n >= x ==>
              WindowStart(s.stations[sta].flow, n - x) == SlotTime(s.startTsf, c.interval, c.sp, i, n)
  {
    var f := s.stations[sta].flow;
    assert FlowOk(c, s, f);
    x :| f.twt == SlotTime(s.startTsf, c.interval, c.sp, i, x);
    forall n: nat | n >= x
      ensures WindowStart(f, n - x) == SlotTime(s.startTsf, c.interval, c.sp, i, n)
    {
      assert c.interval * n == c.interval * x + c.interval * (n - x);
    }
  }

  /** Two stations in different slots whose windows n and k share an instant. */
  predicate Meet(c: Config, s: State, a: nat, b: nat, n: nat, k: nat) {
    && a in s.stations && s.stations[a].agreed && b in s.stations && s.stations[b].agreed
    && s.stations[a].flow.entry != s.stations[b].flow.entry
    && Overlap(WindowStart(s.stations[a].flow, n), WindowStart(s.stations[b].flow, k), c.sp)
  }

  ghost predicate MeetIn(c: Config, events: seq<Event>, a: nat, b: nat, n: nat, k: nat)
    requires c.Valid()
  {
    Meet(c, Reached(c, events), a, b, n, k)
  }

  lemma SomeMeet(c: Config) returns (events: seq<Event>, a: nat, b: nat, n: nat, k: nat)
    requires c.Valid() && c.Slots() >= 2 && c.sp > 0 && c.Slots() * c.sp > c.interval
    ensures MeetIn(c, events, a, b, n, k)
  {
    var j := MeetsNextZero(0, c.interval, c.sp, c.Slots(), 0);
    var s, count := BothFilled(c, j);
    ReachableIsInv(c, s);
    a, b := s.table.slots[j].flows[0].sta, s.table.slots[0].flows[0].sta;
    assert InSlot(s.table.slots[j], a) && InSlot(s.table.slots[0], b);
    assert Agreed(s, a, j) && Agreed(s, b, 0);
    var x := BaseWindow(c, s, a, j, 0);
    var y := BaseWindow(c, s, b, 0, 0);
    var j' := MeetsNextZero(s.startTsf, c.interval, c.sp, c.Slots(), x + y);
    n, k := y, x + 1;
    assert WindowStart(s.stations[a].flow, (x + y) - x) == SlotTime(s.startTsf, c.interval, c.sp, j, x + y);
    assert WindowStart(s.stations[b].flow, (x + y + 1) - y) == SlotTime(s.startTsf, c.interval, c.sp, 0, x + y + 1);
    events :| ReachedBy(c, events, s);
  }

  /**
   * With two slots or more, windows of two accepted flows in different slots meet in some run
   * if and only if the slots do not fit the interval.
   */
  lemma WindowsMeetInSomeRunIff(c: Config)
    requires c.Valid() && c.Slots() >= 2 && c.sp > 0
    ensures (exists events, a: nat, b: nat, n: nat, k: nat :: MeetIn(c, events, a, b, n, k)) <==>
            c.Slots() * c.sp > c.interval
  {
    if c.Slots() * c.sp > c.interval {
      var events, a, b, n, k := SomeMeet(c);
    } else {
      forall events, a: nat, b: nat, n: nat, k: nat
        ensures !MeetIn(c, events, a, b, n, k)
      {
        if MeetIn(c, events, a, b, n, k) {
          AgreedWindowsNeverOverlap(c, events, a, b, n, k);
        }
      }
    }
  }

  /**
   * Two services of 131073 microseconds: their sum is quantised to 262144, and so their
   * windows meet in some run.
   */
  lemma QuantisedSumMeets(algo: nat, c: Config)
    requires InitResult(TwtParamCheck(131073, 2, 0, 1), 1, algo, Ready(c))
    ensures c.Valid() && c.Slots() == 2 && c.sp == 131073 && c.interval < 262146
    ensures exists events, a: nat, b: nat, n: nat, k: nat :: MeetIn(c, events, a, b, n, k)
  {
    var i := 262146;
    assert TwtParamCheck(131073, 2, 0, 1) == Params(131073, 2, i);
    ReadyIsSafeIff(Params(131073, 2, i), 1, algo, c);
    RoundedDown(c.mantissa, c.exponent);
    WindowsMeetInSomeRunIff(c);
  }

  lemma RoundedDown(m: nat, e: nat)
    requires IsNearest(262146, m, e)
    ensures Shl(m, e) < 262146
  {
    assert Representable(32768, 3) && Shl(32768, 3) == 262144;
    assert Error(262146, 32768, 3) == 2;
    if e >= 3 {
      ShlTwice(m, e - 3, 3);
    } else {
      SmallExponent(m, e);
    }
  }

  lemma SmallExponent(m: nat, e: nat)
    requires m <= 65535 && e <= 2
    ensures Shl(m, e) <= 262140
  {
    ShlIsMul(m, e);
    Pow2Mono(e, 2);
    assert Pow2(2) == 4;
    MulMono(Pow2(e), 4, m);
  }
}
