/**
 When some run puts more stations into a slot than its group size (nrc-twt-sched.c): exactly
 with the Balanced algorithm, two slots or more and groups of two or more.  After teardowns
 the fallback takes slot 0 although it is full and another slot has room.
 */
module TwtTrap {
  import opened Common
  import opened TwtFill
  import opened TwtInterval
  import opened TwtReach
  import opened TwtRuns
  import opened TwtScheduler

  // ---- configurations that stay within capacity ---------------------------------------------

  /** What it takes for a slot to be overfilled. */
  predicate CanOverfill(c: Config)
    requires c.maxInGroup > 0
  {
    c.algo == Balanced && c.Slots() >= 2 && c.maxInGroup >= 2
  }

  lemma OccupyStaysWithin(c: Config, t: Table, multi: nat)
    requires c.Valid() && !CanOverfill(c) && |t.slots| == c.Slots() && Filled(c, t) && WithinCapacity(c, t)
    requires Choose(c, t).0.Some?
    ensures var (choice, m) := Choose(c, t);
            choice.value < |t.slots| && WithinCapacity(c, Occupy(c, t, choice.value, m, multi))
  {
    ChooseKeepsFilled(c, t);
    OverfillsIffFallbackOnFullSlot(c, t, multi);
    if FallsBack(c, t) {
      assert |t.slots| == 1;
      assert t.slots[0].subNum <= t.minNum + 1;
    }
  }

  lemma EntryAddStaysWithin(c: Config, s: State, sta: nat, idlePeriod: nat, now: nat, gotNode: bool)
    requires Inv(c, s) && !CanOverfill(c) && WithinCapacity(c, s.table) && sta in s.stations
    ensures WithinCapacity(c, EntryAdd(c, s, sta, idlePeriod, now, gotNode).state.table)
  {
    if Choose(c, s.table).0.Some? {
      OccupyStaysWithin(c, s.table,
                        GradeRequest(c.interval, s.stations[sta].flow.Interval(), BssMaxIdle(idlePeriod)).multi);
    }
  }

  lemma EntryDelStaysWithin(c: Config, s: State, sta: nat, flowid: nat)
    requires WithinCapacity(c, s.table) && sta in s.stations && Releasable(s, sta)
    ensures WithinCapacity(c, EntryDel(s, sta, flowid).table)
  {
  }

  lemma StepStaysWithin(c: Config, s: State, e: Event)
    requires Inv(c, s) && !CanOverfill(c) && WithinCapacity(c, s.table)
    ensures WithinCapacity(c, Step(c, s, e).table)
  {
    match e {
      case Start(_, _, _) =>
      case Period(_) =>
      case Join(_) =>
      case Leave(sta) =>
        if sta in s.stations {
          InvMakesReleasable(c, s, sta);
          EntryDelStaysWithin(c, s, sta, 0);
        }
      case Setup(sta, f, idle, now, gotNode) =>
        if sta in s.stations && RequestOk(f) && GetFlow(s.stations[sta], f).Fresh? {
          var flow := GetFlow(s.stations[sta], f).flow;
          WithFlowKeepsInv(c, s, sta, flow);
          EntryAddStaysWithin(c, s.WithFlow(sta, flow), sta, idle, now, gotNode);
        }
      case Teardown(sta, flowid) =>
        if sta in s.stations {
          InvMakesReleasable(c, s, sta);
          EntryDelStaysWithin(c, s, sta, flowid);
        }
    }
  }

  lemma {:induction false} RunStaysWithin(c: Config, s: State, events: seq<Event>)
    requires Inv(c, s) && !CanOverfill(c) && WithinCapacity(c, s.table)
    ensures WithinCapacity(c, Run(c, s, events).table)
    decreases events
  {
    if events != [] {
      StepStaysWithin(c, s, events[0]);
      RunStaysWithin(c, Step(c, s, events[0]), events[1..]);
    }
  }

  // ---- overfilling --------------------------------------------------------------------------

  /** Slot 0 counts a, slot 1 counts b, every other slot is full, and the minimum is m. */
  predicate Loads(c: Config, t: Table, a: nat, b: nat, m: nat) {
    && |t.slots| >= 2 && t.minNum == m && t.slots[0].subNum == a && t.slots[1].subNum == b
    && forall k :: 2 <= k < |t.slots| ==> t.slots[k].subNum == c.maxInGroup
  }

  /** The first station of slot 1 leaves its agreement. */
  lemma DropOne(c: Config, s: State, n: nat, a: nat, b: nat, m: nat) returns (t: State)
    requires Clean(c, s, n) && Loads(c, s.table, a, b + 1, m)
    ensures Clean(c, t, n) && Loads(c, t.table, a, b, if b < m then b else m)
  {
    ReachableIsInv(c, s);
    CountsAreLists(c, s);
    var sta := s.table.slots[1].flows[0].sta;
    assert InSlot(s.table.slots[1], sta);
    assert Agreed(s, sta, 1);
    InvMakesReleasable(c, s, sta);
    t := Step(c, s, Teardown(sta, 0));
    ReachStep(c, s, Teardown(sta, 0), t);
    assert t == EntryDel(s, sta, 0);
  }

  /** Which slot Balanced takes while slot 0 is full: slot 1 at the minimum, or else slot 0. */
  lemma ChoiceOfTwo(c: Config, t: Table, a: nat, b: nat, m: nat)
    requires c.algo == Balanced && c.maxInGroup >= 2 && m + 1 < c.maxInGroup <= a
    requires b == m || b == m + 1
    requires Loads(c, t, a, b, m)
    ensures Choose(c, t) == if b == m then (Some(1), m) else (Some(0), m + 1)
  {
    var r := FirstChoice(c, m, t.slots, 0);
    assert !Choosable(c, m, t.slots[0]);
    if b == m {
      assert Choosable(c, m, t.slots[1]);
    }
  }

  /**
   * Two stations ask while slot 1 has room for two: the first goes to slot 1, the second to
   * slot 0, full as it is.
   */
  lemma AddTwo(c: Config, s: State, n: nat, a: nat) returns (t: State)
    requires Clean(c, s, n) && CanOverfill(c) && a >= c.maxInGroup
    requires Loads(c, s.table, a, c.maxInGroup - 2, c.maxInGroup - 2)
    ensures Clean(c, t, n + 2) && Loads(c, t.table, a + 1, c.maxInGroup - 1, c.maxInGroup - 1)
  {
    var low := c.maxInGroup - 2;
    ChoiceOfTwo(c, s.table, a, low, low);
    var u, i, m := AddStation(c, s, n, 1);
    assert Loads(c, u.table, a, low + 1, low);
    ChoiceOfTwo(c, u.table, a, low + 1, low);
    t, i, m := AddStation(c, u, n + 1, 1);
  }

  /** All slots full, then two teardowns in slot 1. */
  lemma FirstTrap(c: Config) returns (s: State, n: nat)
    requires c.Valid() && CanOverfill(c)
    ensures Clean(c, s, n) && Loads(c, s.table, c.maxInGroup, c.maxInGroup - 2, c.maxInGroup - 2)
  {
    var most := c.maxInGroup;
    s := StartFilling(c);
    s, n := FillFrom(c, s, 0, 0);
    var m := s.table.minNum;
    assert most - 1 <= m by {
      assert s.table.slots[0].subNum <= m + 1;
    }
    s := DropOne(c, s, n, most, most - 1, m);
    s := DropOne(c, s, n, most, most - 2, most - 1);
  }

  lemma {:induction false} TrapBy(c: Config, k: nat) returns (s: State, n: nat)
    requires c.Valid() && CanOverfill(c)
    ensures Clean(c, s, n) && Loads(c, s.table, c.maxInGroup + 1 + k, c.maxInGroup - 1, c.maxInGroup - 1)
    decreases k
  {
    var most := c.maxInGroup;
    if k == 0 {
      s, n := FirstTrap(c);
    } else {
      s, n := TrapBy(c, k - 1);
      s := DropOne(c, s, n, most + k, most - 2, most - 1);
    }
    s := AddTwo(c, s, n, most + k);
    n := n + 2;
  }

  /** Slot 0 is k + 1 above its maximum, and slot 1 has room. */
  predicate OverBy(c: Config, t: Table, k: nat) {
    && |t.slots| >= 2 && c.maxInGroup > 0
    && t.slots[0].subNum == c.maxInGroup + 1 + k && t.slots[1].subNum == c.maxInGroup - 1
  }

  /**
   * In those configurations there is no bound on what slot 0 can be made to hold: for every k
   * some run without a failure ends with k + 1 stations above its maximum there, and room in
   * the next slot.
   */
  lemma BalancedOverfills(c: Config, k: nat)
    requires c.Valid() && CanOverfill(c)
    ensures exists s :: Reachable(c, s) && OverBy(c, s.table, k)
  {
    var s, n := TrapBy(c, k);
    assert Reachable(c, s) && OverBy(c, s.table, k);
  }

  /**
   * Some run exceeds the group size of some slot if and only if the algorithm is Balanced, there
   * are two slots or more, and a group has two stations or more.
   */
  lemma SomeRunOverfillsIff(c: Config)
    requires c.Valid()
    ensures (exists events :: !WithinCapacity(c, Reached(c, events).table)) <==>
            c.algo == Balanced && c.Slots() >= 2 && c.maxInGroup >= 2
  {
    if CanOverfill(c) {
      BalancedOverfills(c, 0);
      var s :| Reachable(c, s) && OverBy(c, s.table, 0);
      var events :| ReachedBy(c, events, s);
      assert !WithinCapacity(c, Reached(c, events).table);
    } else {
      forall events
        ensures WithinCapacity(c, Reached(c, events).table)
      {
        RunStaysWithin(c, InitState(c), events);
      }
    }
  }

  /** Four stations in groups of two, 10 microseconds: parameters that come up and overfill. */
  lemma StartUpOverfills(c: Config, k: nat)
    requires InitResult(TwtParamCheck(0, 4, 10, 2), 2, 0, Ready(c))
    ensures c.Valid() && c.sp == 5 && c.interval == 10
    ensures exists s :: Reachable(c, s) && OverBy(c, s.table, k)
  {
    assert TwtParamCheck(0, 4, 10, 2) == Params(5, 4, 10);
    NearestErrorBound(10, c.mantissa, c.exponent);
    ReadyIsSafeIff(Params(5, 4, 10), 2, 0, c);
    BalancedOverfills(c, k);
  }
}
