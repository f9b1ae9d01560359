/**
 What the access point answers to any setup frame in any state, and what it then holds
 (nrc-mac80211-twt.c, nrc-twt-sched.c): the decisions, the wake time of an ACCEPT by the
 clocks of the run, and the effect of a teardown.
 */
module TwtAnswers {
  import opened Arith
  import opened Common
  import opened TwtInterval
  import opened TwtNegotiation
  import opened TwtReach
  import opened TwtRuns
  import opened TwtScheduler

  // ---- which answer -------------------------------------------------------------------------

  /** An implicit request for flow 0 whose interval is no shorter than its service, in units of 256. */
  predicate Asks(f: SetupFrame) {
    f.implicit && f.flowid == 0 && 256 * f.duration <= f.mantissa * Pow2(f.exp)
  }

  /** Nothing, or 1, 2, 4 or 8 base intervals, within BSS max idle in units of 1024 milliseconds. */
  predicate Direct(c: Config, requested: int, idlePeriod: nat) {
    && requested in {0, c.interval, 2 * c.interval, 4 * c.interval, 8 * c.interval}
    && (idlePeriod == 0 || requested <= 1_024_000 * idlePeriod)
  }

  lemma IntervalIs(f: SetupFrame)
    ensures f.Interval() == f.mantissa * Pow2(f.exp)
    ensures Asks(f) <==> RequestOk(f) && f.flowid == 0
  {
    ShlIsMul(f.mantissa, f.exp);
  }

  lemma MultipleIsDirect(c: Config, m: nat, idlePeriod: nat)
    requires c.interval > 0 && m in {0, 1, 2, 4, 8}
    ensures GradeRequest(c.interval, c.interval * m, BssMaxIdle(idlePeriod)).dictate <==>
            idlePeriod != 0 && 1_024_000 * idlePeriod < c.interval * m
  {
    if m > 0 {
      GradeOfMultiple(c.interval, m, BssMaxIdle(idlePeriod));
    } else {
      assert c.interval * m == 0;
    }
  }

  lemma GradedDirectly(c: Config, requested: nat, idlePeriod: nat)
    requires c.interval > 0
    ensures !GradeRequest(c.interval, requested, BssMaxIdle(idlePeriod)).dictate <==> Direct(c, requested, idlePeriod)
  {
    var g := GradeRequest(c.interval, requested, BssMaxIdle(idlePeriod));
    GradeMeaning(c.interval, requested, BssMaxIdle(idlePeriod));
    GradeIsSmall(c.interval, requested, BssMaxIdle(idlePeriod));
    MultipleIsDirect(c, 0, idlePeriod);
    MultipleIsDirect(c, 1, idlePeriod);
    MultipleIsDirect(c, 2, idlePeriod);
    MultipleIsDirect(c, 4, idlePeriod);
    MultipleIsDirect(c, 8, idlePeriod);
  }

  /** Some slot is not at its maximum. */
  predicate HasRoom(c: Config, s: State) {
    exists i :: 0 <= i < |s.table.slots| && s.table.slots[i].subNum < c.maxInGroup
  }

  /**
   * The answer to any frame in any reachable state.  A malformed request changes nothing; one
   * for an existing agreement is accepted exactly as a repetition of it; before the start every
   * other is rejected; then it is dictated unless the interval can be had as it is, and else
   * accepted if and only if there is room and memory.
   */
  lemma AnswerTable(c: Config, s: State, sta: nat, f: SetupFrame, idlePeriod: nat, now: nat, gotNode: bool)
    requires Inv(c, s) && sta in s.stations && f.Valid()
    ensures var r, st := AddTwtSetup(c, s, sta, f, idlePeriod, now, gotNode), s.stations[sta];
      if !Asks(f) then
        r.frame == f.(cmd := Reject) && r.state == s
      else if st.agreed then
        var same := st.flow.duration == f.duration && st.flow.mantissa == f.mantissa && st.flow.exp == f.exp;
        r.frame == (if same then f.(cmd := Accept, twt := st.flow.twt) else f.(cmd := Reject)) && r.state == s
      else if !s.started then
        var flow := Flow(0, f.duration, f.mantissa, f.exp, 0, None);
        r.frame == f.(cmd := Reject) && r.state == s.(stations := s.stations[sta := Station(false, flow)])
      else if !Direct(c, f.mantissa * Pow2(f.exp), idlePeriod) then
        r.frame.cmd == Dictate
      else
        r.frame.cmd == if HasRoom(c, s) && gotNode then Accept else Reject
  {
    IntervalIs(f);
    if Asks(f) && !s.stations[sta].agreed && s.started {
      GradedDirectly(c, f.Interval(), idlePeriod);
      AnswerMeaning(c, s, sta, f, idlePeriod, now, gotNode);
      AllocationFailsIffFull(c, s);
    }
  }

  // ---- what an ACCEPT stores and carries --------------------------------------------------------

  /** The first wake of slot i: of the current period if that leaves a second, else of the next. */
  function FirstWake(c: Config, startTsf: nat, count: nat, time: nat, i: nat, now: nat): nat {
    startTsf + i * c.sp + c.interval * (if now + 1_000_000 <= time + i * c.sp then count else count + 1)
  }

  lemma NextTwtIs(c: Config, s: State, i: nat, now: nat)
    ensures NextTwt(c, s, i, now) == FirstWake(c, s.startTsf, s.schedCount, s.time, i, now)
  {
    assert c.interval * (s.schedCount + 1) == c.interval * s.schedCount + c.interval;
  }

  /**
   * An ACCEPT carries the first wake of the slot chosen, in microseconds: the start time, the
   * slot's service periods, and so many intervals that the station has a second from now.
   */
  lemma AcceptCarriesFirstWake(c: Config, s: State, sta: nat, f: SetupFrame, idlePeriod: nat, now: nat, gotNode: bool)
    requires Graded(c, s, sta, f)
    requires AddTwtSetup(c, s, sta, f, idlePeriod, now, gotNode).frame.cmd == Accept
    ensures var r := AddTwtSetup(c, s, sta, f, idlePeriod, now, gotNode);
      && sta in r.state.stations
      && var flow := r.state.stations[sta].flow;
         && flow.entry.Some? && flow.entry == Choose(c, s.table).0 && flow.twt == r.frame.twt
         && var index := flow.entry.value;
            var n := if now + 1_000_000 <= s.time + index * c.sp then s.schedCount else s.schedCount + 1;
            r.frame.twt == s.startTsf + c.interval * n + index * c.sp
  {
    AnswerMeaning(c, s, sta, f, idlePeriod, now, gotNode);
    NextTwtIs(c, s, Choose(c, s.table).0.value, now);
  }

  /** Balanced raises its minimum when no slot is at it, whether a slot is then found or not. */
  function Minimum(c: Config, t: Table): nat {
    if c.algo == Balanced && t.minNum < c.maxInGroup
       && forall j :: 0 <= j < |t.slots| ==> t.slots[j].subNum != t.minNum
    then t.minNum + 1 else t.minNum
  }

  lemma MinimumIs(c: Config, t: Table)
    ensures Choose(c, t).1 == Minimum(c, t)
  {
    assert forall j :: 0 <= j < FirstChoice(c, t.minNum, t.slots, 0) ==> !Choosable(c, t.minNum, t.slots[j]);
  }

  /** The slot with one more entry in it. */
  function Reserved(slot: Slot, i: nat, multi: nat, flows: seq<FlowEntry>): Slot {
    Slot(i, multi, slot.subNum + 1, flows)
  }

  lemma MultiOf(c: Config, requested: nat, idle: nat) returns (k: nat)
    requires c.interval > 0 && !GradeRequest(c.interval, requested, idle).dictate
    ensures var m := GradeRequest(c.interval, requested, idle).multi;
      && k <= 3 && k == Log2(m) && m == (if requested == 0 then 0 else Pow2(k))
      && requested == (if requested == 0 then 0 else c.interval * Pow2(k))
  {
    var m := GradeRequest(c.interval, requested, idle).multi;
    GradeMeaning(c.interval, requested, idle);
    GradeIsSmall(c.interval, requested, idle);
    assert Pow2(1) == 2 && Pow2(2) == 4 && Pow2(3) == 8;
    assert Log2(2) == 1 && Log2(4) == 2 && Log2(8) == 3;
    assert m * c.interval == c.interval * m;
    if requested == 0 {
      DivBounds(0, c.interval, 0);
    }
    k := Log2(m);
  }

  /**
   * All that an ACCEPT for a station without an agreement changes: slot i gets one more entry at
   * the end of its list, and the station the flow, with the interval asked for spelt with the
   * access point's mantissa.
   */
  lemma AcceptEffect(c: Config, s: State, sta: nat, f: SetupFrame, idlePeriod: nat, now: nat)
    returns (i: nat, k: nat)
    requires Inv(c, s) && Graded(c, s, sta, f)
    requires AddTwtSetup(c, s, sta, f, idlePeriod, now, true).frame.cmd == Accept
    ensures Choose(c, s.table).0 == Some(i) && i < |s.table.slots| && k <= 3
    ensures var requested := f.mantissa * Pow2(f.exp); requested == 0 || requested == c.interval * Pow2(k)
    ensures var r := AddTwtSetup(c, s, sta, f, idlePeriod, now, true);
      var requested := f.mantissa * Pow2(f.exp);
      var twt := FirstWake(c, s.startTsf, s.schedCount, s.time, i, now);
      var slot, t := s.table.slots[i], r.state.table;
      && r.frame == f.(cmd := Accept, twt := twt)
      && r.state.stations ==
         s.stations[sta := Station(true, Flow(0, f.duration, c.mantissa, c.exponent + k, twt, Some(i)))]
      && t.slots == s.table.slots[i := Reserved(slot, i, if requested == 0 then 0 else Pow2(k),
                                                slot.flows + [FlowEntry(0, sta)])]
      && t.minNum == Minimum(c, s.table)
      && t.allocNum == s.table.allocNum + 1 && t.allocIndex == |t.slots| * t.minNum + i + 1
      && r.state == s.(table := t, stations := r.state.stations)
  {
    IntervalIs(f);
    AnswerMeaning(c, s, sta, f, idlePeriod, now, true);
    MinimumIs(c, s.table);
    k := MultiOf(c, f.Interval(), BssMaxIdle(idlePeriod));
    ChooseKeepsFilled(c, s.table);
    i := Choose(c, s.table).0.value;
    NextTwtIs(c, s, i, now);
  }

  /** All that a setup changes that finds a slot but no memory: the slot stays reserved for nobody. */
  lemma LeakEffect(c: Config, s: State, sta: nat, f: SetupFrame, idlePeriod: nat, now: nat) returns (i: nat, k: nat)
    requires Inv(c, s) && Graded(c, s, sta, f)
    requires LeaksAt(c, s, Setup(sta, f, idlePeriod, now, false))
    ensures Choose(c, s.table).0 == Some(i) && i < |s.table.slots| && k <= 3
    ensures var requested := f.mantissa * Pow2(f.exp); requested == 0 || requested == c.interval * Pow2(k)
    ensures var r := AddTwtSetup(c, s, sta, f, idlePeriod, now, false);
      var requested := f.mantissa * Pow2(f.exp);
      var slot, t := s.table.slots[i], r.state.table;
      && r.frame == f.(cmd := Reject)
      && r.state.stations ==
         s.stations[sta := Station(false, Flow(0, f.duration, c.mantissa, c.exponent + k, 0, None))]
      && t.slots == s.table.slots[i := Reserved(slot, i, if requested == 0 then 0 else Pow2(k), slot.flows)]
      && t.minNum == Minimum(c, s.table)
      && t.allocNum == s.table.allocNum + 1 && t.allocIndex == |t.slots| * t.minNum + i + 1
      && r.state == s.(table := t, stations := r.state.stations, leaked := s.leaked + 1)
  {
    IntervalIs(f);
    MinimumIs(c, s.table);
    k := MultiOf(c, f.Interval(), BssMaxIdle(idlePeriod));
    ChooseKeepsFilled(c, s.table);
    i := Choose(c, s.table).0.value;
    var flow := Flow(0, f.duration, f.mantissa, f.exp, 0, None);
    var multi := GradeRequest(c.interval, f.Interval(), BssMaxIdle(idlePeriod)).multi;
    var o := EntryAdd(c, s.WithFlow(sta, flow), sta, idlePeriod, now, false);
    assert o.ret == -1 && o.state.table == Occupy(c, s.table, i, Choose(c, s.table).1, multi);
    assert o.state.stations == s.stations[sta := Station(false, Rewritten(c, flow, multi))];
  }

  /**
   * All that a well-formed request changes that reserves no slot: the station keeps the flow
   * offered, and a search that found no slot may have raised the minimum.
   */
  lemma UnplacedEffect(c: Config, s: State, sta: nat, f: SetupFrame, idlePeriod: nat, now: nat, gotNode: bool)
    returns (k: nat)
    requires Inv(c, s) && Graded(c, s, sta, f)
    requires !Direct(c, f.mantissa * Pow2(f.exp), idlePeriod) || !HasRoom(c, s)
    ensures var r := AddTwtSetup(c, s, sta, f, idlePeriod, now, gotNode);
      var direct := Direct(c, f.mantissa * Pow2(f.exp), idlePeriod);
      && k <= 3 && r.frame.cmd == (if direct then Reject else Dictate)
      && r.state == s.(table := s.table.(minNum := if direct then Minimum(c, s.table) else s.table.minNum),
                       stations := s.stations[sta := Station(false, Flow(0, f.duration, c.mantissa,
                                                                         c.exponent + k, 0, None))])
  {
    IntervalIs(f);
    MinimumIs(c, s.table);
    GradedDirectly(c, f.Interval(), idlePeriod);
    GradeIsSmall(c.interval, f.Interval(), BssMaxIdle(idlePeriod));
    AllocationFailsIffFull(c, s);
    k := Log2(GradeRequest(c.interval, f.Interval(), BssMaxIdle(idlePeriod)).multi);
  }

  // ---- what a teardown takes back -----------------------------------------------------------------

  /**
   * All that a teardown changes: nothing for a flow above 0 or without an agreement, and
   * otherwise entry j of the station's slot goes, the others keep their order, and the slot is
   * cleared of its multiple with the last.
   */
  lemma TeardownEffect(c: Config, s: State, sta: nat, flowid: nat) returns (i: nat, j: nat)
    requires Inv(c, s) && sta in s.stations
    ensures Releasable(s, sta)
    ensures flowid > 0 || !s.stations[sta].agreed ==> EntryDel(s, sta, flowid) == s
    ensures flowid == 0 && s.stations[sta].agreed ==>
      && s.stations[sta].flow.entry == Some(i) && i < |s.table.slots|
      && j < |s.table.slots[i].flows| && s.table.slots[i].flows[j].sta == sta
      && var slot, t, u := s.table.slots[i], s.table, EntryDel(s, sta, 0);
         var left := slot.subNum - 1;
         && left >= 0 && t.allocNum > 0
         && u.table == Table(t.allocNum - 1, t.allocIndex, Min(t.minNum, left),
                             t.slots[i := Slot(slot.index, if left == 0 then 0 else slot.multi, left,
                                               slot.flows[..j] + slot.flows[j + 1..])])
         && u == s.(table := u.table, stations := s.stations[sta := Station(false, s.stations[sta].flow)])
  {
    InvMakesReleasable(c, s, sta);
    i, j := 0, 0;
    if s.stations[sta].agreed {
      i := s.stations[sta].flow.entry.value;
      j := IndexOf(s.table.slots[i].flows, sta);
    }
  }

  /** A station that joins has no agreement; one that leaves is forgotten, after its teardown. */
  lemma StationsComeAndGo(c: Config, s: State, sta: nat)
    requires Inv(c, s)
    ensures sta in s.stations ==> Step(c, s, Join(sta)) == s
    ensures sta !in s.stations ==>
      Step(c, s, Leave(sta)) == s
      && Step(c, s, Join(sta)) == s.(stations := s.stations[sta := Station(false, Flow(0, 0, 0, 0, 0, None))])
    ensures sta in s.stations ==>
      var t := Step(c, s, Teardown(sta, 0));
      Step(c, s, Leave(sta)) == t.(stations := t.stations - {sta})
  {
  }

  // ---- the clocks of a run --------------------------------------------------------------------------

  /** When the scheduler was started, how many periods have passed since, and when the last one began. */
  datatype Clock = Stopped | Running(startTsf: nat, count: nat, time: nat)

  /**
   * The first start with a clock value and with BSS max idle, if any, no shorter than the
   * interval counts; later starts do nothing.
   */
  function ClockAfter(c: Config, events: seq<Event>): Clock {
    if events == [] then Stopped
    else
      var clock := ClockAfter(c, events[..|events| - 1]);
      match events[|events| - 1]
      case Start(idlePeriod, tsf, time) =>
        if clock == Stopped && tsf != 0 && (idlePeriod == 0 || c.interval <= 1_024_000 * idlePeriod)
        then Running(tsf, 0, time) else clock
      case Period(time) =>
        if clock == Stopped then Stopped else Running(clock.startTsf, clock.count + 1, time)
      case _ => clock
  }

  predicate Shows(s: State, clock: Clock) {
    match clock
    case Stopped => !s.started
    case Running(startTsf, count, time) =>
      s.started && s.startTsf == startTsf && s.schedCount == count && s.time == time
  }

  /** Setups, teardowns and stations leave the clocks alone. */
  lemma ClocksStay(c: Config, s: State, e: Event)
    requires Inv(c, s) && !e.Start? && !e.Period?
    ensures var t := Step(c, s, e);
      t.started == s.started && t.startTsf == s.startTsf && t.schedCount == s.schedCount && t.time == s.time
  {
    if e.Setup? && e.sta in s.stations {
      SetupKeepsClocks(c, s, e.sta, e.frame, e.idle, e.now, e.gotNode);
    }
  }

  lemma SetupKeepsClocks(c: Config, s: State, sta: nat, f: SetupFrame, idlePeriod: nat, now: nat, gotNode: bool)
    requires Inv(c, s) && sta in s.stations
    ensures var t := AddTwtSetup(c, s, sta, f, idlePeriod, now, gotNode).state;
      t.started == s.started && t.startTsf == s.startTsf && t.schedCount == s.schedCount && t.time == s.time
  {
    ChooseKeepsFilled(c, s.table);
  }

  lemma {:induction false} RunShowsClock(c: Config, events: seq<Event>)
    requires c.Valid()
    ensures Shows(Reached(c, events), ClockAfter(c, events))
    decreases |events|
  {
    if events != [] {
      var k := |events| - 1;
      assert events == events[..k] + [events[k]];
      RunShowsClock(c, events[..k]);
      RunSnoc(c, InitState(c), events[..k], events[k]);
      if !events[k].Start? && !events[k].Period? {
        ClocksStay(c, Reached(c, events[..k]), events[k]);
      }
    }
  }

  /**
   * In every run an ACCEPT for a station without an agreement carries the start time of the
   * run, so many intervals as periods have begun, one more unless a second is left, and the
   * service periods of the slots before the station's.
   */
  lemma WakeTimeInEveryRun(c: Config, events: seq<Event>, sta: nat, f: SetupFrame, idlePeriod: nat, now: nat)
    requires c.Valid() && f.Valid()
    requires var s := Reached(c, events); sta in s.stations && !s.stations[sta].agreed
    requires AddTwtSetup(c, Reached(c, events), sta, f, idlePeriod, now, true).frame.cmd == Accept
    ensures var r := AddTwtSetup(c, Reached(c, events), sta, f, idlePeriod, now, true);
      && ClockAfter(c, events).Running? && sta in r.state.stations && r.state.stations[sta].flow.entry.Some?
      && var clock, index := ClockAfter(c, events), r.state.stations[sta].flow.entry.value;
         var periods := if now + 1_000_000 <= clock.time + index * c.sp then clock.count else clock.count + 1;
         r.frame.twt == clock.startTsf + c.interval * periods + index * c.sp
  {
    RunShowsClock(c, events);
    AnswerTable(c, Reached(c, events), sta, f, idlePeriod, now, true);
    IntervalIs(f);
    AcceptCarriesFirstWake(c, Reached(c, events), sta, f, idlePeriod, now, true);
  }
}
