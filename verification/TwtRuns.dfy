/**
 Runs of the TWT scheduler: the invariant every event keeps, and what follows from it
 in every state reachable within one started period.
 */
module TwtRuns {
  import opened Arith
  import opened Common
  import opened TwtInterval
  import opened TwtWindows
  import opened TwtScheduler
  import opened TwtNegotiation

  // ---- counting -----------------------------------------------------------------------

  function SumSub(slots: seq<Slot>): nat {
    if slots == [] then 0 else slots[0].subNum + SumSub(slots[1..])
  }

  function SumFlows(slots: seq<Slot>): nat {
    if slots == [] then 0 else |slots[0].flows| + SumFlows(slots[1..])
  }

  lemma {:induction false} SumSubUpdate(slots: seq<Slot>, i: nat, x: Slot)
    requires i < |slots|
    ensures SumSub(slots[i := x]) == SumSub(slots) - slots[i].subNum + x.subNum
    ensures SumSub(slots) >= slots[i].subNum
  {
    var u := slots[i := x];
    if i == 0 {
      assert u[1..] == slots[1..];
    } else {
      assert u[1..] == slots[1..][i - 1 := x];
      SumSubUpdate(slots[1..], i - 1, x);
    }
  }

  lemma {:induction false} SumFlowsUpdate(slots: seq<Slot>, i: nat, x: Slot)
    requires i < |slots|
    ensures SumFlows(slots[i := x]) == SumFlows(slots) - |slots[i].flows| + |x.flows|
  {
    var u := slots[i := x];
    if i == 0 {
      assert u[1..] == slots[1..];
    } else {
      assert u[1..] == slots[1..][i - 1 := x];
      SumFlowsUpdate(slots[1..], i - 1, x);
    }
  }

  // ---- the invariant --------------------------------------------------------------------

  predicate InSlot(slot: Slot, sta: nat) {
    exists j :: 0 <= j < |slot.flows| && slot.flows[j].sta == sta
  }

  predicate NoRepeats(flows: seq<FlowEntry>) {
    forall j, k :: 0 <= j < k < |flows| ==> flows[j].sta != flows[k].sta
  }

  predicate Agreed(s: State, sta: nat, i: nat) {
    sta in s.stations && s.stations[sta].agreed && s.stations[sta].flow.entry == Some(i)
  }

  /** alloc_num, the sub_num counts and the lists agree, up to leaked reservations. */
  predicate Counted(t: Table, leaked: nat) {
    && t.allocNum == SumSub(t.slots) == SumFlows(t.slots) + leaked
    && forall i :: 0 <= i < |t.slots| ==> |t.slots[i].flows| <= t.slots[i].subNum
  }

  /** A station is in a slot's list, once, exactly when its mask bit is set and it points there. */
  ghost predicate Listed(s: State) {
    && (forall i :: 0 <= i < |s.table.slots| ==> NoRepeats(s.table.slots[i].flows))
    && (forall i, sta :: 0 <= i < |s.table.slots| ==> (InSlot(s.table.slots[i], sta) <==> Agreed(s, sta, i)))
  }

  /** An agreed flow repeats on its slot's grid with a period of 1, 2, 4 or 8 intervals. */
  ghost predicate FlowOk(c: Config, s: State, f: Flow) {
    && f.entry.Some? && f.entry.value < |s.table.slots|
    && f.mantissa == c.mantissa && c.exponent <= f.exp <= c.exponent + 3
    && IsSlotTime(s.startTsf, c.interval, c.sp, f.entry.value, f.twt)
  }

  ghost predicate FlowsOk(c: Config, s: State) {
    forall sta | sta in s.stations && s.stations[sta].agreed :: s.started && FlowOk(c, s, s.stations[sta].flow)
  }

  /** min_num_in_group trails the true minimum by at most one; FCFS never uses it. */
  predicate Filled(c: Config, t: Table) {
    && (forall i :: 0 <= i < |t.slots| ==> t.minNum <= t.slots[i].subNum)
    && match c.algo
       case Balanced => |t.slots| == 0 || exists i :: 0 <= i < |t.slots| && t.slots[i].subNum <= t.minNum + 1
       case Fcfs => t.minNum == 0 && forall i :: 0 <= i < |t.slots| ==> t.slots[i].subNum <= c.maxInGroup
  }

  ghost predicate Inv(c: Config, s: State) {
    && c.Valid() && |s.table.slots| == c.Slots()
    && Counted(s.table, s.leaked) && Filled(c, s.table)
    && Listed(s) && FlowsOk(c, s)
  }

  // ---- allocator steps ------------------------------------------------------------------

  lemma ChooseKeepsFilled(c: Config, t: Table)
    requires c.Valid() && Filled(c, t) && |t.slots| == c.Slots()
    ensures var (choice, m) := Choose(c, t);
            && Filled(c, t.(minNum := m))
            && (choice.Some? ==> choice.value < |t.slots|)
            && (c.algo == Fcfs && choice.Some? ==> t.slots[choice.value].subNum < c.maxInGroup)
  {
  }

  lemma OccupyKeepsFilled(c: Config, t: Table, multi: nat)
    requires c.Valid() && Filled(c, t) && |t.slots| == c.Slots()
    requires Choose(c, t).0.Some?
    ensures var (choice, m) := Choose(c, t);
            choice.value < |t.slots| && Filled(c, Occupy(c, t, choice.value, m, multi))
  {
    ChooseKeepsFilled(c, t);
    var (choice, m) := Choose(c, t);
    var i := choice.value;
    var u := Occupy(c, t, i, m, multi);
    if c.algo == Balanced {
      var w :| 0 <= w < |t.slots| && t.slots[w].subNum <= t.minNum + 1;
      if t.slots[i].subNum == t.minNum {
        assert u.slots[i].subNum <= m + 1;
      } else {
        assert t.slots[w].subNum == m;
        assert u.slots[w].subNum <= m + 1;
      }
    }
  }

  /**
   * An allocation fails exactly when every slot holds its maximum, whatever the history
   * and for both algorithms.
   */
  lemma AllocationFailsIffFull(c: Config, s: State)
    requires Inv(c, s)
    ensures Choose(c, s.table).0.None? <==>
            forall i :: 0 <= i < |s.table.slots| ==> s.table.slots[i].subNum >= c.maxInGroup
  {
    var t := s.table;
    var r := FirstChoice(c, t.minNum, t.slots, 0);
    if |t.slots| == 0 {
    } else if c.algo == Balanced {
      var w :| 0 <= w < |t.slots| && t.slots[w].subNum <= t.minNum + 1;
      if r == |t.slots| {
        assert !Choosable(c, t.minNum, t.slots[w]);
      }
    } else if r == |t.slots| {
      assert forall i :: 0 <= i < |t.slots| ==> !Choosable(c, t.minNum, t.slots[i]);
    }
  }

  /**
   * Which slot an allocation takes: with FCFS the first that has room; with Balanced the
   * first of the least loaded ones, unless it falls back on slot 0.
   */
  lemma PicksFirstSuitable(c: Config, s: State)
    requires Inv(c, s) && Choose(c, s.table).0.Some?
    ensures var slots, i := s.table.slots, Choose(c, s.table).0.value;
      && i < |slots|
      && match c.algo
         case Fcfs => slots[i].subNum < c.maxInGroup && forall j :: 0 <= j < i ==> slots[j].subNum >= c.maxInGroup
         case Balanced =>
           if FallsBack(c, s.table) then i == 0
           else forall j :: 0 <= j < |slots| ==>
             slots[i].subNum <= slots[j].subNum && (j < i ==> slots[i].subNum < slots[j].subNum)
  {
    var t := s.table;
    assert forall j :: 0 <= j < FirstChoice(c, t.minNum, t.slots, 0) ==> !Choosable(c, t.minNum, t.slots[j]);
  }

  /** Every slot holds at most max_num_in_group entries. */
  predicate WithinCapacity(c: Config, t: Table) {
    forall i :: 0 <= i < |t.slots| ==> t.slots[i].subNum <= c.maxInGroup
  }

  /** The Balanced fallback: nothing sits at the minimum, so slot 0 is taken unseen. */
  predicate FallsBack(c: Config, t: Table) {
    && c.algo == Balanced
    && FirstChoice(c, t.minNum, t.slots, 0) == |t.slots|
    && t.minNum + 1 < c.maxInGroup
  }

  /**
   * A successful allocation overfills a slot exactly when the Balanced fallback takes a
   * slot 0 that is already full.
   */
  lemma OverfillsIffFallbackOnFullSlot(c: Config, t: Table, multi: nat)
    requires |t.slots| > 0 && WithinCapacity(c, t)
    requires Choose(c, t).0.Some?
    ensures var (choice, m) := Choose(c, t);
            !WithinCapacity(c, Occupy(c, t, choice.value, m, multi)) <==>
            FallsBack(c, t) && t.slots[0].subNum == c.maxInGroup
  {
    var (choice, m) := Choose(c, t);
    var i := choice.value;
    var u := Occupy(c, t, i, m, multi);
    assert u.slots[i].subNum == t.slots[i].subNum + 1;
    assert forall k :: 0 <= k < |t.slots| && k != i ==> u.slots[k] == t.slots[k];
  }

  /** Balanced before any teardown: all loads are the minimum or one more. */
  predicate Even(c: Config, t: Table) {
    && t.minNum <= c.maxInGroup
    && forall i :: 0 <= i < |t.slots| ==> t.minNum <= t.slots[i].subNum <= Min(t.minNum + 1, c.maxInGroup)
  }

  lemma OccupyKeepsEven(c: Config, t: Table, multi: nat)
    requires c.Valid() && c.algo == Balanced && Even(c, t) && |t.slots| == c.Slots()
    ensures var (choice, m) := Choose(c, t);
            && Even(c, t.(minNum := m))
            && (choice.Some? ==> choice.value < |t.slots| && Even(c, Occupy(c, t, choice.value, m, multi)))
  {
    var (choice, m) := Choose(c, t);
    var r := FirstChoice(c, t.minNum, t.slots, 0);
    if r == |t.slots| {
      assert forall i :: 0 <= i < |t.slots| ==> !Choosable(c, t.minNum, t.slots[i]);
    }
  }

  // ---- events keep the invariant ----------------------------------------------------------

  lemma IndexFound(flows: seq<FlowEntry>, sta: nat, k: nat)
    requires k < |flows| && flows[k].sta == sta
    ensures IndexOf(flows, sta) < |flows|
    ensures NoRepeats(flows) ==> IndexOf(flows, sta) == k
  {
  }

  lemma InvMakesReleasable(c: Config, s: State, sta: nat)
    requires Inv(c, s) && sta in s.stations
    ensures Releasable(s, sta)
    ensures s.stations[sta].agreed ==>
              var e := s.stations[sta].flow.entry;
              && e.Some? && e.value < |s.table.slots|
              && IndexOf(s.table.slots[e.value].flows, sta) < |s.table.slots[e.value].flows|
  {
    if s.stations[sta].agreed {
      var i := s.stations[sta].flow.entry.value;
      var slot := s.table.slots[i];
      assert InSlot(slot, sta);
      var j :| 0 <= j < |slot.flows| && slot.flows[j].sta == sta;
      IndexFound(slot.flows, sta, j);
      SumSubUpdate(s.table.slots, i, slot);
    }
  }

  lemma ReservationKeepsCounts(c: Config, t: Table, leaked: nat, i: nat, m: nat, multi: nat, e: FlowEntry)
    requires Counted(t, leaked) && i < |t.slots|
    ensures var u := Occupy(c, t, i, m, multi);
            Counted(u, leaked + 1) && Counted(Enlist(u, i, e), leaked)
  {
    var u := Occupy(c, t, i, m, multi);
    SumSubUpdate(t.slots, i, u.slots[i]);
    SumFlowsUpdate(t.slots, i, u.slots[i]);
    var v := Enlist(u, i, e);
    SumSubUpdate(u.slots, i, v.slots[i]);
    SumFlowsUpdate(u.slots, i, v.slots[i]);
  }

  /** Writing the flow of a station without an agreement touches nothing else. */
  lemma WithFlowKeepsInv(c: Config, s: State, sta: nat, f: Flow)
    requires Inv(c, s) && sta in s.stations && !s.stations[sta].agreed
    ensures Inv(c, s.WithFlow(sta, f)) && !s.WithFlow(sta, f).stations[sta].agreed
  {
    var s' := s.WithFlow(sta, f);
    forall i, x | 0 <= i < |s.table.slots|
      ensures InSlot(s'.table.slots[i], x) <==> Agreed(s', x, i)
    {
      assert InSlot(s.table.slots[i], x) <==> Agreed(s, x, i);
    }
  }

  /** A reservation without a list node: counts move, lists and agreements do not. */
  lemma ReserveKeepsListed(c: Config, s: State, i: nat, m: nat, multi: nat, leaked: nat)
    requires Listed(s) && FlowsOk(c, s) && i < |s.table.slots|
    ensures var s' := s.(table := Occupy(c, s.table, i, m, multi), leaked := leaked); Listed(s') && FlowsOk(c, s')
  {
    var s' := s.(table := Occupy(c, s.table, i, m, multi), leaked := leaked);
    assert forall k :: 0 <= k < |s.table.slots| ==> s'.table.slots[k].flows == s.table.slots[k].flows;
    forall k, x | 0 <= k < |s.table.slots|
      ensures InSlot(s'.table.slots[k], x) <==> Agreed(s', x, k)
    {
      assert InSlot(s.table.slots[k], x) <==> Agreed(s, x, k);
      assert InSlot(s'.table.slots[k], x) <==> InSlot(s.table.slots[k], x);
    }
  }

  lemma EnlistKeepsListed(c: Config, s: State, sta: nat, i: nat, e: FlowEntry, st: Station)
    requires Listed(s) && FlowsOk(c, s) && i < |s.table.slots|
    requires sta in s.stations && !s.stations[sta].agreed
    requires e.sta == sta && st.agreed && st.flow.entry == Some(i)
    requires s.started && FlowOk(c, s, st.flow)
    ensures var s' := s.(table := Enlist(s.table, i, e), stations := s.stations[sta := st]);
            Listed(s') && FlowsOk(c, s')
  {
    var s' := s.(table := Enlist(s.table, i, e), stations := s.stations[sta := st]);
    forall k, x | 0 <= k < |s.table.slots|
      ensures InSlot(s'.table.slots[k], x) <==> Agreed(s', x, k)
    {
      assert InSlot(s.table.slots[k], x) <==> Agreed(s, x, k);
      var old', new' := s.table.slots[k].flows, s'.table.slots[k].flows;
      if k == i {
        assert new' == old' + [e];
        assert new'[|old'|] == e;
        if InSlot(s.table.slots[k], x) {
          var j :| 0 <= j < |old'| && old'[j].sta == x;
          assert new'[j].sta == x;
        }
      }
    }
    forall k | 0 <= k < |s.table.slots|
      ensures NoRepeats(s'.table.slots[k].flows)
    {
      if k == i {
        assert !Agreed(s, sta, i);
        assert !InSlot(s.table.slots[i], sta);
      }
    }
    forall x | x in s'.stations && s'.stations[x].agreed
      ensures s'.started && FlowOk(c, s', s'.stations[x].flow)
    {
      if x != sta {
        assert FlowOk(c, s, s.stations[x].flow);
      }
    }
  }

  lemma NextTwtOnGrid(c: Config, s: State, i: nat, now: nat)
    ensures IsSlotTime(s.startTsf, c.interval, c.sp, i, NextTwt(c, s, i, now))
  {
    var n := s.schedCount + if now + OP_DELAY > s.time + i * c.sp then 1 else 0;
    assert c.interval * (s.schedCount + 1) == c.interval * s.schedCount + c.interval;
    assert NextTwt(c, s, i, now) == SlotTime(s.startTsf, c.interval, c.sp, i, n);
  }

  /** The boot clock at the n-th repetition of a slot from the current period on. */
  function WakeClock(c: Config, s: State, i: nat, n: nat): nat {
    s.time + i * c.sp + c.interval * n
  }

  /** The station has OP_DELAY to get ready for repetition n. */
  predicate InTime(c: Config, s: State, i: nat, n: nat, now: nat) {
    now + OP_DELAY <= WakeClock(c, s, i, n)
  }

  /**
   * get_next_twt picks the earliest repetition of the slot that leaves the station
   * OP_DELAY, exactly when the slot of the next period still does.
   */
  lemma NextTwtIsEarliestInTime(c: Config, s: State, i: nat, now: nat)
    requires c.interval > 0
    ensures var n := if InTime(c, s, i, 0, now) then 0 else 1;
      && NextTwt(c, s, i, now) == SlotTime(s.startTsf, c.interval, c.sp, i, s.schedCount + n)
      && (InTime(c, s, i, n, now) <==> InTime(c, s, i, 1, now))
      && forall k: nat :: k < n ==> !InTime(c, s, i, k, now)
  {
    assert c.interval * (s.schedCount + 1) == c.interval * s.schedCount + c.interval;
    assert WakeClock(c, s, i, 0) == s.time + i * c.sp;
    assert WakeClock(c, s, i, 1) == s.time + i * c.sp + c.interval;
  }

  lemma EntryAddKeepsInv(c: Config, s: State, sta: nat, idlePeriod: nat, now: nat, gotNode: bool)
    requires Inv(c, s) && sta in s.stations && !s.stations[sta].agreed
    ensures Inv(c, EntryAdd(c, s, sta, idlePeriod, now, gotNode).state)
  {
    var flow := s.stations[sta].flow;
    if s.started {
      var g := GradeRequest(c.interval, flow.Interval(), BssMaxIdle(idlePeriod));
      GradeIsSmall(c.interval, flow.Interval(), BssMaxIdle(idlePeriod));
      var flow' := Rewritten(c, flow, g.multi);
      var (choice, m) := Choose(c, s.table);
      ChooseKeepsFilled(c, s.table);
      if g.dictate {
        WithFlowKeepsInv(c, s, sta, flow');
      } else if choice.None? {
        var s1 := s.(table := s.table.(minNum := m));
        KeepLists(c, s, s1);
        WithFlowKeepsInv(c, s1, sta, flow');
      } else {
        PlacedKeepsInv(c, s, sta, flow', g.multi, now, gotNode);
      }
    }
  }

  /** The branch of EntryAdd that found a slot. */
  lemma PlacedKeepsInv(c: Config, s: State, sta: nat, flow': Flow, multi: nat, now: nat, gotNode: bool)
    requires Inv(c, s) && s.started && sta in s.stations && !s.stations[sta].agreed
    requires flow'.mantissa == c.mantissa && c.exponent <= flow'.exp <= c.exponent + 3
    requires Choose(c, s.table).0.Some? && Choose(c, s.table).0.value < |s.table.slots|
    ensures var (choice, m) := Choose(c, s.table);
            var i, t := choice.value, Occupy(c, s.table, choice.value, m, multi);
            var st := Station(true, flow'.(entry := Some(i), twt := NextTwt(c, s, i, now)));
            && Inv(c, s.(table := t, leaked := s.leaked + 1).WithFlow(sta, flow'))
            && Inv(c, s.(table := Enlist(t, i, FlowEntry(flow'.id, sta)), stations := s.stations[sta := st]))
  {
    var (choice, m) := Choose(c, s.table);
    var i, e := choice.value, FlowEntry(flow'.id, sta);
    var t := Occupy(c, s.table, i, m, multi);
    OccupyKeepsFilled(c, s.table, multi);
    ReservationKeepsCounts(c, s.table, s.leaked, i, m, multi, e);
    ReserveKeepsListed(c, s, i, m, multi, s.leaked + 1);
    var s1 := s.(table := t, leaked := s.leaked + 1);
    WithFlowKeepsInv(c, s1, sta, flow');
    var st := Station(true, flow'.(entry := Some(i), twt := NextTwt(c, s, i, now)));
    NextTwtOnGrid(c, s, i, now);
    EnlistKeepsListed(c, s1, sta, i, e, st);
    EnlistKeepsFilled(c, t, i, e);
    KeepLists(c, s1.(table := Enlist(t, i, e), stations := s.stations[sta := st]),
              s.(table := Enlist(t, i, e), stations := s.stations[sta := st]));
  }

  lemma EnlistKeepsFilled(c: Config, t: Table, i: nat, e: FlowEntry)
    requires Filled(c, t) && i < |t.slots|
    ensures Filled(c, Enlist(t, i, e))
  {
    var u := Enlist(t, i, e);
    assert forall k :: 0 <= k < |t.slots| ==> u.slots[k].subNum == t.slots[k].subNum;
  }

  /** The list part of the invariant depends on lists, stations and start only. */
  lemma KeepLists(c: Config, s: State, s': State)
    requires Listed(s) && FlowsOk(c, s)
    requires s'.table.slots == s.table.slots && s'.stations == s.stations
    requires s'.started == s.started && s'.startTsf == s.startTsf
    ensures Listed(s') && FlowsOk(c, s')
  {
    forall k, x | 0 <= k < |s.table.slots|
      ensures InSlot(s'.table.slots[k], x) <==> Agreed(s', x, k)
    {
      assert InSlot(s.table.slots[k], x) <==> Agreed(s, x, k);
    }
  }

  lemma SetupKeepsInv(c: Config, s: State, sta: nat, f: SetupFrame, idlePeriod: nat, now: nat, gotNode: bool)
    requires Inv(c, s) && sta in s.stations
    ensures Inv(c, AddTwtSetup(c, s, sta, f, idlePeriod, now, gotNode).state)
  {
    if RequestOk(f) {
      match GetFlow(s.stations[sta], f) {
        case Refused =>
        case Same =>
        case Fresh(flow) =>
          WithFlowKeepsInv(c, s, sta, flow);
          EntryAddKeepsInv(c, s.WithFlow(sta, flow), sta, idlePeriod, now, gotNode);
      }
    }
  }

  lemma ReleaseKeepsCounts(t: Table, leaked: nat, i: nat, sta: nat)
    requires Counted(t, leaked) && i < |t.slots|
    requires IndexOf(t.slots[i].flows, sta) < |t.slots[i].flows|
    requires t.slots[i].subNum > 0 && t.allocNum > 0
    ensures Counted(ClearMulti(Release(t, i, sta), i), leaked)
  {
    var r := Release(t, i, sta);
    SumSubUpdate(t.slots, i, r.slots[i]);
    SumFlowsUpdate(t.slots, i, r.slots[i]);
    var u := ClearMulti(r, i);
    SumSubUpdate(r.slots, i, u.slots[i]);
    SumFlowsUpdate(r.slots, i, u.slots[i]);
  }

  lemma ReleaseKeepsFilled(c: Config, t: Table, i: nat, sta: nat)
    requires Filled(c, t) && i < |t.slots|
    requires IndexOf(t.slots[i].flows, sta) < |t.slots[i].flows|
    requires t.slots[i].subNum > 0 && t.allocNum > 0
    ensures Filled(c, ClearMulti(Release(t, i, sta), i))
  {
    var r := Release(t, i, sta);
    var u := ClearMulti(r, i);
    if c.algo == Balanced {
      var w :| 0 <= w < |t.slots| && t.slots[w].subNum <= t.minNum + 1;
      if r.slots[i].subNum < t.minNum {
        assert u.slots[i].subNum <= u.minNum + 1;
      } else {
        assert u.slots[w].subNum <= u.minNum + 1;
      }
    }
  }

  lemma ReleaseKeepsListed(c: Config, s: State, sta: nat)
    requires Listed(s) && FlowsOk(c, s)
    requires sta in s.stations && s.stations[sta].agreed && Releasable(s, sta) && s.started
    requires IndexOf(s.table.slots[s.stations[sta].flow.entry.value].flows, sta)
             < |s.table.slots[s.stations[sta].flow.entry.value].flows|
    ensures var s' := EntryDel(s, sta, 0); Listed(s') && FlowsOk(c, s')
  {
    var s' := EntryDel(s, sta, 0);
    var i := s.stations[sta].flow.entry.value;
    var before, after := s.table.slots[i].flows, s'.table.slots[i].flows;
    var j := IndexOf(before, sta);
    assert after == before[..j] + before[j + 1..];
    forall k, x | 0 <= k < |s.table.slots|
      ensures InSlot(s'.table.slots[k], x) <==> Agreed(s', x, k)
    {
      assert InSlot(s.table.slots[k], x) <==> Agreed(s, x, k);
      if k == i {
        UnlistMembers(before, j, x);
      } else {
        assert s'.table.slots[k] == s.table.slots[k];
        assert x == sta ==> !Agreed(s, x, k);
      }
    }
    forall x | x in s'.stations && s'.stations[x].agreed
      ensures s'.started && FlowOk(c, s', s'.stations[x].flow)
    {
      assert FlowOk(c, s, s.stations[x].flow);
    }
  }

  lemma UnlistMembers(flows: seq<FlowEntry>, j: nat, x: nat)
    requires NoRepeats(flows) && j < |flows|
    ensures NoRepeats(Unlist(flows, j))
    ensures (exists k :: 0 <= k < |flows| - 1 && Unlist(flows, j)[k].sta == x) <==>
            (x != flows[j].sta && exists k :: 0 <= k < |flows| && flows[k].sta == x)
  {
    var u := Unlist(flows, j);
    if x != flows[j].sta && exists k :: 0 <= k < |flows| && flows[k].sta == x {
      var k :| 0 <= k < |flows| && flows[k].sta == x;
      assert u[if k < j then k else k - 1].sta == x;
    }
  }

  lemma TeardownKeepsInv(c: Config, s: State, sta: nat, flowid: nat)
    requires Inv(c, s) && sta in s.stations
    ensures Releasable(s, sta) && Inv(c, EntryDel(s, sta, flowid))
    ensures flowid == 0 ==> !EntryDel(s, sta, flowid).stations[sta].agreed
  {
    InvMakesReleasable(c, s, sta);
    if s.started && flowid == 0 && s.stations[sta].agreed {
      ReleaseKeepsCounts(s.table, s.leaked, s.stations[sta].flow.entry.value, sta);
      ReleaseKeepsFilled(c, s.table, s.stations[sta].flow.entry.value, sta);
      ReleaseKeepsListed(c, s, sta);
    }
  }

  /** Adding or dropping a station without an agreement. */
  lemma StationsKeepInv(c: Config, s: State, sta: nat)
    requires Inv(c, s)
    ensures sta !in s.stations ==> Inv(c, s.(stations := s.stations[sta := Station(false, NO_FLOW)]))
    ensures sta in s.stations && !s.stations[sta].agreed ==> Inv(c, s.(stations := s.stations - {sta}))
  {
    if sta !in s.stations || !s.stations[sta].agreed {
      forall k, x | 0 <= k < |s.table.slots|
        ensures InSlot(s.table.slots[k], x) <==>
                Agreed(s.(stations := s.stations[sta := Station(false, NO_FLOW)]), x, k)
        ensures InSlot(s.table.slots[k], x) <==> Agreed(s.(stations := s.stations - {sta}), x, k)
      {
        assert InSlot(s.table.slots[k], x) <==> Agreed(s, x, k);
      }
    }
  }

  // ---- runs -------------------------------------------------------------------------------

  /** What happens to a scheduler: `now`, idle limits and clock values come from outside. */
  datatype Event =
    | Start(idlePeriod: nat, tsf: nat, time: nat)
    | Period(newTime: nat)
    | Join(sta: nat)
    | Leave(sta: nat)
    | Setup(sta: nat, frame: SetupFrame, idle: nat, now: nat, gotNode: bool)
    | Teardown(sta: nat, flowid: nat)

  /** One event; a station that is not associated causes none of the per-station events. */
  function Step(c: Config, s: State, e: Event): (s': State)
    requires Inv(c, s)
    ensures Inv(c, s')
  {
    match e
    case Start(idlePeriod, tsf, time) =>
      StartKeepsInv(c, s, idlePeriod, tsf, time);
      SchedStart(c, s, idlePeriod, tsf, time)
    case Period(time) =>
      if s.started then
        KeepLists(c, s, s.(schedCount := s.schedCount + 1, time := time));
        s.(schedCount := s.schedCount + 1, time := time)
      else s
    case Join(sta) =>
      StationsKeepInv(c, s, sta);
      if sta in s.stations then s else s.(stations := s.stations[sta := Station(false, NO_FLOW)])
    case Leave(sta) =>
      if sta !in s.stations then s
      else
        TeardownKeepsInv(c, s, sta, 0);
        var s1 := EntryDel(s, sta, 0);
        StationsKeepInv(c, s1, sta);
        s1.(stations := s1.stations - {sta})
    case Setup(sta, f, idle, now, gotNode) =>
      if sta !in s.stations then s
      else
        SetupKeepsInv(c, s, sta, f, idle, now, gotNode);
        AddTwtSetup(c, s, sta, f, idle, now, gotNode).state
    case Teardown(sta, flowid) =>
      if sta !in s.stations then s
      else
        TeardownKeepsInv(c, s, sta, flowid);
        EntryDel(s, sta, flowid)
  }

  lemma StartKeepsInv(c: Config, s: State, idlePeriod: nat, tsf: nat, time: nat)
    requires Inv(c, s)
    ensures Inv(c, SchedStart(c, s, idlePeriod, tsf, time))
  {
    var s' := SchedStart(c, s, idlePeriod, tsf, time);
    if s' != s {
      forall k, x | 0 <= k < |s.table.slots|
        ensures InSlot(s'.table.slots[k], x) <==> Agreed(s', x, k)
      {
        assert InSlot(s.table.slots[k], x) <==> Agreed(s, x, k);
      }
    }
  }

  function EmptyTable(n: nat): Table {
    Table(0, 0, 0, seq(n, _ => Slot(0, 0, 0, [])))
  }

  /** The state nrc_twt_sched_init leaves. */
  function InitState(c: Config): (s: State)
    requires c.Valid()
    ensures Inv(c, s)
  {
    EmptyCounts(c.Slots());
    State(false, 0, 0, 0, EmptyTable(c.Slots()), map[], 0)
  }

  lemma {:induction false} EmptyCounts(n: nat)
    ensures SumSub(EmptyTable(n).slots) == 0 == SumFlows(EmptyTable(n).slots)
    ensures n > 0 ==> EmptyTable(n).slots[0].subNum == 0
  {
    if n > 0 {
      assert EmptyTable(n).slots[1..] == EmptyTable(n - 1).slots;
      EmptyCounts(n - 1);
    }
  }

  function Run(c: Config, s: State, events: seq<Event>): (s': State)
    requires Inv(c, s)
    ensures Inv(c, s')
    decreases events
  {
    if events == [] then s else Run(c, Step(c, s, events[0]), events[1..])
  }

  function Reached(c: Config, events: seq<Event>): (s: State)
    requires c.Valid()
    ensures Inv(c, s)
  {
    Run(c, InitState(c), events)
  }

  // ---- what every run guarantees ------------------------------------------------------------

  /**
   * The event reserves a slot and then finds no memory for its list node: a well-formed
   * request that is not dictated, from a station without an agreement, while a slot is free.
   */
  predicate LeaksAt(c: Config, s: State, e: Event)
    requires c.Valid()
  {
    && e.Setup? && !e.gotNode && s.started
    && e.sta in s.stations && !s.stations[e.sta].agreed
    && RequestOk(e.frame) && e.frame.flowid == 0
    && !GradeRequest(c.interval, e.frame.Interval(), BssMaxIdle(e.idle)).dictate
    && Choose(c, s.table).0.Some?
  }

  lemma StepLeaks(c: Config, s: State, e: Event)
    requires Inv(c, s)
    ensures Step(c, s, e).leaked == s.leaked + if LeaksAt(c, s, e) then 1 else 0
  {
    ChooseKeepsFilled(c, s.table);
  }

  /** How many events of the run leak a reservation. */
  function Leaks(c: Config, s: State, events: seq<Event>): nat
    requires Inv(c, s)
    decreases events
  {
    if events == [] then 0
    else (if LeaksAt(c, s, events[0]) then 1 else 0) + Leaks(c, Step(c, s, events[0]), events[1..])
  }

  lemma {:induction false} LeakedIsLeaks(c: Config, s: State, events: seq<Event>)
    requires Inv(c, s)
    ensures Run(c, s, events).leaked == s.leaked + Leaks(c, s, events)
    decreases events
  {
    if events != [] {
      StepLeaks(c, s, events[0]);
      LeakedIsLeaks(c, Step(c, s, events[0]), events[1..]);
    }
  }

  lemma {:induction false} RunPrefix(c: Config, s: State, events: seq<Event>, k: nat)
    requires Inv(c, s) && 0 < k <= |events|
    ensures Run(c, s, events[..k]) == Run(c, Step(c, s, events[0]), events[1..][..k - 1])
  {
    assert events[..k][0] == events[0] && events[..k][1..] == events[1..][..k - 1];
  }

  /** No event of the run leaks, in the state it comes in. */
  predicate NeverLeaks(c: Config, s: State, events: seq<Event>)
    requires Inv(c, s)
  {
    forall k :: 0 <= k < |events| ==> !LeaksAt(c, Run(c, s, events[..k]), events[k])
  }

  lemma {:induction false} NoLeaksIff(c: Config, s: State, events: seq<Event>)
    requires Inv(c, s)
    ensures Leaks(c, s, events) == 0 <==> NeverLeaks(c, s, events)
    decreases events
  {
    if events != [] {
      var s1, rest := Step(c, s, events[0]), events[1..];
      NoLeaksIff(c, s1, rest);
      assert Run(c, s, events[..0]) == s;
      forall k | 0 < k < |events|
        ensures Run(c, s, events[..k]) == Run(c, s1, rest[..k - 1]) && events[k] == rest[k - 1]
      {
        RunPrefix(c, s, events, k);
      }
      if NeverLeaks(c, s, events) {
        forall k | 0 <= k < |rest|
          ensures !LeaksAt(c, Run(c, s1, rest[..k]), rest[k])
        {
          assert !LeaksAt(c, Run(c, s, events[..k + 1]), events[k + 1]);
        }
      }
      if NeverLeaks(c, s1, rest) {
        forall k | 0 < k < |events|
          ensures !LeaksAt(c, Run(c, s, events[..k]), events[k])
        {
          assert !LeaksAt(c, Run(c, s1, rest[..k - 1]), rest[k - 1]);
        }
      }
    }
  }

  /**
   * In every run alloc_num is the sum of the sub_num counts, and exceeds the total list
   * length by exactly the number of events that leaked a reservation.
   */
  lemma CountsAgreeInEveryRun(c: Config, events: seq<Event>)
    requires c.Valid()
    ensures var t := Reached(c, events).table;
            t.allocNum == SumSub(t.slots) == SumFlows(t.slots) + Leaks(c, InitState(c), events)
  {
    LeakedIsLeaks(c, InitState(c), events);
  }

  /** The counts and the lists agree, slot by slot, if and only if no event of the run leaked. */
  lemma CountsAgreeIffNoLeak(c: Config, events: seq<Event>)
    requires c.Valid()
    ensures var t := Reached(c, events).table;
            && (t.allocNum == SumFlows(t.slots) <==> NeverLeaks(c, InitState(c), events))
            && ((forall i :: 0 <= i < |t.slots| ==> t.slots[i].subNum == |t.slots[i].flows|) <==>
                NeverLeaks(c, InitState(c), events))
  {
    var t := Reached(c, events).table;
    CountsAgreeInEveryRun(c, events);
    NoLeaksIff(c, InitState(c), events);
    EqualSums(t.slots);
  }

  lemma {:induction false} EqualSums(slots: seq<Slot>)
    requires forall i :: 0 <= i < |slots| ==> |slots[i].flows| <= slots[i].subNum
    ensures SumFlows(slots) <= SumSub(slots)
    ensures SumFlows(slots) == SumSub(slots) <==> forall i :: 0 <= i < |slots| ==> slots[i].subNum == |slots[i].flows|
  {
    if slots != [] {
      var rest := slots[1..];
      EqualSums(rest);
      assert |slots[0].flows| <= slots[0].subNum;
      assert forall i :: 0 < i < |slots| ==> slots[i] == rest[i - 1];
      assert (forall i :: 0 <= i < |slots| ==> slots[i].subNum == |slots[i].flows|) ==>
             forall i :: 0 <= i < |rest| ==> rest[i].subNum == |rest[i].flows|;
    }
  }

  /** Position j of slot i's list belongs to the station. */
  predicate Holds(t: Table, i: nat, j: nat, sta: nat) {
    i < |t.slots| && j < |t.slots[i].flows| && t.slots[i].flows[j].sta == sta
  }

  /**
   * In every run a station's mask bit is set exactly when some list holds it, and then it
   * is held once over all lists, in the slot its flow points to.
   */
  lemma MaskIffExactlyOneEntry(c: Config, events: seq<Event>, sta: nat)
    requires c.Valid()
    ensures var s := Reached(c, events);
            && ((sta in s.stations && s.stations[sta].agreed) <==> exists i: nat, j: nat :: Holds(s.table, i, j, sta))
            && forall i: nat, j: nat, i': nat, j': nat :: Holds(s.table, i, j, sta) && Holds(s.table, i', j', sta) ==>
                 i == i' && j == j' && s.stations[sta].flow.entry == Some(i)
  {
    var s := Reached(c, events);
    forall i: nat, j: nat | Holds(s.table, i, j, sta)
      ensures Agreed(s, sta, i)
    {
      assert InSlot(s.table.slots[i], sta);
    }
    if sta in s.stations && s.stations[sta].agreed {
      assert FlowOk(c, s, s.stations[sta].flow);
      var i := s.stations[sta].flow.entry.value;
      assert InSlot(s.table.slots[i], sta);
      var j :| 0 <= j < |s.table.slots[i].flows| && s.table.slots[i].flows[j].sta == sta;
      assert Holds(s.table, i, j, sta);
    }
    forall i: nat, j: nat, i': nat, j': nat | Holds(s.table, i, j, sta) && Holds(s.table, i', j', sta)
      ensures i == i' && j == j' && s.stations[sta].flow.entry == Some(i)
    {
      assert Agreed(s, sta, i) && Agreed(s, sta, i');
      assert NoRepeats(s.table.slots[i].flows);
    }
  }

  /** The k-th service window of a station's agreed flow. */
  function WindowStart(f: Flow, k: nat): int {
    f.twt + f.Interval() * k
  }

  lemma WindowsOnGrid(c: Config, s: State, sta: nat, k: nat)
    requires Inv(c, s) && sta in s.stations && s.stations[sta].agreed
    ensures var f := s.stations[sta].flow;
            f.entry.Some? && IsSlotTime(s.startTsf, c.interval, c.sp, f.entry.value, WindowStart(f, k))
  {
    var f := s.stations[sta].flow;
    assert FlowOk(c, s, f);
    var k2 := f.exp - c.exponent;
    PeriodIsMultiple(c, k2);
    WakesStayOnGrid(s.startTsf, c.interval, c.sp, f.entry.value, f.twt, Pow2(k2), k);
  }

  lemma PeriodIsMultiple(c: Config, k: nat)
    requires c.Valid()
    ensures Shl(c.mantissa, c.exponent + k) == c.interval * Pow2(k)
  {
    ShlIsMul(c.mantissa, c.exponent + k);
    ShlIsMul(c.mantissa, c.exponent);
    Pow2Add(c.exponent, k);
    Regroup(c.mantissa, Pow2(c.exponent), Pow2(k));
  }

  /**
   * When the slots fit the interval, the service windows of two stations in different
   * slots never overlap: in every reachable state, for every repetition of both.
   */
  lemma AgreedWindowsNeverOverlap(c: Config, events: seq<Event>, a: nat, b: nat, n: nat, k: nat)
    requires c.Valid() && c.Slots() * c.sp <= c.interval
    requires var s := Reached(c, events);
             && a in s.stations && s.stations[a].agreed && b in s.stations && s.stations[b].agreed
             && s.stations[a].flow.entry != s.stations[b].flow.entry
    ensures var s := Reached(c, events);
            !Overlap(WindowStart(s.stations[a].flow, n), WindowStart(s.stations[b].flow, k), c.sp)
  {
    var s := Reached(c, events);
    var f, g := s.stations[a].flow, s.stations[b].flow;
    WindowsOnGrid(c, s, a, n);
    WindowsOnGrid(c, s, b, k);
    assert FlowOk(c, s, f) && FlowOk(c, s, g);
    var i, j := f.entry.value, g.entry.value;
    var x: nat :| WindowStart(f, n) == SlotTime(s.startTsf, c.interval, c.sp, i, x);
    var y: nat :| WindowStart(g, k) == SlotTime(s.startTsf, c.interval, c.sp, j, y);
    if i < j {
      DifferentSlotsApart(s.startTsf, c.interval, c.sp, c.Slots(), i, j, x, y);
    } else {
      DifferentSlotsApart(s.startTsf, c.interval, c.sp, c.Slots(), j, i, y, x);
    }
  }

  /** FCFS never exceeds max_num_in_group, in any run. */
  lemma FcfsWithinCapacity(c: Config, events: seq<Event>)
    requires c.Valid() && c.algo == Fcfs
    ensures WithinCapacity(c, Reached(c, events).table)
  {
    assert Filled(c, Reached(c, events).table);
  }

  predicate AddOnly(events: seq<Event>) {
    forall e | e in events :: !e.Teardown? && !e.Leave?
  }

  lemma StepKeepsEven(c: Config, s: State, e: Event)
    requires Inv(c, s) && c.algo == Balanced && Even(c, s.table)
    requires !e.Teardown? && !e.Leave?
    ensures Even(c, Step(c, s, e).table)
  {
    if e.Setup? && e.sta in s.stations && RequestOk(e.frame) {
      match GetFlow(s.stations[e.sta], e.frame) {
        case Refused =>
        case Same =>
        case Fresh(flow) =>
          OccupyKeepsEven(c, s.table,
                          GradeRequest(c.interval, flow.Interval(), BssMaxIdle(e.idle)).multi);
      }
    }
  }

  lemma {:induction false} EvenRun(c: Config, s: State, events: seq<Event>)
    requires Inv(c, s) && c.algo == Balanced && Even(c, s.table) && AddOnly(events)
    ensures Even(c, Run(c, s, events).table)
    decreases events
  {
    if events != [] {
      StepKeepsEven(c, s, events[0]);
      EvenRun(c, Step(c, s, events[0]), events[1..]);
    }
  }

  /**
   * Until the first teardown or departure, Balanced keeps all slots within one of each
   * other and within capacity.
   */
  lemma BalancedAddOnlyIsEven(c: Config, events: seq<Event>)
    requires c.Valid() && c.algo == Balanced && AddOnly(events)
    ensures var t := Reached(c, events).table;
            && WithinCapacity(c, t)
            && forall i, j :: 0 <= i < |t.slots| && 0 <= j < |t.slots| ==> t.slots[i].subNum <= t.slots[j].subNum + 1
  {
    EvenRun(c, InitState(c), events);
  }

  /** min_num_in_group never exceeds a load and trails the least load by at most one. */
  lemma MinimumTracksLoads(c: Config, events: seq<Event>)
    requires c.Valid() && c.algo == Balanced
    ensures var t := Reached(c, events).table;
            && (forall i :: 0 <= i < |t.slots| ==> t.minNum <= t.slots[i].subNum)
            && (c.Slots() > 0 ==> exists i :: 0 <= i < |t.slots| && t.slots[i].subNum <= t.minNum + 1)
  {
    assert Filled(c, Reached(c, events).table);
  }

  // ---- what one call undoes or leaves alone ---------------------------------------------------

  /** A setup for a station that already has an agreement changes nothing. */
  lemma RepeatedSetupIsInert(c: Config, s: State, sta: nat, f: SetupFrame, idle: nat, now: nat, gotNode: bool)
    requires Inv(c, s) && sta in s.stations && s.stations[sta].agreed
    ensures AddTwtSetup(c, s, sta, f, idle, now, gotNode).state == s
  {
  }

  /**
   * A station that repeats the request it got ACCEPT for is accepted again exactly when it
   * wrote the interval with the scheduler's own mantissa; any other spelling of the same
   * interval is now rejected.
   */
  lemma RepeatAcceptedIff(c: Config, s: State, sta: nat, f: SetupFrame, idle: nat, now: nat, now': nat, gotNode: bool)
    requires Inv(c, s) && sta in s.stations && !s.stations[sta].agreed && f.Valid()
    requires AddTwtSetup(c, s, sta, f, idle, now, true).frame.cmd == Accept
    ensures var s1 := AddTwtSetup(c, s, sta, f, idle, now, true).state;
            && sta in s1.stations && |s1.table.slots| > 0
            && var again := AddTwtSetup(c, s1, sta, f, idle, now', gotNode);
               && again.state == s1
               && (again.frame.cmd == Accept <==> f.mantissa == c.mantissa)
               && (again.frame.cmd != Accept ==> again.frame.cmd == Reject)
  {
    SetupKeepsInv(c, s, sta, f, idle, now, true);
    var s1 := AddTwtSetup(c, s, sta, f, idle, now, true).state;
    AnswerMeaning(c, s, sta, f, idle, now, true);
    assert FlowOk(c, s1, s1.stations[sta].flow);
    RepeatedSetupIsInert(c, s1, sta, f, idle, now', gotNode);
    if f.mantissa == c.mantissa {
      AcceptedSpelling(c, f, s1.stations[sta].flow, BssMaxIdle(idle));
    }
  }

  /** An accepted request with the scheduler's mantissa has the exponent that is then stored. */
  lemma AcceptedSpelling(c: Config, f: SetupFrame, flow: Flow, idle: nat)
    requires c.Valid() && f.mantissa == c.mantissa == flow.mantissa
    requires var g := GradeRequest(c.interval, f.Interval(), idle);
             !g.dictate && flow.exp == c.exponent + Log2(g.multi) && flow.Interval() == Offered(c, g.multi)
    ensures f.exp == flow.exp
  {
    MantissaPositive(c.mantissa, c.exponent);
    ShlNonNeg(c.mantissa, f.exp);
    GradedExactly(c.interval, f.Interval(), idle);
    SameShift(c.mantissa, f.exp, flow.exp);
  }

  lemma MantissaPositive(m: nat, e: nat)
    requires Shl(m, e) > 0
    ensures m > 0
  {
    ShlIsMul(m, e);
  }

  lemma GradedExactly(base: nat, requested: nat, idle: nat)
    requires base > 0 && requested > 0 && !GradeRequest(base, requested, idle).dictate
    ensures var m := GradeRequest(base, requested, idle).multi; m > 0 && requested == base * m
  {
    GradeMeaning(base, requested, idle);
    var m := GradeRequest(base, requested, idle).multi;
    assert base * m == m * base;
  }

  lemma ShlGrows(m: nat, a: nat, b: nat)
    requires m > 0 && a < b
    ensures Shl(m, a) < Shl(m, b)
  {
    ShlIsMul(m, a);
    ShlIsMul(m, b);
    Pow2Mono(a + 1, b);
    Above(m, Pow2(a), Pow2(b));
  }

  lemma Above(m: nat, p: nat, q: nat)
    requires m > 0 && 0 < p < q
    ensures m * p < m * q
  {
    MulMono(p + 1, q, m);
    assert (p + 1) * m == p * m + m && m * p == p * m && m * q == q * m;
  }

  /** A mantissa above zero denotes different intervals with different exponents. */
  lemma SameShift(m: nat, a: nat, b: nat)
    requires m > 0 && Shl(m, a) == Shl(m, b)
    ensures a == b
  {
    if a < b {
      ShlGrows(m, a, b);
    } else if b < a {
      ShlGrows(m, b, a);
    }
  }

  /** Setup followed by that station's teardown restores all counts and lists. */
  lemma TeardownUndoesSetup(c: Config, s: State, sta: nat, f: SetupFrame, idle: nat, now: nat)
    requires Inv(c, s) && sta in s.stations && !s.stations[sta].agreed
    requires AddTwtSetup(c, s, sta, f, idle, now, true).frame.cmd == Accept
    ensures var s1 := AddTwtSetup(c, s, sta, f, idle, now, true).state;
            && sta in s1.stations && s1.stations[sta].agreed && Releasable(s1, sta)
            && var s2 := EntryDel(s1, sta, 0);
               && s2.table.allocNum == s.table.allocNum && |s2.table.slots| == |s.table.slots|
               && !s2.stations[sta].agreed
               && (forall i :: 0 <= i < |s.table.slots| ==>
                     && s2.table.slots[i].subNum == s.table.slots[i].subNum
                     && s2.table.slots[i].flows == s.table.slots[i].flows)
               && (forall x | x in s.stations && x != sta :: x in s2.stations && s2.stations[x] == s.stations[x])
  {
    SetupKeepsInv(c, s, sta, f, idle, now, true);
    var s1 := AddTwtSetup(c, s, sta, f, idle, now, true).state;
    InvMakesReleasable(c, s1, sta);
    var i, m, multi := AcceptedTable(c, s, sta, f, idle, now);
    ReleaseUndoesEnlist(Occupy(c, s.table, i, m, multi), i, FlowEntry(f.flowid, sta));
  }

  /** ACCEPT reserves one slot and enlists the station there. */
  lemma AcceptedTable(c: Config, s: State, sta: nat, f: SetupFrame, idle: nat, now: nat)
    returns (i: nat, m: nat, multi: nat)
    requires Inv(c, s) && sta in s.stations && !s.stations[sta].agreed
    requires AddTwtSetup(c, s, sta, f, idle, now, true).frame.cmd == Accept
    ensures Choose(c, s.table) == (Some(i), m) && i < |s.table.slots|
    ensures var s1 := AddTwtSetup(c, s, sta, f, idle, now, true).state;
            && s1.table == Enlist(Occupy(c, s.table, i, m, multi), i, FlowEntry(f.flowid, sta))
            && sta in s1.stations && s1.stations == s.stations[sta := s1.stations[sta]]
            && s1.stations[sta].agreed && s1.stations[sta].flow.entry == Some(i) && s1.started
  {
    ChooseKeepsFilled(c, s.table);
    i, m := Choose(c, s.table).0.value, Choose(c, s.table).1;
    multi := GradeRequest(c.interval, f.Interval(), BssMaxIdle(idle)).multi;
  }

  lemma ReleaseUndoesEnlist(t: Table, i: nat, e: FlowEntry)
    requires i < |t.slots| && t.slots[i].subNum > 0 && t.allocNum > 0
    requires NoRepeats(t.slots[i].flows + [e])
    ensures var u := ClearMulti(Release(Enlist(t, i, e), i, e.sta), i);
            && u.allocNum == t.allocNum - 1 && |u.slots| == |t.slots|
            && u.slots[i].subNum == t.slots[i].subNum - 1
            && forall k :: 0 <= k < |t.slots| ==>
                 u.slots[k].flows == t.slots[k].flows && (k != i ==> u.slots[k].subNum == t.slots[k].subNum)
  {
    var flows := t.slots[i].flows;
    assert (flows + [e])[|flows|] == e;
    IndexFound(flows + [e], e.sta, |flows|);
    assert Unlist(flows + [e], |flows|) == flows;
  }

  /** DICTATE leaves the table and every other station as they were. */
  lemma DictateKeepsOccupancy(c: Config, s: State, sta: nat, f: SetupFrame, idle: nat, now: nat, gotNode: bool)
    requires Inv(c, s) && sta in s.stations
    ensures var r := AddTwtSetup(c, s, sta, f, idle, now, gotNode);
            r.frame.cmd == Dictate ==>
              && r.state.table == s.table && r.state.leaked == s.leaked
              && !r.state.stations[sta].agreed
              && (forall x | x in s.stations && x != sta :: r.state.stations[x] == s.stations[x])
  {
    ChooseKeepsFilled(c, s.table);
  }
}
