/**
 The AP's TWT responder as the driver runs it: fields updated in place, loops over the
 slot array and the lists (nrc-twt-sched.c, nrc-mac80211-twt.c).  Each method is proved
 to move the state exactly as the functions of TwtScheduler say, so everything proved
 about runs holds of this code.
 */
module TwtResponder {
  import opened Common
  import opened TwtInterval
  import opened TwtScheduler
  import opened TwtRuns

  class Responder {
    const config: Config
    var started: bool
    var startTsf: nat
    var schedCount: nat
    var time: nat
    var allocNum: nat
    var allocIndex: nat
    var minNum: nat
    const entries: array<Slot>
    var stations: map<nat, Station>
    ghost var leaked: nat

    ghost function Allocator(): Table
      reads this, entries
    {
      Table(allocNum, allocIndex, minNum, entries[..])
    }

    ghost function View(): State
      reads this, entries
    {
      State(started, startTsf, schedCount, time, Allocator(), stations, leaked)
    }

    ghost predicate Valid()
      reads this, entries
    {
      Inv(config, View())
    }

    constructor (c: Config)
      requires c.Valid()
      ensures config == c && View() == InitState(c) && fresh(entries)
      ensures !started && schedCount == 0 && stations == map[] && allocNum == allocIndex == minNum == 0
      ensures forall i :: 0 <= i < entries.Length ==> entries[i] == Slot(0, 0, 0, [])
    {
      config := c;
      started, startTsf, schedCount, time := false, 0, 0, 0;
      allocNum, allocIndex, minNum, leaked := 0, 0, 0, 0;
      entries := new Slot[c.Slots()](_ => Slot(0, 0, 0, []));
      stations := map[];
      new;
      assert entries[..] == EmptyTable(c.Slots()).slots;
    }

    /** The search loop of find_unused_twt_entry; Choosable is the test of either algorithm. */
    method Scan() returns (i: nat)
      ensures i == FirstChoice(config, minNum, entries[..], 0)
    {
      i := 0;
      while i < entries.Length && !Choosable(config, minNum, entries[i])
        invariant 0 <= i <= entries.Length
        invariant FirstChoice(config, minNum, entries[..], 0) == FirstChoice(config, minNum, entries[..], i)
      {
        i := i + 1;
      }
    }

    /** find_unused_twt_entry */
    method FindUnusedEntry(multi: nat) returns (found: Option<nat>)
      requires config.Valid() && entries.Length == config.Slots()
      modifies this`allocNum, this`allocIndex, this`minNum, entries
      ensures found == old(Choose(config, Allocator())).0
      ensures found.None? ==> Allocator() == old(Allocator().(minNum := Choose(config, Allocator()).1))
      ensures found.Some? ==> found.value < entries.Length
      ensures found.Some? ==>
                var minNum' := old(Choose(config, Allocator())).1;
                Allocator() == Occupy(config, old(Allocator()), found.value, minNum', multi)
    {
      if config.algo == Balanced && minNum >= config.maxInGroup {
        return None;
      }
      var i := Scan();
      if i == entries.Length {
        if config.algo == Fcfs {
          return None;
        }
        minNum := minNum + 1;
        if minNum >= config.maxInGroup {
          return None;
        }
        i := 0;
      }
      TakeEntry(i, multi);
      return Some(i);
    }

    /** The code at the label `found`. */
    method TakeEntry(i: nat, multi: nat)
      requires i < entries.Length
      modifies this`allocNum, this`allocIndex, entries
      ensures Allocator() == Occupy(config, old(Allocator()), i, minNum, multi)
    {
      allocIndex := entries.Length * minNum + i + 1;
      allocNum := allocNum + 1;
      entries[i] := entries[i].(index := i, multi := multi, subNum := entries[i].subNum + 1);
    }

    /** The grading part of nrc_twt_sched_entry_add, up to the search for a slot. */
    method GradeFlow(flowInterval: nat, idlePeriod: nat) returns (dictate: bool, multi: nat)
      requires config.Valid()
      ensures Grade(dictate, multi) == GradeRequest(config.interval, flowInterval, BssMaxIdle(idlePeriod))
    {
      var interval := config.interval;
      var remain := flowInterval % interval;
      multi := flowInterval / interval;
      dictate := false;
      var idle := BssMaxIdle(idlePeriod);
      if idle != 0 && idle < flowInterval {
        var left: int := flowInterval;
        while multi > 1
          invariant IdleCap(multi, left, interval, idle) ==
                    IdleCap(flowInterval / interval, flowInterval, interval, idle)
        {
          multi := multi - 1;
          left := left - interval;
          if left <= idle {
            break;
          }
        }
        dictate := true;
      }
      if multi > MAX_MULTI {
        return true, MAX_MULTI;
      }
      ghost var capped := multi;
      while multi > 1 && (multi as bv4) & ((multi - 1) as bv4) != 0
        invariant multi <= capped <= MAX_MULTI
        invariant FloorPow2(multi) == FloorPow2(capped)
        invariant multi < capped ==> dictate
        invariant dictate ==> multi < capped || (idle != 0 && idle < flowInterval)
        invariant idle != 0 && idle < flowInterval ==> dictate
      {
        PowersOfTwo(multi);
        multi := multi - 1;
        dictate := true;
      }
      if multi > 1 {
        PowersOfTwo(multi);
      }
      if !dictate && remain != 0 {
        dictate := true;
      }
    }

    /** The loop that turns the multiple into an exponent. */
    method Exponent(multi: nat) returns (exp: nat)
      ensures exp == config.exponent + Log2(multi)
    {
      exp := config.exponent;
      var m := multi;
      while m > 1
        invariant exp + Log2(m) == config.exponent + Log2(multi)
      {
        exp := exp + 1;
        m := m / 2;
      }
    }

    /** get_next_twt */
    method NextTwtOf(index: nat, now: nat) returns (twt: nat)
      ensures twt == NextTwt(config, View(), index, now)
    {
      var baseTsf := startTsf + config.interval * schedCount;
      var offset := index * config.sp;
      var interval := 0;
      if now + OP_DELAY > time + offset {
        interval := config.interval;
      }
      twt := baseTsf + interval + offset;
    }

    /** nrc_twt_sched_entry_add */
    method SchedEntryAdd(sta: nat, idlePeriod: nat, now: nat, gotNode: bool) returns (ret: int)
      requires config.Valid() && entries.Length == config.Slots() && sta in stations && !stations[sta].agreed
      modifies this, entries
      ensures Outcome(ret, View()) == old(EntryAdd(config, View(), sta, idlePeriod, now, gotNode))
    {
      if !started {
        return -1;
      }
      var flow := stations[sta].flow;
      var dictate, multi := GradeFlow(flow.Interval(), idlePeriod);
      ret := 1;
      if !dictate {
        ret, flow := PlaceFlow(sta, flow, multi, now, gotNode);
      }
      var exp := Exponent(multi);
      stations := stations[sta := Station(ret == 0, flow.(mantissa := config.mantissa, exp := exp))];
    }

    /** The middle of nrc_twt_sched_entry_add: reserve a slot, enlist the station, set its wake time. */
    method PlaceFlow(sta: nat, f: Flow, multi: nat, now: nat, gotNode: bool) returns (ret: int, flow: Flow)
      requires config.Valid() && entries.Length == config.Slots()
      modifies this`allocNum, this`allocIndex, this`minNum, this`leaked, entries
      ensures var (choice, m) := old(Choose(config, Allocator()));
        match choice
        case None => ret == -1 && flow == f && leaked == old(leaked) && Allocator() == old(Allocator()).(minNum := m)
        case Some(i) =>
          && i < entries.Length
          && var t := Occupy(config, old(Allocator()), i, m, multi);
             if gotNode then
               && ret == 0 && flow == f.(entry := Some(i), twt := NextTwt(config, old(View()), i, now))
               && leaked == old(leaked) && Allocator() == Enlist(t, i, FlowEntry(f.id, sta))
             else
               ret == -1 && flow == f && leaked == old(leaked) + 1 && Allocator() == t
    {
      flow := f;
      var e := FindUnusedEntry(multi);
      if e.None? {
        return -1, flow;
      }
      if !gotNode {
        leaked := leaked + 1;
        return -1, flow;
      }
      var i := e.value;
      entries[i] := entries[i].(flows := entries[i].flows + [FlowEntry(flow.id, sta)]);
      var twt := NextTwtOf(i, now);
      return 0, flow.(entry := Some(i), twt := twt);
    }

    /** nrc_mac_twt_flow_get: the flow to use, and whether it is a fresh request. */
    method FlowGetFor(sta: nat, f: SetupFrame) returns (usable: bool, again: bool)
      requires sta in stations
      modifies this`stations
      ensures match old(GetFlow(stations[sta], f))
              case Refused => !usable && !again && stations == old(stations)
              case Same => usable && again && stations == old(stations)
              case Fresh(flow) =>
                usable && !again && stations == old(stations)[sta := Station(old(stations[sta]).agreed, flow)]
    {
      if f.flowid > 0 {
        return false, false;
      }
      var st := stations[sta];
      if st.agreed {
        if st.flow.duration == f.duration && st.flow.mantissa == f.mantissa && st.flow.exp == f.exp {
          return true, true;
        }
        return false, false;
      }
      var flow := NO_FLOW.(id := f.flowid, duration := f.duration, mantissa := f.mantissa, exp := f.exp);
      stations := stations[sta := st.(flow := flow)];
      return true, false;
    }

    /** nrc_mac_add_twt_setup: the frame comes back rewritten. */
    method MacAddTwtSetup(sta: nat, f: SetupFrame, idlePeriod: nat, now: nat, gotNode: bool)
      returns (answer: SetupFrame)
      requires Valid() && sta in stations
      modifies this, entries
      ensures Response(View(), answer) == old(AddTwtSetup(config, View(), sta, f, idlePeriod, now, gotNode))
      ensures Valid()
    {
      SetupKeepsInv(config, View(), sta, f, idlePeriod, now, gotNode);
      answer := f;
      var cmd := Reject;
      if RequestOk(f) {
        ghost var s0 := View();
        var usable, again := FlowGetFor(sta, f);
        if usable {
          var ret := 0;
          if !again {
            assert View() == s0.WithFlow(sta, GetFlow(s0.stations[sta], f).flow);
            ret := SchedEntryAdd(sta, idlePeriod, now, gotNode);
          }
          if ret == 0 {
            cmd := Accept;
            answer := answer.(twt := stations[sta].flow.twt);
          } else if ret == 1 {
            cmd := Dictate;
            answer := answer.(mantissa := stations[sta].flow.mantissa, exp := stations[sta].flow.exp % 32);
          }
        }
      }
      answer := answer.(cmd := cmd);
    }

    /** nrc_twt_sched_entry_del, reached from nrc_mac_twt_teardown_request. */
    method SchedEntryDel(sta: nat, flowid: nat)
      requires Valid() && sta in stations
      modifies this, entries
      ensures old(Releasable(View(), sta))
      ensures View() == old(EntryDel(View(), sta, flowid))
      ensures Valid()
    {
      TeardownKeepsInv(config, View(), sta, flowid);
      InvMakesReleasable(config, View(), sta);
      if !started || flowid >= 1 || !stations[sta].agreed {
        return;
      }
      var i := stations[sta].flow.entry.value;
      ReleaseEntry(i, sta);
      stations := stations[sta := stations[sta].(agreed := false)];
      if entries[i].subNum == 0 {
        entries[i] := entries[i].(multi := 0);
      }
    }

    /** The search of the slot's list for the station's node, and its removal. */
    method ReleaseEntry(i: nat, sta: nat)
      requires i < entries.Length && entries[i].subNum > 0 && allocNum > 0
      modifies this`allocNum, this`minNum, entries
      ensures Allocator() == Release(old(Allocator()), i, sta)
    {
      var flows := entries[i].flows;
      var j := 0;
      while j < |flows| && flows[j].sta != sta
        invariant 0 <= j <= |flows|
        invariant IndexOf(flows, sta) == j + IndexOf(flows[j..], sta)
      {
        assert flows[j..][1..] == flows[j + 1..];
        j := j + 1;
      }
      if j < |flows| {
        allocNum := allocNum - 1;
        entries[i] := entries[i].(subNum := entries[i].subNum - 1, flows := flows[..j] + flows[j + 1..]);
        if entries[i].subNum < minNum {
          minNum := entries[i].subNum;
        }
      }
    }

    /** nrc_twt_sched_start */
    method SchedStartUp(idlePeriod: nat, tsf: nat, now: nat)
      requires Valid()
      modifies this
      ensures View() == old(SchedStart(config, View(), idlePeriod, tsf, now))
      ensures Valid()
    {
      StartKeepsInv(config, View(), idlePeriod, tsf, now);
      var idle := BssMaxIdle(idlePeriod);
      if started || (idle != 0 && idle < config.interval) || tsf == 0 {
        return;
      }
      startTsf, time, schedCount := tsf, now, 0;
      started := true;
    }

    /** get_tsf_worker, once per interval while started */
    method NextPeriod(now: nat)
      requires Valid()
      modifies this`schedCount, this`time
      ensures View() == old(Step(config, View(), Period(now)))
      ensures Valid()
    {
      ghost var s := Step(config, View(), Period(now));
      if started {
        schedCount := schedCount + 1;
        time := now;
      }
      assert View() == s;
    }
  }

  /** The source's bit test for a power of two, on the values it is applied to. */
  lemma PowersOfTwo(n: nat)
    requires 1 < n <= 8
    ensures (n as bv4) & ((n - 1) as bv4) == 0 <==> n in {2, 4, 8}
  {
    if n == 2 {
    } else if n == 3 {
    } else if n == 4 {
    } else if n == 5 {
    } else if n == 6 {
    } else if n == 7 {
    } else {
    }
  }
}
