/**
 What the AP's TWT scheduler and setup handler do to their state
 (nrc-twt-sched.c, nrc-mac80211-twt.c), as functions on values.  The class in
 TwtResponder is proved to do the same step by step; TwtRuns and TwtNegotiation prove
 what these functions guarantee.
 */
module TwtScheduler {
  import opened Arith
  import opened Common
  import opened TwtInterval

  const MAX_MULTI: nat := 8
  const OP_DELAY: nat := 1_000_000

  /** One station's membership of a slot's list. */
  datatype FlowEntry = FlowEntry(id: nat, sta: nat)

  /** struct twt_sched_entry: subNum is the source's own count of the list. */
  datatype Slot = Slot(index: nat, multi: nat, subNum: nat, flows: seq<FlowEntry>)

  /** The allocator's part of struct nrc_twt_sched. */
  datatype Table = Table(allocNum: nat, allocIndex: nat, minNum: nat, slots: seq<Slot>)

  /** struct nrc_twt_flow; `entry` is the index of the slot pointed to. */
  datatype Flow = Flow(id: nat, duration: nat, mantissa: nat, exp: nat, twt: nat, entry: Option<nat>)
  {
    function Interval(): nat {
      ShlNonNeg(mantissa, exp);
      Shl(mantissa, exp)
    }
  }

  /** struct nrc_twt for one flow per station: `agreed` is bit 0 of flowid_mask. */
  datatype Station = Station(agreed: bool, flow: Flow)

  const NO_FLOW := Flow(0, 0, 0, 0, 0, None)

  /** `leaked` counts entries reserved by a setup whose list node could not be allocated. */
  datatype State = State(started: bool, startTsf: nat, schedCount: nat, time: nat,
                         table: Table, stations: map<nat, Station>, leaked: nat)
  {
    function WithFlow(sta: nat, flow: Flow): State
      requires sta in stations
    {
      this.(stations := stations[sta := stations[sta].(flow := flow)])
    }
  }

  datatype Command = Request | Suggest | Demand | Grouping | Accept | Alternate | Dictate | Reject

  /** The fields of a TWT setup frame that the AP reads and rewrites in place. */
  datatype SetupFrame = SetupFrame(implicit: bool, cmd: Command, flowid: nat, exp: nat,
                                   mantissa: nat, duration: nat, twt: nat)
  {
    predicate Valid() {
      flowid < 8 && Representable(mantissa, exp) && duration < 256
    }

    function Interval(): nat {
      ShlNonNeg(mantissa, exp);
      Shl(mantissa, exp)
    }
  }

  // ---- slot allocation --------------------------------------------------------------

  /** The test of find_unused_twt_entry's loop for the configured algorithm. */
  predicate Choosable(c: Config, minNum: nat, slot: Slot) {
    if c.algo == Balanced then slot.subNum == minNum else slot.subNum < c.maxInGroup
  }

  function FirstChoice(c: Config, minNum: nat, slots: seq<Slot>, i: nat): (r: nat)
    requires i <= |slots|
    ensures i <= r <= |slots|
    ensures r < |slots| ==> Choosable(c, minNum, slots[r])
    ensures forall j | i <= j < r :: !Choosable(c, minNum, slots[j])
    decreases |slots| - i
  {
    if i == |slots| || Choosable(c, minNum, slots[i]) then i else FirstChoice(c, minNum, slots, i + 1)
  }

  /**
   * The slot find_unused_twt_entry picks, and min_num_in_group afterwards.  The Balanced
   * fallback picks slot 0 even of an empty table.
   */
  function Choose(c: Config, t: Table): (Option<nat>, nat) {
    var i := FirstChoice(c, t.minNum, t.slots, 0);
    match c.algo
    case Balanced =>
      if t.minNum >= c.maxInGroup then (None, t.minNum)
      else if i < |t.slots| then (Some(i), t.minNum)
      else if t.minNum + 1 < c.maxInGroup then (Some(0), t.minNum + 1)
      else (None, t.minNum + 1)
    case Fcfs =>
      if i < |t.slots| then (Some(i), t.minNum) else (None, t.minNum)
  }

  /** The bookkeeping at the label `found`. */
  function Occupy(c: Config, t: Table, i: nat, minNum: nat, multi: nat): Table
    requires i < |t.slots|
  {
    Table(t.allocNum + 1, |t.slots| * minNum + i + 1, minNum,
          t.slots[i := t.slots[i].(index := i, multi := multi, subNum := t.slots[i].subNum + 1)])
  }

  function Enlist(t: Table, i: nat, e: FlowEntry): Table
    requires i < |t.slots|
  {
    t.(slots := t.slots[i := t.slots[i].(flows := t.slots[i].flows + [e])])
  }

  /** get_next_twt, using the clock (USE_TSF_FOR_NEXT_TWT is not defined). */
  function NextTwt(c: Config, s: State, index: nat, now: nat): nat {
    var base := s.startTsf + c.interval * s.schedCount;
    var offset := index * c.sp;
    var late := now + OP_DELAY > s.time + offset;
    base + (if late then c.interval else 0) + offset
  }

  // ---- grading a requested interval ---------------------------------------------------

  /** idle_period counts 1000 TU of 1024 microseconds; 0 means no limit. */
  function BssMaxIdle(idlePeriod: nat): nat {
    idlePeriod * 1024 * 1000
  }

  /** The loop that shortens a multiple until the flow fits BSS max idle. */
  function IdleCap(multi: nat, flow: int, interval: nat, idle: nat): nat {
    if multi <= 1 then multi
    else if flow - interval <= idle then multi - 1
    else IdleCap(multi - 1, flow - interval, interval, idle)
  }

  function FloorPow2(n: nat): nat {
    if n >= 8 then 8 else if n >= 4 then 4 else if n >= 2 then 2 else n
  }

  function Log2(n: nat): nat {
    if n <= 1 then 0 else 1 + Log2(n / 2)
  }

  datatype Grade = Grade(dictate: bool, multi: nat)

  /** Whether the request must be answered with other parameters, and the multiple offered. */
  function GradeRequest(interval: nat, flow: nat, idle: nat): Grade
    requires interval > 0
  {
    var limited := idle != 0 && idle < flow;
    var capped := if limited then IdleCap(flow / interval, flow, interval, idle) else flow / interval;
    if capped > MAX_MULTI then
      Grade(true, MAX_MULTI)
    else
      var multi := FloorPow2(capped);
      Grade(limited || multi != capped || flow % interval != 0, multi)
  }

  // ---- setup --------------------------------------------------------------------------

  /** The flow fields nrc_twt_sched_entry_add rewrites at its label `done`. */
  function Rewritten(c: Config, flow: Flow, multi: nat): Flow {
    flow.(mantissa := c.mantissa, exp := c.exponent + Log2(multi))
  }

  /** Faulted: the kernel divides by zero or writes past the table. */
  datatype Outcome = Outcome(ret: int, state: State) | Faulted

  /** nrc_twt_sched_entry_add on the flow stored for `sta`. */
  function EntryAdd(c: Config, s: State, sta: nat, idlePeriod: nat, now: nat, gotNode: bool): (o: Outcome)
    requires sta in s.stations
    ensures c.Valid() && |s.table.slots| == c.Slots() ==> o.Outcome?
    ensures o.Outcome? ==> sta in o.state.stations
  {
    var flow := s.stations[sta].flow;
    if !s.started then
      Outcome(-1, s)
    else if c.interval == 0 then
      Faulted
    else
      var g := GradeRequest(c.interval, flow.Interval(), BssMaxIdle(idlePeriod));
      var flow' := Rewritten(c, flow, g.multi);
      if g.dictate then
        Outcome(1, s.WithFlow(sta, flow'))
      else
        var (choice, minNum) := Choose(c, s.table);
        match choice
        case None => Outcome(-1, s.(table := s.table.(minNum := minNum)).WithFlow(sta, flow'))
        case Some(i) =>
          if i >= |s.table.slots| then Faulted
          else
            var t := Occupy(c, s.table, i, minNum, g.multi);
            if !gotNode then
              Outcome(-1, s.(table := t, leaked := s.leaked + 1).WithFlow(sta, flow'))
            else
              var agreed := Station(true, flow'.(entry := Some(i), twt := NextTwt(c, s, i, now)));
              Outcome(0, s.(table := Enlist(t, i, FlowEntry(flow.id, sta)), stations := s.stations[sta := agreed]))
  }

  /** nrc_mac_check_twt_req. */
  predicate RequestOk(f: SetupFrame) {
    f.implicit && f.Interval() >= f.duration * 256
  }

  datatype FlowGet = Fresh(flow: Flow) | Same | Refused

  /** nrc_mac_twt_flow_get with one flow per station. */
  function GetFlow(st: Station, f: SetupFrame): FlowGet {
    if f.flowid > 0 then Refused
    else if st.agreed then
      if st.flow.duration == f.duration && st.flow.mantissa == f.mantissa && st.flow.exp == f.exp then Same
      else Refused
    else Fresh(Flow(f.flowid, f.duration, f.mantissa, f.exp, 0, None))
  }

  datatype Response = Response(state: State, frame: SetupFrame) | Crash

  /** The rewriting of the frame; the exponent field has five bits. */
  function Answer(f: SetupFrame, ret: int, flow: Flow): SetupFrame {
    if ret == 0 then f.(cmd := Accept, twt := flow.twt)
    else if ret == 1 then f.(cmd := Dictate, mantissa := flow.mantissa, exp := flow.exp % 32)
    else f.(cmd := Reject)
  }

  /** nrc_mac_add_twt_setup. */
  function AddTwtSetup(c: Config, s: State, sta: nat, f: SetupFrame, idlePeriod: nat, now: nat, gotNode: bool)
    : (r: Response)
    requires sta in s.stations
    ensures c.Valid() && |s.table.slots| == c.Slots() ==> r.Response?
  {
    if !RequestOk(f) then
      Response(s, f.(cmd := Reject))
    else
      match GetFlow(s.stations[sta], f)
      case Refused => Response(s, f.(cmd := Reject))
      case Same => Response(s, Answer(f, 0, s.stations[sta].flow))
      case Fresh(flow) =>
        var o := EntryAdd(c, s.WithFlow(sta, flow), sta, idlePeriod, now, gotNode);
        if o.Faulted? then Crash else Response(o.state, Answer(f, o.ret, o.state.stations[sta].flow))
  }

  // ---- teardown -----------------------------------------------------------------------

  function IndexOf(flows: seq<FlowEntry>, sta: nat): (j: nat)
    ensures j <= |flows|
    ensures j < |flows| ==> flows[j].sta == sta
    ensures forall k | 0 <= k < j :: flows[k].sta != sta
  {
    if flows == [] || flows[0].sta == sta then 0 else 1 + IndexOf(flows[1..], sta)
  }

  function Unlist(flows: seq<FlowEntry>, j: nat): seq<FlowEntry>
    requires j < |flows|
  {
    flows[..j] + flows[j + 1..]
  }

  /** The body of the list search: drop the station's node and its counts. */
  function Release(t: Table, i: nat, sta: nat): Table
    requires i < |t.slots|
    requires IndexOf(t.slots[i].flows, sta) < |t.slots[i].flows| ==> t.slots[i].subNum > 0 && t.allocNum > 0
  {
    var slot := t.slots[i];
    var j := IndexOf(slot.flows, sta);
    if j == |slot.flows| then t
    else
      var n := slot.subNum - 1;
      t.(allocNum := t.allocNum - 1,
         minNum := if n < t.minNum then n else t.minNum,
         slots := t.slots[i := slot.(subNum := n, flows := Unlist(slot.flows, j))])
  }

  function ClearMulti(t: Table, i: nat): Table
    requires i < |t.slots|
  {
    if t.slots[i].subNum == 0 then t.(slots := t.slots[i := t.slots[i].(multi := 0)]) else t
  }

  /** The station's slot pointer and the counts behind it are usable. */
  predicate Releasable(s: State, sta: nat)
    requires sta in s.stations
  {
    s.stations[sta].agreed ==>
      var e := s.stations[sta].flow.entry;
      && e.Some? && e.value < |s.table.slots| && s.table.slots[e.value].subNum > 0 && s.table.allocNum > 0
  }

  /** nrc_twt_sched_entry_del. */
  function EntryDel(s: State, sta: nat, flowid: nat): State
    requires sta in s.stations && Releasable(s, sta)
  {
    if !s.started || flowid >= 1 || !s.stations[sta].agreed then s
    else
      var i := s.stations[sta].flow.entry.value;
      s.(table := ClearMulti(Release(s.table, i, sta), i),
         stations := s.stations[sta := s.stations[sta].(agreed := false)])
  }

  /** nrc_twt_sched_start: TWT stays off when BSS max idle is shorter than the interval. */
  function SchedStart(c: Config, s: State, idlePeriod: nat, tsf: nat, time: nat): State {
    if s.started || (idlePeriod != 0 && BssMaxIdle(idlePeriod) < c.interval) || tsf == 0 then s
    else s.(started := true, startTsf := tsf, time := time, schedCount := 0)
  }
}
