/**
 Runs that fill the slots of the TWT scheduler: stations join one after the other, ask for
 the base interval, and are accepted as long as some slot has room.
 */
module TwtFill {
  import opened Arith
  import opened Common
  import opened TwtFaults
  import opened TwtInterval
  import opened TwtNegotiation
  import opened TwtReach
  import opened TwtRuns
  import opened TwtScheduler

  /** Every agreed flow repeats with the base interval. */
  predicate AllBase(c: Config, s: State) {
    forall sta | sta in s.stations && s.stations[sta].agreed :: s.stations[sta].flow.exp == c.exponent
  }

  /** A started state of a run without failures, with stations below n that ask for the base interval. */
  ghost predicate Clean(c: Config, s: State, n: nat) {
    && Reachable(c, s) && s.started && s.leaked == 0 && AllBase(c, s)
    && forall sta | sta in s.stations :: sta < n
  }

  lemma CountsAreLists(c: Config, s: State)
    requires Inv(c, s) && s.leaked == 0
    ensures forall i :: 0 <= i < |s.table.slots| ==> s.table.slots[i].subNum == |s.table.slots[i].flows|
  {
    EqualSums(s.table.slots);
  }

  // ---- one more station ---------------------------------------------------------------------

  /** A station asks for the base interval while slot j has room, and is accepted. */
  lemma BaseAccepted(c: Config, s: State, n: nat, j: nat)
    requires Inv(c, s) && s.started && n in s.stations && !s.stations[n].agreed
    requires j < |s.table.slots| && s.table.slots[j].subNum < c.maxInGroup
    ensures var r := AddTwtSetup(c, s, n, BaseRequest(c), 0, 0, true);
      && r.frame.cmd == Accept && n in r.state.stations && r.state.stations[n].flow.exp == c.exponent
      && r.state.leaked == s.leaked
  {
    var f := BaseRequest(c);
    AllocationFailsIffFull(c, s);
    assert c.interval * 1 == c.interval;
    GradeOfMultiple(c.interval, 1, 0);
    GradedExactly(c.interval, c.interval, 0);
    OneTimes(c.interval, GradeRequest(c.interval, c.interval, 0).multi);
    AnswerMeaning(c, s, n, f, 0, 0, true);
  }

  lemma OneTimes(a: nat, m: nat)
    requires a > 0 && a == a * m
    ensures m == 1
  {
    assert a * m == m * a;
    MulMono(2, m, a);
  }

  /** The minimum is m, slot i counts one more, and the other slots count the same. */
  predicate OneMore(before: Table, after: Table, i: nat, m: nat) {
    && |after.slots| == |before.slots| && after.minNum == m
    && forall k :: 0 <= k < |before.slots| ==>
         after.slots[k].subNum == before.slots[k].subNum + if k == i then 1 else 0
  }

  lemma JoinStation(c: Config, s: State, n: nat) returns (t: State)
    requires Clean(c, s, n)
    ensures Clean(c, t, n + 1) && t.table == s.table && n in t.stations && !t.stations[n].agreed
  {
    ReachableIsInv(c, s);
    t := Step(c, s, Join(n));
    ReachStep(c, s, Join(n), t);
    assert t == s.(stations := s.stations[n := Station(false, NO_FLOW)]);
  }

  lemma AskStation(c: Config, s: State, n: nat, j: nat) returns (t: State, i: nat, m: nat)
    requires Clean(c, s, n + 1) && n in s.stations && !s.stations[n].agreed
    requires j < |s.table.slots| && s.table.slots[j].subNum < c.maxInGroup
    ensures Clean(c, t, n + 1) && Choose(c, s.table) == (Some(i), m) && OneMore(s.table, t.table, i, m)
  {
    ReachableIsInv(c, s);
    var ask := Setup(n, BaseRequest(c), 0, 0, true);
    BaseAccepted(c, s, n, j);
    t := Step(c, s, ask);
    ReachStep(c, s, ask, t);
    var multi;
    i, m, multi := AcceptedTable(c, s, n, BaseRequest(c), 0, 0);
  }

  /** Joining and asking: the slot is the one the allocator chooses. */
  lemma AddStation(c: Config, s: State, n: nat, j: nat) returns (t: State, i: nat, m: nat)
    requires Clean(c, s, n) && j < |s.table.slots| && s.table.slots[j].subNum < c.maxInGroup
    ensures Clean(c, t, n + 1) && Choose(c, s.table) == (Some(i), m) && i < |s.table.slots|
    ensures OneMore(s.table, t.table, i, m)
  {
    ReachableIsInv(c, s);
    ChooseKeepsFilled(c, s.table);
    var s1 := JoinStation(c, s, n);
    t, i, m := AskStation(c, s1, n, j);
  }

  // ---- filling ------------------------------------------------------------------------------

  /** A state of such a run before any teardown. */
  ghost predicate Filling(c: Config, s: State, n: nat) {
    Clean(c, s, n) && (c.algo == Balanced ==> Even(c, s.table))
  }

  lemma StartFilling(c: Config) returns (s: State)
    requires c.Valid()
    ensures Filling(c, s, 0) && |s.table.slots| == c.Slots()
  {
    var start := Start(0, 1, 0);
    var s0 := InitState(c);
    assert ReachedBy(c, [], s0);
    s := Step(c, s0, start);
    ReachStep(c, s0, start, s);
  }

  /** No count became smaller. */
  predicate Grown(before: seq<Slot>, after: seq<Slot>) {
    |after| == |before| && forall k :: 0 <= k < |before| ==> before[k].subNum <= after[k].subNum
  }

  lemma AddKeepsFilling(c: Config, s: State, n: nat, j: nat) returns (t: State)
    requires Filling(c, s, n) && j < |s.table.slots| && s.table.slots[j].subNum < c.maxInGroup
    ensures Filling(c, t, n + 1) && Grown(s.table.slots, t.table.slots)
    ensures SumSub(t.table.slots) == SumSub(s.table.slots) + 1
  {
    var i, m;
    t, i, m := AddStation(c, s, n, j);
    ReachableIsInv(c, s);
    if c.algo == Balanced {
      OccupyKeepsEven(c, s.table, 0);
      assert Even(c, Occupy(c, s.table, i, m, 0));
    }
    SumOneMore(s.table.slots, t.table.slots, i);
  }

  lemma {:induction false} SameSums(a: seq<Slot>, b: seq<Slot>)
    requires |a| == |b| && forall k :: 0 <= k < |a| ==> b[k].subNum == a[k].subNum
    ensures SumSub(a) == SumSub(b)
  {
    if a != [] {
      SameSums(a[1..], b[1..]);
    }
  }

  lemma SumOneMore(a: seq<Slot>, b: seq<Slot>, i: nat)
    requires |a| == |b| && i < |a|
    requires forall k :: 0 <= k < |a| ==> b[k].subNum == a[k].subNum + if k == i then 1 else 0
    ensures SumSub(b) == SumSub(a) + 1
  {
    SumSubUpdate(a, i, b[i]);
    SameSums(a[i := b[i]], b);
  }

  lemma {:induction false} SumBounded(slots: seq<Slot>, most: nat)
    requires forall i :: 0 <= i < |slots| ==> slots[i].subNum <= most
    ensures SumSub(slots) <= |slots| * most
  {
    if slots != [] {
      SumBounded(slots[1..], most);
      assert |slots| * most == (|slots| - 1) * most + most;
    }
  }

  lemma FillingIsBounded(c: Config, s: State, n: nat)
    requires Filling(c, s, n)
    ensures WithinCapacity(c, s.table) && SumSub(s.table.slots) <= |s.table.slots| * c.maxInGroup
  {
    ReachableIsInv(c, s);
    SumBounded(s.table.slots, c.maxInGroup);
  }

  /** Stations join and ask until slot j counts `most` of them. */
  lemma {:induction false} FillSlot(c: Config, s: State, n: nat, j: nat, most: nat) returns (t: State, n': nat)
    requires Filling(c, s, n) && j < |s.table.slots| && most <= c.maxInGroup
    ensures Filling(c, t, n') && Grown(s.table.slots, t.table.slots) && t.table.slots[j].subNum >= most
    decreases |s.table.slots| * c.maxInGroup - SumSub(s.table.slots)
  {
    FillingIsBounded(c, s, n);
    if s.table.slots[j].subNum >= most {
      t, n' := s, n;
    } else {
      var u := AddKeepsFilling(c, s, n, j);
      FillingIsBounded(c, u, n + 1);
      t, n' := FillSlot(c, u, n + 1, j, most);
    }
  }

  /** Every slot from j on is filled to its maximum. */
  lemma {:induction false} FillFrom(c: Config, s: State, n: nat, j: nat) returns (t: State, n': nat)
    requires Filling(c, s, n) && j <= |s.table.slots|
    requires forall k :: 0 <= k < j ==> s.table.slots[k].subNum == c.maxInGroup
    ensures Filling(c, t, n') && |t.table.slots| == |s.table.slots|
    ensures forall k :: 0 <= k < |t.table.slots| ==> t.table.slots[k].subNum == c.maxInGroup
    decreases |s.table.slots| - j
  {
    if j == |s.table.slots| {
      t, n' := s, n;
    } else {
      var u, m := FillSlot(c, s, n, j, c.maxInGroup);
      FillingIsBounded(c, u, m);
      t, n' := FillFrom(c, u, m, j + 1);
    }
  }
}
