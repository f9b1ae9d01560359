/**
 States of the TWT scheduler that some run reaches in which every list node was allocated.
 */
module TwtReach {
  import opened TwtInterval
  import opened TwtRuns
  import opened TwtScheduler

  /** s is the state after some run in which every list node was allocated. */
  ghost predicate Reachable(c: Config, s: State) {
    c.Valid() && exists events :: ReachedBy(c, events, s)
  }

  predicate NodesAllocated(events: seq<Event>) {
    forall e | e in events && e.Setup? :: e.gotNode
  }

  ghost predicate ReachedBy(c: Config, events: seq<Event>, s: State)
    requires c.Valid()
  {
    NodesAllocated(events) && Reached(c, events) == s
  }

  lemma {:induction false} RunSnoc(c: Config, s: State, events: seq<Event>, e: Event)
    requires Inv(c, s)
    ensures Run(c, s, events + [e]) == Step(c, Run(c, s, events), e)
    decreases events
  {
    var all := events + [e];
    if events == [] {
      assert all[1..] == [];
      assert Run(c, Step(c, s, e), []) == Step(c, s, e);
    } else {
      assert all[1..] == events[1..] + [e];
      RunSnoc(c, Step(c, s, events[0]), events[1..], e);
    }
  }

  lemma ReachableIsInv(c: Config, s: State)
    requires Reachable(c, s)
    ensures Inv(c, s)
  {
  }

  lemma ReachStep(c: Config, s: State, e: Event, s': State)
    requires Reachable(c, s) && (e.Setup? ==> e.gotNode)
    requires Inv(c, s) ==> s' == Step(c, s, e)
    ensures Reachable(c, s')
  {
    var events :| ReachedBy(c, events, s);
    RunSnoc(c, InitState(c), events, e);
    assert ReachedBy(c, events + [e], s');
  }
}
