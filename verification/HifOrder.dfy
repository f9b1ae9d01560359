/**
 First in, first out (hif.c): however transmissions, rounds and cleanups interleave, WIMs leave
 in the order they were handed over, and so do ordinary frames.
 */
module HifOrder {
  import opened Common
  import opened HifQueue
  import opened HifRuns

  /** WIMs and loopback packets, and frames that are not management frames. */
  datatype Class = Control | Ordinary

  predicate In(skb: Skb, c: Class) {
    if c == Control then skb.kind != Frame else skb.kind == Frame && !skb.mgmt
  }

  /** The packets of one class, in order. */
  function Only(q: seq<Skb>, c: Class): seq<Skb> {
    if q == [] then []
    else Only(q[..|q| - 1], c) + if In(q[|q| - 1], c) then [q[|q| - 1]] else []
  }

  /** The packet of the class that the event puts into a queue. */
  function Entering(e: Event, c: Class): seq<Skb> {
    if e.Transmit? && (e.fate == Queued || e.fate == NoWorkqueue) && In(e.skb, c) then [e.skb] else []
  }

  /** All of them in a run, in the order they were handed over. */
  function HandedOver(events: seq<Event>, c: Class): seq<Skb> {
    if events == [] then []
    else HandedOver(events[..|events| - 1], c) + Entering(events[|events| - 1], c)
  }

  /** a is b with some packets left out. */
  predicate Within(a: seq<Skb>, b: seq<Skb>)
    decreases |b|
  {
    a == [] ||
    (b != [] &&
     if a[|a| - 1] == b[|b| - 1] then Within(a[..|a| - 1], b[..|b| - 1]) else Within(a, b[..|b| - 1]))
  }

  // ---- lists --------------------------------------------------------------------------------

  lemma {:induction false} OnlyAppend(p: seq<Skb>, q: seq<Skb>, c: Class)
    ensures Only(p + q, c) == Only(p, c) + Only(q, c)
  {
    if q == [] {
      assert p + q == p;
    } else {
      assert (p + q)[..|p + q| - 1] == p + q[..|q| - 1];
      OnlyAppend(p, q[..|q| - 1], c);
    }
  }

  lemma OnlyOne(x: Skb, c: Class)
    ensures Only([x], c) == if In(x, c) then [x] else []
  {
    assert [x][..0] == [] && Only([], c) == [];
  }

  lemma OnlyFirst(q: seq<Skb>, c: Class)
    requires q != []
    ensures Only(q, c) == Only([q[0]], c) + Only(q[1..], c)
  {
    assert q == [q[0]] + q[1..];
    OnlyAppend([q[0]], q[1..], c);
  }

  lemma {:induction false} NoneOf(q: seq<Skb>, c: Class)
    requires forall i :: 0 <= i < |q| ==> !In(q[i], c)
    ensures Only(q, c) == []
  {
    if q != [] {
      NoneOf(q[..|q| - 1], c);
    }
  }

  /** Leaving out more. */
  lemma {:induction false} WithinLess(p: seq<Skb>, x: seq<Skb>, q: seq<Skb>, b: seq<Skb>)
    requires Within(p + x + q, b)
    ensures Within(p + q, b)
    decreases |b|
  {
    var a, rest := p + x + q, p + q;
    if rest != [] {
      var b1 := b[..|b| - 1];
      if q != [] {
        assert a[|a| - 1] == rest[|rest| - 1] == q[|q| - 1];
        assert a[..|a| - 1] == p + x + q[..|q| - 1] && rest[..|rest| - 1] == p + q[..|q| - 1];
        WithinLess(p, x, if a[|a| - 1] == b[|b| - 1] then q[..|q| - 1] else q, b1);
      } else if x == [] {
        assert a == rest;
      } else {
        assert a == p + x && rest == p;
        WithinPrefix(p, x, b);
      }
    }
  }

  lemma {:induction false} WithinPrefix(p: seq<Skb>, x: seq<Skb>, b: seq<Skb>)
    requires Within(p + x, b)
    ensures Within(p, b)
    decreases |b|, |x|
  {
    if p != [] && x != [] {
      var b1, a := b[..|b| - 1], p + x;
      assert a[..|a| - 1] == p + x[..|x| - 1];
      WithinPrefix(p, if a[|a| - 1] == b[|b| - 1] then x[..|x| - 1] else x, b1);
      WithinLonger(p, b1, b[|b| - 1]);
      assert b == b1 + [b[|b| - 1]];
    } else {
      assert x == [] ==> p + x == p;
    }
  }

  lemma WithinLonger(a: seq<Skb>, b: seq<Skb>, y: Skb)
    requires Within(a, b)
    ensures Within(a, b + [y])
    decreases |b|, 2
  {
    assert (b + [y])[..|b|] == b;
    if a != [] && a[|a| - 1] == y {
      var last := |a| - 1;
      assert a == a[..last] + [a[last]];
      WithinPrefix(a[..last], [a[last]], b);
    }
  }

  lemma WithinSnoc(a: seq<Skb>, b: seq<Skb>, x: Skb)
    requires Within(a, b)
    ensures Within(a + [x], b + [x])
  {
    assert (a + [x])[..|a|] == a && (b + [x])[..|b|] == b;
  }

  lemma {:induction false} WithinSelf(a: seq<Skb>)
    ensures Within(a, a)
  {
    if a != [] {
      WithinSelf(a[..|a| - 1]);
    }
  }

  // ---- one step -----------------------------------------------------------------------------

  /** The packets of the class still held or queued, the next one first. */
  function Waiting(s: State, c: Class): seq<Skb> {
    if c == Control then Only(s.wims, c) else Only(AsSeq(s.held), c) + Only(s.frames, c)
  }

  lemma EnqueuedOrdinary(frames: seq<Skb>, skb: Skb, running: bool)
    requires skb.kind == Frame
    ensures Only(Enqueued(frames, skb, running), Ordinary) == Only(frames, Ordinary) + if skb.mgmt then [] else [skb]
  {
    OnlyOne(skb, Ordinary);
    if running && skb.mgmt {
      OnlyAppend([skb], frames, Ordinary);
      assert Only([skb] + frames, Ordinary) == [] + Only(frames, Ordinary);
    } else {
      OnlyAppend(frames, [skb], Ordinary);
    }
  }

  lemma QueueKeepsOrder(s: State, skb: Skb, running: bool, c: Class)
    ensures Waiting(Queue(s, skb, running), c) == Waiting(s, c) + if In(skb, c) then [skb] else []
  {
    if skb.kind == Frame {
      if c == Ordinary {
        EnqueuedOrdinary(s.frames, skb, running);
      }
    } else if c == Control {
      OnlyOne(skb, c);
      OnlyAppend(s.wims, [skb], c);
    }
  }

  lemma TakeControl(s: State, asleep: bool)
    requires Sorted(s) && Takes(s, asleep)
    ensures var (skb, u) := Take(s, asleep);
      Waiting(s, Control) == Only([skb], Control) + Waiting(u, Control)
  {
    var (skb, u) := Take(s, asleep);
    OnlyOne(skb, Control);
    if skb.kind != Frame {
      OnlyFirst(s.wims, Control);
    } else if s.held == Some(skb) {
      assert AsSeq(s.held)[0] == skb;
    }
  }

  lemma TakeOrdinary(s: State, asleep: bool)
    requires Sorted(s) && Takes(s, asleep)
    ensures var (skb, u) := Take(s, asleep);
      Waiting(s, Ordinary) == Only([skb], Ordinary) + Waiting(u, Ordinary)
  {
    var (skb, u) := Take(s, asleep);
    OnlyOne(skb, Ordinary);
    if s.frames != [] {
      OnlyFirst(s.frames, Ordinary);
    }
  }

  /** The packet taken is the first of its class that waits. */
  lemma TakeKeepsOrder(s: State, asleep: bool, c: Class)
    requires Sorted(s) && Takes(s, asleep)
    ensures var (skb, u) := Take(s, asleep);
      u.sent == s.sent && Waiting(s, c) == Only([skb], c) + Waiting(u, c)
  {
    if c == Control {
      TakeControl(s, asleep);
    } else {
      TakeOrdinary(s, asleep);
    }
  }

  /** The packets of the class sent so far, and then those that wait. */
  function InOrder(s: State, c: Class): seq<Skb> {
    Only(s.sent, c) + Waiting(s, c)
  }

  /** The account of one class is kept: nothing is out of order. */
  lemma AttemptKeepsOrder(u: State, skb: Skb, waitOk: bool, n: nat, c: Class, b: seq<Skb>)
    requires n > 0 && Within(Only(u.sent, c) + Only([skb], c) + Waiting(u, c), b)
    ensures Within(InOrder(Attempt(u, skb, waitOk, n), c), b)
  {
    if waitOk {
      OnlyAppend(u.sent, [skb], c);
    } else {
      WithinLess(Only(u.sent, c), Only([skb], c), Waiting(u, c), b);
      StopKeepsOrder(u, c, b);
    }
  }

  lemma Regroup(a: seq<Skb>, h: seq<Skb>, f: seq<Skb>)
    ensures a + (h + f) == a + h + f && a + ([] + f) == a + f
  {
  }

  lemma StopKeepsOrder(s: State, c: Class, b: seq<Skb>)
    requires Within(InOrder(s, c), b)
    ensures Within(InOrder(Stop(s), c), b)
  {
    if c == Ordinary {
      var a, h, f := Only(s.sent, c), Only(AsSeq(s.held), c), Only(s.frames, c);
      Regroup(a, h, f);
      WithinLess(a, h, f, b);
      assert Waiting(Stop(s), c) == [] + f;
    }
  }

  lemma RoundKeepsOrder(s: State, waitOk: bool, asleep: bool, n: nat, c: Class, b: seq<Skb>)
    requires n > 0 && Sorted(s) && Within(InOrder(s, c), b)
    ensures Within(InOrder(DrainRound(s, waitOk, asleep, n), c), b)
  {
    if Takes(s, asleep) {
      TakeKeepsOrder(s, asleep, c);
      var (skb, u) := Take(s, asleep);
      Regroup(Only(s.sent, c), Only([skb], c), Waiting(u, c));
      AttemptKeepsOrder(u, skb, waitOk, n, c, b);
    } else {
      StopKeepsOrder(s, c, b);
    }
  }

  lemma TransmitInOrder(s: State, skb: Skb, running: bool, fate: Fate, n: nat, c: Class)
    requires n > 0
    ensures var e := Transmit(skb, running, fate);
      Step(s, e, n).sent == s.sent && Waiting(Step(s, e, n), c) == Waiting(s, c) + Entering(e, c)
  {
    if fate == Queued || fate == NoWorkqueue {
      QueueKeepsOrder(s, skb, running, c);
    } else {
      assert Waiting(s, c) + [] == Waiting(s, c);
    }
  }

  lemma TransmitKeepsOrder(s: State, skb: Skb, running: bool, fate: Fate, n: nat, c: Class, b: seq<Skb>)
    requires n > 0 && Within(InOrder(s, c), b)
    ensures var e := Transmit(skb, running, fate); Within(InOrder(Step(s, e, n), c), b + Entering(e, c))
  {
    var x := Entering(Transmit(skb, running, fate), c);
    TransmitInOrder(s, skb, running, fate, n, c);
    Regroup(Only(s.sent, c), Waiting(s, c), x);
    WithinMore(InOrder(s, c), b, x);
  }

  lemma WithinMore(a: seq<Skb>, b: seq<Skb>, x: seq<Skb>)
    requires Within(a, b) && |x| <= 1
    ensures Within(a + x, b + x)
  {
    if x == [] {
      assert a + x == a && b + x == b;
    } else {
      assert x == [x[0]];
      WithinSnoc(a, b, x[0]);
    }
  }

  lemma CleanupKeepsOrder(s: State, n: nat, c: Class, b: seq<Skb>)
    requires n > 0 && Within(InOrder(s, c), b)
    ensures Within(InOrder(Step(s, Cleanup, n), c), b)
  {
    var a := Only(s.sent, c);
    if c == Control {
      WithinPrefix(a, Only(s.wims, c), b);
      assert a + [] == a;
    } else {
      var h, f := Only(AsSeq(s.held), c), Only(s.frames, c);
      Regroup(a, h, f);
      WithinPrefix(a + h, f, b);
      assert h + [] == h;
    }
  }

  lemma StepKeepsOrder(s: State, e: Event, n: nat, c: Class, b: seq<Skb>)
    requires n > 0 && Sorted(s) && Within(InOrder(s, c), b)
    ensures Within(InOrder(Step(s, e, n), c), b + Entering(e, c))
  {
    match e {
      case Transmit(skb, running, fate) => TransmitKeepsOrder(s, skb, running, fate, n, c, b);
      case Begin => assert b + [] == b;
      case Round(waitOk, asleep) =>
        RoundKeepsOrder(s, waitOk, asleep, n, c, b);
        assert b + [] == b;
      case Cleanup =>
        CleanupKeepsOrder(s, n, c, b);
        assert b + [] == b;
    }
  }

  // ---- runs -----------------------------------------------------------------------------------

  lemma {:induction false} RunSnoc(s: State, events: seq<Event>, e: Event, n: nat)
    requires n > 0
    ensures Run(s, events + [e], n) == Step(Run(s, events, n), e, n)
    decreases events
  {
    var all := events + [e];
    if events == [] {
      assert all[1..] == [];
      assert Run(Step(s, e, n), [], n) == Step(s, e, n);
    } else {
      assert all[1..] == events[1..] + [e];
      RunSnoc(Step(s, events[0], n), events[1..], e, n);
    }
  }

  /**
   * In every run the WIMs sent and then those still queued are, in this order, WIMs that were
   * handed over in this order; likewise the ordinary frames, with the frame held back in
   * front of the queue.
   */
  lemma {:induction false} FirstInFirstOut(s: State, events: seq<Event>, n: nat, c: Class)
    requires n > 0 && Fresh(s) && forall e | e in events :: EventOk(e, |s.pend|)
    ensures Within(InOrder(Run(s, events, n), c), HandedOver(events, c))
    decreases |events|
  {
    if events != [] {
      var k := |events| - 1;
      var most, e := events[..k], events[k];
      assert events == most + [e];
      FirstInFirstOut(s, most, n, c);
      RunIsSound(s, most, n);
      RunSnoc(s, most, e, n);
      StepKeepsOrder(Run(s, most, n), e, n, c, HandedOver(most, c));
    }
  }

  /** No wait fails and nothing is cleaned up. */
  predicate Undisturbed(e: Event) {
    !e.Cleanup? && (e.Round? ==> e.waitOk)
  }

  lemma UndisturbedStep(s: State, e: Event, n: nat)
    requires n > 0 && Sorted(s) && Undisturbed(e)
    ensures InOrder(Step(s, e, n), Control) == InOrder(s, Control) + Entering(e, Control)
  {
    var c := Control;
    match e {
      case Transmit(skb, running, fate) =>
        TransmitInOrder(s, skb, running, fate, n, c);
        Regroup(Only(s.sent, c), Waiting(s, c), Entering(e, c));
      case Begin =>
      case Round(waitOk, asleep) =>
        if Takes(s, asleep) {
          TakeKeepsOrder(s, asleep, c);
          var (skb, u) := Take(s, asleep);
          OnlyAppend(u.sent, [skb], c);
          Regroup(Only(s.sent, c), Only([skb], c), Waiting(u, c));
        }
    }
  }

  /** When no wait fails and nothing is cleaned up, they are all the WIMs handed over. */
  lemma {:induction false} AllWimsInOrder(s: State, events: seq<Event>, n: nat)
    requires n > 0 && Fresh(s) && forall e | e in events :: EventOk(e, |s.pend|) && Undisturbed(e)
    ensures var t := Run(s, events, n); Only(t.sent, Control) + Only(t.wims, Control) == HandedOver(events, Control)
    decreases |events|
  {
    if events != [] {
      var k := |events| - 1;
      var most, e := events[..k], events[k];
      assert events == most + [e];
      AllWimsInOrder(s, most, n);
      RunIsSound(s, most, n);
      RunSnoc(s, most, e, n);
      UndisturbedStep(Run(s, most, n), e, n);
    }
  }
}
