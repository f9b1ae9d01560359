/**
 Runs of reception: the target posts slots, never more than 32 pending, while the host receives
 and its status is read from several threads.
 */
module SpiRxRuns {
  import opened Common
  import opened SpiCounters
  import opened SpiFrames
  import opened SpiReceive

  datatype Event =
    | Post(count: nat)   // the target posts slots
    | Poll               // a status read
    | Fetch(env: Env)    // the host receives, and meanwhile env happens

  /** The host in a run: the packets it got, and whether one was given up. */
  datatype Host = Host(rx: Rx, got: seq<seq<Byte>>, lost: bool)

  /** At each point of receiving a packet of n slots at most 32 are pending. */
  predicate InWindow(r: Rx, n: nat, e: Env) {
    && r.posted + Extra(e.before) <= r.consumed + MAX_GAP
    && r.posted + Extra(e.before) + e.more + Extra(e.held) <= r.consumed + 1 + MAX_GAP
    && r.posted + e.Total() <= r.consumed + n + MAX_GAP
  }

  /** The target has at most 32 slots pending and posts nothing but the stream. */
  predicate Enabled(stream: seq<Byte>, h: Host, e: Event) {
    var r := h.rx;
    match e
    case Post(count) => r.posted + count <= r.consumed + MAX_GAP && (r.posted + count) * SLOT <= |stream|
    case Poll => true
    case Fetch(env) =>
      && Readable(stream, r, env)
      && (r.posted > r.consumed ==>
            (r.consumed + 1) * SLOT <= |stream| && InWindow(r, SlotsAt(stream, r.consumed), env))
  }

  /** After a packet was given up the host is out of step, and the run tells no more. */
  function Step(stream: seq<Byte>, h: Host, e: Event): Host
    requires !h.lost ==> Enabled(stream, h, e) && h.rx.Sound()
  {
    if h.lost then h
    else
      match e
      case Post(count) => h.(rx := h.rx.(posted := h.rx.posted + count))
      case Poll => h.(rx := StatusRead(h.rx))
      case Fetch(env) =>
        var (o, s) := Receive(stream, h.rx, env);
        if o.Received? then Host(s, h.got + [o.packet], false) else Host(s, h.got, o != Empty)
  }

  /** Unless a packet was given up, the host has the first packets and stands at the next. */
  predicate InStep(stream: seq<Byte>, packets: seq<seq<Byte>>, h: Host) {
    !h.lost ==>
      && h.rx.Sound()
      && h.rx.posted <= h.rx.consumed + MAX_GAP && h.rx.posted * SLOT <= |stream|
      && |h.got| <= |packets| && h.got == packets[..|h.got|]
      && (forall p | p in h.got :: Slots(|p|) <= MAX_GAP + 1)
      && h.rx.consumed == TotalSlots(h.got)
      && Laid(stream, h.rx.consumed, packets[|h.got|..])
  }

  /** With at most 32 slots pending the rest of a packet is complete once it is posted, and nothing is reset. */
  lemma RestInWindow(b: Rx, n: nat, e: Env)
    requires b.Sound() && 1 <= n <= 134 && b.known - b.consumed < MAX_GAP
    requires b.posted + e.more + Extra(e.held) <= b.consumed + MAX_GAP
    requires b.posted + e.more + Extra(e.held) + Extra(e.late) <= b.consumed + n - 1 + MAX_GAP
    ensures var (v, d) := FetchRest(b, n, e);
      && v != Over && (v == Complete <==> n == 1 || b.consumed + n - 1 <= b.posted + e.more)
      && d.Sound() && (v == Complete ==> d.posted <= d.consumed + MAX_GAP)
  {
    RestIs(b, n, e);
    SecondLookIs(b, n - 1, e);
  }

  /** What one receive of a run does, s being the counters after it. */
  predicate Fetched(packets: seq<seq<Byte>>, h: Host, e: Env, o: Outcome, s: Rx) {
    var k, r := |h.got|, h.rx;
    && s.Sound()
    && if r.posted == r.consumed then o == Empty && s.consumed == r.consumed && s.posted == r.posted
       else
         && k < |packets|
         && var n := Slots(|packets[k]|);
            if n == 1 || r.consumed + n <= r.posted + Extra(e.before) + e.more then
              && o == Received(packets[k]) && s.consumed == r.consumed + n
              && s.posted == r.posted + (if n > 1 then e.Total() else Extra(e.before))
              && s.posted <= s.consumed + MAX_GAP
            else o == Timeout
  }

  /**
   * In a run, nothing is received when nothing is posted, and otherwise the next packet
   * exactly when its slots are posted by the second look; else it is given up.  Reception is
   * never reset: both tests for garbage always pass.
   */
  lemma FetchIff(stream: seq<Byte>, packets: seq<seq<Byte>>, h: Host, e: Env)
    requires Script(stream, packets) && InStep(stream, packets, h) && !h.lost && Enabled(stream, h, Fetch(e))
    ensures var (o, s) := Receive(stream, h.rx, e); Fetched(packets, h, e, o, s)
  {
    var r := h.rx;
    FirstLookInWindow(r);
    if r.posted > r.consumed {
      AtLast(stream, packets, h);
      HeaderOfLaid(stream, r.consumed, packets[|h.got|..]);
      FetchedFrom(stream, packets, h, FirstLook(r), e);
    }
  }

  /** With at most 32 slots pending the first look finds some if there are any. */
  lemma FirstLookInWindow(r: Rx)
    requires r.Sound() && r.posted <= r.consumed + MAX_GAP
    ensures var a := FirstLook(r);
      && a.Sound() && a.posted == r.posted && a.consumed == r.consumed
      && a.Pending() == a.known - a.consumed <= MAX_GAP
      && (a.known == a.consumed <==> r.posted == r.consumed)
  {
    StatusIs(r);
    PendingIs(r);
    PendingIs(FirstLook(r));
  }

  lemma FetchedFrom(stream: seq<Byte>, packets: seq<seq<Byte>>, h: Host, a: Rx, e: Env)
    requires Readable(stream, a, e) && a.posted == h.rx.posted && a.consumed == h.rx.consumed
    requires |h.got| < |packets| && Laid(stream, a.consumed, packets[|h.got|..])
    requires a.consumed < a.known && InWindow(a, Slots(|packets[|h.got|]|), e)
    ensures var (o, s) := ReceiveFrom(stream, a, e); Fetched(packets, h, e, o, s)
  {
    var rest := packets[|h.got|..];
    FromLaid(stream, a, e, rest);
    StartIs(a, e);
    RestIs(FirstTaken(a, e), Slots(|rest[0]|), e);
    RestInWindow(FirstTaken(a, e), Slots(|rest[0]|), e);
  }

  /** All packets received means all slots consumed. */
  lemma AtLast(stream: seq<Byte>, packets: seq<seq<Byte>>, h: Host)
    requires Script(stream, packets) && InStep(stream, packets, h) && !h.lost && h.rx.posted > h.rx.consumed
    ensures |h.got| < |packets|
  {
    assert packets[..|packets|] == packets;
  }

  lemma StepKeepsInStep(stream: seq<Byte>, packets: seq<seq<Byte>>, h: Host, e: Event)
    requires Script(stream, packets) && InStep(stream, packets, h) && (!h.lost ==> Enabled(stream, h, e))
    ensures InStep(stream, packets, Step(stream, h, e))
  {
    if !h.lost {
      match e {
        case Post(count) =>
        case Poll => StatusIs(h.rx);
        case Fetch(env) =>
          FetchIff(stream, packets, h, env);
          var (o, s) := Receive(stream, h.rx, env);
          if o.Received? {
            GotNext(stream, packets, h, env, s);
          }
      }
    }
  }

  lemma GotNext(stream: seq<Byte>, packets: seq<seq<Byte>>, h: Host, e: Env, s: Rx)
    requires Script(stream, packets) && InStep(stream, packets, h) && !h.lost && |h.got| < |packets|
    requires Readable(stream, h.rx, e) && s.posted <= h.rx.posted + e.Total()
    requires s.consumed == h.rx.consumed + Slots(|packets[|h.got|]|) && s.Sound() && s.posted <= s.consumed + MAX_GAP
    requires Slots(|packets[|h.got|]|) <= MAX_GAP + 1
    ensures InStep(stream, packets, Host(s, h.got + [packets[|h.got|]], false))
  {
    var k := |h.got|;
    TotalSnoc(h.got, packets[k]);
    assert packets[..k + 1] == h.got + [packets[k]];
    assert packets[k..][1..] == packets[k + 1..];
  }

  /** Every event of the run is possible when it comes. */
  predicate Possible(stream: seq<Byte>, packets: seq<seq<Byte>>, h: Host, events: seq<Event>)
    requires Script(stream, packets) && InStep(stream, packets, h)
    decreases events
  {
    events != [] ==>
      && (!h.lost ==> Enabled(stream, h, events[0]))
      && (StepKeepsInStep(stream, packets, h, events[0]);
          Possible(stream, packets, Step(stream, h, events[0]), events[1..]))
  }

  function Run(stream: seq<Byte>, packets: seq<seq<Byte>>, h: Host, events: seq<Event>): (t: Host)
    requires Script(stream, packets) && InStep(stream, packets, h) && Possible(stream, packets, h, events)
    ensures InStep(stream, packets, t)
    decreases events
  {
    if events == [] then h
    else
      StepKeepsInStep(stream, packets, h, events[0]);
      Run(stream, packets, Step(stream, h, events[0]), events[1..])
  }

  const START := Host(FRESH, [], false)

  /**
   * In every run, unless the host gave a packet up, what it has received is the first
   * packets sent, all of them posted in full, and its slots are exactly theirs; reception has
   * not been reset.
   */
  lemma ReceivedIsPrefixOfPosted(stream: seq<Byte>, packets: seq<seq<Byte>>, events: seq<Event>)
    requires Script(stream, packets) && InStep(stream, packets, START) && Possible(stream, packets, START, events)
    ensures var h := Run(stream, packets, START, events);
      !h.lost ==> h.got <= packets && TotalSlots(h.got) == h.rx.consumed <= h.rx.posted && !h.rx.reset
  {
  }

  // ---- every list of packets can be got across --------------------------------------------------

  /** The other slots of a packet of n are posted when the host waits for them. */
  function Quiet(n: nat): Env {
    Env(None, if n > 1 then n - 1 else 0, false, None, None)
  }

  /** A target that posts each packet's first slot, and the others when the host waits for them. */
  function Deliver(packets: seq<seq<Byte>>): seq<Event> {
    if packets == [] then []
    else [Post(1), Fetch(Quiet(Slots(|packets[0]|)))] + Deliver(packets[1..])
  }

  predicate Short(packets: seq<seq<Byte>>) {
    forall p | p in packets :: Slots(|p|) <= 33
  }

  /** Delivering the next packet. */
  lemma OneDelivery(stream: seq<Byte>, packets: seq<seq<Byte>>, h: Host, e: Env) returns (h1: Host, h2: Host)
    requires Script(stream, packets) && InStep(stream, packets, h) && !h.lost && |h.got| < |packets|
    requires h.rx.posted == h.rx.consumed
    requires var n := Slots(|packets[|h.got|]|); n <= MAX_GAP + 1 && e == Quiet(n)
    ensures Enabled(stream, h, Post(1)) && h1 == Step(stream, h, Post(1)) && InStep(stream, packets, h1) && !h1.lost
    ensures Enabled(stream, h1, Fetch(e)) && h2 == Step(stream, h1, Fetch(e))
    ensures InStep(stream, packets, h2) && !h2.lost && h2.rx.posted == h2.rx.consumed
    ensures |h2.got| == |h.got| + 1
  {
    var k := |h.got|;
    PrefixTotal(packets, k);
    HeaderOfLaid(stream, h.rx.consumed, packets[k..]);
    StepKeepsInStep(stream, packets, h, Post(1));
    h1 := Step(stream, h, Post(1));
    FetchIff(stream, packets, h1, e);
    StepKeepsInStep(stream, packets, h1, Fetch(e));
    h2 := Step(stream, h1, Fetch(e));
  }

  lemma {:induction false} DeliveryArrives(stream: seq<Byte>, packets: seq<seq<Byte>>, h: Host)
    requires Script(stream, packets) && Short(packets) && InStep(stream, packets, h) && !h.lost
    requires h.rx.posted == h.rx.consumed
    ensures var events := Deliver(packets[|h.got|..]);
      && Possible(stream, packets, h, events)
      && Run(stream, packets, h, events).got == packets && !Run(stream, packets, h, events).lost
    decreases |packets| - |h.got|
  {
    var k := |h.got|;
    if k < |packets| {
      var e := Quiet(Slots(|packets[k]|));
      var h1, h2 := OneDelivery(stream, packets, h, e);
      DeliveryArrives(stream, packets, h2);
      DeliverStep(packets, k);
      TwoEvents(stream, packets, h, Post(1), Fetch(e), Deliver(packets[k + 1..]));
    } else {
      assert packets[k..] == [] && packets[..k] == packets;
    }
  }

  lemma DeliverStep(packets: seq<seq<Byte>>, k: nat)
    requires k < |packets|
    ensures Deliver(packets[k..]) == [Post(1), Fetch(Quiet(Slots(|packets[k]|)))] + Deliver(packets[k + 1..])
  {
    assert packets[k..][1..] == packets[k + 1..];
  }

  lemma TwoEvents(stream: seq<Byte>, packets: seq<seq<Byte>>, h: Host, a: Event, b: Event, events: seq<Event>)
    requires Script(stream, packets) && InStep(stream, packets, h) && !h.lost
    requires Enabled(stream, h, a) && InStep(stream, packets, Step(stream, h, a)) && !Step(stream, h, a).lost
    requires Enabled(stream, Step(stream, h, a), b)
    requires InStep(stream, packets, Step(stream, Step(stream, h, a), b))
    requires Possible(stream, packets, Step(stream, Step(stream, h, a), b), events)
    ensures Possible(stream, packets, h, [a, b] + events)
    ensures Run(stream, packets, h, [a, b] + events) ==
            Run(stream, packets, Step(stream, Step(stream, h, a), b), events)
  {
    var all := [a, b] + events;
    assert all[1..] == [b] + events && ([b] + events)[1..] == events;
    var h1 := Step(stream, h, a);
    assert Possible(stream, packets, h1, [b] + events);
  }

  /** Some run of a target with at most 32 slots pending gets all the packets across. */
  ghost predicate CanArrive(stream: seq<Byte>, packets: seq<seq<Byte>>)
    requires Script(stream, packets) && InStep(stream, packets, START)
  {
    exists events :: ArrivesIn(stream, packets, events)
  }

  predicate ArrivesIn(stream: seq<Byte>, packets: seq<seq<Byte>>, events: seq<Event>)
    requires Script(stream, packets) && InStep(stream, packets, START)
  {
    Possible(stream, packets, START, events)
    && var h := Run(stream, packets, START, events); !h.lost && h.got == packets
  }

  /**
   * Round trip: what a target frames on slot boundaries, whatever fills the slots, can be
   * recovered packet by packet if and only if no packet needs more than 33 slots.
   */
  lemma FramingRoundTripIff(packets: seq<seq<Byte>>, fill: Byte)
    requires forall p | p in packets :: Packet(p)
    ensures var stream := Framed(packets, fill);
      && Script(stream, packets) && InStep(stream, packets, START)
      && (CanArrive(stream, packets) <==> Short(packets))
  {
    FramedIsLaid([], 0, packets, fill);
    var stream := Framed(packets, fill);
    assert [] + stream == stream;
    assert packets[0..] == packets;
    if Short(packets) {
      DeliveryArrives(stream, packets, START);
      assert ArrivesIn(stream, packets, Deliver(packets));
    }
  }

  /** The packets of a list of messages. */
  function Encoded(messages: seq<Message>): (packets: seq<seq<Byte>>)
    requires forall m | m in messages :: Sendable(m)
    ensures |packets| == |messages| && forall i :: 0 <= i < |messages| ==> packets[i] == Octets(messages[i])
  {
    if messages == [] then [] else [Octets(messages[0])] + Encoded(messages[1..])
  }

  /**
   * Round trip for messages: what is written for them, whatever fills the slots, can be
   * recovered octet by octet if and only if none has a payload of more than 33 * 492 - 8 octets.
   */
  lemma MessagesRoundTripIff(messages: seq<Message>, fill: Byte)
    requires forall m | m in messages :: Sendable(m)
    ensures var packets, stream := Encoded(messages), Framed(Encoded(messages), fill);
      && Script(stream, packets) && InStep(stream, packets, START)
      && (CanArrive(stream, packets) <==> forall m | m in messages :: |m.payload| <= 16228)
  {
    var packets := Encoded(messages);
    forall i | 0 <= i < |packets|
      ensures Packet(packets[i]) && (Slots(|packets[i]|) <= 33 <==> |messages[i].payload| <= 16228)
    {
      PacketIsMessage(packets[i]);
    }
    FramingRoundTripIff(packets, fill);
    if Short(packets) {
      forall m | m in messages
        ensures |m.payload| <= 16228
      {
        var i :| 0 <= i < |messages| && messages[i] == m;
        assert packets[i] in packets;
      }
    }
  }
}
