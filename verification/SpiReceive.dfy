/**
 Reception of one HIF packet (nrc-hif-cspi.c), while the target posts slots and other threads
 read its status.
 */
module SpiReceive {
  import opened Arith
  import opened Common
  import opened SpiCounters
  import opened SpiFrames

  /** More pending slots than this make a status read reset reception. */
  const MAX_RX_GAP: nat := 33
  /** So many resets in a row, then the driver only gives up the packet. */
  const MAX_STRIKES: nat := 10

  /**
   * The host's two 16-bit registers, and the truth behind them: slots the target has posted,
   * those of them the host has read about, and those it has taken.  `strikes` counts refused
   * packets in a row.  After a `reset` the target's register means nothing until it follows.
   */
  datatype Rx = Rx(head: nat, tail: nat, posted: nat, known: nat, consumed: nat, strikes: nat, reset: bool)
  {
    function Pending(): nat {
      NumSlots(head, tail)
    }

    predicate Sound() {
      && head == known % U16 && tail == consumed % U16 && !reset
      && consumed <= known <= posted < consumed + U16
    }
  }

  const FRESH := Rx(0, 0, 0, 0, 0, 0, false)

  /**
   * What happens during one call of spi_rx_skb.  Another thread may read the status before
   * the first slot is taken, between the look for the others and taking them, and between
   * that and the second test; each time so many slots have been posted since.  `more` are
   * posted while the host waits for the others, and `irq` says that the status is then read
   * although the host need not look.
   */
  datatype Env = Env(before: Option<nat>, more: nat, irq: bool, held: Option<nat>, late: Option<nat>)
  {
    function Total(): nat {
      Extra(before) + more + Extra(held) + Extra(late)
    }
  }

  function Extra(o: Option<nat>): nat {
    if o.Some? then o.value else 0
  }

  datatype Outcome =
    | Received(packet: seq<Byte>)
    | Empty        // no slot to read
    | Garbage      // an impossible header; reception is reset
    | TooMany      // more than 32 slots pending; the packet is given up
    | Timeout      // the rest of the packet did not arrive; its first slot is spent

  // ---- the counters ---------------------------------------------------------------------------

  /** spi_reset_rx */
  function ResetRx(r: Rx): Rx {
    r.(head := 0, tail := 0, reset := true)
  }

  /** The receive part of spi_update_status; once reset, nothing more is read in this call. */
  function StatusRead(r: Rx): Rx {
    var u := r.(head := r.posted % U16, known := r.posted);
    if r.reset then r else if u.Pending() > MAX_RX_GAP then ResetRx(u) else u
  }

  /** Another thread's status read, if there is one. */
  function Interrupted(r: Rx, o: Option<nat>): Rx {
    if o.None? then r else StatusRead(r.(posted := r.posted + o.value))
  }

  /** slot[RX_SLOT].tail += n */
  function Taken(r: Rx, n: nat): Rx {
    r.(tail := (r.tail + n) % U16, consumed := r.consumed + n)
  }

  /** The first look of spi_rx_skb, up to its wait for a slot. */
  function FirstLook(r: Rx): Rx {
    if r.Pending() == 0 then StatusRead(r) else r
  }

  /** The first test for garbage: ten times in a row it resets reception. */
  function Refused(r: Rx): Rx {
    (if r.strikes < MAX_STRIKES then ResetRx(r) else r).(strikes := r.strikes + 1)
  }

  /** The first slot is taken. */
  function FirstTaken(a: Rx, e: Env): Rx {
    Taken(Interrupted(a, e.before), 1).(strikes := 0)
  }

  /** The look for the other n slots of a packet. */
  function SecondLook(r: Rx, n: nat, e: Env): Rx {
    var s := r.(posted := r.posted + e.more);
    if e.irq || s.Pending() < n then StatusRead(s) else s
  }

  datatype Verdict = Complete | Late | Over

  /** What happens to the counters after the first slot of a packet of n, b being as it is then. */
  function FetchRest(b: Rx, n: nat, e: Env): (Verdict, Rx) {
    if n <= 1 then (Complete, b)
    else
      var c := SecondLook(b, n - 1, e);
      if c.Pending() < n - 1 then (Late, c)
      else
        var d := Interrupted(Taken(Interrupted(c, e.held), n - 1), e.late);
        if d.Pending() > MAX_GAP then (Over, ResetRx(d)) else (Complete, d)
  }

  lemma PendingIs(r: Rx)
    requires r.Sound()
    ensures r.Pending() == r.known - r.consumed
  {
    WrapDifference(r.known, r.consumed);
  }

  /** A status read finds at most 33 slots pending, or resets reception. */
  lemma StatusIs(r: Rx)
    requires r.Sound()
    ensures var u := StatusRead(r);
      if r.posted - r.consumed <= MAX_RX_GAP then u == r.(head := r.posted % U16, known := r.posted) && u.Sound()
      else u == ResetRx(u) && u.posted == r.posted && u.consumed == r.consumed && u.Pending() == 0
  {
    WrapDifference(r.posted, r.consumed);
  }

  lemma InterruptedIs(r: Rx, o: Option<nat>)
    requires r.Sound() && r.posted + Extra(o) < r.consumed + U16
    ensures var u, gap := Interrupted(r, o), r.posted + Extra(o) - r.consumed;
      && u.posted == r.posted + Extra(o) && u.consumed == r.consumed && u.strikes == r.strikes
      && if o.None? then u == r
         else if gap <= MAX_RX_GAP then u.Sound() && u.known == u.posted
         else u == ResetRx(u) && u.Pending() == 0
  {
    if o.Some? {
      StatusIs(r.(posted := r.posted + o.value));
    }
  }

  lemma TakeKeepsSound(r: Rx, n: nat)
    requires r.Sound() && n <= r.known - r.consumed
    ensures Taken(r, n).Sound()
  {
    AddMod(r.consumed, n);
  }

  /** After a reset, taking slots wraps the tail past the head. */
  lemma TakenAfterReset(r: Rx, n: nat)
    requires r == ResetRx(r) && 0 < n <= 134
    ensures Taken(r, n).Pending() == U16 - n && Taken(r, n).tail == n && Taken(r, n).head == 0
  {
  }

  lemma SecondLookIs(b: Rx, m: nat, e: Env)
    requires b.Sound() && b.posted + e.more < b.consumed + U16
    ensures var c, t := SecondLook(b, m, e), b.posted + e.more;
      && c.posted == t && c.consumed == b.consumed
      && if e.irq || b.known - b.consumed < m then
           if t - b.consumed > MAX_RX_GAP then c == ResetRx(c) && c.Pending() == 0 else c.Sound() && c.known == t
         else c.Sound() && c.known == b.known
  {
    PendingIs(b);
    StatusIs(b.(posted := b.posted + e.more));
  }

  /** The other slots of a packet of n are pending at the look for them. */
  predicate RestReady(b: Rx, n: nat, e: Env) {
    var looks := e.irq || b.known - b.consumed < n - 1;
    var seen := if looks then b.posted + e.more - b.consumed else b.known - b.consumed;
    n - 1 <= seen && (looks ==> seen <= MAX_RX_GAP)
  }

  /** A status read between the look and taking the slots, if any, does not reset reception. */
  predicate RestKept(b: Rx, e: Env) {
    e.held.Some? ==> b.posted + e.more + e.held.value - b.consumed <= MAX_RX_GAP
  }

  /** The slots pending after the packet at a status read between taking its slots and the test. */
  function LeftLate(b: Rx, n: nat, e: Env): int {
    b.posted + e.more + Extra(e.held) + Extra(e.late) - b.consumed - (n - 1)
  }

  /** The second test for garbage fails. */
  predicate FailsLate(b: Rx, n: nat, e: Env) {
    !RestKept(b, e) || (e.late.Some? && LeftLate(b, n, e) == 33)
  }

  /**
   * What becomes of the rest of a packet.  The second test for garbage fails exactly when a
   * status read since the look has reset reception too early, or one after the slots were
   * taken finds exactly 33 pending: with more it resets reception itself and the test passes.
   */
  lemma RestIs(b: Rx, n: nat, e: Env)
    requires b.Sound() && 1 <= n <= 134 && b.known - b.consumed <= MAX_GAP
    requires b.posted + e.more + Extra(e.held) + Extra(e.late) < b.consumed + U16
    ensures var (v, d) := FetchRest(b, n, e);
      && (v == Complete <==> n == 1 || (RestReady(b, n, e) && !FailsLate(b, n, e)))
      && (v == Over <==> n > 1 && RestReady(b, n, e) && FailsLate(b, n, e))
      && (v == Complete ==>
            && d.consumed == b.consumed + n - 1
            && d.posted == b.posted + (if n > 1 then e.more + Extra(e.held) + Extra(e.late) else 0)
            && if n > 1 && e.late.Some? && LeftLate(b, n, e) > 33 then d.reset else d.Sound())
  {
    if n > 1 {
      SecondLookIs(b, n - 1, e);
      var c := SecondLook(b, n - 1, e);
      if c.Sound() {
        PendingIs(c);
      }
      if c.Pending() >= n - 1 {
        TakingIs(c, n - 1, e);
      }
    }
  }

  /** From the look on: c has the slots pending. */
  lemma TakingIs(c: Rx, m: nat, e: Env)
    requires c.Sound() && 0 < m <= 134 && m <= c.known - c.consumed <= MAX_RX_GAP
    requires c.posted + Extra(e.held) + Extra(e.late) < c.consumed + U16
    ensures var h := Interrupted(c, e.held);
      var d := Interrupted(Taken(h, m), e.late);
      var kept := e.held.Some? ==> c.posted + e.held.value - c.consumed <= MAX_RX_GAP;
      var left := c.posted + Extra(e.held) + Extra(e.late) - c.consumed - m;
      && (d.Pending() > MAX_GAP <==> !kept || (e.late.Some? && left == 33))
      && (kept ==>
            && d.consumed == c.consumed + m && d.posted == c.posted + Extra(e.held) + Extra(e.late)
            && if e.late.Some? && left > 33 then d.reset else d.Sound())
  {
    InterruptedIs(c, e.held);
    var h := Interrupted(c, e.held);
    if h.Sound() {
      TakeKeepsSound(h, m);
      InterruptedIs(Taken(h, m), e.late);
      var d := Interrupted(Taken(h, m), e.late);
      if d.Sound() {
        PendingIs(d);
      }
    } else {
      TakenAfterReset(h, m);
    }
  }

  /** When reception was reset before the first slot was taken, the second test fails. */
  lemma RestAfterReset(b: Rx, n: nat, e: Env)
    requires b.reset && b.head == 0 && b.tail == 1 && 1 < n <= 134
    ensures FetchRest(b, n, e).0 == Over
  {
    assert b.Pending() == U16 - 1;
    assert Taken(b, n - 1).Pending() == U16 - n;
  }

  // ---- one packet -------------------------------------------------------------------------------

  /** Reading is possible: the stream holds what is or will be posted. */
  predicate Readable(stream: seq<Byte>, r: Rx, e: Env) {
    r.Sound() && r.posted + e.Total() < r.consumed + U16 && (r.posted + e.Total()) * SLOT <= |stream|
  }

  /** The status read before the first slot is taken, if any, does not reset reception. */
  predicate StartKept(r: Rx, e: Env) {
    e.before.Some? ==> r.posted + e.before.value - r.consumed <= MAX_RX_GAP
  }

  /** The first slot is taken, after whatever status read. */
  lemma StartIs(a: Rx, e: Env)
    requires a.Sound() && a.posted + Extra(e.before) < a.consumed + U16 && a.consumed < a.known
    ensures var b := FirstTaken(a, e);
      && b.consumed == a.consumed + 1 && b.posted == a.posted + Extra(e.before)
      && if StartKept(a, e) then b.Sound() && b.known == (if e.before.Some? then b.posted else a.known)
         else b.reset && b.head == 0 && b.tail == 1
  {
    InterruptedIs(a, e.before);
    var i := Interrupted(a, e.before);
    if i.Sound() {
      TakeKeepsSound(i, 1);
    } else {
      TakenAfterReset(i, 1);
    }
  }

  /** The verdict on the packet of n slots at the host's slot, and the counters after it. */
  lemma WholeIs(a: Rx, n: nat, e: Env)
    requires a.Sound() && a.posted + e.Total() < a.consumed + U16 && 1 <= n <= 134
    requires a.consumed < a.known <= a.consumed + MAX_GAP
    ensures var (v, d) := FetchRest(FirstTaken(a, e), n, e);
      && (v == Complete ==> d.consumed == a.consumed + n && d.posted <= a.posted + e.Total() && (d.reset || d.Sound()))
      && (v == Complete <==> WholeReady(a, n, e))
  {
    StartIs(a, e);
    var b := FirstTaken(a, e);
    if StartKept(a, e) {
      RestIs(b, n, e);
    } else if n > 1 {
      RestAfterReset(b, n, e);
    }
  }

  /** The packet of n slots at the host's slot is complete, its first slot being there. */
  predicate WholeReady(a: Rx, n: nat, e: Env) {
    var b := FirstTaken(a, e);
    n == 1 || (StartKept(a, e) && RestReady(b, n, e) && !FailsLate(b, n, e))
  }

  /** spi_rx_skb once a first slot is there: the header, the rest, and both tests for garbage. */
  function ReceiveFrom(stream: seq<Byte>, a: Rx, e: Env): (Outcome, Rx)
    requires Readable(stream, a, e) && a.consumed < a.known <= a.consumed + MAX_GAP
  {
    var b := FirstTaken(a, e);
    var first := FirstSlot(stream, a.consumed);
    var len := HEADER + PayloadLength(first);
    SlotsCover(len);
    WholeIs(a, SlotsAt(stream, a.consumed), e);
    if first[0] >= HIF_TYPE_MAX || PayloadLength(first) == 0 then (Garbage, ResetRx(b))
    else
      var (v, d) := FetchRest(b, SlotsAt(stream, a.consumed), e);
      match v
      case Late => (Timeout, d)
      case Over => (TooMany, d)
      case Complete =>
        CompleteIsPosted(a, SlotsAt(stream, a.consumed), e);
        (Received(stream[a.consumed * SLOT..a.consumed * SLOT + len]), d)
  }

  lemma CompleteIsPosted(a: Rx, n: nat, e: Env)
    requires a.Sound() && a.posted + e.Total() < a.consumed + U16 && 1 <= n <= 134
    requires a.consumed < a.known <= a.consumed + MAX_GAP && WholeReady(a, n, e)
    ensures a.consumed + n <= a.posted + e.Total()
  {
    StartIs(a, e);
  }

  /** spi_rx_skb */
  function Receive(stream: seq<Byte>, r: Rx, e: Env): (Outcome, Rx)
    requires Readable(stream, r, e)
  {
    StatusIs(r);
    PendingIs(r);
    var a := FirstLook(r);
    if a.Pending() == 0 then (Empty, a)
    else if a.Pending() > MAX_GAP then (TooMany, Refused(a))
    else
      PendingIs(a);
      ReceiveFrom(stream, a, e)
  }

  /** The pending slots at the first test: those known, or those posted when none is known. */
  function SeenFirst(r: Rx): int {
    if r.known == r.consumed then r.posted - r.consumed else r.known - r.consumed
  }

  /**
   * When a packet of n slots is received, in terms of the slots pending at each point: 1 to 32
   * at the first test and, for more than one slot, no status read that resets reception
   * before the slots are taken, the other slots at the look for them, and not exactly 33 at a
   * status read before the second test.
   */
  predicate Receivable(r: Rx, n: nat, e: Env) {
    var seen := SeenFirst(r);
    var p := r.posted + Extra(e.before) - r.consumed;
    var known := if e.before.Some? then p else seen;
    var looks := e.irq || known < n;
    var rest := if looks then p + e.more - 1 else known - 1;
    && 1 <= seen <= 32
    && (n > 1 ==>
          && (e.before.Some? ==> p <= 33)
          && n - 1 <= rest && (looks ==> rest <= 33)
          && (e.held.Some? ==> p + e.more + e.held.value - 1 <= 33)
          && (e.late.Some? ==> p + e.more + Extra(e.held) + e.late.value - n != 33))
  }

  lemma ReadyIsReceivable(a: Rx, n: nat, e: Env)
    requires a.Sound() && a.posted + e.Total() < a.consumed + U16 && 1 <= n <= 134
    requires a.consumed < a.known <= a.consumed + MAX_GAP
    ensures WholeReady(a, n, e) <==> Receivable(a, n, e)
  {
    StartIs(a, e);
  }

  /** spi_rx_skb on the packet that starts at the host's slot, once a slot is there. */
  lemma FromLaid(stream: seq<Byte>, a: Rx, e: Env, packets: seq<seq<Byte>>)
    requires Readable(stream, a, e) && packets != [] && Laid(stream, a.consumed, packets)
    requires a.consumed < a.known <= a.consumed + MAX_GAP
    ensures 1 <= Slots(|packets[0]|) <= 134
    ensures var (v, d) := FetchRest(FirstTaken(a, e), Slots(|packets[0]|), e);
      ReceiveFrom(stream, a, e) ==
        (if v == Complete then Received(packets[0]) else if v == Late then Timeout else TooMany, d)
  {
    HeaderOfLaid(stream, a.consumed, packets);
  }

  lemma ReceivedFromIff(stream: seq<Byte>, a: Rx, e: Env, packets: seq<seq<Byte>>)
    requires Readable(stream, a, e) && packets != [] && Laid(stream, a.consumed, packets)
    requires a.consumed < a.known <= a.consumed + MAX_GAP
    ensures var (o, s) := ReceiveFrom(stream, a, e);
      var n := Slots(|packets[0]|);
      && (o.Received? <==> Receivable(a, n, e))
      && (o.Received? ==> o.packet == packets[0] && s.consumed == a.consumed + n && (s.reset || s.Sound()))
  {
    FromLaid(stream, a, e, packets);
    WholeIs(a, Slots(|packets[0]|), e);
    ReadyIsReceivable(a, Slots(|packets[0]|), e);
  }

  /**
   * The packet that starts at the host's slot is received if and only if its slot count and
   * the slots pending at each point are right; then exactly its slots are consumed.
   */
  lemma ReceivedIff(stream: seq<Byte>, r: Rx, e: Env, packets: seq<seq<Byte>>)
    requires Readable(stream, r, e) && packets != [] && Laid(stream, r.consumed, packets)
    ensures var (o, s) := Receive(stream, r, e);
      var n := Slots(|packets[0]|);
      && (o.Received? <==> Receivable(r, n, e))
      && (o.Received? ==> o.packet == packets[0] && s.consumed == r.consumed + n && (s.reset || s.Sound()))
  {
    StatusIs(r);
    PendingIs(r);
    var a := FirstLook(r);
    if 1 <= SeenFirst(r) <= MAX_GAP {
      PendingIs(a);
      ReceivedFromIff(stream, a, e, packets);
    } else if a.Sound() {
      PendingIs(a);
    }
  }

  /**
   * With the two slots of a packet known and taken, a status read that finds 33 more pending
   * passes its own test, and the second test then resets reception.
   */
  lemma SecondTestFails(stream: seq<Byte>, packets: seq<seq<Byte>>, r: Rx)
    requires packets != [] && Slots(|packets[0]|) == 2 && Laid(stream, r.consumed, packets)
    requires r.known == r.posted == r.consumed + 2
    requires var e := Env(None, 0, false, None, Some(33)); Readable(stream, r, e)
    ensures Receive(stream, r, Env(None, 0, false, None, Some(33))).0 == TooMany
  {
    var e := Env(None, 0, false, None, Some(33));
    PendingIs(r);
    FromLaid(stream, r, e, packets);
    StartIs(r, e);
    RestIs(FirstTaken(r, e), 2, e);
  }

  /** The first test refuses a packet when more than 32 slots are known, or 33 are found when looking. */
  lemma RefusedIff(stream: seq<Byte>, r: Rx, e: Env)
    requires Readable(stream, r, e)
    ensures var a := FirstLook(r);
      a.Pending() > 32 <==> SeenFirst(r) > 32 && (r.known != r.consumed || SeenFirst(r) == 33)
  {
    StatusIs(r);
    PendingIs(r);
    var a := FirstLook(r);
    if a.Sound() {
      PendingIs(a);
    }
  }

  /** No packet of more than 34 slots is ever received, whatever the target does. */
  lemma LongestPacket(r: Rx, n: nat, e: Env)
    requires Receivable(r, n, e)
    ensures n <= 34
  {
  }

  /**
   * The octets of a message at the host's slot, whatever follows them: the message is received,
   * whole and as it is, exactly when its (n + 8 + 491) / 492 slots are pending as they must be.
   */
  lemma MessageReceivedIff(stream: seq<Byte>, r: Rx, e: Env, m: Message)
    requires Readable(stream, r, e) && Sendable(m)
    requires var n := (|m.payload| + 8 + 491) / 492; (r.consumed + n) * 492 <= |stream|
    requires stream[r.consumed * 492..r.consumed * 492 + 8 + |m.payload|] == Octets(m)
    ensures var (o, s) := Receive(stream, r, e);
      var n := (|m.payload| + 8 + 491) / 492;
      && (o.Received? <==> Receivable(r, n, e))
      && (o.Received? ==> o.packet == Octets(m) && s.consumed == r.consumed + n)
  {
    PacketIsMessage(Octets(m));
    assert [Octets(m)][1..] == [];
    assert Laid(stream, r.consumed, [Octets(m)]);
    ReceivedIff(stream, r, e, [Octets(m)]);
  }

  /**
   * A slot is garbage when its first octet is no type or its length octets are zero: reception
   * is then reset, whatever else is pending, and for no other reason.
   */
  lemma GarbageIff(stream: seq<Byte>, r: Rx, e: Env)
    requires Readable(stream, r, e) && (r.consumed + 1) * 492 <= |stream|
    ensures var at, (o, s) := r.consumed * 492, Receive(stream, r, e);
      && (o == Garbage <==>
            1 <= SeenFirst(r) <= 32 && (stream[at] >= 11 || (stream[at + 4] == 0 && stream[at + 5] == 0)))
      && (o == Garbage ==> s.reset && s.head == 0 && s.tail == 0)
  {
    StatusIs(r);
    PendingIs(r);
    var a := FirstLook(r);
    if a.Sound() {
      PendingIs(a);
    }
  }

  /**
   * A packet refused by the first test resets reception, unless ten in a row have been refused
   * already; the count starts again with the next packet that passes.
   */
  lemma TenRefusalsReset(stream: seq<Byte>, r: Rx, e: Env)
    requires Readable(stream, r, e)
    ensures var a, (o, s) := FirstLook(r), Receive(stream, r, e);
      && (a.Pending() > 32 ==>
            && o == TooMany && s.strikes == r.strikes + 1
            && if r.strikes < 10 then s.reset && s.head == 0 && s.tail == 0
               else s.head == a.head && s.tail == a.tail && s.reset == a.reset)
      && (o.Received? ==> s.strikes == 0)
  {
    StatusIs(r);
    PendingIs(r);
  }
}
