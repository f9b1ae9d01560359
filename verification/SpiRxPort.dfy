/**
 The receive path as the driver runs it (nrc-hif-cspi.c): registers and buffers updated in
 place.  It is proved to take the steps of SpiReceive and SpiRxRuns.
 */
module SpiRxPort {
  import opened Arith
  import opened Common
  import opened SpiCounters
  import opened SpiFrames
  import opened SpiReceive
  import opened SpiRxRuns

  /** DIV_ROUND_UP(sizeof(struct hif) + ETH_DATA_LEN + 32, 492) */
  const MAX_SLOT_NUM: nat := 4

  /** The length of the second read, rounded to words as the source does. */
  function WordLength(n: nat): nat {
    if n % 4 != 0 then (n + 4) / 4 * 4 else n
  }

  /** The rounded second read fits the remaining slots of the packet and the buffer. */
  lemma SecondReadFits(len: nat)
    requires Slots(HEADER + len) > 1
    ensures HEADER + len > SLOT
    ensures HEADER + len - SLOT <= WordLength(HEADER + len - SLOT) <= (Slots(HEADER + len) - 1) * SLOT
    ensures WordLength(HEADER + len - SLOT) % 4 == 0 && WordLength(HEADER + len - SLOT) < HEADER + len - SLOT + 4
  {
    WordFits(HEADER + len, Slots(HEADER + len));
  }

  lemma WordFits(n: nat, s: nat)
    requires s > 1 && (s - 1) * 492 < n <= s * 492
    ensures n > 492 && n - 492 <= WordLength(n - 492) <= (s - 1) * 492
  {
  }

  /** A complete packet lies within what has been posted. */
  lemma CompleteFits(stream: seq<Byte>, a: Rx, n: nat, e: Env)
    requires Readable(stream, a, e) && a.consumed < a.known <= a.consumed + MAX_GAP && 1 <= n <= 134
    ensures (a.consumed + 1) * SLOT <= |stream|
    ensures FetchRest(FirstTaken(a, e), n, e).0 == Complete ==> (a.consumed + n) * SLOT <= |stream|
  {
    WholeIs(a, n, e);
    if WholeReady(a, n, e) {
      CompleteIsPosted(a, n, e);
    }
  }

  lemma Joined(stream: seq<Byte>, from: nat, first: seq<Byte>, rest: seq<Byte>, total: nat)
    requires from + SLOT + |rest| <= |stream| && SLOT <= total <= SLOT + |rest|
    requires first == stream[from..from + SLOT] && rest == stream[from + SLOT..from + SLOT + |rest|]
    ensures (first + rest)[..total] == stream[from..from + total]
  {
  }

  class RxPort {
    var head: nat
    var tail: nat
    /** The driver's count of refused packets. */
    var strikes: nat
    /** The target's side: slots posted and taken, and whether it is to start anew. */
    var posted: nat
    var consumed: nat
    var reset: bool
    ghost var known: nat

    ghost function View(): Rx
      reads this
    {
      Rx(head, tail, posted, known, consumed, strikes, reset)
    }

    constructor ()
      ensures View() == FRESH
    {
      head, tail, strikes, posted, consumed, known := 0, 0, 0, 0, 0, 0;
      reset := false;
    }

    /** The target posts slots. */
    method TargetPosts(count: nat)
      modifies this`posted
      ensures View() == old(View()).(posted := old(posted) + count)
    {
      posted := posted + count;
    }

    /** spi_reset_rx */
    method Reset()
      modifies this`head, this`tail, this`reset
      ensures View() == ResetRx(old(View()))
    {
      tail := 0;
      head := 0;
      reset := true;
    }

    /** The receive part of spi_update_status, on the slot count in the target's register. */
    method UpdateStatus()
      modifies this`head, this`tail, this`known, this`reset
      ensures View() == StatusRead(old(View()))
    {
      if reset {
        return;
      }
      head := posted % U16;
      known := posted;
      if NumSlots(head, tail) > MAX_RX_GAP {
        Reset();
      }
    }

    /** Another thread's status read, if there is one, after the target has posted more. */
    method Interrupt(o: Option<nat>)
      modifies this
      ensures View() == Interrupted(old(View()), o)
    {
      if o.Some? {
        TargetPosts(o.value);
        UpdateStatus();
      }
    }

    /** slot[RX_SLOT].tail += n, and the target's own account of the read. */
    method Take(n: nat)
      modifies this`tail, this`consumed
      ensures View() == Taken(old(View()), n)
    {
      tail := (tail + n) % U16;
      consumed := consumed + n;
    }

    /** c_spi_read: n bytes of the stream into the buffer. */
    method Read(stream: seq<Byte>, from: nat, buf: array<Byte>, at: nat, n: nat)
      requires from + n <= |stream| && at + n <= buf.Length
      modifies buf
      ensures buf[at..at + n] == stream[from..from + n] && buf[..at] == old(buf[..at])
    {
      for i := 0 to n
        invariant buf[at..at + i] == stream[from..from + i] && buf[..at] == old(buf[..at])
      {
        buf[at + i] := stream[from + i];
      }
    }

    /** A fresh buffer with one whole slot in it. */
    method ReadFirst(stream: seq<Byte>, at: nat) returns (buf: array<Byte>)
      requires (at + 1) * SLOT <= |stream|
      ensures fresh(buf) && buf.Length == SLOT * MAX_SLOT_NUM && buf[..SLOT] == FirstSlot(stream, at)
    {
      buf := new Byte[SLOT * MAX_SLOT_NUM](_ => 0);
      Read(stream, at * SLOT, buf, 0, SLOT);
      assert buf[..SLOT] == buf[0..0 + SLOT];
    }

    /** A larger buffer for a packet of n slots, when the usual one may not do. */
    method Grow(buf: array<Byte>, n: nat) returns (r: array<Byte>)
      requires buf.Length == SLOT * MAX_SLOT_NUM
      ensures if n < 4 then r == buf else fresh(r) && r.Length == 492 * (n + 1)
      ensures r.Length >= SLOT * (n + 1) && r[..SLOT] == buf[..SLOT]
    {
      r := buf;
      if n >= MAX_SLOT_NUM {
        r := new Byte[SLOT * (n + 1)](_ => 0);
        forall i | 0 <= i < SLOT {
          r[i] := buf[i];
        }
      }
    }

    /** The second read, and the packet that is then in the buffer. */
    method ReadRest(stream: seq<Byte>, at: nat, buf: array<Byte>, len: nat) returns (packet: seq<Byte>)
      requires (at + Slots(HEADER + len)) * SLOT <= |stream|
      requires buf.Length >= SLOT * (Slots(HEADER + len) + 1) && buf[..SLOT] == FirstSlot(stream, at)
      modifies buf
      ensures at * SLOT + HEADER + len <= |stream| && packet == stream[at * SLOT..at * SLOT + HEADER + len]
    {
      SlotsCover(HEADER + len);
      var total := HEADER + len;
      if Slots(total) > 1 {
        SecondReadFits(len);
        var second := WordLength(total - SLOT);
        Read(stream, at * SLOT + SLOT, buf, SLOT, second);
        packet := buf[..total];
        Joined(stream, at * SLOT, buf[..SLOT], buf[SLOT..SLOT + second], total);
        assert buf[..SLOT + second] == buf[..SLOT] + buf[SLOT..SLOT + second];
        assert packet == buf[..SLOT + second][..total];
      } else {
        packet := buf[..total];
        assert packet == buf[..SLOT][..total];
      }
    }

    /** The wait for the rest of a packet of n slots, taking them, and the second test for garbage. */
    method AwaitRest(n: nat, e: Env) returns (verdict: Verdict)
      modifies this
      ensures (verdict, View()) == FetchRest(old(View()), n, e)
    {
      if n <= 1 {
        return Complete;
      }
      TargetPosts(e.more);
      if e.irq || NumSlots(head, tail) < n - 1 {
        UpdateStatus();
      }
      if NumSlots(head, tail) < n - 1 {
        return Late;
      }
      Interrupt(e.held);
      Take(n - 1);
      Interrupt(e.late);
      if NumSlots(head, tail) > MAX_GAP {
        Reset();
        return Over;
      }
      return Complete;
    }

    /** The first look, the wait for a slot, and the first test for garbage. */
    method AwaitFirst() returns (failed: Option<Outcome>)
      modifies this
      ensures var a := FirstLook(old(View()));
        if a.Pending() == 0 then failed == Some(Empty) && View() == a
        else if a.Pending() > MAX_GAP then failed == Some(TooMany) && View() == Refused(a)
        else failed == None && View() == a.(strikes := 0)
    {
      if NumSlots(head, tail) == 0 {
        UpdateStatus();
      }
      if NumSlots(head, tail) == 0 {
        return Some(Empty);
      }
      if NumSlots(head, tail) > MAX_GAP {
        if strikes < MAX_STRIKES {
          Reset();
        }
        strikes := strikes + 1;
        return Some(TooMany);
      }
      strikes := 0;
      return None;
    }

    /** spi_rx_skb: first one whole slot, then the rest of the packet, rounded to words. */
    method RxSkb(stream: seq<Byte>, e: Env) returns (o: Outcome)
      requires Readable(stream, View(), e)
      modifies this
      ensures (o, View()) == Receive(stream, old(View()), e)
    {
      ghost var r := View();
      StatusIs(r);
      PendingIs(r);
      var failed := AwaitFirst();
      if failed.Some? {
        return failed.value;
      }
      ghost var a := FirstLook(r);
      PendingIs(a);
      o := FetchPacket(stream, a, e);
    }

    /** The reads of spi_rx_skb and what goes with them. */
    method FetchPacket(stream: seq<Byte>, ghost a: Rx, e: Env) returns (o: Outcome)
      requires Readable(stream, a, e) && a.consumed < a.known <= a.consumed + MAX_GAP
      requires View() == a.(strikes := 0)
      modifies this
      ensures (o, View()) == ReceiveFrom(stream, a, e)
    {
      var at := consumed;
      Interrupt(e.before);
      Take(1);
      assert View() == FirstTaken(a, e);
      var buf := ReadFirst(stream, at);
      var first := buf[..SLOT];
      var len := PayloadLength(first);
      if first[0] >= HIF_TYPE_MAX || len == 0 {
        Reset();
        return Garbage;
      }
      var n := Slots(HEADER + len);
      buf := Grow(buf, n);
      CompleteFits(stream, a, n, e);
      o := FinishPacket(stream, at, buf, len, e);
    }

    /** The part of spi_rx_skb after the header of a packet. */
    method FinishPacket(stream: seq<Byte>, at: nat, buf: array<Byte>, len: nat, e: Env) returns (o: Outcome)
      requires buf.Length >= SLOT * (Slots(HEADER + len) + 1)
      requires (at + 1) * SLOT <= |stream| && buf[..SLOT] == FirstSlot(stream, at)
      requires FetchRest(View(), Slots(HEADER + len), e).0 == Complete ==>
                 (at + Slots(HEADER + len)) * SLOT <= |stream|
      modifies this, buf
      ensures var (v, d) := old(FetchRest(View(), Slots(HEADER + len), e));
        && View() == d
        && match v
           case Late => o == Timeout
           case Over => o == TooMany
           case Complete =>
             at * SLOT + HEADER + len <= |stream| && o == Received(stream[at * SLOT..at * SLOT + HEADER + len])
    {
      var verdict := AwaitRest(Slots(HEADER + len), e);
      if verdict != Complete {
        return if verdict == Late then Timeout else TooMany;
      }
      var packet := ReadRest(stream, at, buf, len);
      return Received(packet);
    }

    /** One event of a run. */
    method Serve(stream: seq<Byte>, got: seq<seq<Byte>>, event: Event) returns (more: seq<seq<Byte>>, lost: bool)
      requires Enabled(stream, Host(View(), got, false), event) && View().Sound()
      modifies this
      ensures Host(View(), more, lost) == Step(stream, Host(old(View()), got, false), event)
    {
      more, lost := got, false;
      match event {
        case Post(count) => TargetPosts(count);
        case Poll => UpdateStatus();
        case Fetch(e) =>
          var o := RxSkb(stream, e);
          if o.Received? {
            more := got + [o.packet];
          } else {
            lost := o != Empty;
          }
      }
    }

    /** A whole run, up to the packet that is given up if there is one. */
    method ServeAll(stream: seq<Byte>, ghost packets: seq<seq<Byte>>, events: seq<Event>)
      returns (got: seq<seq<Byte>>, lost: bool)
      requires Script(stream, packets) && View() == FRESH && InStep(stream, packets, START)
      requires Possible(stream, packets, START, events)
      modifies this
      ensures Host(View(), got, lost) == Run(stream, packets, START, events)
    {
      got, lost := [], false;
      var i := 0;
      ghost var h := START;
      while i < |events| && !lost
        invariant i <= |events| && h == Host(View(), got, lost) && InStep(stream, packets, h)
        invariant Possible(stream, packets, h, events[i..])
        invariant Run(stream, packets, h, events[i..]) == Run(stream, packets, START, events)
      {
        assert events[i..][0] == events[i] && events[i..][1..] == events[i + 1..];
        StepKeepsInStep(stream, packets, h, events[i]);
        h := Step(stream, h, events[i]);
        got, lost := Serve(stream, got, events[i]);
        i := i + 1;
      }
      if lost {
        LostStays(stream, packets, h, events[i..]);
      } else {
        assert events[i..] == [];
      }
    }
  }

  /** A run tells no more once a packet was given up. */
  lemma {:induction false} LostStays(stream: seq<Byte>, packets: seq<seq<Byte>>, h: Host, events: seq<Event>)
    requires Script(stream, packets) && InStep(stream, packets, h) && h.lost && Possible(stream, packets, h, events)
    ensures Run(stream, packets, h, events) == h
    decreases events
  {
    if events != [] {
      LostStays(stream, packets, h, events[1..]);
    }
  }
}
