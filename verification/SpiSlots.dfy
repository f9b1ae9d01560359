/**
 Transmit slots and credit counters of the C-SPI transport (nrc-hif-cspi.c): 16- and
 8-bit counters that wrap, against the target's unbounded counts.
 */
module SpiSlots {
  import opened Arith
  import opened Common
  import opened SpiCounters

  const U8: nat := 256
  const TX_SLOT_SIZE: nat := 456

  // ---- slots --------------------------------------------------------------------------------

  /**
   * The host's two registers, and the truth behind them: slots the target has offered,
   * those of them the host has read about, and those it has used.
   */
  datatype Link = Link(head: nat, tail: nat, offered: nat, known: nat, used: nat)

  datatype Event =
    | Offer(count: nat)   // the target makes slots available, never more than 32 at once
    | Poll                // the host reads the target's head register
    | Send(len: nat)      // the host has waited for the slots of a packet and writes it

  /** The slot part of spi_update_status, with its reset of an implausible difference. */
  function Polled(l: Link): Link {
    var r := l.(head := l.offered % U16, known := l.offered);
    if NumSlots(r.head, r.tail) > MAX_GAP then r.(head := 32, tail := U16 - 1) else r
  }

  /** What spi_wait_for_xmit waits for. */
  predicate Ready(l: Link, len: nat) {
    NumSlots(l.head, l.tail) >= DivRoundUp(len, TX_SLOT_SIZE)
  }

  /** A packet is written when its slots of 456 bytes are there, by the 16-bit difference. */
  lemma ReadyIff(l: Link, len: nat)
    ensures Ready(l, len) <==> len <= (l.head - l.tail) % 65536 * 456
  {
  }

  /** A poll takes the register over, unless it is more than 32 ahead: then 32 slots are assumed from 65535 on. */
  lemma PolledIs(l: Link)
    ensures var p := Polled(l);
      && p.offered == l.offered && p.known == l.offered && p.used == l.used
      && if (l.offered - l.tail) % 65536 <= 32 then p.head == l.offered % 65536 && p.tail == l.tail
         else p.head == 32 && p.tail == 65535
  {
    SameDifference(l.offered, l.tail);
  }

  lemma SameDifference(a: nat, b: nat)
    ensures (a % 65536 - b) % 65536 == (a - b) % 65536
  {
  }

  /** Writing a packet uses the least number of slots that hold it. */
  lemma SendUses(l: Link, len: nat)
    ensures var s := Step(l, Send(len)); var n := s.used - l.used;
      && len <= n * 456 < len + 456 && s.tail == (l.tail + n) % 65536
      && s.head == l.head && s.offered == l.offered && s.known == l.known
  {
  }

  predicate Enabled(l: Link, e: Event) {
    match e
    case Offer(count) => l.offered + count <= l.used + MAX_GAP
    case Poll => true
    case Send(len) => Ready(l, len)
  }

  function Step(l: Link, e: Event): Link {
    match e
    case Offer(count) => l.(offered := l.offered + count)
    case Poll => Polled(l)
    case Send(len) =>
      var n := DivRoundUp(len, TX_SLOT_SIZE);
      l.(tail := (l.tail + n) % U16, used := l.used + n)
  }

  predicate Refines(l: Link) {
    && l.head == l.known % U16 && l.tail == l.used % U16
    && l.used <= l.known <= l.offered <= l.used + MAX_GAP
  }

  lemma StepRefines(l: Link, e: Event)
    requires Refines(l) && Enabled(l, e)
    ensures Refines(Step(l, e))
  {
    WrapDifference(l.known, l.used);
    WrapDifference(l.offered, l.used);
    if e.Send? {
      AddMod(l.used, DivRoundUp(e.len, TX_SLOT_SIZE));
    }
  }

  /** Every event of the run is possible when it comes. */
  predicate Possible(l: Link, events: seq<Event>)
    decreases events
  {
    events != [] ==> Enabled(l, events[0]) && Possible(Step(l, events[0]), events[1..])
  }

  function Run(l: Link, events: seq<Event>): Link
    decreases events
  {
    if events == [] then l else Run(Step(l, events[0]), events[1..])
  }

  lemma {:induction false} RunRefines(l: Link, events: seq<Event>)
    requires Refines(l) && Possible(l, events)
    ensures Refines(Run(l, events))
    decreases events
  {
    if events != [] {
      StepRefines(l, events[0]);
      RunRefines(Step(l, events[0]), events[1..]);
    }
  }

  /**
   * From a fresh link, through any number of wraps, the 16-bit difference is exactly the
   * number of slots the host knows of and has not used, the host never uses a slot that
   * was not offered, and the reset for implausible differences is never taken.
   */
  lemma WrappedCountersAreExact(events: seq<Event>)
    requires Possible(Link(0, 0, 0, 0, 0), events)
    ensures var l := Run(Link(0, 0, 0, 0, 0), events);
      && NumSlots(l.head, l.tail) == l.known - l.used
      && l.used <= l.offered
      && NumSlots(l.offered % U16, l.tail) <= MAX_GAP
  {
    RunRefines(Link(0, 0, 0, 0, 0), events);
    var l := Run(Link(0, 0, 0, 0, 0), events);
    WrapDifference(l.known, l.used);
    WrapDifference(l.offered, l.used);
  }

  // ---- credit -------------------------------------------------------------------------------

  /** The report of spi_credit_skb for one queue, in 8-bit arithmetic. */
  function CreditReport(front: nat, rear: nat, creditMax: nat): (ac: int)
    requires front < U8 && rear < U8
    ensures 0 <= ac <= creditMax
  {
    var room := if front >= rear then front - rear else 255 - rear + front;
    creditMax - Min(creditMax, room)
  }

  /**
   * With `charged` slots charged to a queue and `freed` of them released, the report is the
   * remaining credit exactly while the 8-bit front has not wrapped past the rear;
   * otherwise it is one too high.
   */
  lemma CreditReportIsExactIffNotWrapped(charged: nat, freed: nat, creditMax: nat)
    requires freed <= charged <= freed + creditMax && creditMax < U8
    ensures var report := CreditReport(charged % U8, freed % U8, creditMax);
      && (report == creditMax - (charged - freed) <==> charged % U8 >= freed % U8)
      && (charged % U8 < freed % U8 ==> report == creditMax - (charged - freed) + 1)
  {
    DivMod(charged, U8);
    DivMod(freed, U8);
    var q := charged / U8 - freed / U8;
    assert charged - freed == q * U8 + (charged % U8 - freed % U8);
  }

  /** The two 8-bit counters of a queue, and the unbounded counts behind them. */
  datatype Account = Account(front: nat, rear: nat, charged: nat, freed: nat)
  {
    predicate Sound() {
      front == charged % U8 && rear == freed % U8
    }
  }

  datatype CreditEvent =
    | Charge(slots: nat)     // a packet of the queue is written
    | Status(released: nat)  // the target reports that it has released so many more

  function CreditStep(a: Account, e: CreditEvent): Account {
    match e
    case Charge(n) => a.(front := (a.front + n) % U8, charged := a.charged + n)
    case Status(n) => a.(rear := (a.freed + n) % U8, freed := a.freed + n)
  }

  /** At most creditMax slots are charged and not released. */
  predicate WithinCredit(a: Account, creditMax: nat) {
    a.freed <= a.charged <= a.freed + creditMax
  }

  function CreditRun(a: Account, events: seq<CreditEvent>): Account
    decreases events
  {
    if events == [] then a else CreditRun(CreditStep(a, events[0]), events[1..])
  }

  /** The report is the remaining credit if and only if the front has not wrapped, and else one higher. */
  predicate Accurate(a: Account, creditMax: nat, report: int) {
    var left := creditMax - (a.charged - a.freed);
    (report == left <==> a.front >= a.rear) && (a.front < a.rear ==> report == left + 1)
  }

  lemma AddMod8(a: nat, n: nat)
    ensures (a % U8 + n) % U8 == (a + n) % U8
  {
  }

  lemma {:induction false} CreditRunIsSound(a: Account, events: seq<CreditEvent>)
    requires a.Sound()
    ensures CreditRun(a, events).Sound()
    decreases events
  {
    if events != [] {
      if events[0].Charge? {
        AddMod8(a.charged, events[0].slots);
      }
      CreditRunIsSound(CreditStep(a, events[0]), events[1..]);
    }
  }

  /**
   * After any run of a queue that is within its credit, the report is the remaining credit
   * if and only if the front has not wrapped past the rear, and otherwise one higher.
   */
  lemma ReportInEveryRun(events: seq<CreditEvent>, creditMax: nat)
    requires creditMax < U8 && WithinCredit(CreditRun(Account(0, 0, 0, 0), events), creditMax)
    ensures var a := CreditRun(Account(0, 0, 0, 0), events);
      a.front < U8 && a.rear < U8 && Accurate(a, creditMax, CreditReport(a.front, a.rear, creditMax))
  {
    CreditRunIsSound(Account(0, 0, 0, 0), events);
    var a := CreditRun(Account(0, 0, 0, 0), events);
    CreditReportIsExactIffNotWrapped(a.charged, a.freed, creditMax);
  }

  /** One slot at a time, each released before the next is charged. */
  function Paired(n: nat): seq<CreditEvent> {
    if n == 0 then [] else [Charge(1), Status(1)] + Paired(n - 1)
  }

  lemma {:induction false} PairedRun(a: Account, n: nat, rest: seq<CreditEvent>)
    requires a.Sound() && a.charged == a.freed
    ensures var b := Account((a.charged + n) % U8, (a.freed + n) % U8, a.charged + n, a.freed + n);
      CreditRun(a, Paired(n) + rest) == CreditRun(b, rest)
    decreases n
  {
    if n == 0 {
      assert Paired(0) + rest == rest;
    } else {
      var all := Paired(n) + rest;
      AddMod8(a.charged, 1);
      var b := CreditStep(CreditStep(a, Charge(1)), Status(1));
      PairedRun(b, n - 1, rest);
      assert all[1..] == [Status(1)] + (Paired(n - 1) + rest);
      assert all[1..][1..] == Paired(n - 1) + rest;
    }
  }

  /** For every credit limit some run within it ends in a report that is one too high. */
  lemma ReportOneTooHigh(creditMax: nat) returns (events: seq<CreditEvent>)
    requires 1 <= creditMax < U8
    ensures var a := CreditRun(Account(0, 0, 0, 0), events);
      && WithinCredit(a, creditMax) && a.front < U8 && a.rear < U8
      && CreditReport(a.front, a.rear, creditMax) == creditMax - (a.charged - a.freed) + 1
  {
    events := Paired(255) + [Charge(1)];
    PairedRun(Account(0, 0, 0, 0), 255, [Charge(1)]);
    assert [Charge(1)][1..] == [];
  }

  /** Octet i of a status word, the least significant being octet 0. */
  function OctetOf(word: nat, i: nat): nat {
    Shr(word, 8 * i) % U8
  }

  lemma OctetIs(word: nat)
    ensures OctetOf(word, 0) == word % 256 && OctetOf(word, 1) == word / 256 % 256
    ensures OctetOf(word, 2) == word / 65536 % 256 && OctetOf(word, 3) == word / 16777216 % 256
  {
    ShrIsDiv(word, 0);
    ShrIsDiv(word, 8);
    ShrIsDiv(word, 16);
    ShrIsDiv(word, 24);
    OctetPowers();
  }

  lemma OctetPowers()
    ensures Pow2(0) == 1 && Pow2(8) == 256 && Pow2(16) == 65536 && Pow2(24) == 16777216
  {
    assert Pow2(4) == 16;
    Pow2Add(4, 4);
    Pow2Add(8, 8);
    Pow2Add(16, 8);
  }

  /** Where the counts of the second status word go, by the number of hardware queues. */
  function SecondBase(hwQueues: nat): Option<nat> {
    if hwQueues == 6 then Some(4) else if hwQueues == 11 then Some(6) else None
  }

  /** The counts of released slots once the target has released so many more of four queues. */
  function Released(freed: seq<nat>, base: nat, more: seq<nat>): (r: seq<nat>)
    requires base + 4 <= |freed| && |more| == 4
    ensures |r| == |freed|
  {
    freed[..base] + [freed[base] + more[0], freed[base + 1] + more[1], freed[base + 2] + more[2],
                     freed[base + 3] + more[3]] + freed[base + 4..]
  }

  /** The octets of the word are those counts, modulo 256. */
  predicate Packs(word: nat, freed: seq<nat>, base: nat, more: seq<nat>)
    requires base + 4 <= |freed| && |more| == 4
  {
    var r := Released(freed, base, more);
    && OctetOf(word, 0) == r[base] % U8 && OctetOf(word, 1) == r[base + 1] % U8
    && OctetOf(word, 2) == r[base + 2] % U8 && OctetOf(word, 3) == r[base + 3] % U8
  }

  // ---- the port -------------------------------------------------------------------------------

  const CREDIT_QUEUES: nat := 12

  class TxPort {
    var head: nat
    var tail: nat
    const front: array<nat>
    const rear: array<nat>
    ghost var offered: nat
    ghost var known: nat
    ghost var used: nat
    ghost var charged: seq<nat>
    ghost var freed: seq<nat>

    ghost function View(): Link
      reads this
    {
      Link(head, tail, offered, known, used)
    }

    /** The counters of one queue. */
    ghost function Queue(ac: nat): Account
      requires ac < front.Length && ac < rear.Length && ac < |charged| && ac < |freed|
      reads this`charged, this`freed, front, rear
    {
      Account(front[ac], rear[ac], charged[ac], freed[ac])
    }

    ghost predicate Valid()
      reads this, front, rear
    {
      && Refines(View()) && front != rear
      && front.Length == rear.Length == |charged| == |freed| == CREDIT_QUEUES
      && (forall ac :: 0 <= ac < CREDIT_QUEUES ==> Queue(ac).Sound())
    }

    constructor ()
      ensures Valid() && View() == Link(0, 0, 0, 0, 0) && fresh(front) && fresh(rear)
      ensures forall ac :: 0 <= ac < CREDIT_QUEUES ==> Queue(ac) == Account(0, 0, 0, 0)
    {
      head, tail, offered, known, used := 0, 0, 0, 0, 0;
      front := new nat[CREDIT_QUEUES](_ => 0);
      rear := new nat[CREDIT_QUEUES](_ => 0);
      charged, freed := seq(CREDIT_QUEUES, _ => 0), seq(CREDIT_QUEUES, _ => 0);
      new;
      assert forall ac :: 0 <= ac < CREDIT_QUEUES ==> Queue(ac) == Account(0, 0, 0, 0);
    }

    /** The target offers slots between two calls. */
    ghost method TargetOffers(count: nat)
      requires Valid() && Enabled(View(), Offer(count))
      modifies this`offered
      ensures Valid() && View() == Step(old(View()), Offer(count))
    {
      StepRefines(View(), Offer(count));
      offered := offered + count;
    }

    /** The slot part of spi_update_status on the value read from the target. */
    method UpdateStatus(register: nat)
      requires Valid() && register == offered % U16
      modifies this`head, this`tail, this`known
      ensures Valid() && View() == Step(old(View()), Poll)
    {
      StepRefines(View(), Poll);
      head := register;
      known := offered;
      if NumSlots(head, tail) > MAX_GAP {
        tail := U16 - 1;
        head := 32;
      }
    }

    /**
     * spi_wait_for_xmit: look, poll, look again, then sleep until woken or for five seconds;
     * `more` slots are offered meanwhile, and `now` and `later` are what the register says.
     * A thread told to stop while it sleeps reports success without the slots.
     */
    method WaitForXmit(len: nat, now: nat, ghost more: nat, later: nat, stop: bool) returns (ok: bool)
      requires Valid() && Enabled(View(), Offer(more))
      requires now == offered % U16 && later == (offered + more) % U16
      modifies this`head, this`tail, this`known, this`offered
      ensures Valid()
      ensures var l := old(View());
        var p := Step(l, Poll);
        var slept := !Ready(l, len) && !Ready(p, len);
        && View() == (if slept then Step(Step(p, Offer(more)), Poll) else if Ready(l, len) then l else p)
        && (ok <==> Ready(View(), len) || (slept && stop))
    {
      var n := DivRoundUp(len, TX_SLOT_SIZE);
      if NumSlots(head, tail) >= n {
        return true;
      }
      UpdateStatus(now);
      if NumSlots(head, tail) >= n {
        return true;
      }
      TargetOffers(more);
      UpdateStatus(later);
      return NumSlots(head, tail) >= n || stop;
    }

    /**
     * spi_xmit: data and management frames are charged to their queue.  While closing or in
     * loopback nothing is written.
     */
    method Xmit(len: nat, charge: bool, ac: nat, inactive: bool)
      requires Valid() && (inactive || Ready(View(), len)) && ac < CREDIT_QUEUES
      modifies this`tail, this`used, this`charged, front
      ensures Valid() && freed == old(freed)
      ensures View() == if inactive then old(View()) else Step(old(View()), Send(len))
      ensures Queue(ac) == if !inactive && charge then CreditStep(old(Queue(ac)), Charge(DivRoundUp(len, TX_SLOT_SIZE)))
                           else old(Queue(ac))
      ensures forall i | 0 <= i < CREDIT_QUEUES && i != ac :: Queue(i) == old(Queue(i))
    {
      if inactive {
        return;
      }
      StepRefines(View(), Send(len));
      var n := DivRoundUp(len, TX_SLOT_SIZE);
      tail := (tail + n) % U16;
      used := used + n;
      if charge {
        ChargeQueue(ac, n);
      }
    }

    /** front[ac] += nr_slot */
    method ChargeQueue(ac: nat, n: nat)
      requires Valid() && ac < CREDIT_QUEUES
      modifies this`charged, front
      ensures Valid() && Queue(ac) == CreditStep(old(Queue(ac)), Charge(n))
      ensures forall i | 0 <= i < CREDIT_QUEUES && i != ac :: Queue(i) == old(Queue(i))
    {
      assert Queue(ac).Sound();
      AddMod8(charged[ac], n);
      front[ac] := (front[ac] + n) % U8;
      charged := charged[ac := charged[ac] + n];
      assert forall i :: 0 <= i < CREDIT_QUEUES && i != ac ==> Queue(i) == old(Queue(i));
    }

    /** One of the loops over the octets of a status word: four queues from `base` on. */
    method UpdateRear(word: nat, base: nat, ghost released: seq<nat>)
      requires Valid() && base + 4 <= CREDIT_QUEUES && |released| == 4 && Packs(word, freed, base, released)
      modifies this`freed, rear
      ensures Valid() && charged == old(charged) && freed == Released(old(freed), base, released)
      ensures forall ac | 0 <= ac < CREDIT_QUEUES && !(base <= ac < base + 4) :: Queue(ac) == old(Queue(ac))
      ensures forall ac | 0 <= ac < CREDIT_QUEUES && !(base <= ac < base + 4) :: rear[ac] == old(rear[ac])
      ensures rear[base] == word % 256 && rear[base + 1] == word / 256 % 256
      ensures rear[base + 2] == word / 65536 % 256 && rear[base + 3] == word / 16777216 % 256
    {
      OctetIs(word);
      ghost var was := freed;
      freed := Released(was, base, released);
      for ac := base to base + 4
        invariant forall k :: base <= k < ac ==> rear[k] == OctetOf(word, k - base)
        invariant forall k :: 0 <= k < CREDIT_QUEUES && !(base <= k < ac) ==> rear[k] == old(rear[k])
        invariant freed == Released(was, base, released)
      {
        rear[ac] := OctetOf(word, ac - base);
      }
      forall ac | 0 <= ac < CREDIT_QUEUES
        ensures Queue(ac).Sound()
      {
        assert old(Queue(ac)).Sound();
      }
    }

    /** The credit part of spi_update_status: the counts of both interfaces. */
    method UpdateCredit(first: nat, second: nat, hwQueues: nat, ghost released: seq<nat>, ghost others: seq<nat>)
      requires Valid() && |released| == |others| == 4 && Packs(first, freed, 0, released)
      requires SecondBase(hwQueues).Some? ==> Packs(second, freed, SecondBase(hwQueues).value, others)
      modifies this`freed, rear
      ensures Valid() && charged == old(charged)
      ensures var f := Released(old(freed), 0, released);
        freed == if SecondBase(hwQueues).Some? then Released(f, SecondBase(hwQueues).value, others) else f
      ensures rear[0] == first % 256 && rear[1] == first / 256 % 256
      ensures rear[2] == first / 65536 % 256 && rear[3] == first / 16777216 % 256
      ensures var b := if hwQueues == 6 then 4 else if hwQueues == 11 then 6 else 12;
        && (b < 12 ==>
              && rear[b] == second % 256 && rear[b + 1] == second / 256 % 256
              && rear[b + 2] == second / 65536 % 256 && rear[b + 3] == second / 16777216 % 256)
        && forall ac :: 4 <= ac < 12 && !(b <= ac < b + 4) ==> rear[ac] == old(rear[ac])
    {
      UpdateRear(first, 0, released);
      if hwQueues == 6 {
        UpdateRear(second, 4, others);
      } else if hwQueues == 11 {
        UpdateRear(second, 6, others);
      }
    }

    /** The loop of spi_credit_skb: every report, and what it is worth. */
    method CreditSkb(creditMax: seq<nat>) returns (report: seq<int>)
      requires Valid() && |creditMax| == CREDIT_QUEUES && forall ac :: 0 <= ac < CREDIT_QUEUES ==> creditMax[ac] < U8
      ensures |report| == 12 && forall ac :: 0 <= ac < 12 ==>
                var used := (front[ac] as int) - rear[ac] + if front[ac] >= rear[ac] then 0 else 255;
                report[ac] == if used >= creditMax[ac] then 0 else creditMax[ac] - used
      ensures forall ac :: 0 <= ac < CREDIT_QUEUES && WithinCredit(Queue(ac), creditMax[ac]) ==>
                Accurate(Queue(ac), creditMax[ac], report[ac])
    {
      report := [];
      for i := 0 to CREDIT_QUEUES
        invariant |report| == i
        invariant forall ac :: 0 <= ac < i ==>
                    var used := (front[ac] as int) - rear[ac] + if front[ac] >= rear[ac] then 0 else 255;
                    report[ac] == if used >= creditMax[ac] then 0 else creditMax[ac] - used
        invariant forall ac :: 0 <= ac < i && WithinCredit(Queue(ac), creditMax[ac]) ==>
                    Accurate(Queue(ac), creditMax[ac], report[ac])
      {
        assert Queue(i).Sound();
        var room: int := if front[i] >= rear[i] then front[i] - rear[i] else 255 - rear[i] + front[i];
        room := Min(creditMax[i], room);
        report := report + [creditMax[i] - room];
        if WithinCredit(Queue(i), creditMax[i]) {
          CreditReportIsExactIffNotWrapped(charged[i], freed[i], creditMax[i]);
        }
      }
    }
  }

}
