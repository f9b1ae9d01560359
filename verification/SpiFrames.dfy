/**
 The slot stream of the target (nrc-hif-cspi.c): every HIF packet starts on a slot boundary and
 fills as many slots as it needs.
 */
module SpiFrames {
  import opened Arith
  import opened Common

  const SLOT: nat := 492
  /** sizeof(struct hif) */
  const HEADER: nat := 8
  const HIF_TYPE_MAX: nat := 11

  /** hif->len, a 16-bit field at offset 4. */
  function PayloadLength(b: seq<Byte>): nat
    requires |b| >= HEADER
  {
    (b[4] as int) + 256 * (b[5] as int)
  }

  /** A packet the target may send: a known type, a non-empty payload, a truthful length. */
  predicate Packet(p: seq<Byte>) {
    |p| > HEADER && p[0] < HIF_TYPE_MAX && PayloadLength(p) == |p| - HEADER
  }

  function Slots(n: nat): nat {
    DivRoundUp(n, SLOT)
  }

  /** What the target means to send: the fields of struct hif but the length, and the payload. */
  datatype Message = Message(kind: Byte, subtype: Byte, flags: Byte, vif: Byte, tlvLow: Byte, tlvHigh: Byte,
                             payload: seq<Byte>)

  /** One of the eleven types, and a payload whose length fits 16 bits. */
  predicate Sendable(m: Message) {
    m.kind < 11 && 0 < |m.payload| < 65536
  }

  /** The octets on the wire; the length is little-endian, after four octets. */
  function Octets(m: Message): (p: seq<Byte>)
    requires Sendable(m)
    ensures |p| == 8 + |m.payload|
  {
    var n := |m.payload|;
    [m.kind, m.subtype, m.flags, m.vif, n % 256, n / 256, m.tlvLow, m.tlvHigh] + m.payload
  }

  /** Packets are exactly the octets of such messages. */
  lemma PacketIsMessage(p: seq<Byte>)
    ensures Packet(p) <==> exists m :: Sendable(m) && p == Octets(m)
  {
    if Packet(p) {
      var m := Message(p[0], p[1], p[2], p[3], p[6], p[7], p[8..]);
      LowHigh(p[4], p[5]);
      assert Sendable(m) && p == Octets(m);
    }
    if m :| Sendable(m) && p == Octets(m) {
      DivMod(|m.payload|, 256);
    }
  }

  lemma LowHigh(low: nat, high: nat)
    requires low < 256 && high < 256
    ensures (low + 256 * high) % 256 == low && (low + 256 * high) / 256 == high
  {
  }

  // ---- the stream -----------------------------------------------------------------------------

  /**
   * The packets lie one after another from slot `at` on, each on a slot boundary.  The
   * stream is everything the target is going to post.
   */
  predicate Laid(stream: seq<Byte>, at: nat, packets: seq<seq<Byte>>)
    decreases |packets|
  {
    packets != [] ==>
      var p := packets[0];
      && Packet(p)
      && (at + Slots(|p|)) * SLOT <= |stream|
      && stream[at * SLOT..at * SLOT + |p|] == p
      && Laid(stream, at + Slots(|p|), packets[1..])
  }

  /** Bytes filling the last slot of a packet. */
  function Padding(n: nat, fill: Byte): seq<Byte>
    ensures |Padding(n, fill)| + n == Slots(n) * SLOT
  {
    SlotsCover(n);
    seq(Slots(n) * SLOT - n, _ => fill)
  }

  lemma SlotsCover(n: nat)
    ensures n <= Slots(n) * SLOT
  {
  }

  /** What the target writes for a list of packets. */
  function Framed(packets: seq<seq<Byte>>, fill: Byte): seq<Byte> {
    if packets == [] then []
    else packets[0] + Padding(|packets[0]|, fill) + Framed(packets[1..], fill)
  }

  function TotalSlots(packets: seq<seq<Byte>>): nat {
    if packets == [] then 0 else Slots(|packets[0]|) + TotalSlots(packets[1..])
  }

  lemma {:induction false} FramedIsLaid(front: seq<Byte>, at: nat, packets: seq<seq<Byte>>, fill: Byte)
    requires |front| == at * SLOT && forall p | p in packets :: Packet(p)
    ensures |Framed(packets, fill)| == TotalSlots(packets) * SLOT
    ensures Laid(front + Framed(packets, fill), at, packets)
    decreases |packets|
  {
    if packets != [] {
      var p, rest := packets[0], packets[1..];
      var slots := p + Padding(|p|, fill);
      Concat(front, slots, Framed(rest, fill));
      FramedIsLaid(front + slots, at + Slots(|p|), rest, fill);
      FirstIs(front, p, Padding(|p|, fill), Framed(rest, fill));
    }
  }

  lemma Concat(a: seq<Byte>, b: seq<Byte>, c: seq<Byte>)
    ensures a + (b + c) == a + b + c
  {
  }

  lemma FirstIs(a: seq<Byte>, b: seq<Byte>, c: seq<Byte>, d: seq<Byte>)
    ensures (a + (b + c + d))[|a|..|a| + |b|] == b
  {
  }

  function FirstSlot(stream: seq<Byte>, at: nat): seq<Byte>
    requires (at + 1) * SLOT <= |stream|
  {
    stream[at * SLOT..at * SLOT + SLOT]
  }

  /** The slots of the packet whose header is in that slot; no header can ask for more than 134. */
  function SlotsAt(stream: seq<Byte>, at: nat): (n: nat)
    requires (at + 1) * SLOT <= |stream|
    ensures 1 <= n <= 134
  {
    Slots(HEADER + PayloadLength(FirstSlot(stream, at)))
  }

  lemma HeaderOfLaid(stream: seq<Byte>, at: nat, packets: seq<seq<Byte>>)
    requires packets != [] && Laid(stream, at, packets)
    ensures Slots(|packets[0]|) >= 1
    ensures var first := FirstSlot(stream, at);
            first[0] == packets[0][0] && PayloadLength(first) == |packets[0]| - HEADER
    ensures SlotsAt(stream, at) == Slots(|packets[0]|)
  {
    var p := packets[0];
    var first := FirstSlot(stream, at);
    assert forall i :: 0 <= i < HEADER ==> first[i] == stream[at * SLOT..at * SLOT + |p|][i];
  }

  lemma {:induction false} TotalSnoc(packets: seq<seq<Byte>>, p: seq<Byte>)
    ensures TotalSlots(packets + [p]) == TotalSlots(packets) + Slots(|p|)
  {
    if packets == [] {
      assert [p][1..] == [];
    } else {
      assert (packets + [p])[1..] == packets[1..] + [p];
      TotalSnoc(packets[1..], p);
    }
  }

  lemma {:induction false} PrefixTotal(packets: seq<seq<Byte>>, k: nat)
    requires k <= |packets|
    ensures TotalSlots(packets) == TotalSlots(packets[..k]) + TotalSlots(packets[k..])
    decreases |packets| - k
  {
    if k < |packets| {
      PrefixTotal(packets, k + 1);
      TotalSnoc(packets[..k], packets[k]);
      assert packets[..k + 1] == packets[..k] + [packets[k]];
      assert packets[k..][1..] == packets[k + 1..];
    } else {
      assert packets[..k] == packets;
    }
  }

  /** The stream is those packets and no more. */
  predicate Script(stream: seq<Byte>, packets: seq<seq<Byte>>) {
    |stream| == TotalSlots(packets) * SLOT && Laid(stream, 0, packets)
  }
}
