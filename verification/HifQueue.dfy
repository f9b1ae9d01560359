/**
 The host interface's transmit queues and pending credit (hif.c): what is queued, what a
 drain sends and in which order, and what every frame owes until it is released.
 */
module HifQueue {
  import opened Arith
  import opened Common

  datatype Kind = Frame | Wim | Loopback

  /** A queued packet; `len` is its length once the headers are in place. */
  datatype Skb = Skb(kind: Kind, len: nat, ac: nat, mgmt: bool, deauth: bool, id: nat)

  /** DIV_ROUND_UP(skb->len, buffer_size), for frames only. */
  function CreditOf(skb: Skb, bufferSize: nat): nat
    requires bufferSize > 0
  {
    if skb.kind == Frame then DivRoundUp(skb.len, bufferSize) else 0
  }

  /** A frame's credit is the least that covers its length in buffers; other packets take none. */
  lemma CreditCovers(skb: Skb, bufferSize: nat)
    requires bufferSize > 0
    ensures var k := CreditOf(skb, bufferSize);
      if skb.kind == Frame then skb.len <= k * bufferSize && (k > 0 ==> (k - 1) * bufferSize < skb.len) else k == 0
  {
  }

  /** The credit of one access category owed by a list of packets. */
  function Owed(skbs: seq<Skb>, ac: nat, bufferSize: nat): nat
    requires bufferSize > 0
  {
    if skbs == [] then 0
    else (if skbs[0].ac == ac then CreditOf(skbs[0], bufferSize) else 0) + Owed(skbs[1..], ac, bufferSize)
  }

  lemma {:induction false} OwedAppend(a: seq<Skb>, b: seq<Skb>, ac: nat, bufferSize: nat)
    requires bufferSize > 0
    ensures Owed(a + b, ac, bufferSize) == Owed(a, ac, bufferSize) + Owed(b, ac, bufferSize)
  {
    if a == [] {
      assert a + b == b;
    } else {
      assert (a + b)[1..] == a[1..] + b;
      OwedAppend(a[1..], b, ac, bufferSize);
    }
  }

  /** What a packet in hand, if any, owes. */
  function Bill(o: Option<Skb>, ac: nat, bufferSize: nat): nat
    requires bufferSize > 0
  {
    if o.Some? && o.value.ac == ac then CreditOf(o.value, bufferSize) else 0
  }

  function AsSeq(o: Option<Skb>): seq<Skb> {
    if o.Some? then [o.value] else []
  }

  // ---- the order of a drain ---------------------------------------------------------------

  function DeauthPrefix(frames: seq<Skb>): (p: seq<Skb>)
    ensures p <= frames
    ensures forall f | f in p :: f.deauth
    ensures |p| < |frames| ==> !frames[|p|].deauth
  {
    if frames == [] || !frames[0].deauth then [] else [frames[0]] + DeauthPrefix(frames[1..])
  }

  /**
   * The order in which a drain sends: leading deauth frames, the WIM queue, the other
   * frames; once a frame is held, no later frame overtakes the WIM queue.
   */
  function Plan(held: Option<Skb>, frames: seq<Skb>, wims: seq<Skb>): seq<Skb> {
    if held.Some? then wims + [held.value] + frames
    else DeauthPrefix(frames) + wims + frames[|DeauthPrefix(frames)|..]
  }

  lemma PlanOfFrames(frames: seq<Skb>)
    ensures Plan(None, frames, []) == frames
    ensures forall f :: Plan(Some(f), frames, []) == [f] + frames
  {
  }

  lemma PlanOfWims(wims: seq<Skb>)
    ensures Plan(None, [], wims) == wims
  {
    assert DeauthPrefix([]) == [];
  }

  /** A leading deauth frame goes before the WIM queue. */
  lemma PlanDeauth(frames: seq<Skb>, wims: seq<Skb>)
    requires frames != [] && frames[0].deauth
    ensures Plan(None, frames, wims) == [frames[0]] + Plan(None, frames[1..], wims)
  {
    var p := DeauthPrefix(frames[1..]);
    assert DeauthPrefix(frames) == [frames[0]] + p;
    assert frames[1 + |p|..] == frames[1..][|p|..];
  }

  /** Any other frame, or none, lets the next WIM go first and is held back. */
  lemma PlanWim(frames: seq<Skb>, wims: seq<Skb>)
    requires wims != [] && (frames == [] || !frames[0].deauth)
    ensures frames == [] ==> Plan(None, frames, wims) == [wims[0]] + Plan(None, [], wims[1..])
    ensures frames != [] ==> Plan(None, frames, wims) == [wims[0]] + Plan(Some(frames[0]), frames[1..], wims[1..])
  {
    assert wims == [wims[0]] + wims[1..];
    if frames != [] {
      assert frames == [frames[0]] + frames[1..];
    }
  }

  lemma PlanHeld(f: Skb, frames: seq<Skb>, wims: seq<Skb>)
    requires wims != []
    ensures Plan(Some(f), frames, wims) == [wims[0]] + Plan(Some(f), frames, wims[1..])
  {
    assert wims == [wims[0]] + wims[1..];
  }

  /** Every packet of both queues is in the plan, as often as it was queued. */
  lemma PlanIsPermutation(frames: seq<Skb>, wims: seq<Skb>)
    ensures multiset(Plan(None, frames, wims)) == multiset(frames) + multiset(wims)
  {
    var p := DeauthPrefix(frames);
    assert frames == p + frames[|p|..];
  }

  /**
   * From `before` sent and `plan` to go, to `after` sent and `left` to go, with at most
   * one packet freed instead of being sent; the order never changes.
   */
  predicate Conserved(before: seq<Skb>, plan: seq<Skb>, after: seq<Skb>, dropped: Option<Skb>, left: seq<Skb>) {
    match dropped
    case None => before + plan == after + left
    case Some(skb) => before + plan == after + [skb] + left
  }

  lemma MoveFirst(a: seq<Skb>, x: Skb, b: seq<Skb>)
    ensures a + ([x] + b) == a + [x] + b
  {
  }

  // ---- enqueueing ---------------------------------------------------------------------------

  /** Where nrc_hif_enqueue_skb puts a frame: management frames go to the head while running. */
  function Enqueued(frames: seq<Skb>, skb: Skb, running: bool): seq<Skb> {
    if running && skb.mgmt then [skb] + frames else frames + [skb]
  }

  lemma {:induction false} DeauthPrefixSnoc(frames: seq<Skb>, skb: Skb)
    ensures var p := DeauthPrefix(frames);
            DeauthPrefix(frames + [skb]) == if p == frames && skb.deauth then frames + [skb] else p
  {
    if frames == [] {
      assert [skb][1..] == [] && DeauthPrefix([]) == [];
    } else {
      assert (frames + [skb])[1..] == frames[1..] + [skb];
      assert frames == [frames[0]] + frames[1..];
      DeauthPrefixSnoc(frames[1..], skb);
      if frames[0].deauth {
        assert DeauthPrefix(frames) == [frames[0]] + DeauthPrefix(frames[1..]);
        assert DeauthPrefix(frames + [skb]) == [frames[0]] + DeauthPrefix(frames[1..] + [skb]);
        assert DeauthPrefix(frames) == frames ==> DeauthPrefix(frames)[1..] == frames[1..];
      }
    }
  }

  lemma HeadPlan(frames: seq<Skb>, wims: seq<Skb>, skb: Skb)
    ensures Plan(None, [skb] + frames, wims) ==
            if skb.deauth then [skb] + Plan(None, frames, wims) else wims + [skb] + frames
  {
    var all := [skb] + frames;
    assert all[0] == skb && all[1..] == frames;
    if skb.deauth {
      PlanDeauth(all, wims);
    } else {
      assert DeauthPrefix(all) == [] && all[0..] == all;
      assert [] + wims + all == wims + [skb] + frames;
    }
  }

  lemma TailPlan(frames: seq<Skb>, wims: seq<Skb>, skb: Skb)
    ensures Plan(None, frames + [skb], wims) ==
            if skb.deauth && DeauthPrefix(frames) == frames then frames + [skb] + wims
            else Plan(None, frames, wims) + [skb]
  {
    var all, p := frames + [skb], DeauthPrefix(frames);
    DeauthPrefixSnoc(frames, skb);
    if p == frames && skb.deauth {
      assert all[|all|..] == [];
      assert all + wims + [] == all + wims;
    } else {
      assert all[|p|..] == frames[|p|..] + [skb];
      assert p + wims + (frames[|p|..] + [skb]) == p + wims + frames[|p|..] + [skb];
    }
  }

  /**
   * What enqueueing a frame does to the order of the next drain.  A deauth frame queued
   * while running goes first of all; any other management frame goes ahead of all frames
   * but behind the WIMs, and so sends waiting deauth frames behind the WIMs as well; an
   * ordinary frame goes last.
   */
  lemma EnqueuedPlan(frames: seq<Skb>, wims: seq<Skb>, skb: Skb, running: bool)
    ensures var before, after := Plan(None, frames, wims), Plan(None, Enqueued(frames, skb, running), wims);
      if running && skb.mgmt then
        after == if skb.deauth then [skb] + before else wims + [skb] + frames
      else
        after == if skb.deauth && DeauthPrefix(frames) == frames then frames + [skb] + wims else before + [skb]
  {
    HeadPlan(frames, wims, skb);
    TailPlan(frames, wims, skb);
  }

  /** A deauth frame due at once waits for the WIM queue after an ordinary management frame is queued. */
  lemma DeauthLosesPrecedence(d: Skb, m: Skb, w: Skb)
    requires d.deauth && m.mgmt && !m.deauth
    ensures Plan(None, [d], [w]) == [d, w]
    ensures Plan(None, Enqueued([d], m, true), [w]) == [w, m, d]
  {
    PlanDeauth([d], [w]);
    assert [d][1..] == [];
    PlanOfWims([w]);
    HeadPlan([d], [w], m);
  }
}
