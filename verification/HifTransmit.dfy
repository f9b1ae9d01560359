/**
 The transmit side of the host interface as the driver runs it (hif.c): queues and counters
 updated in place.  Every method is proved to take the steps of HifRuns, so that what holds
 of all runs holds of this code.
 */
module HifTransmit {
  import opened Arith
  import opened Common
  import opened HifQueue
  import opened HifRuns

  /** The pass over queue i: 1 is the WIM queue, 0 the frame queue. */
  function PassOf(i: nat): Pass {
    if i == 1 then WimPass else FramePass
  }

  class HifDevice {
    const bufferSize: nat
    var frames: seq<Skb>
    var wims: seq<Skb>
    var txPend: seq<int>
    ghost var sent: seq<Skb>
    ghost var freed: seq<Skb>
    ghost var lost: seq<Skb>
    ghost var twice: seq<Skb>

    /** The device, with the frame a drain holds and the pass it is in. */
    ghost function View(held: Option<Skb>, pass: Pass): State
      reads this
    {
      State(frames, wims, held, pass, txPend, sent, freed, lost, twice)
    }

    constructor (bufSize: nat, queues: nat)
      requires bufSize > 0
      ensures bufferSize == bufSize && |txPend| == queues && Fresh(View(None, Idle)) && Sound(View(None, Idle), bufSize)
    {
      bufferSize := bufSize;
      frames, wims, sent, freed, lost, twice := [], [], [], [], [], [];
      txPend := seq(queues, _ => 0);
    }

    /** nrc_hif_free_skb: a frame gives back the credit it took. */
    method FreeSkb(skb: Skb, ghost held: Option<Skb>, ghost pass: Pass)
      requires bufferSize > 0 && (skb.kind == Frame ==> skb.ac < |txPend|)
      modifies this`txPend
      ensures View(held, pass) == Release(old(View(held, pass)), skb, bufferSize)
      ensures skb.kind != Frame ==> txPend == old(txPend)
      ensures skb.kind == Frame ==>
        skb.len <= (old(txPend)[skb.ac] - txPend[skb.ac]) * bufferSize < skb.len + bufferSize
    {
      if skb.kind == Frame {
        txPend := txPend[skb.ac := txPend[skb.ac] - DivRoundUp(skb.len, bufferSize)];
      }
    }

    /** The choice of the next packet for queue i, with deauth pre-emption and the held frame. */
    method Next(i: nat, held: Option<Skb>, asleep: bool) returns (skb: Option<Skb>, held': Option<Skb>)
      requires i < 2
      modifies this`frames, this`wims
      ensures var pass := PassOf(i);
        var s := old(View(held, pass));
        if Takes(s, asleep) then skb == Some(Take(s, asleep).0) && View(held', pass) == Take(s, asleep).1
        else skb == None && held' == held && View(held', pass) == s
    {
      skb, held' := None, held;
      if i == 1 {
        if wims == [] {
          return;
        }
        skb := Some(wims[0]);
        wims := wims[1..];
        if held.None? && frames != [] {
          var f := frames[0];
          frames := frames[1..];
          if f.deauth {
            wims := [skb.value] + wims;
            assert wims == old(wims);
            skb := Some(f);
          } else {
            held' := Some(f);
          }
        }
      } else {
        if asleep || wims != [] {
          return;
        }
        if held.Some? {
          skb := held;
          held' := None;
        } else if frames != [] {
          skb := Some(frames[0]);
          frames := frames[1..];
        }
      }
    }

    /** One round of the inner loop for queue i: whether it took a packet, and the frame then held. */
    method TakeAndSend(i: nat, held: Option<Skb>, ok: bool, asleep: bool) returns (taken: bool, held': Option<Skb>)
      requires i < 2 && bufferSize > 0 && Sound(View(held, PassOf(i)), bufferSize)
      modifies this
      ensures taken == old(Takes(View(held, PassOf(i)), asleep))
      ensures !taken ==> held' == held && View(held', PassOf(i)) == old(View(held, PassOf(i)))
      ensures taken ==> View(held', if ok then PassOf(i) else Idle)
                        == DrainRound(old(View(held, PassOf(i))), ok, asleep, bufferSize)
    {
      ghost var s := View(held, PassOf(i));
      var skb;
      skb, held' := Next(i, held, asleep);
      taken := skb.Some?;
      if taken {
        TakeIsSound(s, asleep, bufferSize);
        Send(skb.value, held', PassOf(i), ok);
        if !ok {
          held' := None;
        }
      }
    }

    /**
     * The inner loop of nrc_hif_work for queue i.  When a wait for the transport fails, the
     * packet is freed and the whole drain ends; a held frame is forgotten.
     */
    method DrainQueue(i: nat, held0: Option<Skb>, waitOk: nat -> bool, k0: nat, asleep: bool)
      returns (held: Option<Skb>, k: nat, failed: bool)
      requires i < 2 && bufferSize > 0 && Sound(View(held0, PassOf(i)), bufferSize)
      modifies this
      ensures Drained(old(View(held0, PassOf(i))), waitOk, k0, asleep, bufferSize) ==
              (if failed then View(None, Idle) else Drained(View(held, PassOf(i)), waitOk, k, asleep, bufferSize))
      ensures !failed ==> !Takes(View(held, PassOf(i)), asleep) && Sound(View(held, PassOf(i)), bufferSize)
    {
      held, k := held0, k0;
      while true
        invariant Sound(View(held, PassOf(i)), bufferSize)
        invariant Drained(View(held, PassOf(i)), waitOk, k, asleep, bufferSize)
                  == old(Drained(View(held0, PassOf(i)), waitOk, k0, asleep, bufferSize))
        decreases |frames| + |wims| + |AsSeq(held)|
      {
        ghost var s := View(held, PassOf(i));
        RoundIsSound(s, waitOk(k), asleep, bufferSize);
        DrainedStep(s, waitOk, k, asleep, bufferSize);
        var taken;
        taken, held := TakeAndSend(i, held, waitOk(k), asleep);
        if !taken {
          return held, k, false;
        }
        if !waitOk(k) {
          return None, k, true;
        }
        k := k + 1;
      }
    }

    /** Waiting for the transport, writing to it, and releasing the packet in either case. */
    method Send(skb: Skb, held: Option<Skb>, ghost pass: Pass, ok: bool)
      requires bufferSize > 0 && (skb.kind == Frame ==> skb.ac < |txPend|)
      modifies this`txPend, this`sent, this`freed, this`lost
      ensures (if ok then View(held, pass) else View(None, Idle)) == Attempt(old(View(held, pass)), skb, ok, bufferSize)
    {
      if ok {
        sent := sent + [skb];
        FreeSkb(skb, held, pass);
      } else {
        freed := freed + [skb];
        FreeSkb(skb, held, pass);
        lost := lost + AsSeq(held);
      }
    }

    /** nrc_hif_work takes exactly the rounds of a drain. */
    method Drain(waitOk: nat -> bool, asleep: bool)
      requires bufferSize > 0 && Sound(View(None, Idle), bufferSize)
      modifies this
      ensures View(None, Idle) == Drained(Step(old(View(None, Idle)), Begin, bufferSize), waitOk, 0, asleep, bufferSize)
    {
      var held, k, failed := DrainQueue(1, None, waitOk, 0, asleep);
      if failed {
        return;
      }
      assert Drained(View(held, WimPass), waitOk, k, asleep, bufferSize)
          == Drained(View(held, FramePass), waitOk, k, asleep, bufferSize);
      held, k, failed := DrainQueue(0, held, waitOk, k, asleep);
      if !failed {
        ghost var stopped := Stop(View(held, FramePass));
        lost := lost + AsSeq(held);
        assert View(None, Idle) == stopped;
      }
    }

    /** nrc_hif_work: what a drain sends, drops, forgets and leaves is in the order of the plan. */
    method Work(waitOk: nat -> bool, asleep: bool) returns (ghost dropped: Option<Skb>, ghost forgotten: Option<Skb>)
      requires bufferSize > 0 && Sound(View(None, Idle), bufferSize)
      modifies this
      ensures var s := Step(old(View(None, Idle)), Begin, bufferSize);
        && View(None, Idle) == Drained(s, waitOk, 0, asleep, bufferSize)
        && Finished(s, View(None, Idle), dropped, forgotten)
      ensures (forall i :: waitOk(i)) && !asleep ==>
        && frames == wims == [] && dropped == forgotten == None
        && sent == old(sent) + Plan(None, old(frames), old(wims))
      ensures Sound(View(None, Idle), bufferSize) && |txPend| == |old(txPend)|
    {
      ghost var s := Step(View(None, Idle), Begin, bufferSize);
      DrainIsSound(s, waitOk, 0, asleep, bufferSize);
      dropped, forgotten := DrainFollowsPlan(s, waitOk, 0, asleep, bufferSize);
      Drain(waitOk, asleep);
      if dropped == forgotten == None && frames == wims == [] {
        AllSent(s, View(None, Idle));
      }
    }

    /**
     * nrc_xmit_frame and nrc_xmit_wim from their credit on: the packet is queued, or released
     * at once when the firmware is not active or the device loops back.  Without a work queue
     * it is queued and released.
     */
    method Xmit(skb: Skb, loopback: bool, active: bool, running: bool, workqueue: bool,
                ghost held: Option<Skb>, ghost pass: Pass) returns (ret: int)
      requires bufferSize > 0 && (skb.kind == Frame ==> skb.ac < |txPend|)
      modifies this
      ensures var fate := if loopback then LoopedBack else if !active then NotActive
                          else if !workqueue then NoWorkqueue else Queued;
        && View(held, pass) == Step(old(View(held, pass)), Transmit(skb, running, fate), bufferSize)
        && ret == if loopback || (active && workqueue) then 0 else -1
      ensures loopback || !active ==> frames == old(frames) && wims == old(wims) && txPend == old(txPend)
      ensures !loopback && active ==>
        && frames == (if skb.kind != Frame then old(frames)
                      else if running && skb.mgmt then [skb] + old(frames) else old(frames) + [skb])
        && wims == (if skb.kind != Frame then old(wims) + [skb] else old(wims))
        && txPend == (if workqueue && skb.kind == Frame
                      then old(txPend)[skb.ac := old(txPend)[skb.ac] + CreditOf(skb, bufferSize)]
                      else old(txPend))
    {
      ChargeSkb(skb, held, pass);
      if loopback || !active {
        freed := freed + [skb];
        FreeSkb(skb, held, pass);
        return if loopback then 0 else -1;
      }
      Enqueue(skb, running);
      if !workqueue {
        twice := twice + [skb];
        FreeSkb(skb, held, pass);
        return -1;
      }
      return 0;
    }

    /** A frame takes credit. */
    method ChargeSkb(skb: Skb, ghost held: Option<Skb>, ghost pass: Pass)
      requires bufferSize > 0 && (skb.kind == Frame ==> skb.ac < |txPend|)
      modifies this`txPend
      ensures View(held, pass) == old(View(held, pass)).(pend := Charge(old(txPend), skb, bufferSize, 1))
    {
      if skb.kind == Frame {
        txPend := txPend[skb.ac := txPend[skb.ac] + DivRoundUp(skb.len, bufferSize)];
      }
    }

    /** The queueing part of nrc_hif_enqueue_skb: management frames go to the head while running. */
    method Enqueue(skb: Skb, running: bool)
      modifies this`frames, this`wims
      ensures View(None, Idle) == Queue(old(View(None, Idle)), skb, running)
      ensures skb.kind != Frame ==> frames == old(frames) && wims == old(wims) + [skb]
      ensures skb.kind == Frame ==>
        wims == old(wims) && frames == if running && skb.mgmt then [skb] + old(frames) else old(frames) + [skb]
    {
      if running && skb.kind == Frame && skb.mgmt {
        frames := [skb] + frames;
      } else if skb.kind == Frame {
        frames := frames + [skb];
      } else {
        wims := wims + [skb];
      }
    }

    /** nrc_hif_cleanup */
    method Clean(ghost held: Option<Skb>, ghost pass: Pass)
      requires bufferSize > 0
      modifies this
      ensures View(held, pass) == Step(old(View(held, pass)), Cleanup, bufferSize)
      ensures frames == wims == [] && txPend == old(txPend)
      ensures freed == old(freed) + old(wims) && lost == old(lost) + old(frames)
    {
      ghost var f, l, w0, f0 := freed, lost, wims, frames;
      while wims != []
        invariant freed + wims == f + w0 && frames == f0 && lost == l
        invariant txPend == old(txPend) && sent == old(sent) && twice == old(twice)
        decreases |wims|
      {
        freed := freed + [wims[0]];
        wims := wims[1..];
      }
      while frames != []
        invariant freed == f + w0 && wims == [] && lost + frames == l + f0
        invariant txPend == old(txPend) && sent == old(sent) && twice == old(twice)
        decreases |frames|
      {
        lost := lost + [frames[0]];
        frames := frames[1..];
      }
    }
  }

  /** A round that takes a packet goes on with the drain, or has ended it; it makes what is left smaller. */
  lemma DrainedStep(s: State, waitOk: nat -> bool, k: nat, asleep: bool, n: nat)
    requires n > 0 && s.pass != Idle
    ensures Takes(s, asleep) ==>
              var r := DrainRound(s, waitOk(k), asleep, n);
              && Drained(s, waitOk, k, asleep, n) == (if waitOk(k) then Drained(r, waitOk, k + 1, asleep, n) else r)
              && |r.frames| + |r.wims| + |AsSeq(r.held)| < |s.frames| + |s.wims| + |AsSeq(s.held)|
  {
  }

  lemma {:induction false} DrainIsSound(s: State, waitOk: nat -> bool, k: nat, asleep: bool, n: nat)
    requires n > 0 && Sound(s, n)
    ensures Sound(Drained(s, waitOk, k, asleep, n), n) && |Drained(s, waitOk, k, asleep, n).pend| == |s.pend|
  {
    var rounds := DrainIsRun(s, waitOk, k, asleep, n);
    RunIsSound(s, rounds, n);
  }
}
