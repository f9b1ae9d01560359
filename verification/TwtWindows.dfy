/**
 Service windows over all time (nrc-twt-sched.c).

 A flow accepted in slot `index` wakes at some target wake time and then every
 `period` microseconds; each wake opens a window of one service period.
 */
module TwtWindows {
  import opened Arith

  /** Two half-open windows of length sp share an instant. */
  predicate Overlap(a: int, b: int, sp: nat) {
    a < b + sp && b < a + sp
  }

  /** t is the start of slot `index` in some repetition of the schedule. */
  ghost predicate IsSlotTime(start: nat, interval: nat, sp: nat, index: nat, t: int) {
    exists n: nat :: t == SlotTime(start, interval, sp, index, n)
  }

  function SlotTime(start: nat, interval: nat, sp: nat, index: nat, n: nat): nat {
    start + interval * n + index * sp
  }

  /** The k-th wake of a flow whose first wake is t. */
  function Wake(t: nat, period: nat, k: nat): nat {
    t + period * k
  }

  /** A period that is a multiple of the interval stays on the slot's grid. */
  lemma WakesStayOnGrid(start: nat, interval: nat, sp: nat, index: nat, t: nat, multi: nat, k: nat)
    requires IsSlotTime(start, interval, sp, index, t)
    ensures IsSlotTime(start, interval, sp, index, Wake(t, interval * multi, k))
  {
    var n: nat :| t == SlotTime(start, interval, sp, index, n);
    assert interval * (n + multi * k) == interval * n + interval * multi * k;
    assert Wake(t, interval * multi, k) == SlotTime(start, interval, sp, index, n + multi * k);
  }

  lemma DifferentSlotsApart(start: nat, interval: nat, sp: nat, slots: nat, a: nat, b: nat, n: nat, k: nat)
    requires slots * sp <= interval && a < b < slots
    ensures !Overlap(SlotTime(start, interval, sp, a, n), SlotTime(start, interval, sp, b, k), sp)
  {
    MulMono(a + 1, b, sp);
    MulMono(b + 1, slots, sp);
    assert (a + 1) * sp == a * sp + sp && (b + 1) * sp == b * sp + sp;
    if n < k {
      MulMono(n + 1, k, interval);
      assert (n + 1) * interval == interval * n + interval;
      assert k * interval == interval * k;
    } else if k < n {
      MulMono(k + 1, n, interval);
      assert (k + 1) * interval == interval * k + interval;
      assert n * interval == interval * n;
    }
  }

  /** No window of one slot ever meets a window of another. */
  ghost predicate NeverOverlap(start: nat, interval: nat, sp: nat, slots: nat) {
    forall a: nat, b: nat, n: nat, k: nat
      {:trigger SlotTime(start, interval, sp, a, n), SlotTime(start, interval, sp, b, k)}
      | a < slots && b < slots && a != b ::
        !Overlap(SlotTime(start, interval, sp, a, n), SlotTime(start, interval, sp, b, k), sp)
  }

  /**
   * The windows of different slots are disjoint for all repetitions exactly when the
   * slots fit into the interval.
   */
  lemma NeverOverlapIffSlotsFit(start: nat, interval: nat, sp: nat, slots: nat)
    requires interval > 0 && sp > 0 && slots >= 2
    ensures NeverOverlap(start, interval, sp, slots) <==> slots * sp <= interval
  {
    if slots * sp <= interval {
      forall a: nat, b: nat, n: nat, k: nat | a < slots && b < slots && a != b
        ensures !Overlap(SlotTime(start, interval, sp, a, n), SlotTime(start, interval, sp, b, k), sp)
      {
        if a < b {
          DifferentSlotsApart(start, interval, sp, slots, a, b, n, k);
        } else {
          DifferentSlotsApart(start, interval, sp, slots, b, a, k, n);
        }
      }
    } else {
      var c := interval / sp;
      DivBelow(interval, sp, slots);
      DivMod(interval, sp);
      var b := if c == 0 then 1 else c;
      assert SlotTime(start, interval, sp, b, 0) == start + b * sp;
      assert SlotTime(start, interval, sp, 0, 1) == start + interval;
      assert Overlap(SlotTime(start, interval, sp, b, 0), SlotTime(start, interval, sp, 0, 1), sp);
    }
  }
}
