/**
 The signal statistics (nrc-stats.c): a ring of the last samples and the trimmed mean
 computed from it, for the unsigned SNR and the signed RSSI.
 */
module MovingAverage {
  import opened Arith

  datatype Kind = Snr | Rssi

  /** The range of uint8_t and of int8_t. */
  function Lo(kind: Kind): int {
    if kind.Snr? then 0 else -128
  }

  function Hi(kind: Kind): int {
    if kind.Snr? then 255 else 127
  }

  predicate InRange(w: seq<int>, kind: Kind) {
    forall i :: 0 <= i < |w| ==> Lo(kind) <= w[i] <= Hi(kind)
  }

  /** What a compute call does: a figure, or a crash of the kernel. */
  datatype Outcome = Figure(value: int) | Crash

  // ---- sums and extremes -------------------------------------------------------------------

  function Sum(w: seq<int>): int {
    if w == [] then 0 else Sum(w[..|w| - 1]) + w[|w| - 1]
  }

  /** The smallest element, or top. */
  function Least(w: seq<int>, top: int): int {
    if w == [] then top else Min(Least(w[..|w| - 1], top), w[|w| - 1])
  }

  /** The greatest element, or bottom. */
  function Greatest(w: seq<int>, bottom: int): int {
    if w == [] then bottom else -Min(-Greatest(w[..|w| - 1], bottom), -w[|w| - 1])
  }

  lemma {:induction false} LeastIsLeast(w: seq<int>, kind: Kind)
    requires w != [] && InRange(w, kind)
    ensures Least(w, Hi(kind)) in w && forall i :: 0 <= i < |w| ==> Least(w, Hi(kind)) <= w[i]
  {
    var n := |w| - 1;
    if n > 0 {
      LeastIsLeast(w[..n], kind);
      assert forall i :: 0 <= i < n ==> w[i] == w[..n][i];
    } else {
      assert Least(w[..0], Hi(kind)) == Hi(kind);
    }
  }

  lemma {:induction false} GreatestIsGreatest(w: seq<int>, kind: Kind)
    requires w != [] && InRange(w, kind)
    ensures Greatest(w, Lo(kind)) in w && forall i :: 0 <= i < |w| ==> w[i] <= Greatest(w, Lo(kind))
  {
    var n := |w| - 1;
    if n > 0 {
      GreatestIsGreatest(w[..n], kind);
      assert forall i :: 0 <= i < n ==> w[i] == w[..n][i];
    } else {
      assert Greatest(w[..0], Lo(kind)) == Lo(kind);
    }
  }

  lemma {:induction false} SumAppend(a: seq<int>, b: seq<int>)
    ensures Sum(a + b) == Sum(a) + Sum(b)
  {
    if b == [] {
      assert a + b == a;
    } else {
      SumAppend(a, b[..|b| - 1]);
      assert (a + b)[..|a + b| - 1] == a + b[..|b| - 1];
    }
  }

  /** w without its element at j. */
  function Without(w: seq<int>, j: nat): seq<int>
    requires j < |w|
  {
    w[..j] + w[j + 1..]
  }

  lemma TakeOut(w: seq<int>, j: nat)
    requires j < |w|
    ensures Sum(w) == Sum(Without(w, j)) + w[j]
    ensures multiset(Without(w, j)) == multiset(w) - multiset{w[j]}
    ensures forall x :: x in Without(w, j) ==> x in w
  {
    assert w == w[..j] + ([w[j]] + w[j + 1..]);
    SumAppend(w[..j], [w[j]] + w[j + 1..]);
    SumAppend([w[j]], w[j + 1..]);
    SumAppend(w[..j], w[j + 1..]);
    assert Sum([w[j]]) == w[j];
  }

  /** A sum depends only on what is added, not on the order. */
  lemma {:induction false} SumOfSame(a: seq<int>, b: seq<int>)
    requires multiset(a) == multiset(b)
    ensures Sum(a) == Sum(b)
    decreases |a|
  {
    assert |a| == |multiset(a)| == |b|;
    if a != [] {
      var n := |a| - 1;
      assert a[n] in multiset(b);
      var j :| 0 <= j < |b| && b[j] == a[n];
      TakeOut(a, n);
      TakeOut(b, j);
      assert Without(a, n) == a[..n];
      SumOfSame(Without(a, n), Without(b, j));
    }
  }

  // ---- the figure promised -----------------------------------------------------------------

  /** The last samples, at most count of them. */
  function Window(samples: seq<int>, count: nat): seq<int> {
    if |samples| <= count then samples else samples[|samples| - count..]
  }

  /** The mean without one minimum and one maximum, truncated toward zero. */
  function TrimmedMean(w: seq<int>, kind: Kind): int
    requires |w| >= 3
  {
    TruncDiv(Sum(w) - Least(w, Hi(kind)) - Greatest(w, Lo(kind)), |w| - 2)
  }

  /** What is computed after the given samples, from a ring of count. */
  function Expected(samples: seq<int>, count: nat, kind: Kind): Outcome
    requires count > 0
  {
    if count == 2 then Crash
    else if samples == [] then (if kind.Snr? then Crash else Figure(0))
    else if count == 1 then Figure(samples[|samples| - 1])
    else if |samples| < 3 then Figure(TruncDiv(Sum(samples), |samples|))
    else Figure(TrimmedMean(Window(samples, count), kind))
  }

  // ---- the ring ----------------------------------------------------------------------------

  /** The slots of a ring, where the next sample goes, and the samples they stand for. */
  ghost predicate Holds(all: seq<int>, index: nat, early: bool, samples: seq<int>) {
    && index < |all|
    && (early <==> |samples| < |all|)
    && if early
       then index == |samples| && all == samples + Zeros(|all| - index)
       else all[index..] + all[..index] == Window(samples, |all|)
  }

  function Zeros(n: nat): seq<int> {
    seq(n, i => 0)
  }

  lemma Filling(all: seq<int>, index: nat, samples: seq<int>, x: int)
    requires Holds(all, index, true, samples) && index + 1 < |all|
    ensures Holds(all[index := x], index + 1, true, samples + [x])
  {
    assert all[index := x] == (samples + [x]) + Zeros(|all| - index - 1);
  }

  lemma Filled(all: seq<int>, index: nat, samples: seq<int>, x: int)
    requires Holds(all, index, true, samples) && index + 1 == |all|
    ensures Holds(all[index := x], 0, false, samples + [x])
  {
    var after := all[index := x];
    assert after == samples + [x];
    assert after[0..] + after[..0] == after;
  }

  /** The last count samples, once there are more of them than slots. */
  lemma Next(samples: seq<int>, x: int, count: nat)
    requires 0 < count <= |samples|
    ensures Window(samples + [x], count) == Window(samples, count)[1..] + [x]
  {
    assert Window(samples, count) == samples[|samples| - count..];
  }

  lemma Inside(all: seq<int>, index: nat, w: seq<int>, x: int)
    requires index + 1 < |all| && all[index..] + all[..index] == w
    ensures all[index := x][index + 1..] + all[index := x][..index + 1] == w[1..] + [x]
  {
    assert w[1..] == all[index + 1..] + all[..index];
    assert all[index := x][index + 1..] == all[index + 1..];
    assert all[index := x][..index + 1] == all[..index] + [x];
  }

  lemma Over(all: seq<int>, index: nat, w: seq<int>, x: int)
    requires index + 1 == |all| && all[index..] + all[..index] == w
    ensures all[index := x][0..] + all[index := x][..0] == w[1..] + [x]
  {
    assert w[1..] == all[..index];
    assert all[index := x] == all[..index] + [x];
  }

  lemma Turning(all: seq<int>, index: nat, samples: seq<int>, x: int)
    requires Holds(all, index, false, samples)
    ensures Holds(all[index := x], if index + 1 < |all| then index + 1 else 0, false, samples + [x])
  {
    Next(samples, x, |all|);
    if index + 1 < |all| {
      Inside(all, index, Window(samples, |all|), x);
    } else {
      Over(all, index, Window(samples, |all|), x);
    }
  }

  lemma Wrap(next: nat, count: nat)
    requires 0 < next <= count
    ensures next % count == if next < count then next else 0
  {
  }

  lemma Stored(all: seq<int>, index: nat, early: bool, samples: seq<int>, x: int)
    requires Holds(all, index, early, samples)
    ensures var next := if index + 1 < |all| then index + 1 else 0;
            Holds(all[index := x], next, early && index + 1 < |all|, samples + [x])
  {
    if !early {
      Turning(all, index, samples, x);
    } else if index + 1 < |all| {
      Filling(all, index, samples, x);
    } else {
      Filled(all, index, samples, x);
    }
  }

  /** What the compute functions do with the slots as they are. */
  function OfSlots(all: seq<int>, index: nat, early: bool, kind: Kind): Outcome
    requires 0 < |all| && index <= |all|
  {
    var count := |all|;
    var used := all[..if early && index > 2 then index else count];
    var trimmed := Sum(used) - Least(used, Hi(kind)) - Greatest(used, Lo(kind));
    if count == 2 then Crash
    else if early && index > 2 then Figure(TruncDiv(trimmed, index - 2))
    else if early && index == 0 then (if kind.Snr? then Crash else Figure(Sum(used)))
    else if early then Figure(TruncDiv(Sum(used), index))
    else if count == 1 then Figure(-trimmed) // C's division by -1
    else Figure(TruncDiv(trimmed, count - 2))
  }

  /** struct moving_average */
  class Ring {
    const kind: Kind
    const count: nat
    const arr: array<int>
    var index: nat
    var early: bool
    ghost var samples: seq<int>

    ghost predicate Valid()
      reads this, arr
    {
      arr.Length == count > 0 && InRange(samples, kind) && Holds(arr[..], index, early, samples)
    }

    /** moving_average_init */
    constructor (n: nat, k: Kind)
      requires n > 0
      ensures Valid() && fresh(arr) && count == n && kind == k && samples == []
    {
      kind, count := k, n;
      arr := new int[n](i => 0);
      index, early, samples := 0, true, [];
    }

    /** moving_average_update */
    method Update(x: int)
      requires Valid() && IsSample(x, kind)
      modifies this, arr
      ensures Valid() && samples == old(samples) + [x]
    {
      Stored(arr[..], index, early, samples, x);
      ghost var stored := arr[..][index := x];
      arr[index] := x;
      assert arr[..] == stored;
      samples := samples + [x];
      var next := index + 1;
      Wrap(next, count);
      if early && next >= count {
        early := false;
      }
      index := next % count;
    }

    /** The loop of snr_compute and rssi_compute over the first n slots. */
    method Scan(n: nat) returns (sum: int, min: int, max: int)
      requires n <= arr.Length
      ensures sum == Sum(arr[..][..n])
      ensures min == Least(arr[..][..n], Hi(kind)) && max == Greatest(arr[..][..n], Lo(kind))
    {
      sum, min, max := 0, Hi(kind), Lo(kind);
      for i := 0 to n
        invariant sum == Sum(arr[..i])
        invariant min == Least(arr[..i], Hi(kind)) && max == Greatest(arr[..i], Lo(kind))
      {
        assert arr[..i + 1][..i] == arr[..i];
        var v := arr[i];
        min := if v < min then v else min;
        max := if v > max then v else max;
        sum := sum + v;
      }
      assert arr[..][..n] == arr[..n];
    }

    /** snr_compute and rssi_compute, which differ only where nothing was sampled yet. */
    method Compute() returns (figure: Outcome)
      requires Valid()
      ensures figure == Expected(samples, count, kind)
    {
      SlotsAreSamples(arr[..], index, early, samples, kind);
      var n := if early && index > 2 then index else count;
      var sum, min, max := Scan(n);
      if count == 2 {
        return Crash;
      }
      if early {
        if index > 2 {
          return Figure(TruncDiv(sum - min - max, index - 2));
        }
        if index == 0 {
          return if kind.Snr? then Crash else Figure(sum);
        }
        return Figure(TruncDiv(sum, index));
      }
      if count == 1 {
        return Figure(-(sum - min - max));
      }
      return Figure(TruncDiv(sum - min - max, count - 2));
    }
  }

  /** The figure computed from the slots is the one promised for the samples. */
  lemma SlotsAreSamples(all: seq<int>, index: nat, early: bool, samples: seq<int>, kind: Kind)
    requires Holds(all, index, early, samples) && InRange(samples, kind)
    ensures OfSlots(all, index, early, kind) == Expected(samples, |all|, kind)
  {
    assert all[..|all|] == all;
    if early {
      assert all[..index] == samples;
      ZerosAddNothing(samples, |all| - index);
    } else {
      FullSlots(all, index, samples, kind);
    }
  }

  lemma FullSlots(all: seq<int>, index: nat, samples: seq<int>, kind: Kind)
    requires Holds(all, index, false, samples) && InRange(samples, kind)
    ensures OfSlots(all, index, false, kind) == Expected(samples, |all|, kind)
  {
    assert all[..|all|] == all;
    WindowInRange(samples, |all|, kind);
    RotationIsIrrelevant(all, index, kind);
    if |all| == 1 {
      OnlySlot(Window(samples, 1), kind);
    }
  }

  lemma {:induction false} ZerosAddNothing(samples: seq<int>, n: nat)
    ensures Sum(samples + Zeros(n)) == Sum(samples)
  {
    if n == 0 {
      assert samples + Zeros(0) == samples;
    } else {
      ZerosAddNothing(samples, n - 1);
      assert (samples + Zeros(n))[..|samples| + n - 1] == samples + Zeros(n - 1);
    }
  }

  lemma SameExtremes(a: seq<int>, b: seq<int>, kind: Kind)
    requires a != [] && InRange(a, kind) && multiset(a) == multiset(b)
    ensures Least(a, Hi(kind)) == Least(b, Hi(kind)) && Greatest(a, Lo(kind)) == Greatest(b, Lo(kind))
  {
    SameElements(a, b, a[0]);
    forall i | 0 <= i < |b|
      ensures b[i] in a
    {
      SameElements(b, a, b[i]);
    }
    LeastIsLeast(a, kind);
    GreatestIsGreatest(a, kind);
    LeastIsLeast(b, kind);
    GreatestIsGreatest(b, kind);
    SameElements(a, b, Least(a, Hi(kind)));
    SameElements(a, b, Greatest(a, Lo(kind)));
  }

  lemma SameElements(a: seq<int>, b: seq<int>, x: int)
    requires multiset(a) == multiset(b) && x in a
    ensures x in b
  {
    assert x in multiset(b);
  }

  /** Wherever the ring starts, the sum and the extremes of its slots are those of the window. */
  lemma RotationIsIrrelevant(all: seq<int>, index: nat, kind: Kind)
    requires index < |all| && InRange(all[index..] + all[..index], kind)
    ensures var w := all[index..] + all[..index];
      && Sum(all) == Sum(w) && Least(all, Hi(kind)) == Least(w, Hi(kind))
      && Greatest(all, Lo(kind)) == Greatest(w, Lo(kind))
  {
    var w := all[index..] + all[..index];
    assert all == all[..index] + all[index..];
    assert multiset(all) == multiset(w);
    SumOfSame(all, w);
    SameExtremes(w, all, kind);
  }

  lemma WindowInRange(samples: seq<int>, count: nat, kind: Kind)
    requires InRange(samples, kind)
    ensures InRange(Window(samples, count), kind)
  {
  }

  lemma OnlySlot(w: seq<int>, kind: Kind)
    requires |w| == 1 && InRange(w, kind)
    ensures Sum(w) == Least(w, Hi(kind)) == Greatest(w, Lo(kind)) == w[0]
  {
    assert w[..0] == [];
  }

  // ---- what the figure means ---------------------------------------------------------------

  lemma {:induction false} SumBetween(s: seq<int>, low: int, high: int)
    requires forall i :: 0 <= i < |s| ==> low <= s[i] <= high
    ensures low * |s| <= Sum(s) <= high * |s|
  {
    if s != [] {
      var n := |s| - 1;
      SumBetween(s[..n], low, high);
      OneMore(low, n);
      OneMore(high, n);
    }
  }

  lemma OneMore(a: int, n: int)
    ensures a * (n + 1) == a * n + a
  {
  }

  lemma TruncBetween(a: int, b: int, low: int, high: int)
    requires b > 0 && low * b <= a <= high * b
    ensures low <= TruncDiv(a, b) <= high
  {
    if a >= 0 {
      DivBelow(a, b, low);
      DivBelow(a, b, high + 1);
    } else {
      DivBelow(-a, b, -high);
      DivBelow(-a, b, 1 - low);
    }
  }

  /** low and high are the extremes of w, and rest is w without one of each. */
  ghost predicate Leftover(w: seq<int>, rest: seq<int>, low: int, high: int) {
    && low in w && high in w
    && (forall i :: 0 <= i < |w| ==> low <= w[i] <= high)
    && multiset(w) == multiset(rest + [low, high])
  }

  /**
   * The trimmed mean is the mean of what is left, in whatever order, when one smallest and one
   * greatest sample are taken out, rounded toward zero; it lies between those two.
   */
  lemma TrimmedMeanMeaning(w: seq<int>, rest: seq<int>, low: int, high: int, kind: Kind)
    requires |w| >= 3 && InRange(w, kind) && Leftover(w, rest, low, high)
    ensures |rest| == |w| - 2 && TowardZero(TrimmedMean(w, kind), Sum(rest), |rest|)
    ensures low <= TrimmedMean(w, kind) <= high
  {
    WhatIsDivided(w, rest, low, high, kind);
    assert low <= TruncDiv(Sum(rest), |rest|) <= high by {
      RestBetween(w, rest, low, high);
      MeanBetween(rest, low, high);
    }
    SameMean(w, rest, kind);
    TruncDivMeaning(Sum(rest), |rest|);
  }

  lemma SameMean(w: seq<int>, rest: seq<int>, kind: Kind)
    requires |rest| == |w| - 2 > 0 && Sum(w) - Least(w, Hi(kind)) - Greatest(w, Lo(kind)) == Sum(rest)
    ensures TrimmedMean(w, kind) == TruncDiv(Sum(rest), |rest|)
  {
  }

  lemma WhatIsDivided(w: seq<int>, rest: seq<int>, low: int, high: int, kind: Kind)
    requires |w| >= 3 && InRange(w, kind) && Leftover(w, rest, low, high)
    ensures |rest| == |w| - 2 && Sum(w) - Least(w, Hi(kind)) - Greatest(w, Lo(kind)) == Sum(rest)
  {
    ExtremesAre(w, low, high, kind);
    SumOfLeftover(w, rest, low, high);
  }

  lemma MeanBetween(s: seq<int>, low: int, high: int)
    requires s != [] && forall i :: 0 <= i < |s| ==> low <= s[i] <= high
    ensures low <= TruncDiv(Sum(s), |s|) <= high
  {
    SumBetween(s, low, high);
    TruncBetween(Sum(s), |s|, low, high);
  }

  lemma ExtremesAre(w: seq<int>, low: int, high: int, kind: Kind)
    requires InRange(w, kind) && low in w && high in w && forall i :: 0 <= i < |w| ==> low <= w[i] <= high
    ensures Least(w, Hi(kind)) == low && Greatest(w, Lo(kind)) == high
  {
    LeastIsLeast(w, kind);
    GreatestIsGreatest(w, kind);
  }

  lemma RestBetween(w: seq<int>, rest: seq<int>, low: int, high: int)
    requires Leftover(w, rest, low, high)
    ensures forall i :: 0 <= i < |rest| ==> low <= rest[i] <= high
  {
    forall i | 0 <= i < |rest|
      ensures low <= rest[i] <= high
    {
      assert (rest + [low, high])[i] == rest[i];
      SameElements(rest + [low, high], w, rest[i]);
    }
  }

  lemma SumOfTwo(a: int, b: int)
    ensures Sum([a, b]) == a + b
  {
    var s, t := [a, b], [a];
    assert s[..1] == t && Sum(s) == Sum(t) + b;
    assert Sum(t) == Sum(t[..0]) + a;
  }

  lemma SumOfLeftover(w: seq<int>, rest: seq<int>, low: int, high: int)
    requires multiset(w) == multiset(rest + [low, high])
    ensures Sum(w) == Sum(rest) + low + high && |w| == |rest| + 2
  {
    var all := rest + [low, high];
    SumOfSame(w, all);
    SumAppend(rest, [low, high]);
    SumOfTwo(low, high);
    assert |multiset(w)| == |w| && |multiset(all)| == |all|;
  }

  lemma TakeOutTwo(w: seq<int>, i: nat, j: nat) returns (rest: seq<int>)
    requires i < j < |w|
    ensures multiset(w) == multiset(rest + [w[i], w[j]])
  {
    var v := Without(w, j);
    rest := Without(v, i);
    PutBack(w, j);
    assert v[i] == w[i];
    PutBack(v, i);
    assert rest + [w[i], w[j]] == (rest + [w[i]]) + [w[j]];
    assert multiset(rest + [w[i], w[j]]) == multiset(rest + [w[i]]) + multiset([w[j]]);
    assert multiset(v + [w[j]]) == multiset(v) + multiset([w[j]]);
  }

  lemma PutBack(w: seq<int>, j: nat)
    requires j < |w|
    ensures multiset(w) == multiset(Without(w, j) + [w[j]])
  {
    assert w == w[..j] + [w[j]] + w[j + 1..];
  }

  /** Two places, in either order. */
  lemma TakeOutBoth(w: seq<int>, i: nat, j: nat) returns (rest: seq<int>)
    requires i < |w| && j < |w| && i != j
    ensures multiset(w) == multiset(rest + [w[i], w[j]])
  {
    if i < j {
      rest := TakeOutTwo(w, i, j);
    } else {
      rest := TakeOutTwo(w, j, i);
      SwapLast(rest, w[j], w[i]);
    }
  }

  /** There always is such a rest. */
  lemma Trimmed(w: seq<int>, kind: Kind) returns (rest: seq<int>, low: int, high: int)
    requires |w| >= 3 && InRange(w, kind)
    ensures Leftover(w, rest, low, high)
  {
    LeastIsLeast(w, kind);
    GreatestIsGreatest(w, kind);
    low, high := Least(w, Hi(kind)), Greatest(w, Lo(kind));
    var i, j := IndexOf(w, low), IndexOf(w, high);
    if i == j {
      i, j := 0, 1;
    }
    assert w[i] == low && w[j] == high;
    rest := TakeOutBoth(w, i, j);
  }

  lemma SwapLast(rest: seq<int>, a: int, b: int)
    ensures multiset(rest + [a, b]) == multiset(rest + [b, a])
  {
    assert multiset([a, b]) == multiset([b, a]);
  }

  function IndexOf(w: seq<int>, x: int): (i: nat)
    requires x in w
    ensures i < |w| && w[i] == x
  {
    if w[0] == x then 0 else 1 + IndexOf(w[1..], x)
  }

  /** What an uint8_t or an int8_t holds. */
  predicate IsSample(x: int, kind: Kind) {
    match kind
    case Snr => 0 <= x <= 255
    case Rssi => -128 <= x <= 127
  }

  /**
   * After three or more samples in a ring of three or more, the figure is the mean of the
   * last of them without one minimum and one maximum, rounded toward zero, and lies between
   * these.
   */
  lemma FigureMeaning(samples: seq<int>, count: nat, kind: Kind)
    returns (figure: int, rest: seq<int>, low: int, high: int)
    requires count >= 3 && |samples| >= 3 && forall i :: 0 <= i < |samples| ==> IsSample(samples[i], kind)
    ensures Leftover(Window(samples, count), rest, low, high) && |rest| == Min(|samples|, count) - 2
    ensures Expected(samples, count, kind) == Figure(figure) && TowardZero(figure, Sum(rest), |rest|)
    ensures low <= figure <= high
  {
    var w := Window(samples, count);
    WindowInRange(samples, count, kind);
    rest, low, high := Trimmed(w, kind);
    TrimmedMeanMeaning(w, rest, low, high, kind);
    figure := TrimmedMean(w, kind);
  }

  /** With fewer samples or slots: the plain mean, the last sample, or one of the crashes. */
  lemma FewSamples(samples: seq<int>, count: nat, kind: Kind)
    requires count > 0 && (count < 3 || |samples| < 3)
    ensures var e := Expected(samples, count, kind);
      && (e == Crash <==> count == 2 || (samples == [] && kind == Snr))
      && (count != 2 && samples == [] && kind == Rssi ==> e == Figure(0))
      && (count == 1 && samples != [] ==> e == Figure(samples[|samples| - 1]))
      && (count > 2 && |samples| == 1 ==> e == Figure(samples[0]))
      && (count > 2 && |samples| == 2 ==> e.Figure? && TowardZero(e.value, samples[0] + samples[1], 2))
  {
    if count > 2 && |samples| == 1 {
      assert samples[..0] == [];
      assert Sum(samples) == samples[0];
    } else if count > 2 && |samples| == 2 {
      assert samples == [samples[0], samples[1]];
      SumOfTwo(samples[0], samples[1]);
      TruncDivMeaning(Sum(samples), 2);
    }
  }
}
