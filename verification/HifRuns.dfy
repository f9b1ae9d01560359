/**
 The transmit side of the host interface under interleaving (hif.c): packets are accepted,
 refused and cleaned up by other threads between any two rounds of a drain.
 */
module HifRuns {
  import opened Common
  import opened HifQueue

  datatype Pass = Idle | WimPass | FramePass

  /**
   * `sent` and `freed` are packets handed to the transport, and packets released without
   * that; `lost` are frames dropped with their credit still pending; `twice` are packets
   * released although they stayed queued.
   */
  datatype State = State(frames: seq<Skb>, wims: seq<Skb>, held: Option<Skb>, pass: Pass, pend: seq<int>,
                         sent: seq<Skb>, freed: seq<Skb>, lost: seq<Skb>, twice: seq<Skb>)

  datatype Fate = Queued | NotActive | LoopedBack | NoWorkqueue

  datatype Event =
    | Transmit(skb: Skb, running: bool, fate: Fate)
    | Begin
    | Round(waitOk: bool, asleep: bool)   // asleep is looked at only without CONFIG_USE_TXQ
    | Cleanup

  function Charge(pend: seq<int>, skb: Skb, n: nat, sign: int): (r: seq<int>)
    requires n > 0
    ensures |r| == |pend|
  {
    if skb.kind == Frame && skb.ac < |pend| then
      pend[skb.ac := pend[skb.ac] + sign * CreditOf(skb, n)]
    else pend
  }

  /** nrc_hif_free_skb */
  function Release(s: State, skb: Skb, n: nat): State
    requires n > 0
  {
    s.(pend := Charge(s.pend, skb, n, -1))
  }

  /** The queueing part of nrc_hif_enqueue_skb. */
  function Queue(s: State, skb: Skb, running: bool): State {
    if skb.kind == Frame then s.(frames := Enqueued(s.frames, skb, running)) else s.(wims := s.wims + [skb])
  }

  /**
   * A WIM or loopback packet goes behind all WIMs that wait: the next drain sends it after
   * them, and before every frame but the leading deauth frames.
   */
  lemma QueuedWimPlan(s: State, skb: Skb, running: bool)
    requires skb.kind != Frame && s.held == None
    ensures var t, p := Queue(s, skb, running), DeauthPrefix(s.frames);
      Plan(t.held, t.frames, t.wims) == p + s.wims + [skb] + s.frames[|p|..]
  {
    var p := DeauthPrefix(s.frames);
    assert p + (s.wims + [skb]) == p + s.wims + [skb];
  }

  // ---- one round of a drain -------------------------------------------------------------------

  /** The held frame is forgotten and the drain is over. */
  function Stop(s: State): State {
    s.(lost := s.lost + AsSeq(s.held), held := None, pass := Idle)
  }

  /** Sending or failing to send the packet in hand; either way it is released. */
  function Attempt(s: State, skb: Skb, waitOk: bool, n: nat): State
    requires n > 0
  {
    if waitOk then Release(s.(sent := s.sent + [skb]), skb, n)
    else Stop(Release(s.(freed := s.freed + [skb]), skb, n))
  }

  /** This round takes a packet. */
  predicate Takes(s: State, asleep: bool) {
    match s.pass
    case Idle => false
    case WimPass => s.wims != []
    case FramePass => !asleep && s.wims == [] && (s.held.Some? || s.frames != [])
  }

  /** The packet taken, and what is then in hand and queued. */
  function Take(s: State, asleep: bool): (Skb, State)
    requires Takes(s, asleep)
  {
    if s.pass == WimPass then
      if s.held == None && s.frames != [] then
        if s.frames[0].deauth then (s.frames[0], s.(frames := s.frames[1..]))
        else (s.wims[0], s.(frames := s.frames[1..], held := Some(s.frames[0]), wims := s.wims[1..]))
      else (s.wims[0], s.(wims := s.wims[1..]))
    else if s.held.Some? then (s.held.value, s.(held := None))
    else (s.frames[0], s.(frames := s.frames[1..]))
  }

  /** One round of the loop in nrc_hif_work, on the queues as they are now. */
  function DrainRound(s: State, waitOk: bool, asleep: bool, n: nat): State
    requires n > 0
  {
    if Takes(s, asleep) then
      var (skb, u) := Take(s, asleep);
      Attempt(u, skb, waitOk, n)
    else
      match s.pass
      case Idle => s
      case WimPass => s.(pass := FramePass)
      case FramePass => Stop(s)
  }

  function Step(s: State, e: Event, n: nat): State
    requires n > 0
  {
    match e
    case Transmit(skb, running, fate) =>
      var charged := s.(pend := Charge(s.pend, skb, n, 1));
      (match fate
       case Queued => Queue(charged, skb, running)
       case NotActive => Release(charged.(freed := s.freed + [skb]), skb, n)
       case LoopedBack => Release(charged.(freed := s.freed + [skb]), skb, n)
       case NoWorkqueue => Release(Queue(charged, skb, running).(twice := s.twice + [skb]), skb, n))
    case Begin => if s.pass == Idle then s.(pass := WimPass) else s
    case Round(waitOk, asleep) => DrainRound(s, waitOk, asleep, n)
    case Cleanup => s.(frames := [], wims := [], freed := s.freed + s.wims, lost := s.lost + s.frames)
  }

  predicate EventOk(e: Event, queues: nat) {
    e.Transmit? && e.skb.kind == Frame ==> e.skb.ac < queues
  }

  // ---- the account --------------------------------------------------------------------------

  function Debt(s: State, ac: nat, n: nat): int
    requires n > 0
  {
    Owed(s.frames, ac, n) + Bill(s.held, ac, n) + Owed(s.lost, ac, n) - Owed(s.twice, ac, n)
  }

  predicate Frames(skbs: seq<Skb>, queues: nat) {
    forall i :: 0 <= i < |skbs| ==> skbs[i].kind == Frame && skbs[i].ac < queues
  }

  /** Frames and WIMs are in their queues, and a packet in hand is of a known category. */
  predicate Sorted(s: State) {
    && Frames(s.frames, |s.pend|) && Frames(AsSeq(s.held), |s.pend|)
    && (forall i :: 0 <= i < |s.wims| ==> s.wims[i].kind != Frame)
  }

  predicate Sound(s: State, n: nat)
    requires n > 0
  {
    Sorted(s) && forall ac :: 0 <= ac < |s.pend| ==> s.pend[ac] == Debt(s, ac, n)
  }

  /** s with one more packet in hand: sound once that packet is released. */
  predicate SoundHolding(s: State, skb: Skb, n: nat)
    requires n > 0
  {
    && Sorted(s) && (skb.kind == Frame ==> skb.ac < |s.pend|)
    && (forall ac :: 0 <= ac < |s.pend| ==> s.pend[ac] == Debt(s, ac, n) + Bill(Some(skb), ac, n))
  }

  lemma OwedSnoc(skbs: seq<Skb>, o: Option<Skb>, ac: nat, n: nat)
    requires n > 0
    ensures Owed(skbs + AsSeq(o), ac, n) == Owed(skbs, ac, n) + Bill(o, ac, n)
  {
    OwedAppend(skbs, AsSeq(o), ac, n);
    if o.Some? {
      assert AsSeq(o)[1..] == [];
    }
  }

  lemma StopIsSound(s: State, n: nat)
    requires n > 0 && Sound(s, n)
    ensures Sound(Stop(s), n)
  {
    forall ac | 0 <= ac < |s.pend|
      ensures Stop(s).pend[ac] == Debt(Stop(s), ac, n)
    {
      OwedSnoc(s.lost, s.held, ac, n);
    }
  }

  lemma AttemptIsSound(s: State, skb: Skb, waitOk: bool, n: nat)
    requires n > 0 && SoundHolding(s, skb, n)
    ensures Sound(Attempt(s, skb, waitOk, n), n)
  {
    var r := Release(s.(freed := s.freed + [skb]), skb, n);
    assert Sound(r, n);
    StopIsSound(r, n);
  }

  lemma TakeIsSound(s: State, asleep: bool, n: nat)
    requires n > 0 && Sound(s, n) && Takes(s, asleep)
    ensures var (skb, u) := Take(s, asleep); SoundHolding(u, skb, n)
  {
    if s.held.Some? {
      assert AsSeq(s.held)[0] == s.held.value;
    }
  }

  lemma RoundIsSound(s: State, waitOk: bool, asleep: bool, n: nat)
    requires n > 0 && Sound(s, n)
    ensures Sound(DrainRound(s, waitOk, asleep, n), n)
  {
    if Takes(s, asleep) {
      TakeIsSound(s, asleep, n);
      var (skb, u) := Take(s, asleep);
      AttemptIsSound(u, skb, waitOk, n);
    } else {
      StopIsSound(s, n);
    }
  }

  lemma OwedEnqueued(frames: seq<Skb>, skb: Skb, running: bool, ac: nat, n: nat)
    requires n > 0
    ensures Owed(Enqueued(frames, skb, running), ac, n) == Owed(frames, ac, n) + Bill(Some(skb), ac, n)
  {
    OwedSnoc(frames, Some(skb), ac, n);
    assert ([skb] + frames)[1..] == frames;
  }

  lemma ChargeThenRelease(pend: seq<int>, skb: Skb, n: nat)
    requires n > 0
    ensures Charge(Charge(pend, skb, n, 1), skb, n, -1) == pend
  {
  }

  lemma QueuedIsSound(s: State, skb: Skb, running: bool, n: nat)
    requires n > 0 && Sound(s, n) && (skb.kind == Frame ==> skb.ac < |s.pend|)
    ensures Sound(Queue(s.(pend := Charge(s.pend, skb, n, 1)), skb, running), n)
  {
    var t := Queue(s.(pend := Charge(s.pend, skb, n, 1)), skb, running);
    forall ac | 0 <= ac < |s.pend|
      ensures t.pend[ac] == Debt(t, ac, n)
    {
      OwedEnqueued(s.frames, skb, running, ac, n);
    }
  }

  lemma ReleasedTwiceIsSound(s: State, skb: Skb, n: nat)
    requires n > 0 && Sound(s, n) && (skb.kind == Frame ==> skb.ac < |s.pend|)
    ensures Sound(Release(s.(twice := s.twice + [skb]), skb, n), n)
  {
    var t := Release(s.(twice := s.twice + [skb]), skb, n);
    forall ac | 0 <= ac < |s.pend|
      ensures t.pend[ac] == Debt(t, ac, n)
    {
      OwedSnoc(s.twice, Some(skb), ac, n);
    }
  }

  /** nrc_hif_cleanup drops all frames and leaves their credit pending. */
  lemma CleanupIsSound(s: State, n: nat)
    requires n > 0 && Sound(s, n)
    ensures Sound(Step(s, Cleanup, n), n)
  {
    var t := Step(s, Cleanup, n);
    forall ac | 0 <= ac < |s.pend|
      ensures t.pend[ac] == Debt(t, ac, n)
    {
      OwedAppend(s.lost, s.frames, ac, n);
    }
  }

  lemma TransmitIsSound(s: State, skb: Skb, running: bool, fate: Fate, n: nat)
    requires n > 0 && Sound(s, n) && (skb.kind == Frame ==> skb.ac < |s.pend|)
    ensures Sound(Step(s, Transmit(skb, running, fate), n), n)
  {
    ChargeThenRelease(s.pend, skb, n);
    QueuedIsSound(s, skb, running, n);
    if fate == NoWorkqueue {
      ReleasedTwiceIsSound(Queue(s.(pend := Charge(s.pend, skb, n, 1)), skb, running), skb, n);
    }
  }

  lemma StepIsSound(s: State, e: Event, n: nat)
    requires n > 0 && Sound(s, n) && EventOk(e, |s.pend|)
    ensures Sound(Step(s, e, n), n) && |Step(s, e, n).pend| == |s.pend|
  {
    match e {
      case Transmit(skb, running, fate) => TransmitIsSound(s, skb, running, fate, n);
      case Begin =>
      case Round(waitOk, asleep) => RoundIsSound(s, waitOk, asleep, n);
      case Cleanup => CleanupIsSound(s, n);
    }
  }

  // ---- runs -----------------------------------------------------------------------------------

  function Run(s: State, events: seq<Event>, n: nat): State
    requires n > 0
    decreases events
  {
    if events == [] then s else Run(Step(s, events[0], n), events[1..], n)
  }

  predicate Fresh(s: State) {
    && s.frames == s.wims == s.sent == s.freed == s.lost == s.twice == [] && s.held == None && s.pass == Idle
    && forall ac :: 0 <= ac < |s.pend| ==> s.pend[ac] == 0
  }

  lemma {:induction false} RunIsSound(s: State, events: seq<Event>, n: nat)
    requires n > 0 && Sound(s, n) && forall e | e in events :: EventOk(e, |s.pend|)
    ensures Sound(Run(s, events, n), n) && |Run(s, events, n).pend| == |s.pend|
    decreases events
  {
    if events != [] {
      StepIsSound(s, events[0], n);
      RunIsSound(Step(s, events[0], n), events[1..], n);
    }
  }

  /**
   * In every run, however the threads interleave, a category's pending credit is what its
   * queued and held frames owe, plus what the forgotten frames owe, minus what was
   * released while still queued.  Without those two kinds of frames it is never negative,
   * and zero once nothing is queued or held.
   */
  lemma PendingCreditIsConserved(s: State, events: seq<Event>, n: nat, ac: nat)
    requires n > 0 && Fresh(s) && ac < |s.pend| && forall e | e in events :: EventOk(e, |s.pend|)
    ensures var t := Run(s, events, n);
      && |t.pend| == |s.pend|
      && t.pend[ac] == Owed(t.frames, ac, n) + Bill(t.held, ac, n) + Owed(t.lost, ac, n) - Owed(t.twice, ac, n)
      && (t.lost == t.twice == [] ==> t.pend[ac] >= 0)
      && (t.lost == t.twice == [] && t.frames == [] && t.held == None ==> t.pend[ac] == 0)
  {
    assert Sound(s, n);
    RunIsSound(s, events, n);
  }

  // ---- conservation of packets ------------------------------------------------------------------

  /** How often x is in a list. */
  function Count(skbs: seq<Skb>, x: Skb): nat {
    if skbs == [] then 0 else (if skbs[0] == x then 1 else 0) + Count(skbs[1..], x)
  }

  function One(o: Option<Skb>, x: Skb): nat {
    if o == Some(x) then 1 else 0
  }

  lemma {:induction false} CountAppend(a: seq<Skb>, b: seq<Skb>, x: Skb)
    ensures Count(a + b, x) == Count(a, x) + Count(b, x)
  {
    if a == [] {
      assert a + b == b;
    } else {
      assert (a + b)[1..] == a[1..] + b;
      CountAppend(a[1..], b, x);
    }
  }

  lemma CountSnoc(skbs: seq<Skb>, o: Option<Skb>, x: Skb)
    ensures Count(skbs + AsSeq(o), x) == Count(skbs, x) + One(o, x)
  {
    CountAppend(skbs, AsSeq(o), x);
    if o.Some? {
      assert AsSeq(o)[1..] == [];
    }
  }

  /** How often the driver has, or has had, packet x. */
  function Had(s: State, x: Skb): nat {
    Count(s.frames, x) + Count(s.wims, x) + One(s.held, x) + Count(s.sent, x) + Count(s.freed, x) + Count(s.lost, x)
  }

  lemma AttemptKeepsPackets(s: State, skb: Skb, waitOk: bool, n: nat, x: Skb)
    requires n > 0
    ensures Had(Attempt(s, skb, waitOk, n), x) == Had(s, x) + One(Some(skb), x)
  {
    CountSnoc(s.sent, Some(skb), x);
    CountSnoc(s.freed, Some(skb), x);
    CountSnoc(s.lost, s.held, x);
  }

  lemma TakeKeepsPackets(s: State, asleep: bool, x: Skb)
    requires Takes(s, asleep)
    ensures var (skb, u) := Take(s, asleep); Had(u, x) + One(Some(skb), x) == Had(s, x)
  {
    if s.pass == WimPass {
      CountFirst(s.wims, x);
      if s.held == None && s.frames != [] {
        CountFirst(s.frames, x);
      }
    } else if s.held == None {
      CountFirst(s.frames, x);
    }
  }

  lemma CountFirst(q: seq<Skb>, x: Skb)
    requires q != []
    ensures Count(q, x) == One(Some(q[0]), x) + Count(q[1..], x)
  {
  }

  lemma RoundKeepsPackets(s: State, waitOk: bool, asleep: bool, n: nat, x: Skb)
    requires n > 0
    ensures Had(DrainRound(s, waitOk, asleep, n), x) == Had(s, x)
  {
    if Takes(s, asleep) {
      TakeKeepsPackets(s, asleep, x);
      var (skb, u) := Take(s, asleep);
      AttemptKeepsPackets(u, skb, waitOk, n, x);
    } else {
      CountSnoc(s.lost, s.held, x);
    }
  }

  /** The packet an event hands to the driver. */
  function Given(e: Event): Option<Skb> {
    if e.Transmit? then Some(e.skb) else None
  }

  /** How often the run handed over packet x. */
  function TimesGiven(events: seq<Event>, x: Skb): nat {
    if events == [] then 0 else One(Given(events[0]), x) + TimesGiven(events[1..], x)
  }

  lemma EnqueuedCount(frames: seq<Skb>, skb: Skb, running: bool, x: Skb)
    ensures Count(Enqueued(frames, skb, running), x) == Count(frames, x) + One(Some(skb), x)
  {
    CountSnoc(frames, Some(skb), x);
    assert ([skb] + frames)[1..] == frames;
  }

  lemma QueueKeepsPackets(s: State, skb: Skb, running: bool, x: Skb)
    ensures Had(Queue(s, skb, running), x) == Had(s, x) + One(Some(skb), x)
  {
    EnqueuedCount(s.frames, skb, running, x);
    CountSnoc(s.wims, Some(skb), x);
  }

  lemma TransmitKeepsPackets(s: State, skb: Skb, running: bool, fate: Fate, n: nat, x: Skb)
    requires n > 0
    ensures Had(Step(s, Transmit(skb, running, fate), n), x) == Had(s, x) + One(Some(skb), x)
  {
    QueueKeepsPackets(s.(pend := Charge(s.pend, skb, n, 1)), skb, running, x);
    CountSnoc(s.freed, Some(skb), x);
  }

  lemma StepKeepsPackets(s: State, e: Event, n: nat, x: Skb)
    requires n > 0
    ensures Had(Step(s, e, n), x) == Had(s, x) + One(Given(e), x)
  {
    match e {
      case Transmit(skb, running, fate) => TransmitKeepsPackets(s, skb, running, fate, n, x);
      case Begin =>
      case Round(waitOk, asleep) => RoundKeepsPackets(s, waitOk, asleep, n, x);
      case Cleanup =>
        CountAppend(s.freed, s.wims, x);
        CountAppend(s.lost, s.frames, x);
    }
  }

  lemma {:induction false} RunKeepsPackets(s: State, events: seq<Event>, n: nat, x: Skb)
    requires n > 0
    ensures Had(Run(s, events, n), x) == Had(s, x) + TimesGiven(events, x)
    decreases events
  {
    if events != [] {
      StepKeepsPackets(s, events[0], n, x);
      RunKeepsPackets(Step(s, events[0], n), events[1..], n, x);
    }
  }

  /**
   * No packet is duplicated and none disappears: in every run a packet was handed to the
   * driver as often as it is now sent, released, forgotten, held or queued.
   */
  lemma PacketsAreConserved(s: State, events: seq<Event>, n: nat, x: Skb)
    requires n > 0 && Fresh(s)
    ensures var t := Run(s, events, n);
      TimesGiven(events, x) == Count(t.sent, x) + Count(t.freed, x) + Count(t.lost, x)
                               + One(t.held, x) + Count(t.frames, x) + Count(t.wims, x)
  {
    RunKeepsPackets(s, events, n, x);
  }

  // ---- what breaks the account --------------------------------------------------------------------

  /** Events that lose no frame and release none twice. */
  predicate Clean(s: State, e: Event) {
    match e
    case Transmit(_, _, fate) => fate != NoWorkqueue
    case Begin => true
    case Cleanup => s.frames == []
    case Round(waitOk, asleep) =>
      (match s.pass
       case Idle => true
       case WimPass =>
         waitOk || s.wims == [] || (s.held == None && (s.frames == [] || s.frames[0].deauth))
       case FramePass => s.held == None || (!asleep && s.wims == []))
  }

  /**
   * A step adds to neither bag exactly when it is clean: no cleanup of queued frames, no
   * enqueue without a work queue, and no end of a drain that is holding a frame back.
   */
  lemma CleanIffNothingForgotten(s: State, e: Event, n: nat)
    requires n > 0
    ensures var t := Step(s, e, n); Clean(s, e) <==> t.lost == s.lost && t.twice == s.twice
  {
    if e.Cleanup? && s.frames != [] {
      assert |s.lost + s.frames| > |s.lost|;
    }
  }

  lemma RunFirst(s: State, e: Event, rest: seq<Event>, n: nat)
    requires n > 0
    ensures Run(s, [e] + rest, n) == Run(Step(s, e, n), rest, n)
  {
    assert ([e] + rest)[1..] == rest;
  }

  /** A frame and a WIM are queued and a drain begins. */
  function Opening(f: Skb, w: Skb, rest: seq<Event>): seq<Event> {
    [Transmit(f, true, Queued)] + ([Transmit(w, true, Queued)] + ([Begin] + rest))
  }

  lemma Opened(s: State, f: Skb, w: Skb, n: nat, rest: seq<Event>)
    requires n > 0 && Fresh(s) && f.kind == Frame && w.kind != Frame
    ensures Run(s, Opening(f, w, rest), n) ==
            Run(State([f], [w], None, WimPass, Charge(s.pend, f, n, 1), [], [], [], []), rest, n)
  {
    RunFirst(s, Transmit(f, true, Queued), [Transmit(w, true, Queued)] + ([Begin] + rest), n);
    var s1 := s.(frames := [f], pend := Charge(s.pend, f, n, 1));
    assert Step(s, Transmit(f, true, Queued), n) == s1;
    RunFirst(s1, Transmit(w, true, Queued), [Begin] + rest, n);
    var s2 := s1.(wims := [w]);
    assert Step(s1, Transmit(w, true, Queued), n) == s2;
    RunFirst(s2, Begin, rest, n);
  }

  /** The drain then sends the WIM and holds the frame back. */
  function Holding(pend: seq<int>, f: Skb, w: Skb): State {
    State([], [], Some(f), WimPass, pend, [w], [], [], [])
  }

  lemma HoldsBack(s: State, f: Skb, w: Skb, n: nat, rest: seq<Event>)
    requires n > 0 && Fresh(s) && f.kind == Frame && !f.deauth && w.kind != Frame
    ensures Run(s, Opening(f, w, [Round(true, false)] + rest), n) ==
            Run(Holding(Charge(s.pend, f, n, 1), f, w), rest, n)
  {
    Opened(s, f, w, n, [Round(true, false)] + rest);
    var s3 := State([f], [w], None, WimPass, Charge(s.pend, f, n, 1), [], [], [], []);
    RunFirst(s3, Round(true, false), rest, n);
    assert DrainRound(s3, true, false, n) == Holding(Charge(s.pend, f, n, 1), f, w);
  }

  /** Nothing is queued or held, and yet the frame's credit is pending. */
  predicate CreditLeaked(s: State, t: State, f: Skb, n: nat)
    requires n > 0
  {
    && t.frames == t.wims == [] && t.held == None && t.pass == Idle && t.lost == [f]
    && t.pend == Charge(s.pend, f, n, 1)
  }

  /** The first end of a drain that loses a frame: the wait for the WIM fails. */
  lemma FailedWaitForgets(s: State, f: Skb, w: Skb, n: nat)
    requires n > 0 && Fresh(s) && f.kind == Frame && !f.deauth && w.kind != Frame
    ensures CreditLeaked(s, Run(s, Opening(f, w, [Round(false, false)] + []), n), f, n)
  {
    Opened(s, f, w, n, [Round(false, false)] + []);
    var s3 := State([f], [w], None, WimPass, Charge(s.pend, f, n, 1), [], [], [], []);
    RunFirst(s3, Round(false, false), [], n);
    assert DrainRound(s3, false, false, n).lost == [f];
  }

  /**
   * The second, in builds without CONFIG_USE_TXQ: the target has gone to sleep when the
   * frame's turn comes.
   */
  lemma SleepForgets(s: State, f: Skb, w: Skb, n: nat)
    requires n > 0 && Fresh(s) && f.kind == Frame && !f.deauth && w.kind != Frame
    ensures var rest := [Round(true, false)] + ([Round(true, true)] + []);
            CreditLeaked(s, Run(s, Opening(f, w, [Round(true, false)] + rest), n), f, n)
  {
    var h := Holding(Charge(s.pend, f, n, 1), f, w);
    HoldsBack(s, f, w, n, [Round(true, false)] + ([Round(true, true)] + []));
    RunFirst(h, Round(true, false), [Round(true, true)] + [], n);
    RunFirst(h.(pass := FramePass), Round(true, true), [], n);
    assert DrainRound(h.(pass := FramePass), true, true, n).lost == [f];
  }

  /** The third: another WIM has been queued when the frame's turn comes. */
  lemma LateWimForgets(s: State, f: Skb, w: Skb, n: nat)
    requires n > 0 && Fresh(s) && f.kind == Frame && !f.deauth && w.kind != Frame
    ensures var rest := [Round(true, false)] + ([Transmit(w, true, Queued)] + ([Round(true, false)] + []));
            var t := Run(s, Opening(f, w, [Round(true, false)] + rest), n);
            t.lost == [f] && t.frames == [] && t.held == None && t.pend == Charge(s.pend, f, n, 1)
  {
    var h := Holding(Charge(s.pend, f, n, 1), f, w);
    var rest := [Transmit(w, true, Queued)] + ([Round(true, false)] + []);
    HoldsBack(s, f, w, n, [Round(true, false)] + rest);
    RunFirst(h, Round(true, false), rest, n);
    RunFirst(h.(pass := FramePass), Transmit(w, true, Queued), [Round(true, false)] + [], n);
    var u := h.(pass := FramePass, wims := [w]);
    assert Step(h.(pass := FramePass), Transmit(w, true, Queued), n) == u;
    RunFirst(u, Round(true, false), [], n);
    assert DrainRound(u, true, false, n).lost == [f];
  }

  // ---- a drain of its own --------------------------------------------------------------------------

  function Rank(s: State): nat {
    if s.pass == WimPass then 2 else if s.pass == FramePass then 1 else 0
  }

  /**
   * The rounds of nrc_hif_work with nothing else in between; waitOk(k) is the outcome of the
   * k-th wait for the transport.
   */
  function Drained(s: State, waitOk: nat -> bool, k: nat, asleep: bool, n: nat): State
    requires n > 0
    decreases |s.frames| + |s.wims| + |AsSeq(s.held)|, Rank(s)
  {
    if s.pass == Idle then s
    else Drained(DrainRound(s, waitOk(k), asleep, n), waitOk, if Takes(s, asleep) then k + 1 else k, asleep, n)
  }

  /** A drain is a run of rounds, so what holds of all runs holds of it. */
  lemma {:induction false} DrainIsRun(s: State, waitOk: nat -> bool, k: nat, asleep: bool, n: nat)
    returns (rounds: seq<Event>)
    requires n > 0
    ensures (forall e | e in rounds :: e.Round?) && Run(s, rounds, n) == Drained(s, waitOk, k, asleep, n)
    decreases |s.frames| + |s.wims| + |AsSeq(s.held)|, Rank(s)
  {
    rounds := [];
    if s.pass != Idle {
      var e := Round(waitOk(k), asleep);
      var rest := DrainIsRun(Step(s, e, n), waitOk, if Takes(s, asleep) then k + 1 else k, asleep, n);
      rounds := [e] + rest;
      assert rounds[1..] == rest;
    }
  }

  /** The packet taken is the next one of the plan, and the rest of the plan is left. */
  lemma TakesFirstOfPlan(s: State, asleep: bool)
    requires Takes(s, asleep)
    ensures var (skb, u) := Take(s, asleep);
      && Plan(s.held, s.frames, s.wims) == [skb] + Plan(u.held, u.frames, u.wims)
      && (s.pass == FramePass ==> u.held == None && u.wims == [])
  {
    var (skb, u) := Take(s, asleep);
    if s.pass == FramePass {
      PlanOfFrames(s.frames);
      PlanOfFrames(u.frames);
    } else if s.held.Some? {
      PlanHeld(s.held.value, s.frames, s.wims);
    } else if s.frames != [] && s.frames[0].deauth {
      PlanDeauth(s.frames, s.wims);
    } else {
      PlanWim(s.frames, s.wims);
    }
  }

  /**
   * In any state of any run, a round that takes a packet and can send it sends the first
   * packet of the plan of the queues as they are then, and leaves the rest of the plan.
   */
  lemma RoundSendsNextOfPlan(s: State, asleep: bool, n: nat)
    requires n > 0 && Takes(s, asleep)
    ensures var plan, t := Plan(s.held, s.frames, s.wims), DrainRound(s, true, asleep, n);
      && plan != [] && t.sent == s.sent + [plan[0]] && t.pass == s.pass
      && Plan(t.held, t.frames, t.wims) == plan[1..]
  {
    TakesFirstOfPlan(s, asleep);
  }

  /** What a drain from s to its end has done, with at most one packet dropped and one frame forgotten. */
  predicate Finished(s: State, t: State, dropped: Option<Skb>, forgotten: Option<Skb>) {
    && t.pass == Idle && t.held == None
    && Conserved(s.sent, Plan(s.held, s.frames, s.wims), t.sent, dropped, Plan(forgotten, t.frames, t.wims))
    && t.freed == s.freed + AsSeq(dropped) && t.lost == s.lost + AsSeq(forgotten) && t.twice == s.twice
  }

  lemma StoppedFinishes(s: State, skb: Skb, u: State, n: nat)
    requires n > 0 && u.sent == s.sent && u.freed == s.freed && u.lost == s.lost && u.twice == s.twice
    requires Plan(s.held, s.frames, s.wims) == [skb] + Plan(u.held, u.frames, u.wims)
    ensures Finished(s, Attempt(u, skb, false, n), Some(skb), u.held)
  {
    MoveFirst(s.sent, skb, Plan(u.held, u.frames, u.wims));
  }

  lemma SentThenFinishes(s: State, skb: Skb, u: State, t: State, n: nat, dropped: Option<Skb>, forgotten: Option<Skb>)
    requires n > 0 && u.sent == s.sent && u.freed == s.freed && u.lost == s.lost && u.twice == s.twice
    requires Plan(s.held, s.frames, s.wims) == [skb] + Plan(u.held, u.frames, u.wims)
    requires Finished(Attempt(u, skb, true, n), t, dropped, forgotten)
    ensures Finished(s, t, dropped, forgotten)
  {
    MoveFirst(s.sent, skb, Plan(u.held, u.frames, u.wims));
  }

  /**
   * What a drain sends, the packet whose wait failed, the frame it forgot and what stays
   * queued are together the plan of the two queues, in that order; when every wait succeeds
   * and the target is awake, everything planned is sent.
   */
  lemma {:induction false} DrainFollowsPlan(s: State, waitOk: nat -> bool, k: nat, asleep: bool, n: nat)
    returns (dropped: Option<Skb>, forgotten: Option<Skb>)
    requires n > 0 && s.pass != Idle && (s.pass == FramePass ==> s.wims == [])
    ensures var t := Drained(s, waitOk, k, asleep, n);
      && Finished(s, t, dropped, forgotten)
      && ((forall i :: waitOk(i)) && !asleep ==>
            dropped == forgotten == None && t.frames == t.wims == [])
    decreases |s.frames| + |s.wims| + |AsSeq(s.held)|, Rank(s)
  {
    var ok := waitOk(k);
    var r := DrainRound(s, ok, asleep, n);
    if Takes(s, asleep) {
      var (skb, u) := Take(s, asleep);
      TakesFirstOfPlan(s, asleep);
      if ok {
        dropped, forgotten := DrainFollowsPlan(r, waitOk, k + 1, asleep, n);
        SentThenFinishes(s, skb, u, Drained(r, waitOk, k + 1, asleep, n), n, dropped, forgotten);
      } else {
        StoppedFinishes(s, skb, u, n);
        dropped, forgotten := Some(skb), u.held;
      }
    } else if s.pass == WimPass {
      dropped, forgotten := DrainFollowsPlan(r, waitOk, k, asleep, n);
      PassChangeFinishes(s, Drained(r, waitOk, k, asleep, n), dropped, forgotten);
    } else {
      dropped, forgotten := None, s.held;
      EmptyEnds(s, asleep, n);
    }
  }

  lemma PassChangeFinishes(s: State, t: State, dropped: Option<Skb>, forgotten: Option<Skb>)
    requires Finished(s.(pass := FramePass), t, dropped, forgotten)
    ensures Finished(s, t, dropped, forgotten)
  {
  }

  /** When nothing was dropped or forgotten and nothing is left, all of the plan was sent. */
  lemma AllSent(s: State, t: State)
    requires Finished(s, t, None, None) && t.frames == t.wims == []
    ensures t.sent == s.sent + Plan(s.held, s.frames, s.wims)
  {
  }

  /** The end of the frame pass. */
  lemma EmptyEnds(s: State, asleep: bool, n: nat)
    requires n > 0 && s.pass == FramePass && s.wims == [] && !Takes(s, asleep)
    ensures Finished(s, DrainRound(s, true, asleep, n), None, s.held)
    ensures !asleep ==> s.held == None && s.frames == [] && Plan(s.held, s.frames, s.wims) == []
  {
  }
}
