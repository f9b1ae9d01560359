/**
 The access point's inactivity countdown (nrc-pm.c, section 11.21.13 of IEEE Std
 802.11-2020): one timer and one timeout counter a station, counted down by a periodic
 handler and rewound by data frames.
 */
module ApIdle {
  import opened Arith

  /** BSS_MAX_ILDE_DEAUTH_LIMIT_COUNT and EXTRA_TIMEOUT. */
  const LIMIT: nat := 3
  const EXTRA: nat := 1

  /** struct nrc_max_idle of one station. */
  datatype Idle = Idle(period: nat, idlePeriod: nat, timer: nat, count: nat)

  // ---- joining -----------------------------------------------------------------------------

  /** convert_usf */
  function ConvertUsf(interval: nat): (v: nat)
    ensures v < U16
  {
    if interval <= 0x3fff then interval
    else if interval / 10 <= 0x3fff then 0x4000 + interval / 10
    else if interval / 1000 <= 0x3fff then 0x8000 + interval / 1000
    else if interval / 10000 <= 0x3fff then 0xc000 + interval / 10000
    else 0
  }

  /** The unit of a scaled interval, by its two upper bits. */
  function Unit(v: nat): nat
    requires v < U16
  {
    if v < 0x4000 then 1 else if v < 0x8000 then 10 else if v < 0xc000 then 1000 else 10000
  }

  /** The interval a scaled value stands for. */
  function Unscaled(v: nat): nat
    requires v < U16
  {
    v % 0x4000 * Unit(v)
  }

  /** The scaled value stands for the interval rounded down to its unit, the smallest in which it fits. */
  lemma UsfRoundsDown(interval: nat)
    requires interval < 0x4000 * 10000
    ensures var v := ConvertUsf(interval);
      && Unscaled(v) <= interval < Unscaled(v) + Unit(v)
      && (Unit(v) == 10 ==> interval >= 0x4000) && (Unit(v) == 1000 ==> interval >= 0x4000 * 10)
      && (Unit(v) == 10000 ==> interval >= 0x4000 * 1000)
  {
  }

  /** nrc_mac_sta_state, NOTEXIST to NONE, on an access point with idle period p. */
  function Joined(p: nat, convert: bool): Idle {
    Idle(if convert then ConvertUsf(p) else p % U16, p, p, 0)
  }

  predicate JustJoined(s: Idle) {
    s.idlePeriod > 0 && s.timer == s.idlePeriod && s.count == 0
  }

  /** When the 16-bit copy of the period is zero, so that data frames are not heeded. */
  lemma HeedsDataIff(p: nat, convert: bool)
    ensures Joined(p, convert).period == 0 <==> p == 0 || if convert then p / 10000 > 0x3fff else p % U16 == 0
  {
    if convert && p > 0x3fff && p / 10 > 0x3fff && p / 1000 > 0x3fff {
      DivBelow(p, 10000, 1);
    }
  }

  // ---- one event ---------------------------------------------------------------------------

  datatype Event = Tick | Data

  /** A data frame from the station, in rx_h_bss_max_idle_period. */
  function OnData(s: Idle): Idle {
    if s.period > 0 && s.timer > 0 then s.(count := 0, timer := s.idlePeriod + EXTRA) else s
  }

  /** Whether this tick of ap_max_idle_period_expire disconnects the station. */
  predicate Drops(s: Idle) {
    s.timer == 1 && s.count + 1 >= LIMIT
  }

  /** A tick of ap_max_idle_period_expire. */
  function OnTick(s: Idle): Idle {
    if s.timer == 0 then s
    else if s.timer > 1 then s.(timer := s.timer - 1)
    else if Drops(s) then s.(timer := 0, count := 0)
    else s.(timer := s.idlePeriod, count := s.count + 1)
  }

  function On(s: Idle, e: Event): Idle {
    if e.Tick? then OnTick(s) else OnData(s)
  }

  function After(s: Idle, events: seq<Event>): Idle {
    if events == [] then s else On(After(s, events[..|events| - 1]), events[|events| - 1])
  }

  /** Event i of a run is the tick that disconnects the station. */
  predicate DropsAt(s: Idle, events: seq<Event>, i: nat) {
    i < |events| && events[i].Tick? && Drops(After(s, events[..i]))
  }

  // ---- what is promised --------------------------------------------------------------------

  /** The ticks since the last data frame, or since joining. */
  function Silence(events: seq<Event>): nat {
    if events == [] || events[|events| - 1].Data? then 0 else Silence(events[..|events| - 1]) + 1
  }

  predicate HasData(events: seq<Event>) {
    exists i :: 0 <= i < |events| && events[i].Data?
  }

  /** The silence that costs the connection: three times the period, and a tick more after data. */
  function Allowance(p: nat, events: seq<Event>): nat {
    if HasData(events) then 3 * p + 1 else 3 * p
  }

  /** At some point of the run the station was silent for too long. */
  predicate Expired(p: nat, events: seq<Event>) {
    events != [] &&
    (Expired(p, events[..|events| - 1]) || Silence(events) >= Allowance(p, events))
  }

  // ---- the countdown -----------------------------------------------------------------------

  /** The ticks left until the station is disconnected. */
  function Left(s: Idle): int {
    if s.timer == 0 then 0
    else if s.count == 0 then s.timer + 2 * s.idlePeriod
    else if s.count == 1 then s.timer + s.idlePeriod
    else s.timer
  }

  predicate Sound(s: Idle) {
    && s.count < LIMIT && s.timer <= s.idlePeriod + EXTRA
    && (s.count > 0 ==> s.timer <= s.idlePeriod)
    && (s.timer > 0 ==> s.idlePeriod > 0)
    && (s.timer == 0 ==> s.count == 0)
  }

  lemma OneEvent(s: Idle, e: Event)
    requires Sound(s)
    ensures Sound(On(s, e)) && On(s, e).idlePeriod == s.idlePeriod && On(s, e).period == s.period
    ensures s.timer == 0 ==> On(s, e) == s
    ensures s.timer > 0 && e.Tick? ==> Left(On(s, e)) == Left(s) - 1
    ensures s.timer > 0 && e.Data? && s.period > 0 ==> Left(On(s, e)) == LIMIT * s.idlePeriod + EXTRA
    ensures s.timer > 0 ==> Left(s) > 0
    ensures Drops(s) <==> Left(s) == 1
  {
  }

  lemma LastEvent(events: seq<Event>)
    requires events != []
    ensures HasData(events) <==> events[|events| - 1].Data? || HasData(events[..|events| - 1])
  {
    var n := |events| - 1;
    if HasData(events[..n]) {
      var i :| 0 <= i < n && events[..n][i].Data?;
      assert events[i].Data?;
    }
  }

  /** The countdown runs exactly one tick a tick, from the allowance, until it has run out. */
  lemma {:induction false} CountdownIsExact(s: Idle, events: seq<Event>)
    requires JustJoined(s) && s.period > 0
    ensures var t := After(s, events);
      && Sound(t) && t.idlePeriod == s.idlePeriod && t.period == s.period
      && (t.timer == 0 <==> Expired(s.idlePeriod, events))
    ensures !Expired(s.idlePeriod, events) ==>
      Left(After(s, events)) == Allowance(s.idlePeriod, events) - Silence(events)
  {
    if events != [] {
      var n := |events| - 1;
      CountdownIsExact(s, events[..n]);
      OneEvent(After(s, events[..n]), events[n]);
      LastEvent(events);
    }
  }

  /**
   * The tick that disconnects a station is the one with which its silence reaches the
   * allowance for the first time: tick L*P + 1 after its last data frame, or tick L*P if it
   * never sent any.
   */
  lemma DisconnectedExactlyWhenDue(s: Idle, events: seq<Event>, i: nat)
    requires JustJoined(s) && s.period > 0
    requires i < |events|
    ensures DropsAt(s, events, i) <==>
      !Expired(s.idlePeriod, events[..i]) && Silence(events[..i + 1]) == Allowance(s.idlePeriod, events[..i + 1])
  {
    var now := events[..i + 1];
    assert now[..i] == events[..i];
    CountdownIsExact(s, now[..i]);
    CountdownIsExact(s, now);
    OneEvent(After(s, now[..i]), now[i]);
    LastEvent(now);
  }

  lemma {:induction false} ExpiredStays(p: nat, events: seq<Event>, n: nat)
    requires n <= |events| && Expired(p, events[..n])
    ensures Expired(p, events)
  {
    if n < |events| {
      assert events[..|events| - 1][..n] == events[..n];
      ExpiredStays(p, events[..|events| - 1], n);
    } else {
      assert events[..n] == events;
    }
  }

  /** Once disconnected, the countdown stays stopped whatever happens, and no second disconnection follows. */
  lemma StoppedForGood(s: Idle, events: seq<Event>, i: nat, j: nat)
    requires JustJoined(s) && s.period > 0
    requires i < j <= |events| && DropsAt(s, events, i)
    ensures After(s, events[..j]).timer == 0 && After(s, events[..j]).count == 0
    ensures !DropsAt(s, events, j)
  {
    DisconnectedExactlyWhenDue(s, events, i);
    assert events[..i + 1][..i] == events[..i];
    assert Expired(s.idlePeriod, events[..i + 1]);
    assert events[..j][..i + 1] == events[..i + 1];
    ExpiredStays(s.idlePeriod, events[..j], i + 1);
    CountdownIsExact(s, events[..j]);
  }

  /** The pauses of a run never reach the allowance. */
  predicate KeepsTalking(p: nat, events: seq<Event>) {
    forall j :: 0 <= j <= |events| ==> Silence(events[..j]) < Allowance(p, events[..j])
  }

  /** A station is never disconnected in a run if and only if it always speaks up in time. */
  lemma {:induction false} NeverDisconnectedIff(s: Idle, events: seq<Event>)
    requires JustJoined(s) && s.period > 0
    ensures (forall i: nat :: !DropsAt(s, events, i)) <==> KeepsTalking(s.idlePeriod, events)
  {
    var p := s.idlePeriod;
    if KeepsTalking(p, events) {
      forall i: nat | i < |events|
        ensures !DropsAt(s, events, i)
      {
        DisconnectedExactlyWhenDue(s, events, i);
      }
    } else {
      var j :| 0 <= j <= |events| && Silence(events[..j]) >= Allowance(p, events[..j]);
      assert Expired(p, events[..j]);
      var i := FirstExpiry(p, events, j);
      assert events[..i + 1][..i] == events[..i];
      CountdownIsExact(s, events[..i]);
      CountdownIsExact(s, events[..i + 1]);
      OneEvent(After(s, events[..i]), events[i]);
      assert DropsAt(s, events, i);
    }
  }

  lemma {:induction false} FirstExpiry(p: nat, events: seq<Event>, j: nat) returns (i: nat)
    requires j <= |events| && Expired(p, events[..j])
    ensures i < j && !Expired(p, events[..i]) && Expired(p, events[..i + 1])
  {
    assert events[..j][..j - 1] == events[..j - 1];
    if Expired(p, events[..j - 1]) {
      i := FirstExpiry(p, events, j - 1);
    } else {
      i := j - 1;
    }
  }

  lemma {:induction false} SoundAlways(s: Idle, events: seq<Event>)
    requires Sound(s)
    ensures Sound(After(s, events))
  {
    if events != [] {
      SoundAlways(s, events[..|events| - 1]);
      OneEvent(After(s, events[..|events| - 1]), events[|events| - 1]);
    }
  }

  lemma {:induction false} UnheededCountdown(s: Idle, events: seq<Event>)
    requires Sound(s) && s.period == 0
    ensures var t := After(s, events); Sound(t) && t.period == 0 && Left(t) == Max0(Left(s) - Ticks(events))
  {
    if events != [] {
      var n := |events| - 1;
      UnheededCountdown(s, events[..n]);
      OneEvent(After(s, events[..n]), events[n]);
    }
  }

  /** Without a 16-bit period the station is disconnected on tick L*P, whatever it sends. */
  lemma UnheededDisconnection(s: Idle, events: seq<Event>, i: nat)
    requires JustJoined(s) && s.period == 0 && i < |events|
    ensures DropsAt(s, events, i) <==> events[i].Tick? && Ticks(events[..i + 1]) == 3 * s.idlePeriod
  {
    assert events[..i + 1][..i] == events[..i];
    UnheededCountdown(s, events[..i]);
    OneEvent(After(s, events[..i]), events[i]);
  }

  /** Joining starts the countdown from the period as it is, however its copy is scaled. */
  lemma JoiningStarts(p: nat, convert: bool)
    ensures var s := Joined(p, convert); s.idlePeriod == s.timer == p && s.count == 0 && (p > 0 ==> JustJoined(s))
  {
  }

  /**
   * From joining with any period: with a usable 16-bit copy of it the station is disconnected
   * when its silence first reaches the allowance; otherwise after three periods of ticks,
   * whatever it sends.
   */
  lemma DisconnectedAfterJoining(p: nat, convert: bool, events: seq<Event>, i: nat)
    requires p > 0 && i < |events|
    ensures var usable := if convert then p / 10000 <= 0x3fff else p % 65536 != 0;
      DropsAt(Joined(p, convert), events, i) <==>
        if usable then
          !Expired(p, events[..i]) && Silence(events[..i + 1]) == Allowance(p, events[..i + 1])
        else
          events[i].Tick? && Ticks(events[..i + 1]) == 3 * p
  {
    JoiningStarts(p, convert);
    HeedsDataIff(p, convert);
    if Joined(p, convert).period > 0 {
      DisconnectedExactlyWhenDue(Joined(p, convert), events, i);
    } else {
      UnheededDisconnection(Joined(p, convert), events, i);
    }
  }

  // ---- a (re)association response ------------------------------------------------------------

  /** tx_h_bss_max_idle_period finds hostapd's own element; the timer runs on. */
  function HandedOver(s: Idle): Idle {
    s.(period := 0, idlePeriod := 0)
  }

  lemma {:induction false} HandedOverCountdown(s: Idle, events: seq<Event>)
    requires Sound(s)
    ensures var t := After(HandedOver(s), events);
      && t.period == 0 && t.idlePeriod == 0 && t.timer == Max0(s.timer - Ticks(events))
      && (t.timer > 0 ==> t.count == s.count)
  {
    if events != [] {
      HandedOverCountdown(s, events[..|events| - 1]);
    }
  }

  /**
   * With hostapd's own element the driver still disconnects the station, whatever it sends, if
   * and only if its counter stood at two; otherwise the timer runs out once and stops.
   */
  lemma HandedToHostapd(s: Idle, before: seq<Event>, events: seq<Event>, i: nat)
    requires JustJoined(s) && i < |events|
    ensures var t := After(s, before);
      DropsAt(HandedOver(t), events, i) <==>
        t.count == 2 && events[i].Tick? && Ticks(events[..i + 1]) == t.timer
  {
    SoundAlways(s, before);
    var t := After(s, before);
    assert events[..i + 1][..i] == events[..i];
    HandedOverCountdown(t, events[..i]);
  }

  function Max0(x: int): nat {
    if x < 0 then 0 else x
  }

  function Ticks(events: seq<Event>): nat {
    if events == [] then 0 else Ticks(events[..|events| - 1]) + if events[|events| - 1].Tick? then 1 else 0
  }

  /** A data frame before every tick. */
  function Chatty(n: nat): seq<Event> {
    if n == 0 then [] else Chatty(n - 1) + [Data, Tick]
  }

  lemma {:induction false} ChattyTicks(n: nat)
    ensures |Chatty(n)| == 2 * n && Ticks(Chatty(n)) == n && (n > 0 ==> Chatty(n)[2 * n - 1] == Tick)
  {
    if n > 0 {
      ChattyTicks(n - 1);
      var c := Chatty(n);
      assert c[..|c| - 1] == Chatty(n - 1) + [Data];
      assert (Chatty(n - 1) + [Data])[..|Chatty(n - 1)|] == Chatty(n - 1);
    }
  }

  /** With an unscaled period of 65536 a station that sends before every tick is disconnected all the same. */
  lemma ChattyStationDisconnected()
    ensures DropsAt(Joined(65536, false), Chatty(3 * 65536), 2 * 3 * 65536 - 1)
  {
    var s, n := Joined(65536, false), 3 * 65536;
    ChattyTicks(n);
    UnheededDisconnection(s, Chatty(n), 2 * n - 1);
    assert Chatty(n)[..2 * n] == Chatty(n);
  }

  /** A data frame after `before`, and then e ticks. */
  function Since(before: seq<Event>, e: nat): seq<Event> {
    if e == 0 then before + [Data] else Since(before, e - 1) + [Tick]
  }

  lemma {:induction false} StillCounting(p: nat, before: seq<Event>, e: nat)
    requires p > 0 && !Expired(p, before) && e <= LIMIT * p
    ensures !Expired(p, Since(before, e)) && Silence(Since(before, e)) == e && HasData(Since(before, e))
  {
    var all := Since(before, e);
    if e == 0 {
      assert all[..|all| - 1] == before && all[|all| - 1] == Data;
    } else {
      StillCounting(p, before, e - 1);
      assert all[..|all| - 1] == Since(before, e - 1) && all[|all| - 1] == Tick;
      LastEvent(all);
    }
  }

  /**
   * The counter and the timer in closed form: after any run in which the station is still
   * connected, a data frame and e ticks, up to L*P of them.
   */
  lemma TimerAndCounter(s: Idle, before: seq<Event>, e: nat)
    requires JustJoined(s) && s.period > 0 && !Expired(s.idlePeriod, before) && 0 < e <= LIMIT * s.idlePeriod
    ensures var t, p := After(s, Since(before, e)), s.idlePeriod;
      t.count == (e - 1) / p && t.timer == p - (e - 1) % p
  {
    StillCounting(s.idlePeriod, before, e);
    CountdownIsExact(s, Since(before, e));
    FromLeft(After(s, Since(before, e)), e);
  }

  lemma FromLeft(t: Idle, e: nat)
    requires Sound(t) && t.timer > 0 && Left(t) == LIMIT * t.idlePeriod + EXTRA - e && e > 0
    ensures t.count == (e - 1) / t.idlePeriod && t.timer == t.idlePeriod - (e - 1) % t.idlePeriod
  {
    DivBounds(e - 1, t.idlePeriod, t.count);
  }

  // ---- in place ----------------------------------------------------------------------------

  class Station {
    var period: nat
    var idlePeriod: nat
    var timer: nat
    var count: nat

    ghost function State(): Idle
      reads this
    {
      Idle(period, idlePeriod, timer, count)
    }

    constructor (p: nat, convert: bool)
      ensures State() == Joined(p, convert)
    {
      period := if convert then ConvertUsf(p) else p % U16;
      idlePeriod, timer, count := p, p, 0;
    }

    /** The access point's branch of rx_h_bss_max_idle_period. */
    method RxData()
      modifies this`timer, this`count
      ensures State() == OnData(old(State()))
    {
      if period > 0 {
        if timer > 0 {
          count := 0;
          timer := idlePeriod + EXTRA;
        }
      }
    }
  }

  /** ap_max_idle_period_expire: every station of the list once, and who is disconnected, in order. */
  method Expire(stations: seq<Station>) returns (dropped: seq<Station>)
    requires forall i, j :: 0 <= i < j < |stations| ==> stations[i] != stations[j]
    modifies set s | s in stations
    ensures forall s :: s in stations ==> s.State() == OnTick(old(s.State()))
    ensures forall s :: s in dropped <==> s in stations && Drops(old(s.State()))
    ensures forall i, j :: 0 <= i < j < |dropped| ==> dropped[i] != dropped[j]
  {
    dropped := [];
    for n := 0 to |stations|
      invariant forall i :: 0 <= i < n ==> stations[i].State() == OnTick(old(stations[i].State()))
      invariant forall i :: n <= i < |stations| ==> stations[i].State() == old(stations[i].State())
      invariant forall s :: s in dropped <==> s in stations[..n] && Drops(old(s.State()))
      invariant forall i, j :: 0 <= i < j < |dropped| ==> dropped[i] != dropped[j]
    {
      var s := stations[n];
      if s.timer != 0 {
        s.timer := s.timer - 1;
        if s.timer == 0 {
          s.count := s.count + 1;
          if s.count >= LIMIT {
            s.count := 0;
            dropped := dropped + [s];
          } else {
            s.timer := s.idlePeriod;
          }
        }
      }
      assert stations[..n + 1] == stations[..n] + [s];
    }
    assert stations[..|stations|] == stations;
  }
}
