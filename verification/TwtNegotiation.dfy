/**
 What a TWT negotiation with the AP yields (nrc-mac80211-twt.c, nrc-twt-sched.c).
 */
module TwtNegotiation {
  import opened Arith
  import opened Common
  import opened TwtInterval
  import opened TwtScheduler

  /** A multiple that leaves the shortened request within BSS max idle. */
  predicate Allowed(interval: nat, flow: nat, idle: nat, p: nat)
    requires interval > 0
  {
    p <= flow / interval && (idle == 0 || flow <= idle || p * interval + flow % interval <= idle)
  }

  lemma GradeIsSmall(interval: nat, flow: nat, idle: nat)
    requires interval > 0
    ensures GradeRequest(interval, flow, idle).multi in {0, 1, 2, 4, 8}
    ensures Log2(GradeRequest(interval, flow, idle).multi) <= 3
  {
  }

  lemma {:induction false} IdleCapMeaning(multi: nat, flow: int, interval: nat, idle: nat, rest: nat)
    requires interval > 0 && flow == multi * interval + rest && flow > idle
    ensures var k := IdleCap(multi, flow, interval, idle);
            && k <= multi && (multi <= 1 ==> k == multi) && (multi > 1 ==> 1 <= k < multi)
            && (k > 1 ==> k * interval + rest <= idle)
            && forall p | k < p <= multi :: p > 1 ==> p * interval + rest > idle
    decreases multi
  {
    assert (multi - 1) * interval == multi * interval - interval;
    if multi > 1 {
      if flow - interval > idle {
        IdleCapMeaning(multi - 1, flow - interval, interval, idle, rest);
      }
    }
  }

  lemma FloorMeaning(n: nat)
    ensures var f := FloorPow2(n);
            && f <= n && f in {0, 1, 2, 4, 8} && (f <= 1 ==> f == Min(n, 1))
            && (n >= 2 ==> f >= 2) && (n >= 4 ==> f >= 4) && (n >= 8 ==> f == 8)
  {
  }

  /** The shortened multiple, when the request exceeds BSS max idle. */
  lemma CapMeaning(interval: nat, flow: nat, idle: nat)
    requires interval > 0 && idle != 0 && idle < flow
    ensures var k := IdleCap(flow / interval, flow, interval, idle);
            && k <= flow / interval && (k <= 1 ==> Min(k, 1) == Min(flow / interval, 1))
            && (forall p | 1 < p <= k :: Allowed(interval, flow, idle, p))
            && (forall p | 1 < p && Allowed(interval, flow, idle, p) :: p <= k)
  {
    var q, r := flow / interval, flow % interval;
    DivMod(flow, interval);
    IdleCapMeaning(q, flow, interval, idle, r);
    var k := IdleCap(q, flow, interval, idle);
    forall p | 1 < p <= k
      ensures Allowed(interval, flow, idle, p)
    {
      MulMono(p, k, interval);
    }
  }

  /** The multiple chosen is the largest allowed power of two up to 8. */
  lemma GradeMeaning(interval: nat, flow: nat, idle: nat)
    requires interval > 0
    ensures var g := GradeRequest(interval, flow, idle);
      && (g.multi <= 1 ==> g.multi == Min(flow / interval, 1))
      && (g.multi > 1 ==> g.multi in {2, 4, 8} && Allowed(interval, flow, idle, g.multi))
      && (forall p | p in {2, 4, 8} && Allowed(interval, flow, idle, p) :: p <= g.multi)
      && (!g.dictate <==> flow == g.multi * interval && (idle == 0 || flow <= idle))
  {
    var g := GradeRequest(interval, flow, idle);
    MultipleOf(flow, interval, g.multi);
    if idle != 0 && idle < flow {
      CapMeaning(interval, flow, idle);
      FloorMeaning(IdleCap(flow / interval, flow, interval, idle));
    } else {
      FloorMeaning(flow / interval);
    }
  }

  lemma MultipleOf(flow: nat, interval: nat, m: nat)
    requires interval > 0
    ensures flow == m * interval <==> flow / interval == m && flow % interval == 0
  {
    DivMod(flow, interval);
    if flow == m * interval {
      DivBounds(flow, interval, m);
    }
  }

  // ---- one round ----------------------------------------------------------------------------

  /** Conditions on the caller's side of every exchange below. */
  predicate Exchange(c: Config, s: State, sta: nat, f: SetupFrame) {
    c.Valid() && |s.table.slots| == c.Slots() && s.started && f.Valid() && sta in s.stations && !s.stations[sta].agreed
  }

  function Offered(c: Config, multi: nat): nat {
    c.interval * (if multi == 0 then 1 else multi)
  }

  /** The flow written by entry_add denotes the offered multiple of the base interval. */
  lemma RewrittenDenotes(c: Config, flow: Flow, multi: nat)
    requires c.Valid() && multi in {0, 1, 2, 4, 8}
    ensures var g := Rewritten(c, flow, multi); g.Interval() == Offered(c, multi)
  {
    var k := Log2(multi);
    assert multi > 0 ==> Pow2(k) == multi by {
      assert Pow2(1) == 2 && Pow2(2) == 4 && Pow2(3) == 8;
      assert Log2(2) == 1 && Log2(4) == 2 && Log2(8) == 3;
    }
    ShlIsMul(c.mantissa, c.exponent + k);
    ShlIsMul(c.mantissa, c.exponent);
    Pow2Add(c.exponent, k);
    Regroup(c.mantissa, Pow2(c.exponent), Pow2(k));
  }

  /** entry_add grades the stored flow, and looks for a slot only when nothing is dictated. */
  lemma EntryAddMeaning(c: Config, s: State, sta: nat, idlePeriod: nat, now: nat, gotNode: bool)
    requires c.Valid() && |s.table.slots| == c.Slots() && s.started && sta in s.stations && !s.stations[sta].agreed
    ensures var o := EntryAdd(c, s, sta, idlePeriod, now, gotNode);
      var flow := s.stations[sta].flow;
      var g := GradeRequest(c.interval, flow.Interval(), BssMaxIdle(idlePeriod));
      var placed := Choose(c, s.table).0.Some? && gotNode;
      && o.ret == (if g.dictate then 1 else if placed then 0 else -1)
      && sta in o.state.stations && o.state.started
      && |o.state.table.slots| == |s.table.slots|
      && (g.dictate ==> o.state.table == s.table)
      && o.state.stations[sta].agreed == (o.ret == 0)
      && o.state.stations[sta].flow.mantissa == c.mantissa
      && o.state.stations[sta].flow.exp == c.exponent + Log2(g.multi)
  {
    assert Choose(c, s.table).0.Some? ==> Choose(c, s.table).0.value < |s.table.slots|;
  }

  /** A well-formed request for flow 0 from a station without an agreement. */
  predicate Graded(c: Config, s: State, sta: nat, f: SetupFrame) {
    Exchange(c, s, sta, f) && RequestOk(f) && f.flowid == 0
  }

  /**
   * The answer to such a request: its command, the flow stored, and what the frame then
   * carries.
   */
  lemma AnswerMeaning(c: Config, s: State, sta: nat, f: SetupFrame, idlePeriod: nat, now: nat, gotNode: bool)
    requires Graded(c, s, sta, f)
    ensures var r := AddTwtSetup(c, s, sta, f, idlePeriod, now, gotNode);
      var g := GradeRequest(c.interval, f.Interval(), 1_024_000 * idlePeriod);
      var placed := Choose(c, s.table).0.Some? && gotNode;
      && r.frame.cmd == (if g.dictate then Dictate else if placed then Accept else Reject)
      && sta in r.state.stations && r.state.started && |r.state.table.slots| == |s.table.slots|
      && (g.dictate ==> r.state.table == s.table)
      && var flow := r.state.stations[sta].flow;
         && flow.exp == c.exponent + Log2(g.multi)
         && flow.Interval() == Offered(c, g.multi)
         && r.state.stations[sta].agreed == (r.frame.cmd == Accept)
         && (r.frame.cmd == Dictate ==> r.frame == f.(cmd := Dictate, mantissa := c.mantissa, exp := flow.exp % 32))
         && (r.frame.cmd == Accept ==> r.frame == f.(cmd := Accept, twt := flow.twt))
         && (r.frame.cmd == Reject ==> r.frame == f.(cmd := Reject))
  {
    var flow := Flow(f.flowid, f.duration, f.mantissa, f.exp, 0, None);
    GradeIsSmall(c.interval, f.Interval(), BssMaxIdle(idlePeriod));
    EntryAddMeaning(c, s.WithFlow(sta, flow), sta, idlePeriod, now, gotNode);
    RewrittenDenotes(c, flow, GradeRequest(c.interval, f.Interval(), BssMaxIdle(idlePeriod)).multi);
  }

  /**
   * ACCEPT stores a flow that denotes exactly the requested interval, with one exception:
   * a request for interval zero is accepted at the base interval.
   */
  lemma AcceptKeepsInterval(c: Config, s: State, sta: nat, f: SetupFrame, idlePeriod: nat, now: nat, gotNode: bool)
    requires Exchange(c, s, sta, f)
    requires AddTwtSetup(c, s, sta, f, idlePeriod, now, gotNode).frame.cmd == Accept
    ensures var flow := AddTwtSetup(c, s, sta, f, idlePeriod, now, gotNode).state.stations[sta].flow;
            && (flow.Interval() == f.Interval() <==> f.Interval() != 0)
            && (f.Interval() == 0 ==> flow.Interval() == c.interval)
  {
    AnswerMeaning(c, s, sta, f, idlePeriod, now, gotNode);
    GradeMeaning(c.interval, f.Interval(), BssMaxIdle(idlePeriod));
    GradeIsSmall(c.interval, f.Interval(), BssMaxIdle(idlePeriod));
    var m := GradeRequest(c.interval, f.Interval(), BssMaxIdle(idlePeriod)).multi;
    assert m * c.interval == c.interval * m;
  }

  /** An offer of m base intervals for a requested interval. */
  predicate GoodOffer(base: nat, requested: nat, idle: nat, offer: int, m: nat)
    requires base > 0
  {
    && m in {1, 2, 4, 8} && offer == base * m
    && (offer <= requested || (m == 1 && requested < base))
    && (idle != 0 && base <= idle ==> offer <= idle)
    && forall p | p in {2, 4, 8} && Allowed(base, requested, idle, p) :: p <= m
  }

  lemma GradedOfferIsGood(base: nat, requested: nat, idle: nat)
    requires base > 0
    ensures var g := GradeRequest(base, requested, idle);
            var m := if g.multi == 0 then 1 else g.multi;
            GoodOffer(base, requested, idle, base * m, m)
  {
    GradeMeaning(base, requested, idle);
    GradeIsSmall(base, requested, idle);
    var g := GradeRequest(base, requested, idle);
    var m := if g.multi == 0 then 1 else g.multi;
    OfferBounds(base, requested, idle, m);
  }

  lemma OfferBounds(base: nat, requested: nat, idle: nat, m: nat)
    requires base > 0 && m >= 1
    requires m > 1 ==> Allowed(base, requested, idle, m)
    ensures base * m <= requested || (m == 1 && requested < base)
    ensures idle != 0 && base <= idle ==> base * m <= idle
  {
    assert base * m == m * base;
    DivMod(requested, base);
    MulMono(m, requested / base, base);
  }

  /**
   * DICTATE offers the base interval times 1, 2, 4 or 8: never more than was requested
   * unless the request was below the base, never more than BSS max idle unless the base
   * already is, and no allowed power of two is larger.
   */
  lemma DictateOffers(c: Config, s: State, sta: nat, f: SetupFrame, idlePeriod: nat, now: nat, gotNode: bool)
    requires Exchange(c, s, sta, f)
    requires AddTwtSetup(c, s, sta, f, idlePeriod, now, gotNode).frame.cmd == Dictate
    ensures var flow := AddTwtSetup(c, s, sta, f, idlePeriod, now, gotNode).state.stations[sta].flow;
            var offer, idle := flow.Interval(), 1_024_000 * idlePeriod;
            exists m :: GoodOffer(c.interval, f.Interval(), idle, offer, m)
  {
    AnswerMeaning(c, s, sta, f, idlePeriod, now, gotNode);
    GradedOfferIsGood(c.interval, f.Interval(), BssMaxIdle(idlePeriod));
  }

  // ---- two rounds ---------------------------------------------------------------------------

  /** The station asks again for exactly what it was dictated. */
  function Resubmission(f: SetupFrame, dictated: SetupFrame): SetupFrame {
    f.(mantissa := dictated.mantissa, exp := dictated.exp)
  }

  lemma GradeOfMultiple(interval: nat, m: nat, idle: nat)
    requires interval > 0 && m in {1, 2, 4, 8}
    ensures GradeRequest(interval, interval * m, idle).dictate <==> idle != 0 && idle < interval * m
  {
    assert interval * m == m * interval;
    MultipleOf(interval * m, interval, m);
  }

  /**
   * When dictated parameters are dictated again: the exponent does not survive its five-bit
   * field, or the base interval exceeds BSS max idle.  Both can be told from the request.
   */
  predicate NeverSettles(c: Config, requested: nat, idle: nat)
    requires c.interval > 0
  {
    c.exponent + Log2(GradeRequest(c.interval, requested, idle).multi) >= 32 || (idle != 0 && idle < c.interval)
  }

  /**
   * Resubmitting the dictated mantissa and exponent, in any later state in which the station
   * has no agreement, whatever others have done in between: it is dictated again exactly when
   * NeverSettles says so.  Otherwise it is accepted exactly when there is a slot and memory,
   * unless the offer is shorter than the service duration.
   */
  lemma ResubmissionSettles(c: Config, s: State, later: State, sta: nat, f: SetupFrame, idlePeriod: nat,
                            now: nat, now': nat, gotNode: bool, gotNode': bool)
    requires Exchange(c, s, sta, f)
    requires AddTwtSetup(c, s, sta, f, idlePeriod, now, gotNode).frame.cmd == Dictate
    requires Exchange(c, later, sta, f)
    ensures var f2 := Resubmission(f, AddTwtSetup(c, s, sta, f, idlePeriod, now, gotNode).frame);
      && Exchange(c, later, sta, f2)
      && var cmd := AddTwtSetup(c, later, sta, f2, idlePeriod, now', gotNode').frame.cmd;
         var never := NeverSettles(c, f.Interval(), 1_024_000 * idlePeriod);
         && (cmd == Dictate <==> RequestOk(f2) && never)
         && (!never ==> (cmd == Accept <==> RequestOk(f2) && Choose(c, later.table).0.Some? && gotNode'))
  {
    var idle := BssMaxIdle(idlePeriod);
    var r := AddTwtSetup(c, s, sta, f, idlePeriod, now, gotNode);
    AnswerMeaning(c, s, sta, f, idlePeriod, now, gotNode);
    GradedOfferIsGood(c.interval, f.Interval(), idle);
    GradeIsSmall(c.interval, f.Interval(), idle);
    var f2, flow := Resubmission(f, r.frame), r.state.stations[sta].flow;
    var multi := GradeRequest(c.interval, f.Interval(), idle).multi;
    SecondGrade(c, flow, f2, if multi == 0 then 1 else multi, idle);
    if RequestOk(f2) {
      AnswerMeaning(c, later, sta, f2, idlePeriod, now', gotNode');
    }
  }

  /** The state after the first answer is such a state. */
  lemma DictatedCanAskAgain(c: Config, s: State, sta: nat, f: SetupFrame, idlePeriod: nat, now: nat, gotNode: bool)
    requires Exchange(c, s, sta, f)
    requires AddTwtSetup(c, s, sta, f, idlePeriod, now, gotNode).frame.cmd == Dictate
    ensures Exchange(c, AddTwtSetup(c, s, sta, f, idlePeriod, now, gotNode).state, sta, f)
    ensures AddTwtSetup(c, s, sta, f, idlePeriod, now, gotNode).state.table == s.table
  {
    AnswerMeaning(c, s, sta, f, idlePeriod, now, gotNode);
  }

  lemma GradeOfOffer(base: nat, m: nat, idle: nat)
    requires base > 0 && m in {1, 2, 4, 8}
    requires idle != 0 && base <= idle ==> base * m <= idle
    ensures GradeRequest(base, base * m, idle).dictate <==> idle != 0 && idle < base
  {
    GradeOfMultiple(base, m, idle);
    MulMono(1, m, base);
    assert m * base == base * m;
  }

  /** How the dictated parameters are graded when they come back. */
  lemma SecondGrade(c: Config, flow: Flow, f2: SetupFrame, m: nat, idle: nat)
    requires c.Valid() && m in {1, 2, 4, 8} && c.exponent <= flow.exp <= c.exponent + 3
    requires Shl(c.mantissa, flow.exp) == c.interval * m
    requires f2.mantissa == c.mantissa && f2.exp == flow.exp % 32
    requires idle != 0 && c.interval <= idle ==> c.interval * m <= idle
    ensures GradeRequest(c.interval, f2.Interval(), idle).dictate <==>
            flow.exp >= 32 || (idle != 0 && idle < c.interval)
  {
    if flow.exp < 32 {
      GradeOfOffer(c.interval, m, idle);
    } else {
      WrappedOffer(c, flow.exp);
      GradeBelowBase(c.interval, f2.Interval(), idle);
    }
  }

  /** An exponent of 32 or more loses 32 in the frame and denotes less than the base. */
  lemma WrappedOffer(c: Config, exp: nat)
    requires c.Valid() && 32 <= exp <= c.exponent + 3
    ensures 0 < Shl(c.mantissa, exp % 32) < c.interval
  {
    ShlIsMul(c.mantissa, exp % 32);
    ShlIsMul(c.mantissa, c.exponent);
    Pow2Mono(exp % 32, c.exponent - 1);
    HalfIsLess(c.mantissa, Pow2(exp % 32), Pow2(c.exponent - 1));
  }

  lemma HalfIsLess(m: nat, a: nat, h: nat)
    requires 0 < a <= h
    ensures m > 0 ==> 0 < m * a < m * (2 * h)
  {
    if m > 0 {
      MulMono(a, h, m);
      MulMono(1, a, m);
      assert m * a == a * m && m * h == h * m && m * (2 * h) == 2 * (m * h);
    }
  }

  lemma GradeBelowBase(interval: nat, flow: nat, idle: nat)
    requires 0 < flow < interval
    ensures GradeRequest(interval, flow, idle) == Grade(true, 0)
  {
    DivBounds(flow, interval, 0);
  }
}
