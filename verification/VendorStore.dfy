/**
 The driver's store of vendor-specific elements and its backup (nrc-mac80211.c), as
 functions on values: four element lists shared by all interfaces, one backup list per
 interface, and the replay that follows a watchdog reset.
 */
module VendorStore {
  import opened Common
  import opened VendorElements

  const BUFFERS: nat := 4
  const VIF_MAX: nat := 2

  const WOWLAN_PATTERN: Byte := 6
  const BCAST_FOTA_4: Byte := 11
  const ANNOUNCE5: Byte := 4
  const ANNOUNCE6: Byte := 12
  const ANNOUNCE11: Byte := 17
  const ANNOUNCE16: Byte := 22
  const ANNOUNCE20: Byte := 26
  const UTC: Byte := 27

  /** The subcommands that select a buffer; for others the source has none to use. */
  predicate Known(subcmd: Byte) {
    subcmd <= UTC
  }

  /** Beacon, probe request, probe response, association request. */
  function BufferOf(subcmd: Byte): nat {
    if subcmd <= BCAST_FOTA_4 || subcmd == UTC then 0
    else if subcmd < ANNOUNCE11 then 1
    else if subcmd < ANNOUNCE16 then 2
    else 3
  }

  /** The subcommands the backup list records. */
  predicate BackedUp(subcmd: Byte) {
    subcmd <= ANNOUNCE5 || ANNOUNCE6 <= subcmd <= ANNOUNCE20
  }

  /** The frame nrc_vcmd_backup_reinstall updates after a backed-up pair. */
  function ReplayTarget(subcmd: Byte): Option<nat> {
    if subcmd <= ANNOUNCE5 then Some(0)
    else if ANNOUNCE6 <= subcmd < ANNOUNCE11 then Some(1)
    else if ANNOUNCE11 <= subcmd < ANNOUNCE16 then Some(2)
    else if ANNOUNCE16 <= subcmd <= ANNOUNCE20 then Some(3)
    else None
  }

  /** The replay updates a frame exactly for the pairs backed up, and it is the one whose buffer holds them. */
  lemma ReplayTargetsMatch(subcmd: Byte)
    ensures BackedUp(subcmd) <==> ReplayTarget(subcmd) != None
    ensures BackedUp(subcmd) ==> Known(subcmd) && ReplayTarget(subcmd) == Some(BufferOf(subcmd))
  {
  }

  // ---- element lists ----------------------------------------------------------------------

  function Drop(es: seq<Elem>, subcmd: Byte): seq<Elem> {
    var k := KeyIndex(es, subcmd);
    if k < |es| then Without(es, k) else es
  }

  function Lookup(es: seq<Elem>, subcmd: Byte): Option<seq<Byte>> {
    var k := KeyIndex(es, subcmd);
    if k < |es| then Some(es[k].data) else None
  }

  predicate DistinctKeys(es: seq<Elem>) {
    forall i, j :: 0 <= i < j < |es| ==> es[i].subcmd != es[j].subcmd
  }

  /** The length of the encoding. */
  function Size(es: seq<Elem>): nat {
    if es == [] then 0 else HEADER + |es[0].data| + Size(es[1..])
  }

  /** All elements but those with the subcommand, in order. */
  function Others(es: seq<Elem>, subcmd: Byte): seq<Elem> {
    if es == [] then []
    else (if es[0].subcmd == subcmd then [] else [es[0]]) + Others(es[1..], subcmd)
  }

  /** Removal deletes exactly the element with the subcommand and keeps the rest in order. */
  lemma {:induction false} DropIsOthers(es: seq<Elem>, subcmd: Byte)
    requires DistinctKeys(es)
    ensures Drop(es, subcmd) == Others(es, subcmd)
  {
    if es != [] {
      if es[0].subcmd == subcmd {
        assert Drop(es, subcmd) == es[1..];
        NothingToDrop(es[1..], subcmd);
      } else {
        DropIsOthers(es[1..], subcmd);
        DropTail(es, subcmd);
      }
    }
  }

  lemma DropTail(es: seq<Elem>, subcmd: Byte)
    requires es != [] && es[0].subcmd != subcmd
    ensures Drop(es, subcmd) == [es[0]] + Drop(es[1..], subcmd)
  {
  }

  lemma {:induction false} NothingToDrop(es: seq<Elem>, subcmd: Byte)
    requires forall i :: 0 <= i < |es| ==> es[i].subcmd != subcmd
    ensures Others(es, subcmd) == es
  {
    if es != [] {
      NothingToDrop(es[1..], subcmd);
    }
  }

  lemma DropIsKeyRemoval(es: seq<Elem>, subcmd: Byte)
    requires DistinctKeys(es)
    ensures DistinctKeys(Drop(es, subcmd))
    ensures forall e | e in Drop(es, subcmd) :: e in es && e.subcmd != subcmd
    ensures forall x: Byte :: Lookup(Drop(es, subcmd), x) == if x == subcmd then None else Lookup(es, x)
  {
    DropKeepsDistinct(es, subcmd);
    forall x: Byte
      ensures Lookup(Drop(es, subcmd), x) == if x == subcmd then None else Lookup(es, x)
    {
      LookupAfterDrop(es, subcmd, x);
    }
  }

  lemma DropKeepsDistinct(es: seq<Elem>, subcmd: Byte)
    requires DistinctKeys(es)
    ensures DistinctKeys(Drop(es, subcmd))
    ensures forall e | e in Drop(es, subcmd) :: e in es && e.subcmd != subcmd
  {
    var k, d := KeyIndex(es, subcmd), Drop(es, subcmd);
    if k < |es| {
      assert forall i :: 0 <= i < |d| ==> d[i] == es[if i < k then i else i + 1];
    }
  }

  lemma LookupAfterDrop(es: seq<Elem>, subcmd: Byte, x: Byte)
    requires DistinctKeys(es)
    ensures Lookup(Drop(es, subcmd), x) == if x == subcmd then None else Lookup(es, x)
  {
    DropKeepsDistinct(es, subcmd);
    var k, d, j := KeyIndex(es, subcmd), Drop(es, subcmd), KeyIndex(es, x);
    if x != subcmd && j < |es| {
      var i := if j < k then j else j - 1;
      assert d[i] == es[j];
      KeyAt(d, i);
    }
  }

  lemma KeyAt(es: seq<Elem>, k: nat)
    requires DistinctKeys(es) && k < |es|
    ensures KeyIndex(es, es[k].subcmd) == k
  {
  }

  lemma AppendIsKeyInsert(es: seq<Elem>, e: Elem)
    requires DistinctKeys(es) && Lookup(es, e.subcmd) == None
    ensures DistinctKeys(es + [e])
    ensures forall x: Byte :: Lookup(es + [e], x) == if x == e.subcmd then Some(e.data) else Lookup(es, x)
  {
    var a := es + [e];
    forall x: Byte
      ensures Lookup(a, x) == if x == e.subcmd then Some(e.data) else Lookup(es, x)
    {
      var j := if x == e.subcmd then |es| else KeyIndex(es, x);
      if j < |a| && a[j].subcmd == x {
        KeyAt(a, j);
      }
    }
  }

  lemma {:induction false} SizeAppend(a: seq<Elem>, b: seq<Elem>)
    ensures Size(a + b) == Size(a) + Size(b)
  {
    if a == [] {
      assert a + b == b;
    } else {
      assert (a + b)[1..] == a[1..] + b;
      SizeAppend(a[1..], b);
    }
  }

  lemma SizeDrop(es: seq<Elem>, subcmd: Byte)
    ensures Size(es) == Size(Drop(es, subcmd)) +
            match Lookup(es, subcmd) case None => 0 case Some(data) => HEADER + |data|
  {
    var k := KeyIndex(es, subcmd);
    if k < |es| {
      assert es == es[..k] + ([es[k]] + es[k + 1..]);
      SizeAppend(es[..k], [es[k]] + es[k + 1..]);
      SizeAppend([es[k]], es[k + 1..]);
      SizeAppend(es[..k], es[k + 1..]);
    }
  }

  lemma {:induction false} SizeIsEncodedLength(es: seq<Elem>)
    requires AllValid(es)
    ensures Size(es) == |Encode(es)|
  {
    if es != [] {
      SizeIsEncodedLength(es[1..]);
    }
  }

  // ---- the store ----------------------------------------------------------------------------

  /** `dead`: skb_put ran past the end of a buffer, which stops the kernel. */
  datatype Store = Store(bufs: seq<seq<Elem>>, backups: seq<seq<Elem>>, dead: bool)

  predicate BufferOk(cap: nat, es: seq<Elem>, i: nat) {
    && DistinctKeys(es) && AllValid(es) && Size(es) <= cap
    && forall e | e in es :: Known(e.subcmd) && BufferOf(e.subcmd) == i
  }

  predicate BackupOk(es: seq<Elem>) {
    DistinctKeys(es) && AllValid(es) && forall e | e in es :: BackedUp(e.subcmd)
  }

  /** The store for buffers of `cap` bytes. */
  predicate WellFormed(cap: nat, s: Store) {
    && |s.bufs| == BUFFERS && |s.backups| == VIF_MAX
    && (forall i :: 0 <= i < BUFFERS ==> BufferOk(cap, s.bufs[i], i))
    && (forall v :: 0 <= v < VIF_MAX ==> BackupOk(s.backups[v]))
  }

  /** The map the store stands for. */
  function Get(s: Store, subcmd: Byte): Option<seq<Byte>>
    requires |s.bufs| == BUFFERS
  {
    Lookup(s.bufs[BufferOf(subcmd)], subcmd)
  }

  datatype Result = Done | Invalid | Overrun

  /** nrc_vendor_remove */
  function VendorRemove(s: Store, subcmd: Byte): Store
    requires |s.bufs| == BUFFERS
  {
    var b := BufferOf(subcmd);
    s.(bufs := s.bufs[b := Drop(s.bufs[b], subcmd)])
  }

  predicate DataOk(data: seq<Byte>) {
    1 <= |data| <= MAX_DATA
  }

  function UpdateResult(cap: nat, s: Store, subcmd: Byte, data: seq<Byte>): Result
    requires |s.bufs| == BUFFERS
  {
    if !DataOk(data) then Invalid
    else if Size(Drop(s.bufs[BufferOf(subcmd)], subcmd)) + HEADER + |data| > cap then Overrun
    else Done
  }

  /** nrc_vendor_update: drop the old element, append the new one. */
  function VendorUpdate(cap: nat, s: Store, subcmd: Byte, data: seq<Byte>): Store
    requires |s.bufs| == BUFFERS
  {
    var r := VendorRemove(s, subcmd);
    var b := BufferOf(subcmd);
    match UpdateResult(cap, s, subcmd, data)
    case Invalid => s
    case Overrun => r.(dead := true)
    case Done => r.(bufs := r.bufs[b := r.bufs[b] + [Elem(subcmd, data)]])
  }

  function BackupAdd(s: Store, vif: nat, subcmd: Byte, data: seq<Byte>): Store
    requires vif < |s.backups|
  {
    if BackedUp(subcmd) then
      s.(backups := s.backups[vif := Drop(s.backups[vif], subcmd) + [Elem(subcmd, data)]])
    else s
  }

  function BackupRemove(s: Store, vif: nat, subcmd: Byte): Store
    requires vif < |s.backups|
  {
    if BackedUp(subcmd) then s.(backups := s.backups[vif := Drop(s.backups[vif], subcmd)]) else s
  }

  /** nrc_vendor_cmd_append */
  function CmdAppend(cap: nat, s: Store, vif: nat, subcmd: Byte, data: seq<Byte>): Store
    requires |s.bufs| == BUFFERS && vif < |s.backups|
  {
    var u := VendorUpdate(cap, s, subcmd, data);
    if UpdateResult(cap, s, subcmd, data) == Done then BackupAdd(u, vif, subcmd, data) else u
  }

  /** nrc_vendor_cmd_remove: the backup is touched only when an element was there. */
  function CmdRemove(s: Store, vif: nat, subcmd: Byte): Store
    requires |s.bufs| == BUFFERS && vif < |s.backups|
  {
    if Get(s, subcmd) == None then s else BackupRemove(VendorRemove(s, subcmd), vif, subcmd)
  }

  /** nrc_vcmd_backup_reinstall over the list `es`. */
  function Replay(cap: nat, s: Store, es: seq<Elem>): (r: Store)
    requires |s.bufs| == BUFFERS
    ensures |r.bufs| == BUFFERS && r.backups == s.backups
    decreases es
  {
    if es == [] || s.dead then s else Replay(cap, VendorUpdate(cap, s, es[0].subcmd, es[0].data), es[1..])
  }

  // ---- each operation on the map ----------------------------------------------------------

  lemma RemoveIsMapRemoval(cap: nat, s: Store, subcmd: Byte)
    requires WellFormed(cap, s) && Known(subcmd)
    ensures WellFormed(cap, VendorRemove(s, subcmd))
    ensures forall x: Byte | Known(x) ::
              Get(VendorRemove(s, subcmd), x) == if x == subcmd then None else Get(s, x)
  {
    var b := BufferOf(subcmd);
    DropIsKeyRemoval(s.bufs[b], subcmd);
    SizeDrop(s.bufs[b], subcmd);
  }

  /** An update is a map update, unless the data is refused or the buffer overrun. */
  lemma UpdateIsMapUpdate(cap: nat, s: Store, subcmd: Byte, data: seq<Byte>)
    requires WellFormed(cap, s) && Known(subcmd)
    ensures var s' := VendorUpdate(cap, s, subcmd, data);
      && WellFormed(cap, s') && s'.backups == s.backups
      && match UpdateResult(cap, s, subcmd, data)
         case Invalid => s' == s && !DataOk(data)
         case Overrun => s'.dead
         case Done =>
           && s'.dead == s.dead
           && forall x: Byte | Known(x) :: Get(s', x) == if x == subcmd then Some(data) else Get(s, x)
  {
    var b := BufferOf(subcmd);
    var r := VendorRemove(s, subcmd);
    RemoveIsMapRemoval(cap, s, subcmd);
    if UpdateResult(cap, s, subcmd, data) == Done {
      var e := Elem(subcmd, data);
      AppendIsKeyInsert(r.bufs[b], e);
      SizeAppend(r.bufs[b], [e]);
    }
  }

  lemma BackupStaysOk(cap: nat, s: Store, vif: nat, subcmd: Byte, data: seq<Byte>)
    requires WellFormed(cap, s) && vif < VIF_MAX
    ensures DataOk(data) ==> WellFormed(cap, BackupAdd(s, vif, subcmd, data))
    ensures WellFormed(cap, BackupRemove(s, vif, subcmd))
  {
    DropIsKeyRemoval(s.backups[vif], subcmd);
    AppendIsKeyInsert(Drop(s.backups[vif], subcmd), Elem(subcmd, data));
  }

  /** The subcommands 0 to 4 and 12 to 26. */
  predicate Recorded(subcmd: Byte) {
    subcmd <= 4 || 12 <= subcmd <= 26
  }

  /**
   * A command that succeeds on a recorded subcommand leaves its pair at the end of the
   * interface's own list, once; every other command leaves all lists alone.
   */
  lemma AppendIsRecorded(cap: nat, s: Store, vif: nat, subcmd: Byte, data: seq<Byte>)
    requires WellFormed(cap, s) && vif < VIF_MAX && Known(subcmd)
    ensures CmdAppend(cap, s, vif, subcmd, data).backups ==
      if UpdateResult(cap, s, subcmd, data) == Done && Recorded(subcmd) then
        s.backups[vif := Others(s.backups[vif], subcmd) + [Elem(subcmd, data)]]
      else s.backups
  {
    DropIsOthers(s.backups[vif], subcmd);
  }

  /** A removal of a recorded subcommand that was stored takes its pair off the interface's own list. */
  lemma RemovalIsRecorded(cap: nat, s: Store, vif: nat, subcmd: Byte)
    requires WellFormed(cap, s) && vif < VIF_MAX && Known(subcmd)
    ensures CmdRemove(s, vif, subcmd).backups ==
      if Get(s, subcmd) != None && Recorded(subcmd) then s.backups[vif := Others(s.backups[vif], subcmd)]
      else s.backups
  {
    DropIsOthers(s.backups[vif], subcmd);
  }

  // ---- replay ---------------------------------------------------------------------------------

  predicate Holds(s: Store, e: Elem)
    requires |s.bufs| == BUFFERS
  {
    Get(s, e.subcmd) == Some(e.data)
  }

  predicate Agree(s: Store, es: seq<Elem>)
    requires |s.bufs| == BUFFERS
  {
    forall e | e in es :: Holds(s, e)
  }

  ghost predicate SameMap(s: Store, t: Store)
    requires |s.bufs| == BUFFERS && |t.bufs| == BUFFERS
  {
    forall x: Byte | Known(x) :: Get(s, x) == Get(t, x)
  }

  predicate Listable(es: seq<Elem>) {
    DistinctKeys(es) && AllValid(es) && forall e | e in es :: Known(e.subcmd)
  }

  /** Writing what is already there fits and leaves the map alone. */
  lemma RewriteIsNeutral(cap: nat, s: Store, e: Elem)
    requires WellFormed(cap, s) && e.Valid() && Known(e.subcmd) && Holds(s, e)
    ensures UpdateResult(cap, s, e.subcmd, e.data) == Done
    ensures SameMap(s, VendorUpdate(cap, s, e.subcmd, e.data))
  {
    SizeDrop(s.bufs[BufferOf(e.subcmd)], e.subcmd);
    UpdateIsMapUpdate(cap, s, e.subcmd, e.data);
  }

  lemma {:induction false} AgreeingReplay(cap: nat, s: Store, es: seq<Elem>)
    requires WellFormed(cap, s) && Listable(es) && !s.dead && Agree(s, es)
    ensures var r := Replay(cap, s, es); WellFormed(cap, r) && !r.dead && SameMap(s, r)
    decreases |es|
  {
    if es != [] {
      RewriteIsNeutral(cap, s, es[0]);
      UpdateIsMapUpdate(cap, s, es[0].subcmd, es[0].data);
      var u := VendorUpdate(cap, s, es[0].subcmd, es[0].data);
      forall e | e in es[1..]
        ensures Holds(u, e)
      {
        assert Holds(s, e);
      }
      AgreeingReplay(cap, u, es[1..]);
    }
  }

  /** What a completed replay of es from s has written. */
  ghost predicate Written(s: Store, es: seq<Elem>, r: Store)
    requires |s.bufs| == BUFFERS && |r.bufs| == BUFFERS
  {
    && !s.dead && Agree(r, es)
    && forall x: Byte | Known(x) && KeyIndex(es, x) == |es| :: Get(r, x) == Get(s, x)
  }

  lemma WrittenStep(cap: nat, s: Store, es: seq<Elem>, r: Store)
    requires WellFormed(cap, s) && Listable(es) && es != [] && !s.dead && |r.bufs| == BUFFERS
    requires Written(VendorUpdate(cap, s, es[0].subcmd, es[0].data), es[1..], r)
    ensures Written(s, es, r)
  {
    var e, rest := es[0], es[1..];
    UpdateIsMapUpdate(cap, s, e.subcmd, e.data);
    assert KeyIndex(rest, e.subcmd) == |rest|;
    assert e.Valid() && Known(e.subcmd);
    assert Get(r, e.subcmd) == Get(VendorUpdate(cap, s, e.subcmd, e.data), e.subcmd);
    forall f | f in es
      ensures Holds(r, f)
    {
      assert f == e || f in rest;
    }
    forall x: Byte | Known(x) && KeyIndex(es, x) == |es|
      ensures Get(r, x) == Get(s, x)
    {
      assert KeyIndex(rest, x) == |rest|;
    }
  }

  /** A replay that completes leaves every listed pair in the map and nothing else changed. */
  lemma {:induction false} ReplayWrites(cap: nat, s: Store, es: seq<Elem>)
    requires WellFormed(cap, s) && Listable(es)
    ensures var r := Replay(cap, s, es); WellFormed(cap, r) && (!r.dead ==> Written(s, es, r))
    decreases |es|
  {
    if es != [] && !s.dead {
      UpdateIsMapUpdate(cap, s, es[0].subcmd, es[0].data);
      var u := VendorUpdate(cap, s, es[0].subcmd, es[0].data);
      ReplayWrites(cap, u, es[1..]);
      var r := Replay(cap, u, es[1..]);
      if !r.dead {
        WrittenStep(cap, s, es, r);
      }
    }
  }

  /**
   * The replay after a watchdog reset completes and leaves the map as it was exactly when
   * every backed-up pair is the one in the buffers.
   */
  lemma ReplayKeepsMapIffBackupAgrees(cap: nat, s: Store, vif: nat)
    requires WellFormed(cap, s) && vif < VIF_MAX && !s.dead
    ensures var r := Replay(cap, s, s.backups[vif]);
            !r.dead && SameMap(s, r) <==> Agree(s, s.backups[vif])
  {
    var es := s.backups[vif];
    assert BackupOk(es);
    var r := Replay(cap, s, es);
    if Agree(s, es) {
      AgreeingReplay(cap, s, es);
    }
    ReplayWrites(cap, s, es);
    if !r.dead && SameMap(s, r) {
      forall e | e in es
        ensures Holds(s, e)
      {
        assert Holds(r, e) && Known(e.subcmd);
      }
    }
  }

  // ---- runs ---------------------------------------------------------------------------------

  datatype Event =
    | Append(vif: nat, subcmd: Byte, data: seq<Byte>)
    | Remove(vif: nat, subcmd: Byte)
    | ExpireWowlan
    | Reinstall(vif: nat)
    | ForgetBackup(vif: nat)
  {
    predicate Ok() {
      && (Append? || Remove? ==> Known(subcmd))
      && (ExpireWowlan? || vif < VIF_MAX)
    }

    /** Commands of this event come from interface v, if from any. */
    predicate From(v: nat) {
      (Append? || Remove?) ==> vif == v
    }
  }

  function Step(cap: nat, s: Store, e: Event): (s': Store)
    requires WellFormed(cap, s) && e.Ok()
    ensures WellFormed(cap, s')
  {
    if s.dead then s
    else
      match e
      case Append(vif, subcmd, data) =>
        UpdateIsMapUpdate(cap, s, subcmd, data);
        BackupStaysOk(cap, VendorUpdate(cap, s, subcmd, data), vif, subcmd, data);
        CmdAppend(cap, s, vif, subcmd, data)
      case Remove(vif, subcmd) =>
        RemoveIsMapRemoval(cap, s, subcmd);
        BackupStaysOk(cap, VendorRemove(s, subcmd), vif, subcmd, [0]);
        CmdRemove(s, vif, subcmd)
      case ExpireWowlan =>
        RemoveIsMapRemoval(cap, s, WOWLAN_PATTERN);
        VendorRemove(s, WOWLAN_PATTERN)
      case Reinstall(vif) =>
        assert BackupOk(s.backups[vif]);
        ReplayWrites(cap, s, s.backups[vif]);
        Replay(cap, s, s.backups[vif])
      case ForgetBackup(vif) => s.(backups := s.backups[vif := []])
  }

  function Run(cap: nat, s: Store, events: seq<Event>): (s': Store)
    requires WellFormed(cap, s) && forall e | e in events :: e.Ok()
    ensures WellFormed(cap, s')
    decreases events
  {
    if events == [] then s else Run(cap, Step(cap, s, events[0]), events[1..])
  }

  lemma {:induction false} RunSnoc(cap: nat, s: Store, events: seq<Event>, e: Event)
    requires WellFormed(cap, s) && e.Ok() && forall f | f in events :: f.Ok()
    ensures forall f | f in events + [e] :: f.Ok()
    ensures Run(cap, s, events + [e]) == Step(cap, Run(cap, s, events), e)
    decreases events
  {
    var all := events + [e];
    if events == [] {
      assert all[1..] == [];
      assert Run(cap, Step(cap, s, e), []) == Step(cap, s, e);
    } else {
      assert all[1..] == events[1..] + [e];
      RunSnoc(cap, Step(cap, s, events[0]), events[1..], e);
    }
  }

  // ---- the last write -------------------------------------------------------------------------

  /** The event is a command, or the expiry of the WoWLAN pattern, that is carried out on x. */
  predicate Writes(e: Event, x: Byte) {
    match e
    case Append(_, subcmd, data) => subcmd == x && 1 <= |data| <= 251
    case Remove(_, subcmd) => subcmd == x
    case ExpireWowlan => x == 6
    case _ => false
  }

  /** What the last event that writes x has left there; without one, what was there before. */
  function LastWritten(events: seq<Event>, x: Byte, before: Option<seq<Byte>>): Option<seq<Byte>>
    decreases |events|
  {
    if events == [] then before
    else
      var e := events[|events| - 1];
      if !Writes(e, x) then LastWritten(events[..|events| - 1], x, before)
      else if e.Append? then Some(e.data) else None
  }

  lemma StepWrites(cap: nat, s: Store, e: Event, x: Byte)
    requires WellFormed(cap, s) && e.Ok() && Known(x) && !s.dead && !Step(cap, s, e).dead
    requires e.Reinstall? ==> Agree(s, s.backups[e.vif])
    ensures Get(Step(cap, s, e), x) ==
            if !Writes(e, x) then Get(s, x) else if e.Append? then Some(e.data) else None
  {
    match e {
      case Append(vif, subcmd, data) => UpdateIsMapUpdate(cap, s, subcmd, data);
      case Remove(vif, subcmd) => RemoveIsMapRemoval(cap, s, subcmd);
      case ExpireWowlan => RemoveIsMapRemoval(cap, s, WOWLAN_PATTERN);
      case Reinstall(vif) =>
        assert BackupOk(s.backups[vif]);
        AgreeingReplay(cap, s, s.backups[vif]);
      case ForgetBackup(vif) =>
    }
  }

  predicate AgreesAt(cap: nat, s: Store, e: Event)
    requires WellFormed(cap, s)
  {
    e.Reinstall? && e.vif < VIF_MAX && Agree(s, s.backups[e.vif])
  }

  /** Every replay of the run finds its list agreeing with the map. */
  predicate ReplaysAgree(cap: nat, s: Store, events: seq<Event>)
    requires WellFormed(cap, s) && forall e | e in events :: e.Ok()
  {
    forall k :: 0 <= k < |events| && events[k].Reinstall? ==> AgreesAt(cap, Run(cap, s, events[..k]), events[k])
  }

  /**
   * After a run that has not overrun a buffer, a lookup gives what the last write to the key
   * left, over all four buffers and both interfaces; replays are harmless when they agree.
   */
  lemma {:induction false} LookupIsLastWrite(cap: nat, s: Store, events: seq<Event>, x: Byte)
    requires WellFormed(cap, s) && Known(x) && forall e | e in events :: e.Ok()
    requires ReplaysAgree(cap, s, events) && !Run(cap, s, events).dead
    ensures Get(Run(cap, s, events), x) == LastWritten(events, x, Get(s, x))
    decreases |events|
  {
    if events != [] {
      var n := |events| - 1;
      var most, e := events[..n], events[n];
      assert events == most + [e];
      RunSnoc(cap, s, most, e);
      assert forall k :: 0 <= k <= n ==> most[..k] == events[..k];
      LookupIsLastWrite(cap, s, most, x);
      StepWrites(cap, Run(cap, s, most), e, x);
    }
  }

  /** Without replays nothing has to agree. */
  lemma ReplayFreeLookup(cap: nat, s: Store, events: seq<Event>, x: Byte)
    requires WellFormed(cap, s) && Known(x) && forall e | e in events :: e.Ok() && !e.Reinstall?
    requires !Run(cap, s, events).dead
    ensures Get(Run(cap, s, events), x) == LastWritten(events, x, Get(s, x))
  {
    LookupIsLastWrite(cap, s, events, x);
  }

  /** After an interface's list is forgotten its replay does nothing, and nothing else has changed. */
  lemma ForgottenIsNotReplayed(cap: nat, s: Store, vif: nat)
    requires WellFormed(cap, s) && vif < VIF_MAX && !s.dead
    ensures var t := Step(cap, s, ForgetBackup(vif));
      && Replay(cap, t, t.backups[vif]) == t && SameMap(s, t) && !t.dead
      && forall v :: 0 <= v < VIF_MAX && v != vif ==> t.backups[v] == s.backups[v]
  {
  }

  /** Nothing stored and nothing backed up. */
  predicate Empty(s: Store) {
    && !s.dead && |s.bufs| == BUFFERS && |s.backups| == VIF_MAX
    && (forall i :: 0 <= i < BUFFERS ==> s.bufs[i] == [])
    && (forall v :: 0 <= v < VIF_MAX ==> s.backups[v] == [])
  }

  /** List v agrees with the map and the other interface has no list. */
  predicate OnlyListAgrees(s: Store, v: nat)
    requires |s.bufs| == BUFFERS && |s.backups| == VIF_MAX
  {
    forall w :: 0 <= w < VIF_MAX ==> if w == v then Agree(s, s.backups[w]) else s.backups[w] == []
  }

  lemma AppendKeepsAgreement(cap: nat, s: Store, v: nat, subcmd: Byte, data: seq<Byte>)
    requires WellFormed(cap, s) && v < VIF_MAX && Known(subcmd) && !s.dead && OnlyListAgrees(s, v)
    ensures var s' := CmdAppend(cap, s, v, subcmd, data);
            |s'.bufs| == BUFFERS && |s'.backups| == VIF_MAX && (!s'.dead ==> OnlyListAgrees(s', v))
  {
    var s' := CmdAppend(cap, s, v, subcmd, data);
    UpdateIsMapUpdate(cap, s, subcmd, data);
    DropIsKeyRemoval(s.backups[v], subcmd);
    forall x | !s'.dead && x in s'.backups[v]
      ensures Holds(s', x)
    {
      if x in s.backups[v] {
        assert Holds(s, x) && BackedUp(x.subcmd);
      }
    }
  }

  lemma RemoveKeepsAgreement(cap: nat, s: Store, v: nat, subcmd: Byte)
    requires WellFormed(cap, s) && v < VIF_MAX && Known(subcmd) && OnlyListAgrees(s, v)
    ensures OnlyListAgrees(CmdRemove(s, v, subcmd), v)
  {
    var s' := CmdRemove(s, v, subcmd);
    if Get(s, subcmd) != None {
      RemoveIsMapRemoval(cap, s, subcmd);
      DropIsKeyRemoval(s.backups[v], subcmd);
      forall x | x in s'.backups[v]
        ensures Holds(s', x)
      {
        assert x in s.backups[v] && BackedUp(x.subcmd) && x.subcmd != subcmd;
        assert Holds(s, x);
        assert Get(VendorRemove(s, subcmd), x.subcmd) == Get(s, x.subcmd);
      }
    }
  }

  lemma SameMapKeepsAgreement(cap: nat, s: Store, s': Store, v: nat, gone: Byte)
    requires WellFormed(cap, s) && WellFormed(cap, s') && v < VIF_MAX && OnlyListAgrees(s, v)
    requires s'.backups == s.backups && !BackedUp(gone)
    requires forall x: Byte | Known(x) && x != gone :: Get(s', x) == Get(s, x)
    ensures OnlyListAgrees(s', v)
  {
    forall x | x in s'.backups[v]
      ensures Holds(s', x)
    {
      assert Holds(s, x) && BackedUp(x.subcmd);
    }
  }

  /** What one event does to the agreement between a backup list and the map. */
  lemma StepKeepsAgreement(cap: nat, s: Store, e: Event, v: nat)
    requires WellFormed(cap, s) && e.Ok() && v < VIF_MAX && e.From(v)
    requires !s.dead && OnlyListAgrees(s, v)
    ensures var s' := Step(cap, s, e); !s'.dead ==> OnlyListAgrees(s', v)
  {
    match e {
      case Append(vif, subcmd, data) => AppendKeepsAgreement(cap, s, v, subcmd, data);
      case Remove(vif, subcmd) => RemoveKeepsAgreement(cap, s, v, subcmd);
      case ExpireWowlan =>
        RemoveIsMapRemoval(cap, s, WOWLAN_PATTERN);
        SameMapKeepsAgreement(cap, s, Step(cap, s, e), v, WOWLAN_PATTERN);
      case Reinstall(vif) =>
        assert BackupOk(s.backups[vif]);
        AgreeingReplay(cap, s, s.backups[vif]);
        SameMapKeepsAgreement(cap, s, Step(cap, s, e), v, WOWLAN_PATTERN);
      case ForgetBackup(vif) =>
        var s' := Step(cap, s, e);
        assert Agree(s, s.backups[v]) && s'.bufs == s.bufs;
        assert forall x :: x in s.backups[v] && Holds(s, x) ==> Holds(s', x);
    }
  }

  lemma {:induction false} AgreementRun(cap: nat, s: Store, events: seq<Event>, v: nat)
    requires WellFormed(cap, s) && v < VIF_MAX && forall e | e in events :: e.Ok() && e.From(v)
    requires !s.dead ==> OnlyListAgrees(s, v)
    ensures var t := Run(cap, s, events); !t.dead ==> forall w :: 0 <= w < VIF_MAX ==> Agree(t, t.backups[w])
    decreases events
  {
    if events != [] {
      var e := events[0];
      if !s.dead {
        StepKeepsAgreement(cap, s, e, v);
      }
      AgreementRun(cap, Step(cap, s, e), events[1..], v);
    }
  }

  /**
   * When all commands come from one interface, the replay of either list leaves the map
   * unchanged at any point of any run that has not overrun a buffer.
   */
  lemma SingleInterfaceReplayIsNeutral(cap: nat, s0: Store, events: seq<Event>, v: nat, w: nat)
    requires Empty(s0) && v < VIF_MAX && w < VIF_MAX && forall e | e in events :: e.Ok() && e.From(v)
    ensures WellFormed(cap, s0)
    ensures var s := Run(cap, s0, events);
            !s.dead ==> var r := Replay(cap, s, s.backups[w]); !r.dead && SameMap(s, r)
  {
    AgreementRun(cap, s0, events, v);
    var s := Run(cap, s0, events);
    if !s.dead {
      ReplayKeepsMapIffBackupAgrees(cap, s, w);
    }
  }

  /**
   * When all commands come from one interface, watchdog resets do not show: a lookup gives
   * the last data written to the key, or nothing if it was removed last, whatever replays
   * the run contains.
   */
  lemma SingleInterfaceLookup(cap: nat, s0: Store, events: seq<Event>, v: nat, x: Byte)
    requires Empty(s0) && v < VIF_MAX && Known(x) && forall e | e in events :: e.Ok() && e.From(v)
    ensures WellFormed(cap, s0)
    ensures !Run(cap, s0, events).dead ==> Get(Run(cap, s0, events), x) == LastWritten(events, x, None)
  {
    if !Run(cap, s0, events).dead {
      forall k | 0 <= k < |events| && events[k].Reinstall?
        ensures AgreesAt(cap, Run(cap, s0, events[..k]), events[k])
      {
        AliveBefore(cap, s0, events, k);
        assert events[k].Ok();
        AgreementRun(cap, s0, events[..k], v);
      }
      LookupIsLastWrite(cap, s0, events, x);
    }
  }

  lemma {:induction false} AliveBefore(cap: nat, s: Store, events: seq<Event>, k: nat)
    requires WellFormed(cap, s) && k <= |events| && forall e | e in events :: e.Ok()
    requires !Run(cap, s, events).dead
    ensures !Run(cap, s, events[..k]).dead
    decreases |events|
  {
    var n := |events|;
    if k == n {
      assert events[..k] == events;
    } else {
      var most := events[..n - 1];
      assert events == most + [events[n - 1]] && most[..k] == events[..k];
      RunSnoc(cap, s, most, events[n - 1]);
      AliveBefore(cap, s, most, k);
    }
  }

  lemma RunOfTwo(cap: nat, s: Store, a: Event, b: Event)
    requires WellFormed(cap, s) && a.Ok() && b.Ok()
    ensures Run(cap, s, [a, b]) == Step(cap, Step(cap, s, a), b)
  {
    var s1 := Step(cap, s, a);
    assert [a, b][1..] == [b] && [b][1..] == [];
    assert Run(cap, s1, [b]) == Run(cap, Step(cap, s1, b), []);
  }

  lemma StaleBackup(cap: nat, s: Store)
    requires WellFormed(cap, s) && !s.dead
    requires s.bufs[0] == [Elem(0, [2])] && s.backups[0] == [Elem(0, [1])]
    ensures !SameMap(s, Replay(cap, s, s.backups[0]))
  {
    var e := Elem(0, [1]);
    assert KeyIndex(s.bufs[0], 0) == 0;
    SizeDrop(s.bufs[0], 0);
    UpdateIsMapUpdate(cap, s, 0, [1]);
    assert s.backups[0][1..] == [];
    assert Replay(cap, s, s.backups[0]) == VendorUpdate(cap, s, 0, [1]);
  }

  /** With two interfaces the replay can put back data that has been replaced since. */
  lemma TwoInterfacesDisagree(cap: nat, s0: Store)
    requires cap >= 7 && Empty(s0)
    ensures WellFormed(cap, s0)
    ensures var t := Run(cap, s0, [Append(0, 0, [1]), Append(1, 0, [2])]);
            !t.dead && !SameMap(t, Replay(cap, t, t.backups[0]))
  {
    var a, b := Append(0, 0, [1]), Append(1, 0, [2]);
    RunOfTwo(cap, s0, a, b);
    var s1 := Step(cap, s0, a);
    assert Drop([], 0) == [];
    assert s1.bufs[0] == [Elem(0, [1])] && s1.backups[0] == [Elem(0, [1])] && !s1.dead;
    assert Drop([Elem(0, [1])], 0) == [];
    StaleBackup(cap, Step(cap, s1, b));
  }
}
