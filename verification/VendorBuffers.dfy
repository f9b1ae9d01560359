/**
 The vendor-element store as the driver edits it: bytes moved within fixed buffers,
 lists searched and relinked (nrc-mac80211.c).  The methods are proved to do to the bytes
 and lists what VendorStore says, so its map and replay results hold of this code.
 */
module VendorBuffers {
  import opened Common
  import opened VendorElements
  import opened VendorStore

  /** The bytes once the first n from src on have been copied down to dst. */
  function Moved(all: seq<Byte>, dst: nat, src: nat, n: nat): (r: seq<Byte>)
    requires dst <= src && src + n <= |all|
    ensures |r| == |all|
  {
    all[..dst] + all[src..src + n] + all[dst + n..]
  }

  lemma MoveStep(all: seq<Byte>, dst: nat, src: nat, i: nat)
    requires dst <= src && src + i < |all|
    ensures var m := Moved(all, dst, src, i); m[dst + i := m[src + i]] == Moved(all, dst, src, i + 1)
  {
    var m, after := Moved(all, dst, src, i), Moved(all, dst, src, i + 1);
    assert m[src + i] == all[src + i];
    forall k | 0 <= k < |all|
      ensures m[dst + i := m[src + i]][k] == after[k]
    {
    }
  }

  /** The data area of a socket buffer. */
  class Skb {
    const data: array<Byte>
    var len: nat

    ghost predicate Valid()
      reads this
    {
      len <= data.Length
    }

    ghost function Contents(): seq<Byte>
      requires Valid()
      reads this, data
    {
      data[..len]
    }

    constructor (capacity: nat)
      ensures Valid() && Contents() == [] && data.Length == capacity && fresh(data)
    {
      data := new Byte[capacity](_ => 0);
      len := 0;
    }

    /** memmove toward the front */
    method MoveDown(dst: nat, src: nat, n: nat)
      requires dst <= src && src + n <= data.Length
      modifies data
      ensures data[..] == Moved(old(data[..]), dst, src, n)
    {
      ghost var all := data[..];
      var i := 0;
      while i < n
        invariant i <= n && data[..] == Moved(all, dst, src, i)
      {
        MoveStep(all, dst, src, i);
        ghost var before := data[..];
        data[dst + i] := data[src + i];
        assert data[..] == before[dst + i := before[src + i]];
        i := i + 1;
      }
    }

    /** The memmove over a gap at pos, and skb_trim. */
    method CloseGap(pos: nat, gap: nat)
      requires Valid() && pos + gap <= len
      modifies this`len, data
      ensures Valid() && Contents() == old(Contents())[..pos] + old(Contents())[pos + gap..]
    {
      ghost var all := data[..];
      MoveDown(pos, pos + gap, len - pos - gap);
      MovedIsCut(all, len, pos, gap);
      len := len - gap;
    }

    /** The search, memmove and trim of nrc_vendor_remove. */
    method RemoveElement(subcmd: Byte) returns (found: bool)
      requires Valid()
      modifies this`len, data
      ensures Valid()
      ensures found == old(Present(Contents(), subcmd))
      ensures Contents() == RemoveBytes(old(Contents()), subcmd)
    {
      var r := FindVendorIe(data[..len], subcmd, 0);
      found := r != None;
      if found {
        var n: int := data[r.value + 1];
        CloseGap(r.value, n + 2);
      }
    }

    /** The same, seen as a list of elements. */
    method RemoveFrom(ghost es: seq<Elem>, subcmd: Byte) returns (found: bool)
      requires Valid() && AllValid(es) && Contents() == Encode(es)
      modifies this`len, data
      ensures Valid() && AllValid(Drop(es, subcmd)) && Contents() == Encode(Drop(es, subcmd))
      ensures found == (Lookup(es, subcmd) != None)
    {
      RemoveFromEncoding(es, subcmd);
      found := RemoveElement(subcmd);
    }

    /** memcpy of the payload */
    method CopyIn(at: nat, payload: seq<Byte>)
      requires at + |payload| <= data.Length
      modifies data
      ensures data[..at + |payload|] == old(data[..at]) + payload
    {
      var i := 0;
      while i < |payload|
        invariant i <= |payload|
        invariant data[..at + i] == old(data[..at]) + payload[..i]
      {
        data[at + i] := payload[i];
        assert data[..at + i + 1] == data[..at + i] + [payload[i]];
        i := i + 1;
      }
      assert payload[..i] == payload;
    }

    /** skb_put and the byte stores of nrc_vendor_update. */
    method AppendElement(subcmd: Byte, payload: seq<Byte>)
      requires Valid() && Elem(subcmd, payload).Valid() && len + HEADER + |payload| <= data.Length
      modifies this`len, data
      ensures Valid() && Contents() == old(Contents()) + EncodeElem(Elem(subcmd, payload))
      ensures Contents() == old(Contents()) + [221, |payload| + 4, 0xFC, 0xFF, 0xAA, subcmd] + payload
    {
      ghost var before := Contents();
      var pos := len;
      len := len + HEADER + |payload|;
      data[pos], data[pos + 1] := EID_VENDOR_SPECIFIC, |payload| + 4;
      data[pos + 2], data[pos + 3], data[pos + 4], data[pos + 5] := 0xFC, 0xFF, 0xAA, subcmd;
      assert data[..pos + HEADER] == before + EncodeElem(Elem(subcmd, payload))[..HEADER];
      CopyIn(pos + HEADER, payload);
    }
  }

  /** What is left in front of the new length after closing the gap at pos. */
  lemma MovedIsCut(all: seq<Byte>, len: nat, pos: nat, gap: nat)
    requires pos + gap <= len <= |all|
    ensures (all[..pos] + all[pos + gap..len] + all[len - gap..])[..len - gap] ==
            all[..len][..pos] + all[..len][pos + gap..]
  {
    var kept := all[..pos] + all[pos + gap..len];
    assert (kept + all[len - gap..])[..len - gap] == kept;
    assert all[..len][..pos] == all[..pos] && all[..len][pos + gap..] == all[pos + gap..len];
  }

  lemma AppendedBytes(es: seq<Elem>, e: Elem)
    requires AllValid(es) && e.Valid()
    ensures AllValid(es + [e]) && Size(es) == |Encode(es)|
    ensures Encode(es + [e]) == Encode(es) + EncodeElem(e)
  {
    SizeIsEncodedLength(es);
    EncodeAppend(es, [e]);
    assert Encode([e]) == EncodeElem(e) + Encode([]);
  }

  /** The four buffers, the backup lists, and the abstract store they implement. */
  class Vendor {
    const beacon: Skb
    const probeReq: Skb
    const probeRsp: Skb
    const assocReq: Skb
    const capacity: nat
    var backups: seq<seq<Elem>>
    ghost var store: Store

    ghost function Repr(): set<object>
      reads this
    {
      {this, beacon, probeReq, probeRsp, assocReq, beacon.data, probeReq.data, probeRsp.data, assocReq.data}
    }

    ghost predicate Separate()
      reads this
    {
      && beacon != probeReq && beacon != probeRsp && beacon != assocReq
      && probeReq != probeRsp && probeReq != assocReq && probeRsp != assocReq
      && beacon.data != probeReq.data && beacon.data != probeRsp.data && beacon.data != assocReq.data
      && probeReq.data != probeRsp.data && probeReq.data != assocReq.data && probeRsp.data != assocReq.data
    }

    /** The buffer holds the encoding of the list. */
    ghost predicate Implements(b: Skb, es: seq<Elem>)
      reads this, b, b.data
    {
      b.Valid() && b.data.Length == capacity && AllValid(es) && b.Contents() == Encode(es)
    }

    ghost predicate Valid()
      reads this, Repr()
    {
      && WellFormed(capacity, store) && backups == store.backups && Separate()
      && Implements(beacon, store.bufs[0]) && Implements(probeReq, store.bufs[1])
      && Implements(probeRsp, store.bufs[2]) && Implements(assocReq, store.bufs[3])
    }

    /** The bytes that beacons, probe requests, probe responses and association requests carry. */
    ghost function Carried(): seq<seq<Byte>>
      requires Valid()
      reads this, Repr()
    {
      [beacon.Contents(), probeReq.Contents(), probeRsp.Contents(), assocReq.Contents()]
    }

    constructor (cap: nat)
      ensures Valid() && Empty(store) && capacity == cap && fresh(Repr())
    {
      capacity := cap;
      beacon := new Skb(cap);
      probeReq := new Skb(cap);
      probeRsp := new Skb(cap);
      assocReq := new Skb(cap);
      backups := [[], []];
      store := Store([[], [], [], []], [[], []], false);
      new;
      EmptyIsWellFormed(cap, store);
    }

    /** The choice of buffer in nrc_vendor_update and nrc_vendor_remove. */
    function Select(subcmd: Byte): Skb
      reads this
    {
      match BufferOf(subcmd)
      case 0 => beacon
      case 1 => probeReq
      case 2 => probeRsp
      case _ => assocReq
    }

    /** The work of nrc_vendor_remove, on the buffer of the subcommand. */
    method TakeOut(subcmd: Byte) returns (found: bool)
      requires Valid() && Known(subcmd)
      modifies Select(subcmd), Select(subcmd).data, this`store
      ensures Valid()
      ensures found == (old(Get(store, subcmd)) != None)
      ensures store == old(VendorRemove(store, subcmd))
    {
      ghost var es := store.bufs[BufferOf(subcmd)];
      RemoveIsMapRemoval(capacity, store, subcmd);
      var b := Select(subcmd);
      assert Implements(b, es);
      found := b.RemoveFrom(es, subcmd);
      store := VendorRemove(store, subcmd);
    }

    /** nrc_vendor_remove */
    method Remove(subcmd: Byte) returns (found: bool)
      requires Valid() && Known(subcmd)
      modifies Select(subcmd), Select(subcmd).data, this`store
      ensures Valid()
      ensures found == (old(Get(store, subcmd)) != None)
      ensures store == old(VendorRemove(store, subcmd))
      ensures var k :=
          if subcmd <= 11 || subcmd == 27 then 0 else if subcmd <= 16 then 1 else if subcmd <= 21 then 2 else 3;
        Carried() == old(Carried())[k := RemoveBytes(old(Carried())[k], subcmd)]
    {
      FrameOfSubcommand(subcmd);
      RemoveChangesFrame(store, subcmd);
      found := TakeOut(subcmd);
    }

    /** The second half of nrc_vendor_update: append the element to its buffer. */
    method Append(subcmd: Byte, payload: seq<Byte>)
      requires Valid() && Known(subcmd) && DataOk(payload)
      requires Size(store.bufs[BufferOf(subcmd)]) + HEADER + |payload| <= capacity
      requires WellFormed(capacity, Appended(store, Elem(subcmd, payload)))
      modifies Select(subcmd), Select(subcmd).data, this`store
      ensures Valid() && store == Appended(old(store), Elem(subcmd, payload))
    {
      ghost var es, e := store.bufs[BufferOf(subcmd)], Elem(subcmd, payload);
      AppendedBytes(es, e);
      var b := Select(subcmd);
      assert Implements(b, es);
      b.AppendElement(subcmd, payload);
      assert b.Contents() == Encode(es + [e]);
      store := Appended(store, e);
    }

    /** nrc_vendor_update once the data is found to be of a possible length. */
    method Replace(subcmd: Byte, payload: seq<Byte>) returns (r: Result)
      requires Valid() && Known(subcmd) && DataOk(payload)
      modifies Select(subcmd), Select(subcmd).data, this`store
      ensures Valid()
      ensures r == old(UpdateResult(capacity, store, subcmd, payload))
      ensures store == old(VendorUpdate(capacity, store, subcmd, payload))
    {
      UpdateIsMapUpdate(capacity, store, subcmd, payload);
      var _ := TakeOut(subcmd);
      SizeIsEncodedLength(store.bufs[BufferOf(subcmd)]);
      if Select(subcmd).len + HEADER + |payload| > Select(subcmd).data.Length {
        store := store.(dead := true);
        return Overrun;
      }
      Append(subcmd, payload);
      return Done;
    }

    /** nrc_vendor_update */
    method Update(subcmd: Byte, payload: seq<Byte>) returns (r: Result)
      requires Valid() && Known(subcmd)
      modifies Select(subcmd), Select(subcmd).data, this`store
      ensures Valid()
      ensures r == old(UpdateResult(capacity, store, subcmd, payload))
      ensures store == old(VendorUpdate(capacity, store, subcmd, payload))
      ensures r == Invalid <==> |payload| < 1 || |payload| > 251
      ensures r == Invalid ==> Carried() == old(Carried())
      ensures var k :=
          if subcmd <= 11 || subcmd == 27 then 0 else if subcmd <= 16 then 1 else if subcmd <= 21 then 2 else 3;
        var kept := RemoveBytes(old(Carried())[k], subcmd);
        && (r == Overrun ==> |kept| + 6 + |payload| > capacity)
        && (r == Done ==>
              && |kept| + 6 + |payload| <= capacity
              && Carried() == old(Carried())[k := kept + EncodeElem(Elem(subcmd, payload))])
    {
      if |payload| < 1 || |payload| + 4 > 255 {
        return Invalid;
      }
      FrameOfSubcommand(subcmd);
      UpdateChangesFrame(capacity, store, subcmd, payload);
      r := Replace(subcmd, payload);
    }

    /** _nrc_vcmd_backup_del_entry */
    method BackupDelete(vif: nat, subcmd: Byte)
      requires Valid() && vif < VIF_MAX && BackedUp(subcmd)
      modifies this`backups, this`store
      ensures Valid() && store == old(BackupRemove(store, vif, subcmd))
    {
      BackupStaysOk(capacity, store, vif, subcmd, [0]);
      store := BackupRemove(store, vif, subcmd);
      var list := backups[vif];
      var k := 0;
      while k < |list| && list[k].subcmd != subcmd
        invariant k <= |list|
        invariant KeyIndex(list, subcmd) == k + KeyIndex(list[k..], subcmd)
      {
        assert list[k..][1..] == list[k + 1..];
        k := k + 1;
      }
      if k < |list| {
        list := list[..k] + list[k + 1..];
      }
      backups := backups[vif := list];
    }

    /** nrc_vcmd_backup_add_entry */
    method BackupInsert(vif: nat, subcmd: Byte, payload: seq<Byte>)
      requires Valid() && vif < VIF_MAX && DataOk(payload)
      modifies this`backups, this`store
      ensures Valid() && store == old(BackupAdd(store, vif, subcmd, payload))
    {
      if BackedUp(subcmd) {
        BackupStaysOk(capacity, store, vif, subcmd, payload);
        ghost var after := BackupAdd(store, vif, subcmd, payload);
        BackupDelete(vif, subcmd);
        backups := backups[vif := backups[vif] + [Elem(subcmd, payload)]];
        store := after;
      }
    }

    /** nrc_vendor_cmd_append */
    method CommandAppend(vif: nat, subcmd: Byte, payload: seq<Byte>) returns (r: Result)
      requires Valid() && Known(subcmd) && vif < VIF_MAX
      modifies Select(subcmd), Select(subcmd).data, this`store, this`backups
      ensures Valid()
      ensures r == old(UpdateResult(capacity, store, subcmd, payload))
      ensures store == old(CmdAppend(capacity, store, vif, subcmd, payload))
      ensures backups == if r == Done && Recorded(subcmd)
                         then old(backups)[vif := Others(old(backups[vif]), subcmd) + [Elem(subcmd, payload)]]
                         else old(backups)
      ensures r == Invalid ==> Carried() == old(Carried())
      ensures var k :=
          if subcmd <= 11 || subcmd == 27 then 0 else if subcmd <= 16 then 1 else if subcmd <= 21 then 2 else 3;
        r == Done ==> Carried() == old(Carried())[k := RemoveBytes(old(Carried())[k], subcmd)
                                                       + EncodeElem(Elem(subcmd, payload))]
    {
      AppendIsRecorded(capacity, store, vif, subcmd, payload);
      r := Update(subcmd, payload);
      if r == Done {
        BackupInsert(vif, subcmd, payload);
      }
    }

    /** nrc_vendor_cmd_remove */
    method CommandRemove(vif: nat, subcmd: Byte) returns (found: bool)
      requires Valid() && Known(subcmd) && vif < VIF_MAX
      modifies Select(subcmd), Select(subcmd).data, this`store, this`backups
      ensures Valid()
      ensures found == (old(Get(store, subcmd)) != None)
      ensures store == old(CmdRemove(store, vif, subcmd))
      ensures backups == if found && Recorded(subcmd)
                         then old(backups)[vif := Others(old(backups[vif]), subcmd)]
                         else old(backups)
      ensures var k :=
          if subcmd <= 11 || subcmd == 27 then 0 else if subcmd <= 16 then 1 else if subcmd <= 21 then 2 else 3;
        Carried() == old(Carried())[k := RemoveBytes(old(Carried())[k], subcmd)]
    {
      RemovalIsRecorded(capacity, store, vif, subcmd);
      ghost var before := store;
      found := Remove(subcmd);
      if found && BackedUp(subcmd) {
        BackupDelete(vif, subcmd);
      }
      if !found {
        NothingRemoved(capacity, before, subcmd);
      }
    }

    /** One round of nrc_vcmd_backup_reinstall's loop; false when the update stopped the kernel. */
    method ReinstallEntry(vif: nat, k: nat) returns (alive: bool)
      requires Valid() && vif < VIF_MAX && k < |backups[vif]| && !store.dead
      modifies Repr()
      ensures Valid() && backups == old(backups) && store.backups == old(store.backups)
      ensures alive ==> !store.dead
      ensures alive ==>
                Replay(capacity, store, backups[vif][k + 1..]) == old(Replay(capacity, store, backups[vif][k..]))
      ensures !alive ==> store == old(Replay(capacity, store, backups[vif][k..]))
    {
      var e := backups[vif][k];
      ghost var before := store;
      ReplayOne(capacity, before, vif, k);
      assert {Select(e.subcmd), Select(e.subcmd).data} <= Repr();
      var r := Update(e.subcmd, e.data);
      assert store == VendorUpdate(capacity, before, e.subcmd, e.data);
      alive := r != Overrun;
    }

    /** nrc_vcmd_backup_reinstall */
    method ReinstallAll(vif: nat)
      requires Valid() && vif < VIF_MAX && !store.dead
      modifies Repr()
      ensures Valid() && backups == old(backups)
      ensures store == old(Replay(capacity, store, store.backups[vif]))
    {
      var list := backups[vif];
      var k := 0;
      ghost var s0 := store;
      assert list[0..] == list;
      while k < |list|
        invariant k <= |list| && Valid() && list == store.backups[vif] && backups == old(backups) && !store.dead
        invariant Replay(capacity, store, list[k..]) == Replay(capacity, s0, list)
      {
        var alive := ReinstallEntry(vif, k);
        if !alive {
          return;
        }
        k := k + 1;
      }
    }
  }

  predicate Encodable(s: Store) {
    |s.bufs| == BUFFERS && forall i :: 0 <= i < BUFFERS ==> AllValid(s.bufs[i])
  }

  /** The encodings of the four lists. */
  ghost function Encodings(s: Store): seq<seq<Byte>>
    requires Encodable(s)
  {
    [Encode(s.bufs[0]), Encode(s.bufs[1]), Encode(s.bufs[2]), Encode(s.bufs[3])]
  }

  /** Beacons carry subcommands 0 to 11 and 27, probe requests 12 to 16, and so on. */
  lemma FrameOfSubcommand(subcmd: Byte)
    requires subcmd <= 27
    ensures BufferOf(subcmd) ==
            if subcmd <= 11 || subcmd == 27 then 0 else if subcmd <= 16 then 1 else if subcmd <= 21 then 2 else 3
  {
  }

  lemma EncodingsUpdate(s: Store, b: nat, es: seq<Elem>)
    requires Encodable(s) && b < BUFFERS && AllValid(es)
    ensures var t := s.(bufs := s.bufs[b := es]); Encodable(t) && Encodings(t) == Encodings(s)[b := Encode(es)]
  {
  }

  /** A removal cuts the element out of the one frame that carries it. */
  lemma RemoveChangesFrame(s: Store, subcmd: Byte)
    requires Encodable(s)
    ensures var b, v := BufferOf(subcmd), VendorRemove(s, subcmd);
      Encodable(v) && Encodings(v) == Encodings(s)[b := RemoveBytes(Encodings(s)[b], subcmd)]
  {
    var b := BufferOf(subcmd);
    RemoveFromEncoding(s.bufs[b], subcmd);
    EncodingsUpdate(s, b, Drop(s.bufs[b], subcmd));
  }

  lemma AppendChangesFrame(v: Store, e: Elem)
    requires Encodable(v) && e.Valid()
    ensures var b, a := BufferOf(e.subcmd), Appended(v, e);
      Encodable(a) && Encodings(a) == Encodings(v)[b := Encodings(v)[b] + EncodeElem(e)]
  {
    var b := BufferOf(e.subcmd);
    AppendedBytes(v.bufs[b], e);
    EncodingsUpdate(v, b, v.bufs[b] + [e]);
  }

  /** Whether the new element fits, once the old one is gone. */
  lemma UpdateFits(cap: nat, s: Store, subcmd: Byte, payload: seq<Byte>)
    requires Encodable(s) && 1 <= |payload| <= 251
    ensures var kept := RemoveBytes(Encodings(s)[BufferOf(subcmd)], subcmd);
      UpdateResult(cap, s, subcmd, payload) == if |kept| + 6 + |payload| <= cap then Done else Overrun
  {
    var es := s.bufs[BufferOf(subcmd)];
    RemoveFromEncoding(es, subcmd);
    SizeIsEncodedLength(Drop(es, subcmd));
  }

  /** An update also appends the new element there, if it fits. */
  lemma UpdateChangesFrame(cap: nat, s: Store, subcmd: Byte, payload: seq<Byte>)
    requires Encodable(s) && 1 <= |payload| <= 251
    ensures var b, u := BufferOf(subcmd), VendorUpdate(cap, s, subcmd, payload);
      var kept := RemoveBytes(Encodings(s)[b], subcmd);
      && Encodable(u)
      && UpdateResult(cap, s, subcmd, payload) == (if |kept| + 6 + |payload| <= cap then Done else Overrun)
      && (|kept| + 6 + |payload| <= cap ==>
            Encodings(u) == Encodings(s)[b := kept + EncodeElem(Elem(subcmd, payload))])
  {
    var b, e := BufferOf(subcmd), Elem(subcmd, payload);
    UpdateFits(cap, s, subcmd, payload);
    var v := VendorRemove(s, subcmd);
    RemoveChangesFrame(s, subcmd);
    if UpdateResult(cap, s, subcmd, payload) == Done {
      AppendChangesFrame(v, e);
      var kept := RemoveBytes(Encodings(s)[b], subcmd);
      SetTwice(Encodings(s), b, kept, kept + EncodeElem(e));
      assert VendorUpdate(cap, s, subcmd, payload) == Appended(v, e);
    }
  }

  lemma SetTwice(a: seq<seq<Byte>>, b: nat, x: seq<Byte>, y: seq<Byte>)
    requires b < |a|
    ensures a[b := x][b] == x && a[b := x][b := y] == a[b := y]
  {
  }

  function Appended(s: Store, e: Elem): Store
    requires |s.bufs| == BUFFERS
  {
    s.(bufs := s.bufs[BufferOf(e.subcmd) := s.bufs[BufferOf(e.subcmd)] + [e]])
  }

  lemma EmptyIsWellFormed(cap: nat, s: Store)
    requires Empty(s)
    ensures WellFormed(cap, s)
  {
  }

  /** The replay takes one pair at a time and stops at an overrun. */
  lemma ReplayOne(cap: nat, s: Store, vif: nat, k: nat)
    requires WellFormed(cap, s) && vif < VIF_MAX && k < |s.backups[vif]| && !s.dead
    ensures var list := s.backups[vif];
            var u := VendorUpdate(cap, s, list[k].subcmd, list[k].data);
            && Known(list[k].subcmd)
            && Replay(cap, s, list[k..]) == Replay(cap, u, list[k + 1..])
            && u.backups == s.backups
            && (UpdateResult(cap, s, list[k].subcmd, list[k].data) == Overrun ==> Replay(cap, s, list[k..]) == u)
            && (UpdateResult(cap, s, list[k].subcmd, list[k].data) != Overrun ==> !u.dead)
  {
    var list := s.backups[vif];
    assert BackupOk(list) && list[k] in list;
    assert list[k..][0] == list[k] && list[k..][1..] == list[k + 1..];
  }

  lemma RemoveFromEncoding(es: seq<Elem>, subcmd: Byte)
    requires AllValid(es)
    ensures AllValid(Drop(es, subcmd))
    ensures Present(Encode(es), subcmd) == (KeyIndex(es, subcmd) < |es|)
    ensures Encode(Drop(es, subcmd)) == RemoveBytes(Encode(es), subcmd)
  {
    FindInEncoding(es, subcmd);
    OffsetIsPrefix(es, subcmd);
    if KeyIndex(es, subcmd) < |es| {
      CutIsWithout(es, KeyIndex(es, subcmd));
    }
  }

  lemma NothingRemoved(cap: nat, s: Store, subcmd: Byte)
    requires WellFormed(cap, s) && Known(subcmd) && Get(s, subcmd) == None
    ensures VendorRemove(s, subcmd) == s
  {
  }
}
