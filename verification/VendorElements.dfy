/**
 Concatenated vendor-specific elements (section 9.4.2.25 of IEEE Std 802.11-2020) as the
 driver keeps them in its buffers (nrc-mac80211.c).
 */
module VendorElements {
  import opened Common

  const EID_VENDOR_SPECIFIC: Byte := 221
  /** Element id, length, three OUI octets, subcommand. */
  const HEADER: nat := 6
  const MAX_DATA: nat := 251

  datatype Elem = Elem(subcmd: Byte, data: seq<Byte>)
  {
    predicate Valid() {
      1 <= |data| <= MAX_DATA
    }
  }

  predicate AllValid(es: seq<Elem>) {
    forall e | e in es :: e.Valid()
  }

  function EncodeElem(e: Elem): (b: seq<Byte>)
    requires e.Valid()
    ensures |b| == HEADER + |e.data|
  {
    [EID_VENDOR_SPECIFIC, |e.data| + 4, 0xFC, 0xFF, 0xAA, e.subcmd] + e.data
  }

  function Encode(es: seq<Elem>): seq<Byte>
    requires AllValid(es)
  {
    if es == [] then [] else EncodeElem(es[0]) + Encode(es[1..])
  }

  /** An element with the driver's OUI and the given subcommand starts at i. */
  predicate MatchesAt(b: seq<Byte>, i: nat, subcmd: Byte)
    requires i + 2 <= |b| && i + 2 + b[i + 1] <= |b|
  {
    b[i] == EID_VENDOR_SPECIFIC && b[i + 1] >= 4 &&
    b[i + 2] == 0xFC && b[i + 3] == 0xFF && b[i + 4] == 0xAA && b[i + 5] == subcmd
  }

  /** cfg80211_find_vendor_ie from offset i: the first complete element that matches. */
  function FindVendorIe(b: seq<Byte>, subcmd: Byte, i: nat): (r: Option<nat>)
    ensures r.Some? ==> i <= r.value && r.value + 2 <= |b| && r.value + 2 + b[r.value + 1] <= |b|
    decreases |b| - i
  {
    if i + 2 > |b| || i + 2 + b[i + 1] > |b| then None
    else if MatchesAt(b, i, subcmd) then Some(i)
    else FindVendorIe(b, subcmd, i + 2 + b[i + 1])
  }

  /** Reading the elements back; None when the buffer is not a sequence of them. */
  function Decode(b: seq<Byte>): Option<seq<Elem>>
    decreases |b|
  {
    if b == [] then Some([])
    else if |b| < HEADER || b[0] != EID_VENDOR_SPECIFIC
            || b[2] != 0xFC || b[3] != 0xFF || b[4] != 0xAA then None
    else
      var end: int := (b[1] as int) + 2;
      if end <= HEADER || |b| < end then None
      else
        match Decode(b[end..])
        case None => None
        case Some(es) => Some([Elem(b[5], b[HEADER..end])] + es)
  }

  predicate Present(b: seq<Byte>, subcmd: Byte) {
    FindVendorIe(b, subcmd, 0) != None
  }

  /** What nrc_vendor_remove leaves of the buffer. */
  function RemoveBytes(b: seq<Byte>, subcmd: Byte): seq<Byte> {
    var r := FindVendorIe(b, subcmd, 0);
    if r == None then b else CutElement(b, r.value)
  }

  lemma DecodeCons(e: Elem, tail: seq<Byte>)
    requires e.Valid()
    ensures Decode(EncodeElem(e) + tail) ==
            match Decode(tail) case None => None case Some(es) => Some([e] + es)
  {
    var b := EncodeElem(e) + tail;
    assert b[..HEADER] == EncodeElem(e)[..HEADER];
    assert b[0] == EID_VENDOR_SPECIFIC && b[1] == |e.data| + 4 && b[2] == 0xFC && b[3] == 0xFF && b[4] == 0xAA
           && b[5] == e.subcmd;
    assert b[HEADER..HEADER + |e.data|] == e.data;
    assert b[HEADER + |e.data|..] == tail;
  }

  lemma {:induction false} DecodeEncode(es: seq<Elem>)
    requires AllValid(es)
    ensures Decode(Encode(es)) == Some(es)
  {
    if es != [] {
      DecodeCons(es[0], Encode(es[1..]));
      DecodeEncode(es[1..]);
      assert es == [es[0]] + es[1..];
    }
  }

  lemma {:induction false} EncodeAppend(a: seq<Elem>, b: seq<Elem>)
    requires AllValid(a) && AllValid(b)
    ensures AllValid(a + b) && Encode(a + b) == Encode(a) + Encode(b)
  {
    if a == [] {
      assert a + b == b;
    } else {
      assert (a + b)[1..] == a[1..] + b;
      EncodeAppend(a[1..], b);
    }
  }

  /** Position of the first element with the subcommand, or the length. */
  function KeyIndex(es: seq<Elem>, subcmd: Byte): (k: nat)
    ensures k <= |es|
    ensures k < |es| ==> es[k].subcmd == subcmd
    ensures forall j | 0 <= j < k :: es[j].subcmd != subcmd
  {
    if es == [] || es[0].subcmd == subcmd then 0 else 1 + KeyIndex(es[1..], subcmd)
  }

  function Without(es: seq<Elem>, k: nat): seq<Elem>
    requires k < |es|
  {
    es[..k] + es[k + 1..]
  }

  /** The buffer after nrc_vendor_remove's memmove and trim. */
  function CutElement(b: seq<Byte>, pos: nat): seq<Byte>
    requires pos + 2 <= |b| && pos + 2 + b[pos + 1] <= |b|
  {
    b[..pos] + b[pos + 2 + b[pos + 1]..]
  }

  /** Where the first element with the subcommand starts in the encoding. */
  function OffsetOf(es: seq<Elem>, subcmd: Byte): Option<nat> {
    if es == [] then None
    else if es[0].subcmd == subcmd then Some(0)
    else
      var r := OffsetOf(es[1..], subcmd);
      if r.Some? then Some(HEADER + |es[0].data| + r.value) else None
  }

  lemma {:induction false} OffsetIsPrefix(es: seq<Elem>, subcmd: Byte)
    requires AllValid(es)
    ensures var k := KeyIndex(es, subcmd);
            AllValid(es[..k]) && OffsetOf(es, subcmd) == if k < |es| then Some(|Encode(es[..k])|) else None
  {
    if es != [] && es[0].subcmd != subcmd {
      OffsetIsPrefix(es[1..], subcmd);
      EncodePrefix(es, KeyIndex(es, subcmd));
    }
  }

  lemma SkipElement(b: seq<Byte>, off: nat, es: seq<Elem>)
    requires AllValid(es) && es != [] && off <= |b| && b[off..] == Encode(es)
    ensures AllValid(es[1..]) && EncodeElem(es[0]) <= b[off..]
    ensures off + HEADER + |es[0].data| <= |b| && b[off + HEADER + |es[0].data|..] == Encode(es[1..])
  {
    var n := HEADER + |es[0].data|;
    assert b[off + n..] == b[off..][n..];
  }

  /** The elements follow one another from off to the end of b. */
  predicate Laid(b: seq<Byte>, off: nat, es: seq<Elem>)
    decreases |es|
  {
    if es == [] then off == |b|
    else
      var n := HEADER + |es[0].data|;
      && off + n <= |b| && n - 2 < 256 && b[off + 1] == n - 2
      && MatchesAt(b, off, es[0].subcmd)
      && Laid(b, off + n, es[1..])
  }

  lemma {:induction false} EncodingIsLaid(b: seq<Byte>, off: nat, es: seq<Elem>)
    requires AllValid(es) && off <= |b| && b[off..] == Encode(es)
    ensures Laid(b, off, es)
    decreases |es|
  {
    if es != [] {
      SkipElement(b, off, es);
      HeaderAt(b, off, es[0]);
      EncodingIsLaid(b, off + HEADER + |es[0].data|, es[1..]);
    }
  }

  lemma {:induction false} FindLaid(b: seq<Byte>, off: nat, es: seq<Elem>, subcmd: Byte)
    requires Laid(b, off, es)
    ensures FindVendorIe(b, subcmd, off) ==
            var r := OffsetOf(es, subcmd); if r.Some? then Some(off + r.value) else None
    decreases |es|
  {
    if es != [] && es[0].subcmd != subcmd {
      FindLaid(b, off + HEADER + |es[0].data|, es[1..], subcmd);
    }
  }

  /** The search over the bytes finds the first element with the subcommand. */
  lemma FindInEncoding(es: seq<Elem>, subcmd: Byte)
    requires AllValid(es)
    ensures FindVendorIe(Encode(es), subcmd, 0) == OffsetOf(es, subcmd)
  {
    var b := Encode(es);
    assert b[0..] == b;
    EncodingIsLaid(b, 0, es);
    FindLaid(b, 0, es, subcmd);
  }

  lemma EncodePrefix(es: seq<Elem>, k: nat)
    requires AllValid(es) && 0 < k <= |es|
    ensures AllValid(es[..k]) && AllValid(es[1..][..k - 1])
    ensures |Encode(es[..k])| == |EncodeElem(es[0])| + |Encode(es[1..][..k - 1])|
  {
    assert es[..k][1..] == es[1..][..k - 1];
  }

  lemma HeaderAt(b: seq<Byte>, off: nat, e: Elem)
    requires e.Valid() && off <= |b| && EncodeElem(e) <= b[off..]
    ensures off + |EncodeElem(e)| <= |b|
    ensures b[off] == EID_VENDOR_SPECIFIC && b[off + 1] == |e.data| + 4
    ensures b[off + 2] == 0xFC && b[off + 3] == 0xFF && b[off + 4] == 0xAA && b[off + 5] == e.subcmd
  {
    forall i | 0 <= i < HEADER
      ensures b[off + i] == EncodeElem(e)[i]
    {
      assert b[off..][i] == b[off + i];
    }
  }

  lemma SplitEncoding(es: seq<Elem>, k: nat)
    requires AllValid(es) && k < |es|
    ensures AllValid(es[..k]) && AllValid(es[k + 1..])
    ensures Encode(es) == Encode(es[..k]) + EncodeElem(es[k]) + Encode(es[k + 1..])
  {
    var front, back := es[..k], es[k..];
    assert es == front + back;
    EncodeAppend(front, back);
    assert back[1..] == es[k + 1..];
  }

  /** Cutting the k-th element out of the bytes is removing it from the list. */
  lemma CutIsWithout(es: seq<Elem>, k: nat)
    requires AllValid(es) && k < |es|
    ensures AllValid(es[..k]) && AllValid(Without(es, k))
    ensures var b, pos := Encode(es), |Encode(es[..k])|;
            && pos + 2 <= |b| && b[pos + 1] == |es[k].data| + 4 && pos + 2 + b[pos + 1] <= |b|
            && CutElement(b, pos) == Encode(Without(es, k))
  {
    SplitEncoding(es, k);
    EncodeAppend(es[..k], es[k + 1..]);
    CutMiddle(Encode(es[..k]), es[k], Encode(es[k + 1..]));
  }

  lemma CutMiddle(front: seq<Byte>, e: Elem, back: seq<Byte>)
    requires e.Valid()
    ensures var b, pos := front + EncodeElem(e) + back, |front|;
            pos + 2 + b[pos + 1] <= |b| && b[pos + 1] == |e.data| + 4 && CutElement(b, pos) == front + back
  {
    var b, pos := front + EncodeElem(e) + back, |front|;
    assert b[pos..] == EncodeElem(e) + back;
    HeaderAt(b, pos, e);
    assert b[..pos] == front;
    assert b[pos + HEADER + |e.data|..] == back;
  }
}
