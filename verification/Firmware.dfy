/**
 Firmware download in fragments (nrc-fw.c): the loop over the image, and what a target
 that writes every payload at its address ends up with.
 */
module Firmware {
  import opened Arith
  import opened Common

  const FRAG_BYTES: nat := 1008
  const FW_START_ADDR: nat := 0x10400000

  /** struct fw_frag without its padding; the length field is |payload|. */
  datatype Frag = Frag(eof: bool, address: nat, payload: seq<Byte>, checksum: nat)

  function ByteSum(b: seq<Byte>): nat {
    if b == [] then 0 else ByteSum(b[..|b| - 1]) + b[|b| - 1]
  }

  /** The sum is zero for no bytes, the byte for one, and adds up. */
  lemma {:induction false} ByteSumAdds(a: seq<Byte>, b: seq<Byte>, x: Byte)
    ensures ByteSum([]) == 0 && ByteSum([x]) == x as int && ByteSum(a + b) == ByteSum(a) + ByteSum(b)
  {
    assert [x][..0] == [];
    if b == [] {
      assert a + b == a;
    } else {
      assert (a + b)[..|a + b| - 1] == a + b[..|b| - 1];
      ByteSumAdds(a, b[..|b| - 1], x);
    }
  }

  // ---- the fragments of an image ------------------------------------------------------------

  function Chunks(size: nat): nat {
    DivRoundUp(size, FRAG_BYTES)
  }

  /** Where chunk k starts, or the end of the image. */
  function Start(size: nat, k: nat): (p: nat)
    ensures p <= size
  {
    Min(1008 * k, size)
  }

  /** The k-th fragment of an image. */
  function FragOf(image: seq<Byte>, k: nat): Frag {
    var start, end := Start(|image|, k), Start(|image|, k + 1);
    var payload := if start <= end then image[start..end] else [];
    Frag(k + 1 == Chunks(|image|), FW_START_ADDR + start, payload, ByteSum(payload))
  }

  predicate AreFirst(image: seq<Byte>, frags: seq<Frag>) {
    forall k: nat :: k < |frags| ==> frags[k] == FragOf(image, k)
  }

  lemma Extends(image: seq<Byte>, frags: seq<Frag>, frag: Frag)
    requires AreFirst(image, frags) && frag == FragOf(image, |frags|)
    ensures AreFirst(image, frags + [frag])
  {
  }

  predicate IsDownload(image: seq<Byte>, frags: seq<Frag>) {
    |frags| == Chunks(|image|) && AreFirst(image, frags)
  }

  // ---- the download loop ----------------------------------------------------------------------

  class Downloader {
    const image: seq<Byte>
    var numChunks: nat
    var curChunk: nat
    var dataPos: nat
    var remainBytes: int
    var hdrAddress: nat
    var hdrLen: nat
    var index: nat

    /** Set up by nrc_download_fw. */
    constructor (fw: seq<Byte>)
      requires 0 < |fw| < 0x8000_0000
      ensures image == fw && AtChunk(0)
    {
      image := fw;
      numChunks := DivRoundUp(|fw|, FRAG_BYTES);
      curChunk, dataPos, remainBytes, index := 0, 0, |fw|, 0;
      hdrAddress, hdrLen := 0, 0;
    }

    /** Before fragment k is filled in. */
    ghost predicate AtChunk(k: nat)
      reads this
    {
      && 0 < |image| < 0x8000_0000 && numChunks == Chunks(|image|)
      && curChunk == k < numChunks
      && dataPos == 1008 * k && dataPos < |image| && remainBytes == |image| - dataPos
      && index == k % 256
      && (k > 0 ==> hdrAddress + hdrLen == FW_START_ADDR + dataPos)
    }

    /** checksum */
    method Checksum(b: seq<Byte>) returns (sum: nat)
      ensures sum == ByteSum(b)
    {
      sum := 0;
      for i := 0 to |b|
        invariant sum == ByteSum(b[..i])
      {
        assert b[..i + 1][..i] == b[..i];
        sum := sum + b[i];
      }
      assert b[..|b|] == b;
    }

    /** nrc_fw_update_frag */
    method UpdateFrag() returns (frag: Frag)
      requires AtChunk(curChunk)
      modifies this`hdrAddress, this`hdrLen
      ensures frag == FragOf(image, curChunk)
      ensures hdrAddress == FW_START_ADDR + dataPos && hdrLen == Min(FRAG_BYTES, remainBytes)
      ensures hdrAddress + hdrLen < U32
    {
      var eof := curChunk == numChunks - 1;
      if curChunk == 0 {
        hdrAddress := FW_START_ADDR;
      } else {
        hdrAddress := hdrAddress + hdrLen;
      }
      hdrLen := Min(FRAG_BYTES, remainBytes);
      var payload := image[dataPos..dataPos + hdrLen];
      var sum := Checksum(payload);
      frag := Frag(eof, hdrAddress, payload, sum);
    }

    /** nrc_fw_check_next_frag */
    method CheckNextFrag() returns (more: bool)
      requires 0 < |image| < 0x8000_0000 && numChunks == Chunks(|image|) && curChunk < numChunks
      requires dataPos == 1008 * curChunk && dataPos < |image| && remainBytes == |image| - dataPos
      requires index == curChunk % 256
      requires hdrAddress == FW_START_ADDR + dataPos && hdrLen == Min(FRAG_BYTES, remainBytes)
      modifies this`curChunk, this`dataPos, this`remainBytes, this`index
      ensures more == (old(curChunk) + 1 < numChunks)
      ensures more ==> AtChunk(old(curChunk) + 1)
    {
      if curChunk == numChunks - 1 {
        return false;
      }
      curChunk := curChunk + 1;
      dataPos := dataPos + hdrLen;
      remainBytes := remainBytes - hdrLen;
      index := (index + 1) % 256;
      return true;
    }

    /** The do-while loop of nrc_download_fw: one fragment per chunk, and then it ends. */
    method Download() returns (frags: seq<Frag>)
      requires AtChunk(0)
      modifies this
      ensures IsDownload(image, frags)
    {
      frags := [];
      var more := true;
      while more
        invariant |frags| <= numChunks == Chunks(|image|)
        invariant if more then AtChunk(|frags|) else |frags| == numChunks
        invariant AreFirst(image, frags)
        decreases numChunks - |frags|, more
      {
        var frag := UpdateFrag();
        Extends(image, frags, frag);
        frags := frags + [frag];
        more := CheckNextFrag();
      }
    }
  }

  // ---- what arrives -----------------------------------------------------------------------------

  function Payloads(frags: seq<Frag>): seq<Byte> {
    if frags == [] then [] else Payloads(frags[..|frags| - 1]) + frags[|frags| - 1].payload
  }

  lemma {:induction false} PrefixOfImage(image: seq<Byte>, frags: seq<Frag>)
    requires AreFirst(image, frags)
    ensures Payloads(frags) == image[..Start(|image|, |frags|)]
  {
    if frags != [] {
      var n := |frags| - 1;
      PrefixOfImage(image, frags[..n]);
      assert frags[n] == FragOf(image, n);
      Joined(image, Start(|image|, n), Start(|image|, n + 1));
    }
  }

  lemma Joined(image: seq<Byte>, n: nat, end: nat)
    requires n <= end <= |image|
    ensures image[..n] + image[n..end] == image[..end]
  {
  }

  function ByteAt(f: Frag, a: nat): Byte
    requires f.address <= a < f.address + |f.payload|
  {
    f.payload[a - f.address]
  }

  /** The memory of a target that writes a payload at its address. */
  function Write(memory: map<nat, Byte>, f: Frag): map<nat, Byte> {
    memory + (map a: nat | f.address <= a < f.address + |f.payload| :: ByteAt(f, a))
  }

  function Written(memory: map<nat, Byte>, frags: seq<Frag>): map<nat, Byte> {
    if frags == [] then memory else Write(Written(memory, frags[..|frags| - 1]), frags[|frags| - 1])
  }

  /** What is read at an address: -1 where nothing is known. */
  function Peek(m: map<nat, Byte>, a: nat): int {
    if a in m then m[a] else -1
  }

  /** m holds the first n bytes of the image from the start address on, and is memory elsewhere. */
  ghost predicate Holds(m: map<nat, Byte>, memory: map<nat, Byte>, image: seq<Byte>, n: nat) {
    && n <= |image|
    && forall a: nat :: Peek(m, a) ==
         if 0x10400000 <= a < 0x10400000 + n then image[a - 0x10400000] else Peek(memory, a)
  }

  lemma WriteExtends(m: map<nat, Byte>, memory: map<nat, Byte>, image: seq<Byte>, f: Frag, n: nat, end: nat)
    requires n <= end <= |image| && Holds(m, memory, image, n)
    requires f.address == FW_START_ADDR + n && f.payload == image[n..end]
    ensures Holds(Write(m, f), memory, image, end)
  {
    var w := Write(m, f);
    forall a: nat
      ensures Peek(w, a) == if f.address <= a < FW_START_ADDR + end then image[a - FW_START_ADDR] else Peek(m, a)
    {
      if f.address <= a < FW_START_ADDR + end {
        assert w[a] == ByteAt(f, a);
      }
    }
  }

  lemma {:induction false} WrittenPrefix(image: seq<Byte>, frags: seq<Frag>, memory: map<nat, Byte>)
    requires AreFirst(image, frags)
    ensures Holds(Written(memory, frags), memory, image, Start(|image|, |frags|))
  {
    if frags != [] {
      var n := |frags| - 1;
      WrittenPrefix(image, frags[..n], memory);
      assert frags[n] == FragOf(image, n);
      WriteExtends(Written(memory, frags[..n]), memory, image, frags[n], Start(|image|, n), Start(|image|, n + 1));
    }
  }

  /**
   * A download rebuilds the image: contiguously from the start address, touching nothing
   * else, with the payloads in order adding up to the image, none of them empty or longer
   * than a fragment, and exactly the last fragment marked as the end.
   */
  lemma DownloadRebuildsImage(image: seq<Byte>, frags: seq<Frag>, memory: map<nat, Byte>)
    requires 0 < |image| && IsDownload(image, frags)
    ensures Payloads(frags) == image
    ensures Holds(Written(memory, frags), memory, image, |image|)
    ensures frags != [] && forall k :: 0 <= k < |frags| ==> (frags[k].eof <==> k == |frags| - 1)
    ensures forall k :: 0 <= k < |frags| ==> 0 < |frags[k].payload| <= 1008
    ensures forall k :: 0 <= k < |frags| - 1 ==> |frags[k].payload| == 1008
    ensures forall k :: 0 <= k < |frags| ==> frags[k].checksum == ByteSum(frags[k].payload)
  {
    PrefixOfImage(image, frags);
    WrittenPrefix(image, frags, memory);
    assert Start(|image|, |frags|) == |image|;
  }
}
