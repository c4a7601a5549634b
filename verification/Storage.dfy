/** Byte-addressed devices, the codec, and the plain disk that a cache of whole chunks is compared with. */
module Storage {
  import opened Common

  /** The `len` bytes from `from` on. */
  function Bytes(device: Block, from: nat, len: nat): Block {
    if from + len <= |device| then device[from..from + len] else []
  }

  /** Overwrite the bytes from `offset` on. */
  function Patch(device: Block, offset: nat, data: Block): (r: Block)
    ensures |r| == |device|
  {
    if offset + |data| <= |device| then device[..offset] + data + device[offset + |data|..] else device
  }

  lemma PatchAt(device: Block, offset: nat, data: Block)
    requires offset + |data| <= |device|
    ensures var r := Patch(device, offset, data);
            forall i: nat :: i < |r| ==> r[i] == if offset <= i < offset + |data| then data[i - offset] else device[i]
  {
  }

  lemma BytesAt(device: Block, from: nat, len: nat)
    requires from + len <= |device|
    ensures var r := Bytes(device, from, len); |r| == len && forall i: nat :: i < len ==> r[i] == device[from + i]
  {
  }

  /** Bytes that are patched read as the data, and bytes apart from them as before. */
  lemma PatchRead(device: Block, offset: nat, data: Block, from: nat, len: nat)
    requires offset + |data| <= |device|
    ensures Bytes(Patch(device, offset, data), offset, |data|) == data
    ensures from + len <= offset || offset + |data| <= from ==>
              Bytes(Patch(device, offset, data), from, len) == Bytes(device, from, len)
  {
    PatchAt(device, offset, data);
    BytesAt(Patch(device, offset, data), offset, |data|);
    if from + len <= |device| {
      BytesAt(Patch(device, offset, data), from, len);
      BytesAt(device, from, len);
    }
    hide Patch;
  }

  lemma PatchedPart(device: Block, to: nat, data: Block, offset: nat, len: nat)
    requires to + |data| <= |device| && offset + len <= |data|
    ensures Bytes(Patch(device, to, data), to + offset, len) == Bytes(data, offset, len)
  {
    PatchAt(device, to, data);
    BytesAt(Patch(device, to, data), to + offset, len);
    BytesAt(data, offset, len);
    hide Patch, Bytes;
    var r, q := Bytes(Patch(device, to, data), to + offset, len), Bytes(data, offset, len);
    assert forall i: nat :: i < len ==> r[i] == q[i];
  }

  // ----- Compression

  /** An LZ4-like codec; `compress` returns the empty block when it cannot help. */
  datatype Codec = Codec(compress: Block -> Block, decompress: Block -> Block, enabled: bool)

  /** Decompressing what was compressed gives the block back. */
  ghost predicate Inverse(c: Codec) {
    forall b :: c.compress(b) != [] ==> c.decompress(c.compress(b)) == b
  }

  // ----- The plain disk

  function PlainStep(disk: Device, r: Request, chunk: nat): (Device, Option<Block>) {
    match r
    case Read(a) => (disk, Some(ChunkAt(disk, a, chunk)))
    case Write(a, data) => (disk[a := data], None)
  }

  function PlainRun(disk: Device, rs: seq<Request>, chunk: nat): seq<Option<Block>>
    decreases |rs|
  {
    if rs == [] then []
    else [PlainStep(disk, rs[0], chunk).1] + PlainRun(PlainStep(disk, rs[0], chunk).0, rs[1..], chunk)
  }
}
