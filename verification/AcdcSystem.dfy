/**
 The AC-DC cache with its bytes, write-through: content is compressed, cut to the slots it was given, and written to
 the cache device at the location of its first slot; a hit reads back as many slots as the chunk has.  Both use
 buffers whose earlier content shows wherever fewer bytes are written than read.
 */
module AcdcSystem {
  import opened Common
  import opened Storage
  import opened SsdLayout
  import FpTable
  import LbaReferences
  import M = AcdcModel

  datatype Config = Config(index: M.Config, codec: Codec, geometry: Geometry)

  /** The two indexes with the metadata and the primary disk, and the bytes of the cache device. */
  datatype Sys = Sys(m: M.State, cache: Block)

  /** What a request's buffers held before: the caller's, and the one for compressed content. */
  datatype Buffers = Buffers(data: Block, compressed: Block)

  // ----- Compression

  function MaxSubchunks(cfg: Config): nat {
    cfg.index.chunk / cfg.geometry.subchunkSize
  }

  /** A chunk is a whole number of subchunks, at least one. */
  ghost predicate ConfigOk(cfg: Config) {
    && cfg.geometry.Slots() <= WORD
    && SlotAt(MaxSubchunks(cfg), cfg.geometry.subchunkSize) == cfg.index.chunk >= 1
    && CollisionFree(cfg.index.fpOf) && Inverse(cfg.codec) && Sensitive(cfg.codec, cfg.index.chunk)
  }

  /** No proper prefix of a compressed chunk determines the chunk: compressed data ends in literal bytes. */
  ghost predicate Sensitive(c: Codec, chunk: nat) {
    forall w, k: nat :: k < |w| && |c.decompress(w)| == chunk ==> Undetermined(c, w, k)
  }

  ghost predicate Undetermined(c: Codec, w: Block, k: nat) {
    exists v :: AgreesOn(v, w, k) && c.decompress(v) != c.decompress(w)
  }

  ghost predicate AgreesOn(v: Block, w: Block, k: nat) {
    |v| == |w| && forall i :: 0 <= i < k && i < |w| ==> v[i] == w[i]
  }

  /** The compressed content, or nothing when it takes more than three quarters of the chunk. */
  function Packed(cfg: Config, x: Block): Block {
    var z := cfg.codec.compress(x);
    if cfg.codec.enabled && 4 * |z| <= 3 * cfg.index.chunk then z else []
  }

  /** How many slots content needs. */
  function Needed(cfg: Config, x: Block): nat {
    if Packed(cfg, x) == [] then MaxSubchunks(cfg)
    else (|Packed(cfg, x)| + cfg.geometry.subchunkSize - 1) / cfg.geometry.subchunkSize
  }

  /** What is stored: content that needs all subchunks is stored as it is, even if it was compressed. */
  function Form(cfg: Config, x: Block): Block {
    if Needed(cfg, x) == MaxSubchunks(cfg) then x else Packed(cfg, x)
  }

  /** What a hit on all of the content's slots returns: data with a compressed length is decompressed. */
  function Decoded(cfg: Config, x: Block): Block {
    if Packed(cfg, x) == [] then x
    else cfg.codec.decompress(if Needed(cfg, x) == MaxSubchunks(cfg) then Bytes(x, 0, |Packed(cfg, x)|)
                              else Packed(cfg, x))
  }

  // ----- One request

  /** The bytes of the chunk with a fingerprint hash: as many slots as it has. */
  function ReadBytes(cfg: Config, fp: seq<Table>, cache: Block, h: nat): Block {
    var e := M.EntryAt(cfg.index, fp, h);
    if e.None? then []
    else Bytes(cache, CachedataLocation(cfg.geometry, cfg.index.fpBucket(h), e.value),
               SlotAt(M.SlotsAt(cfg.index, fp, h), cfg.geometry.subchunkSize))
  }

  /** What reading those bytes into the request's buffers returns. */
  function Unpacked(cfg: Config, bytes: Block, compressedLen: nat, buf: Buffers): Block {
    if compressedLen == 0 then Patch(buf.data, 0, bytes)
    else cfg.codec.decompress(Bytes(Patch(buf.compressed, 0, bytes), 0, compressedLen))
  }

  function Current(cfg: Config, s: Sys, a: Addr): Block {
    ChunkAt(s.m.primary, a, cfg.index.chunk)
  }

  function Answer(cfg: Config, s: Sys, a: Addr, buf: Buffers): Block {
    var m := M.Hit(cfg.index, s.m, a);
    if m.None? then Current(cfg, s, a)
    else
      Unpacked(cfg, ReadBytes(cfg, s.m.fp, s.cache, M.HashFor(cfg.index, s.m.lba, a).value), m.value.compressedLen, buf)
  }

  /** The content a request deduplicates. */
  function Content(cfg: Config, s: Sys, op: Request): Block {
    if op.Write? then op.data else Current(cfg, s, op.addr)
  }

  function HashOf(cfg: Config, x: Block): nat {
    cfg.index.fpHash(cfg.index.fpOf(x))
  }

  /** The request caches new content: it is not served by the cache, and its content is no duplicate. */
  predicate Admits(cfg: Config, s: Sys, op: Request) {
    && (op.Read? ==> M.Hit(cfg.index, s.m, op.addr).None?)
    && !M.Duplicate(cfg.index, s.m, cfg.index.fpOf(Content(cfg, s, op)))
  }

  /** The first `n` subchunks of the buffer that the content was compressed into. */
  function Sent(cfg: Config, x: Block, n: nat, buf: Buffers): Block {
    Bytes(Patch(buf.compressed, 0, Form(cfg, x)), 0, SlotAt(n, cfg.geometry.subchunkSize))
  }

  function Store(cfg: Config, cache: Block, x: Block, slot: nat, n: nat, buf: Buffers): Block {
    Patch(cache, CachedataLocation(cfg.geometry, cfg.index.fpBucket(HashOf(cfg, x)), slot), Sent(cfg, x, n, buf))
  }

  function Next(cfg: Config, s: Sys, op: Request, c: M.Choice, buf: Buffers): Sys {
    Sys(M.Next(cfg.index, s.m, op, c),
        if Admits(cfg, s, op) then Store(cfg, s.cache, Content(cfg, s, op), c.slot, c.n, buf) else s.cache)
  }

  ghost predicate Sized(cfg: Config, buf: Buffers) {
    |buf.data| == cfg.index.chunk == |buf.compressed|
  }

  /** The allocator's choice is one it may make, for the slots and the compressed length the code asks for. */
  ghost predicate AllowedOp(cfg: Config, s: Sys, op: Request, c: M.Choice) {
    var x := Content(cfg, s, op);
    && M.AllowedOp(cfg.index, s.m, op, c) && |x| == cfg.index.chunk
    && (Admits(cfg, s, op) ==>
          && c.n == M.SlotsGiven(cfg.index, s.m.fp, HashOf(cfg, x), op.Write?, Needed(cfg, x))
          && c.compressedLen == |Packed(cfg, x)|)
  }

  // ----- What is stored

  /** The indexes have the shape of the device, whose bytes hold every slot, and the disk's blocks are chunks. */
  ghost predicate Shaped(cfg: Config, s: Sys) {
    && |s.m.fp| == cfg.geometry.buckets && (forall b :: 0 <= b < |s.m.fp| ==> |s.m.fp[b]| == cfg.geometry.slots)
    && cfg.geometry.DeviceSize(SlotAt(cfg.geometry.Slots(), cfg.geometry.subchunkSize)) <= |s.cache|
    && (forall a :: a in s.m.primary ==> |s.m.primary[a]| == cfg.index.chunk)
  }

  /** A cached chunk: its fingerprint, the length of its compressed content, its slots and their bytes. */
  datatype Cached = Cached(fp: Fp, compressedLen: nat, slots: nat, bytes: Block)

  function CachedAt(cfg: Config, s: Sys, h: nat): Option<Cached> {
    var m := M.MetaAt(cfg.index, s.m.fp, s.m.meta, h);
    if m.None? then None
    else
      Some(Cached(m.value.fp, m.value.compressedLen, M.SlotsAt(cfg.index, s.m.fp, h),
                  ReadBytes(cfg, s.m.fp, s.cache, h)))
  }

  /** A cached chunk is that of content `x`: its slots hold as much of what is stored for `x` as fits them. */
  ghost predicate Holds(cfg: Config, k: Cached, x: Block) {
    && k.fp == cfg.index.fpOf(x) && |x| == cfg.index.chunk && k.compressedLen == |Packed(cfg, x)|
    && 1 <= k.slots <= MaxSubchunks(cfg) && |k.bytes| == SlotAt(k.slots, cfg.geometry.subchunkSize)
    && forall i :: 0 <= i < |k.bytes| && i < |Form(cfg, x)| ==> k.bytes[i] == Form(cfg, x)[i]
  }

  ghost predicate StoredAt(cfg: Config, s: Sys, h: nat) {
    CachedAt(cfg, s, h).Some? ==> exists x :: Holds(cfg, CachedAt(cfg, s, h).value, x)
  }

  /** Holds after every request. */
  ghost predicate Sound(cfg: Config, s: Sys) {
    && ConfigOk(cfg) && M.HashesSplit(cfg.index) && M.Inv(cfg.index, s.m) && Shaped(cfg, s)
    && forall h :: StoredAt(cfg, s, h)
  }

  /** The cached chunk has the slots its content needs, and a hit on all of them gives the content back. */
  ghost predicate Whole(cfg: Config, k: Cached) {
    forall x :: Holds(cfg, k, x) ==> k.slots >= Needed(cfg, x) && Decoded(cfg, x) == x
  }

  ghost predicate AllWhole(cfg: Config, s: Sys) {
    forall h :: CachedAt(cfg, s, h).Some? ==> Whole(cfg, CachedAt(cfg, s, h).value)
  }

  // ----- Arithmetic of subchunks

  lemma CeilingIff(len: nat, size: nat, n: nat)
    requires size >= 1
    ensures (len + size - 1) / size <= n <==> len <= SlotAt(n, size)
  {
    var q := (len + size - 1) / size;
    QuotientBounds(len + size - 1, size);
    SlotAtIsProduct(q, size);
    if q <= n { SlotAtMonotone(q, n, size); } else { SlotAtMonotone(n + 1, q, size); }
  }

  lemma NeededBounds(cfg: Config, x: Block)
    requires ConfigOk(cfg) && |x| == cfg.index.chunk
    ensures 1 <= Needed(cfg, x) <= MaxSubchunks(cfg) && |Packed(cfg, x)| <= |Form(cfg, x)| <= cfg.index.chunk
    ensures forall n: nat :: n <= MaxSubchunks(cfg) ==>
              (n >= Needed(cfg, x) <==> SlotAt(n, cfg.geometry.subchunkSize) >= |Form(cfg, x)|)
    ensures forall n: nat :: n < Needed(cfg, x) && Packed(cfg, x) != [] ==>
              SlotAt(n, cfg.geometry.subchunkSize) < |Packed(cfg, x)|
  {
    var size, max, z := cfg.geometry.subchunkSize, MaxSubchunks(cfg), Packed(cfg, x);
    CeilingIff(|z|, size, max);
    CeilingIff(|z|, size, 0);
    forall n: nat | n < Needed(cfg, x) && z != [] ensures SlotAt(n, size) < |z| { CeilingIff(|z|, size, n); }
    forall n: nat | n <= max ensures n >= Needed(cfg, x) <==> SlotAt(n, size) >= |Form(cfg, x)| {
      CeilingIff(|z|, size, n);
      if n < max { SlotAtIncreases(n, max, size); }
    }
  }

  /** Content that compresses always leaves a subchunk to spare when a chunk has four or more. */
  lemma FourSubchunksDecode(cfg: Config, x: Block)
    requires ConfigOk(cfg) && |x| == cfg.index.chunk && (MaxSubchunks(cfg) >= 4 || !cfg.codec.enabled)
    ensures Decoded(cfg, x) == x
  {
    var size, max, z := cfg.geometry.subchunkSize, MaxSubchunks(cfg), Packed(cfg, x);
    if z != [] {
      SlotAtIsProduct(max, size);
      SlotAtIsProduct(max - 1, size);
      assert max * size == (max - 1) * size + size;
      SlotAtIsProduct(4, size);
      SlotAtMonotone(4, max, size);
      CeilingIff(|z|, size, max - 1);
    }
  }

  // ----- What a hit returns

  /** Bytes that begin with `form` are read back from the start of a buffer. */
  lemma PatchedStart(buf: Block, bytes: Block, form: Block, len: nat)
    requires len <= |form| <= |bytes| <= |buf| && bytes[..|form|] == form
    ensures Bytes(Patch(buf, 0, bytes), 0, len) == Bytes(form, 0, len)
    ensures |form| == |buf| ==> Patch(buf, 0, bytes) == form
  {
    var r := Patch(buf, 0, bytes);
    assert forall i :: 0 <= i < |form| ==> r[i] == bytes[i] == bytes[..|form|][i];
  }

  /** With all the slots the content needs, a hit does not depend on the buffers. */
  lemma WholeAnswer(cfg: Config, k: Cached, x: Block, buf: Buffers)
    requires ConfigOk(cfg) && Sized(cfg, buf) && Holds(cfg, k, x) && k.slots >= Needed(cfg, x)
    ensures Unpacked(cfg, k.bytes, k.compressedLen, buf) == Decoded(cfg, x)
  {
    var form := Form(cfg, x);
    NeededBounds(cfg, x);
    SlotAtMonotone(k.slots, MaxSubchunks(cfg), cfg.geometry.subchunkSize);
    assert k.bytes[..|form|] == form;
    assert Bytes(form, 0, |form|) == form;
    PatchedStart(buf.data, k.bytes, form, 0);
    PatchedStart(buf.compressed, k.bytes, form, |Packed(cfg, x)|);
  }

  function OtherByte(b: Byte): Byte { if b == 0 then 1 else 0 }

  /** With fewer, some earlier content of the buffers makes it wrong. */
  lemma ShortAnswer(cfg: Config, k: Cached, y: Block, x: Block) returns (buf: Buffers)
    requires ConfigOk(cfg) && Holds(cfg, k, y) && k.slots < Needed(cfg, y) && |x| == cfg.index.chunk
    ensures Sized(cfg, buf) && Unpacked(cfg, k.bytes, k.compressedLen, buf) != x
  {
    var n := |k.bytes|;
    NeededBounds(cfg, y);
    SlotAtIncreases(k.slots, MaxSubchunks(cfg), cfg.geometry.subchunkSize);
    if Packed(cfg, y) == [] {
      buf := Buffers(x[|x| - 1 := OtherByte(x[|x| - 1])], x);
      assert Patch(buf.data, 0, k.bytes)[|x| - 1] == buf.data[|x| - 1];
    } else {
      buf := ShortCompressed(cfg, k, x);
    }
  }

  lemma ShortCompressed(cfg: Config, k: Cached, x: Block) returns (buf: Buffers)
    requires ConfigOk(cfg) && |x| == cfg.index.chunk && |k.bytes| < k.compressedLen <= cfg.index.chunk
    ensures Sized(cfg, buf) && Unpacked(cfg, k.bytes, k.compressedLen, buf) != x
  {
    var len := k.compressedLen;
    buf := Buffers(x, x);
    var w := Bytes(Patch(buf.compressed, 0, k.bytes), 0, len);
    if cfg.codec.decompress(w) == x {
      assert Undetermined(cfg.codec, w, |k.bytes|);
      var v :| AgreesOn(v, w, |k.bytes|) && cfg.codec.decompress(v) != cfg.codec.decompress(w);
      buf := Buffers(x, v + x[len..]);
      assert Bytes(Patch(buf.compressed, 0, k.bytes), 0, len) == v;
    }
  }

  ghost predicate Serves(cfg: Config, s: Sys, a: Addr) {
    forall buf :: Sized(cfg, buf) ==> Answer(cfg, s, a, buf) == Current(cfg, s, a)
  }

  lemma CurrentSize(cfg: Config, s: Sys, a: Addr)
    requires Shaped(cfg, s)
    ensures |Current(cfg, s, a)| == cfg.index.chunk
  {
  }

  /**
   A hit on the chunk of content `y` returns the address's current content, whatever the buffers held, exactly when
   the chunk has the slots `y` needs and `y` is decoded to that content.  For content that is told from compressed
   data this is when the LBA index has the current content's hash and the chunk the slots the content needs.
   */
  lemma HitServesIff(cfg: Config, s: Sys, a: Addr, y: Block)
    requires Sound(cfg, s) && M.Hit(cfg.index, s.m, a).Some?
    requires Holds(cfg, CachedAt(cfg, s, M.HashFor(cfg.index, s.m.lba, a).value).value, y)
    ensures var h, x := M.HashFor(cfg.index, s.m.lba, a).value, Current(cfg, s, a);
            var n := M.SlotsAt(cfg.index, s.m.fp, h);
            && (Serves(cfg, s, a) <==> n >= Needed(cfg, y) && Decoded(cfg, y) == x)
            && (Decoded(cfg, y) == y ==> (Serves(cfg, s, a) <==> h == HashOf(cfg, x) && n >= Needed(cfg, x)))
  {
    var h, x := M.HashFor(cfg.index, s.m.lba, a).value, Current(cfg, s, a);
    var k := CachedAt(cfg, s, h).value;
    M.HitSafeIffHashCurrent(cfg.index, s.m, a);
    if k.slots >= Needed(cfg, y) {
      forall buf | Sized(cfg, buf) ensures Answer(cfg, s, a, buf) == Decoded(cfg, y) { WholeAnswer(cfg, k, y, buf); }
      assert Sized(cfg, Buffers(y, y));
      assert Answer(cfg, s, a, Buffers(y, y)) == Decoded(cfg, y);
    } else {
      CurrentSize(cfg, s, a);
      var buf := ShortAnswer(cfg, k, y, x);
      assert Answer(cfg, s, a, buf) != x;
    }
  }

  // ----- What a request does to the cached chunks

  lemma AdmittedSlots(cfg: Config, s: Sys, op: Request, c: M.Choice)
    requires Sound(cfg, s) && AllowedOp(cfg, s, op, c) && Admits(cfg, s, op)
    ensures 1 <= c.n <= MaxSubchunks(cfg)
  {
    var x := Content(cfg, s, op);
    var h := HashOf(cfg, x);
    NeededBounds(cfg, x);
    if op.Read? && M.EntryAt(cfg.index, s.m.fp, h).Some? {
      assert M.EntryOk(cfg.index, s.m.fp, s.m.meta, s.m.primary, h);
      assert StoredAt(cfg, s, h);
    }
  }

  /** What an admission writes: the start of what is stored for the content, in as many bytes as the slots have. */
  lemma SentBytes(cfg: Config, x: Block, n: nat, buf: Buffers)
    requires ConfigOk(cfg) && Sized(cfg, buf) && |x| == cfg.index.chunk && n <= MaxSubchunks(cfg)
    ensures var sent := Sent(cfg, x, n, buf);
            && |sent| == SlotAt(n, cfg.geometry.subchunkSize)
            && forall i :: 0 <= i < |sent| && i < |Form(cfg, x)| ==> sent[i] == Form(cfg, x)[i]
  {
    NeededBounds(cfg, x);
    SlotAtMonotone(n, MaxSubchunks(cfg), cfg.geometry.subchunkSize);
  }

  lemma AdmittedIndex(cfg: Config, s: Sys, op: Request, c: M.Choice)
    requires Sound(cfg, s) && AllowedOp(cfg, s, op, c) && Admits(cfg, s, op)
    ensures var h := HashOf(cfg, Content(cfg, s, op));
            var b, key, r := cfg.index.fpBucket(h), cfg.index.fpKey(h), M.Next(cfg.index, s.m, op, c);
            && b < |s.m.fp| && r.fp == s.m.fp[b := c.table] && |c.table| == |s.m.fp[b]| && FpTable.OneRun(c.table)
            && r.meta
               == s.m.meta[(b, c.slot) := M.Meta(cfg.index.fpOf(Content(cfg, s, op)), [op.addr], 0, c.compressedLen)]
            && FpTable.Updates(s.m.fp[b], key, c.n, c.count, c.gone, c.slot, c.table)
            && FpTable.Lookup(c.table, key) == Some((c.slot, c.n))
  {
    var h := HashOf(cfg, Content(cfg, s, op));
    var b, key := cfg.index.fpBucket(h), cfg.index.fpKey(h);
    FpTable.UpdateMeaning(s.m.fp[b], key, c.n, c.count, c.gone, c.slot, c.table);
  }

  /** A run of slots lies on the device. */
  lemma OnDevice(cfg: Config, s: Sys, b: nat, t: Table, key: nat)
    requires ConfigOk(cfg) && Shaped(cfg, s) && b < cfg.geometry.buckets && |t| == cfg.geometry.slots
    requires FpTable.OneRun(t) && FpTable.Lookup(t, key).Some?
    ensures var (slot, n) := FpTable.Lookup(t, key).value;
            CachedataLocation(cfg.geometry, b, slot) + SlotAt(n, cfg.geometry.subchunkSize) <= |s.cache|
  {
    var (slot, n) := FpTable.Lookup(t, key).value;
    FpTable.RunInside(t, key);
    SlotAtIsProduct(n, cfg.geometry.subchunkSize);
    ExtentInside(cfg.geometry, b, slot, n, SlotAt(cfg.geometry.Slots(), cfg.geometry.subchunkSize));
  }

  /** New content is cached with the slots it was given. */
  lemma AdmittedHere(cfg: Config, s: Sys, op: Request, c: M.Choice, buf: Buffers)
    requires Sound(cfg, s) && AllowedOp(cfg, s, op, c) && Admits(cfg, s, op) && Sized(cfg, buf)
    ensures var x := Content(cfg, s, op);
            CachedAt(cfg, Next(cfg, s, op, c, buf), HashOf(cfg, x))
            == Some(Cached(cfg.index.fpOf(x), c.compressedLen, c.n, Sent(cfg, x, c.n, buf)))
  {
    var x := Content(cfg, s, op);
    var h := HashOf(cfg, x);
    var b, sent := cfg.index.fpBucket(h), Sent(cfg, x, c.n, buf);
    AdmittedIndex(cfg, s, op, c);
    AdmittedSlots(cfg, s, op, c);
    SentBytes(cfg, x, c.n, buf);
    OnDevice(cfg, s, b, c.table, cfg.index.fpKey(h));
    PatchRead(s.cache, CachedataLocation(cfg.geometry, b, c.slot), sent, 0, 0);
  }

  /** Another hash's entry in the indexes, unless it was evicted. */
  lemma OtherEntryKept(cfg: Config, s: Sys, op: Request, c: M.Choice, g: nat)
    requires Sound(cfg, s) && AllowedOp(cfg, s, op, c) && Admits(cfg, s, op)
    requires g != HashOf(cfg, Content(cfg, s, op)) && M.EntryAt(cfg.index, M.Next(cfg.index, s.m, op, c).fp, g).Some?
    ensures var r := M.Next(cfg.index, s.m, op, c);
            && M.EntryAt(cfg.index, r.fp, g) == M.EntryAt(cfg.index, s.m.fp, g)
            && M.SlotsAt(cfg.index, r.fp, g) == M.SlotsAt(cfg.index, s.m.fp, g)
            && M.MetaAt(cfg.index, r.fp, r.meta, g) == M.MetaAt(cfg.index, s.m.fp, s.m.meta, g)
  {
    var h := HashOf(cfg, Content(cfg, s, op));
    var b, key := cfg.index.fpBucket(h), cfg.index.fpKey(h);
    AdmittedIndex(cfg, s, op, c);
    AdmittedSlots(cfg, s, op, c);
    hide FpTable.Lookup, FpTable.Updates, FpTable.OneRun, AllowedOp, Admits, M.Next;
    if cfg.index.fpBucket(g) == b {
      FpTable.UpdateOthers(s.m.fp[b], key, c.n, c.count, c.gone, c.slot, c.table, cfg.index.fpKey(g));
    }
  }

  /** Writing one run of slots changes the bytes of no other. */
  lemma OtherBytesKept(cfg: Config, s: Sys, fp: seq<Table>, h: nat, g: nat, sent: Block)
    requires ConfigOk(cfg) && M.HashesSplit(cfg.index) && Shaped(cfg, s) && |fp| == |s.m.fp| && g != h
    requires forall b :: 0 <= b < |fp| ==> |fp[b]| == cfg.geometry.slots && FpTable.OneRun(fp[b])
    requires M.EntryAt(cfg.index, fp, h).Some? && M.EntryAt(cfg.index, fp, g).Some?
    requires |sent| == SlotAt(M.SlotsAt(cfg.index, fp, h), cfg.geometry.subchunkSize)
    ensures var at := CachedataLocation(cfg.geometry, cfg.index.fpBucket(h), M.EntryAt(cfg.index, fp, h).value);
            ReadBytes(cfg, fp, Patch(s.cache, at, sent), g) == ReadBytes(cfg, fp, s.cache, g)
  {
    var b, key, d, k := cfg.index.fpBucket(h), cfg.index.fpKey(h), cfg.index.fpBucket(g), cfg.index.fpKey(g);
    OnDevice(cfg, s, b, fp[b], key);
    LiveChunksApart(cfg.geometry, fp, b, key, d, k);
    var (slot, n) := FpTable.Lookup(fp[d], k).value;
    var (at, m) := FpTable.Lookup(fp[b], key).value;
    SlotAtIsProduct(n, cfg.geometry.subchunkSize);
    SlotAtIsProduct(m, cfg.geometry.subchunkSize);
    PatchRead(s.cache, CachedataLocation(cfg.geometry, b, at), sent,
              CachedataLocation(cfg.geometry, d, slot), SlotAt(n, cfg.geometry.subchunkSize));
  }

  /** Every other cached chunk keeps its metadata, its slots and their bytes, unless it was evicted. */
  lemma AdmittedElsewhere(cfg: Config, s: Sys, op: Request, c: M.Choice, buf: Buffers, g: nat)
    requires Sound(cfg, s) && AllowedOp(cfg, s, op, c) && Admits(cfg, s, op) && Sized(cfg, buf)
    requires g != HashOf(cfg, Content(cfg, s, op)) && CachedAt(cfg, Next(cfg, s, op, c, buf), g).Some?
    ensures CachedAt(cfg, Next(cfg, s, op, c, buf), g) == CachedAt(cfg, s, g)
  {
    var x := Content(cfg, s, op);
    AdmittedIndex(cfg, s, op, c);
    AdmittedSlots(cfg, s, op, c);
    SentBytes(cfg, x, c.n, buf);
    OtherEntryKept(cfg, s, op, c, g);
    OtherBytesKept(cfg, s, M.Next(cfg.index, s.m, op, c).fp, HashOf(cfg, x), g, Sent(cfg, x, c.n, buf));
  }

  /** A hit or a duplicate lists at most one more address. */
  lemma NotAdmitted(cfg: Config, s: Sys, op: Request, c: M.Choice, buf: Buffers, g: nat)
    requires Sound(cfg, s) && AllowedOp(cfg, s, op, c) && !Admits(cfg, s, op)
    ensures CachedAt(cfg, Next(cfg, s, op, c, buf), g) == CachedAt(cfg, s, g)
  {
    if op.Write? || M.Hit(cfg.index, s.m, op.addr).None? {
      M.DuplicateKeepsContent(cfg.index, s.m, op.addr, cfg.index.fpOf(Content(cfg, s, op)), c, g);
    }
  }

  lemma AdmittedHolds(cfg: Config, s: Sys, op: Request, c: M.Choice, buf: Buffers)
    requires Sound(cfg, s) && AllowedOp(cfg, s, op, c) && Admits(cfg, s, op) && Sized(cfg, buf)
    ensures var x := Content(cfg, s, op);
            var k := CachedAt(cfg, Next(cfg, s, op, c, buf), HashOf(cfg, x));
            k.Some? && k.value.slots == c.n && Holds(cfg, k.value, x)
  {
    AdmittedHere(cfg, s, op, c, buf);
    AdmittedSlots(cfg, s, op, c);
    SentBytes(cfg, Content(cfg, s, op), c.n, buf);
  }

  lemma NextKeepsShape(cfg: Config, s: Sys, op: Request, c: M.Choice, buf: Buffers)
    requires Sound(cfg, s) && AllowedOp(cfg, s, op, c)
    ensures Shaped(cfg, Next(cfg, s, op, c, buf))
  {
    M.NextTouches(cfg.index, s.m, op, c);
    if Admits(cfg, s, op) { AdmittedIndex(cfg, s, op, c); }
  }

  /** Every request keeps each cached chunk holding as much of its content as its slots fit. */
  lemma NextKeepsSound(cfg: Config, s: Sys, op: Request, c: M.Choice, buf: Buffers)
    requires Sound(cfg, s) && AllowedOp(cfg, s, op, c) && Sized(cfg, buf)
    ensures Sound(cfg, Next(cfg, s, op, c, buf))
  {
    var r := Next(cfg, s, op, c, buf);
    M.NextKeepsInv(cfg.index, s.m, op, c);
    NextKeepsShape(cfg, s, op, c, buf);
    forall g ensures StoredAt(cfg, r, g) {
      assert StoredAt(cfg, s, g);
      if !Admits(cfg, s, op) {
        NotAdmitted(cfg, s, op, c, buf, g);
      } else if g == HashOf(cfg, Content(cfg, s, op)) {
        AdmittedHolds(cfg, s, op, c, buf);
      } else if CachedAt(cfg, r, g).Some? {
        AdmittedElsewhere(cfg, s, op, c, buf, g);
      }
    }
  }

  // ----- What an admission gives and stores, in terms of the codec

  /** The codec's output is used: compression is on, and it is no longer than three quarters of a chunk. */
  predicate Compresses(cfg: Config, x: Block) {
    cfg.codec.enabled && cfg.codec.compress(x) != [] && 4 * |cfg.codec.compress(x)| <= 3 * |x|
  }

  /**
   The chunk of content `x`: its compressed length is that of the codec's output if that is used; it has the slots of
   the chunk met, if one was, and else the fewest that hold the output, or all that a chunk has; they hold the output,
   or the content itself when the output takes as many.
   */
  ghost predicate StoredAs(cfg: Config, x: Block, met: Option<nat>, k: Cached) {
    var size, all, z := cfg.geometry.subchunkSize, MaxSubchunks(cfg), cfg.codec.compress(x);
    && k.fp == cfg.index.fpOf(x) && k.compressedLen == (if Compresses(cfg, x) then |z| else 0)
    && (if met.Some? then k.slots == met.value
        else if Compresses(cfg, x) then k.slots >= 1 && SlotAt(k.slots - 1, size) < |z| <= SlotAt(k.slots, size)
        else k.slots == all)
    && |k.bytes| == SlotAt(k.slots, size)
    && var stored := if Compresses(cfg, x) && |z| <= SlotAt(all, size) - size then z else x;
       forall i :: 0 <= i < |stored| && i < |k.bytes| ==> k.bytes[i] == stored[i]
  }

  /** The slots of the chunk that a read of new content meets under the content's hash. */
  function SlotsMet(cfg: Config, s: Sys, op: Request): Option<nat> {
    var h := HashOf(cfg, Content(cfg, s, op));
    if op.Read? && M.EntryAt(cfg.index, s.m.fp, h).Some? then Some(M.SlotsAt(cfg.index, s.m.fp, h)) else None
  }

  /** New content is cached under its hash, as its codec's output or as it is. */
  lemma AdmissionStores(cfg: Config, s: Sys, op: Request, c: M.Choice, buf: Buffers)
    requires Sound(cfg, s) && AllowedOp(cfg, s, op, c) && Admits(cfg, s, op) && Sized(cfg, buf)
    ensures var x := Content(cfg, s, op);
            var r := CachedAt(cfg, Next(cfg, s, op, c, buf), HashOf(cfg, x));
            && SlotAt(MaxSubchunks(cfg), cfg.geometry.subchunkSize) == |x|
            && r.Some? && StoredAs(cfg, x, SlotsMet(cfg, s, op), r.value)
  {
    hide Next, AllowedOp, Admits, CachedAt, SlotsMet, StoredAs, Holds, M.Inv, Shaped, StoredAt;
    AdmittedHolds(cfg, s, op, c, buf);
    GivenMet(cfg, s, op, c);
    AllowedSize(cfg, s, op, c);
    var x := Content(cfg, s, op);
    HeldAs(cfg, x, SlotsMet(cfg, s, op), CachedAt(cfg, Next(cfg, s, op, c, buf), HashOf(cfg, x)).value);
  }

  lemma AllowedSize(cfg: Config, s: Sys, op: Request, c: M.Choice)
    requires AllowedOp(cfg, s, op, c)
    ensures |Content(cfg, s, op)| == cfg.index.chunk
  {
  }

  lemma HeldAs(cfg: Config, x: Block, met: Option<nat>, k: Cached)
    requires ConfigOk(cfg) && Holds(cfg, k, x) && k.slots == if met.Some? then met.value else Needed(cfg, x)
    ensures StoredAs(cfg, x, met, k)
  {
    NeededInBytes(cfg, x);
    hide Needed, Form, Packed, Compresses;
  }

  lemma GivenMet(cfg: Config, s: Sys, op: Request, c: M.Choice)
    requires AllowedOp(cfg, s, op, c) && Admits(cfg, s, op)
    ensures c.n == if SlotsMet(cfg, s, op).Some? then SlotsMet(cfg, s, op).value else Needed(cfg, Content(cfg, s, op))
  {
  }

  /** What content needs, in bytes. */
  lemma NeededInBytes(cfg: Config, x: Block)
    requires ConfigOk(cfg) && |x| == cfg.index.chunk
    ensures var size, all, z, n := cfg.geometry.subchunkSize, MaxSubchunks(cfg), cfg.codec.compress(x), Needed(cfg, x);
            && all >= 1 && |Packed(cfg, x)| == (if Compresses(cfg, x) then |z| else 0)
            && (if Compresses(cfg, x) then n >= 1 && SlotAt(n - 1, size) < |z| <= SlotAt(n, size) else n == all)
            && Form(cfg, x) == if Compresses(cfg, x) && |z| <= SlotAt(all, size) - size then z else x
  {
    var size, all, z, n := cfg.geometry.subchunkSize, MaxSubchunks(cfg), cfg.codec.compress(x), Needed(cfg, x);
    NeededBounds(cfg, x);
    if Compresses(cfg, x) {
      CeilingIff(|z|, size, n);
      CeilingIff(|z|, size, n - 1);
      CeilingIff(|z|, size, all - 1);
    }
  }

  /** Content that is cached already is not written again: only its list of addresses may grow. */
  lemma CachedIsNotRewritten(cfg: Config, s: Sys, op: Request, c: M.Choice, buf: Buffers)
    requires Sound(cfg, s) && AllowedOp(cfg, s, op, c)
    requires var k := CachedAt(cfg, s, HashOf(cfg, Content(cfg, s, op)));
             k.Some? && k.value.fp == cfg.index.fpOf(Content(cfg, s, op))
    ensures var r := Next(cfg, s, op, c, buf);
            && r.cache == s.cache && r.m.fp == s.m.fp && r.m.meta.Keys == s.m.meta.Keys
            && (forall at :: at in s.m.meta ==>
                  && r.m.meta[at].fp == s.m.meta[at].fp && r.m.meta[at].compressedLen == s.m.meta[at].compressedLen)
  {
  }

  // ----- Admissions that spoil

  /**
   The guard of a bad admission: a read caches new content under a hash that already has a chunk, of fewer slots than
   the content needs; or the content cannot be told from compressed data.
   */
  predicate Spoils(cfg: Config, s: Sys, op: Request) {
    var x := Content(cfg, s, op);
    && Admits(cfg, s, op)
    && (Starves(cfg, s, op) || Decoded(cfg, x) != x)
  }

  predicate Starves(cfg: Config, s: Sys, op: Request) {
    var x := Content(cfg, s, op);
    && op.Read? && M.EntryAt(cfg.index, s.m.fp, HashOf(cfg, x)).Some?
    && M.SlotsAt(cfg.index, s.m.fp, HashOf(cfg, x)) < Needed(cfg, x)
  }

  /** New content is given fewer slots than it needs exactly when the guard holds. */
  lemma ShortIffStarves(cfg: Config, s: Sys, op: Request, c: M.Choice, buf: Buffers)
    requires Sound(cfg, s) && AllowedOp(cfg, s, op, c) && Admits(cfg, s, op) && Sized(cfg, buf)
    ensures var x := Content(cfg, s, op);
            var k := CachedAt(cfg, Next(cfg, s, op, c, buf), HashOf(cfg, x));
            && k.Some? && Holds(cfg, k.value, x)
            && (k.value.slots < Needed(cfg, x) <==> Starves(cfg, s, op))
            && (Whole(cfg, k.value) <==> !Spoils(cfg, s, op))
  {
    AdmittedHolds(cfg, s, op, c, buf);
  }

  /** All cached chunks stay whole exactly when the request does not spoil. */
  lemma NextKeepsWholeIff(cfg: Config, s: Sys, op: Request, c: M.Choice, buf: Buffers)
    requires Sound(cfg, s) && AllWhole(cfg, s) && AllowedOp(cfg, s, op, c) && Sized(cfg, buf)
    ensures AllWhole(cfg, Next(cfg, s, op, c, buf)) <==> !Spoils(cfg, s, op)
  {
    var r := Next(cfg, s, op, c, buf);
    if Admits(cfg, s, op) { ShortIffStarves(cfg, s, op, c, buf); }
    forall g | CachedAt(cfg, r, g).Some? && !(Admits(cfg, s, op) && g == HashOf(cfg, Content(cfg, s, op)))
      ensures CachedAt(cfg, r, g) == CachedAt(cfg, s, g)
    {
      if Admits(cfg, s, op) { AdmittedElsewhere(cfg, s, op, c, buf, g); } else { NotAdmitted(cfg, s, op, c, buf, g); }
    }
  }

  /** After a miss or a write, reading the address again is a hit, and right exactly when the request did not spoil. */
  lemma ReadBackIff(cfg: Config, s: Sys, op: Request, c: M.Choice, buf: Buffers)
    requires Sound(cfg, s) && AllWhole(cfg, s) && AllowedOp(cfg, s, op, c) && Sized(cfg, buf)
    requires (op.Read? ==> M.Hit(cfg.index, s.m, op.addr).None?) && cfg.index.lbaBucket(op.addr) < |s.m.lba|
    ensures var r := Next(cfg, s, op, c, buf);
            && M.Hit(cfg.index, r.m, op.addr).Some? && Current(cfg, r, op.addr) == Content(cfg, s, op)
            && (Serves(cfg, r, op.addr) <==> !Spoils(cfg, s, op))
  {
    var x, r := Content(cfg, s, op), Next(cfg, s, op, c, buf);
    var h := HashOf(cfg, x);
    M.CachedIsHit(cfg.index, s.m, op.addr, cfg.index.fpOf(x), c);
    M.NextTouches(cfg.index, s.m, op, c);
    NextKeepsSound(cfg, s, op, c, buf);
    if Admits(cfg, s, op) {
      ShortIffStarves(cfg, s, op, c, buf);
    } else {
      NotAdmitted(cfg, s, op, c, buf, h);
      assert StoredAt(cfg, s, h);
      var y :| Holds(cfg, CachedAt(cfg, s, h).value, y);
      assert y == x;
    }
    HitServesIff(cfg, r, op.addr, x);
  }

  // ----- Whole runs

  datatype Step = Step(op: Request, choice: M.Choice, buf: Buffers)

  function Outcome(cfg: Config, s: Sys, op: Request, buf: Buffers): Option<Block> {
    if op.Read? then Some(Answer(cfg, s, op.addr, buf)) else None
  }

  function After(cfg: Config, s: Sys, step: Step): Sys {
    Next(cfg, s, step.op, step.choice, step.buf)
  }

  function Run(cfg: Config, s: Sys, steps: seq<Step>): seq<Option<Block>>
    decreases |steps|
  {
    if steps == [] then []
    else [Outcome(cfg, s, steps[0].op, steps[0].buf)] + Run(cfg, After(cfg, s, steps[0]), steps[1..])
  }

  function Requests(steps: seq<Step>): seq<Request> {
    if steps == [] then [] else [steps[0].op] + Requests(steps[1..])
  }

  ghost predicate AllowedStep(cfg: Config, s: Sys, step: Step) {
    AllowedOp(cfg, s, step.op, step.choice) && Sized(cfg, step.buf)
  }

  ghost predicate AllowedRun(cfg: Config, s: Sys, steps: seq<Step>)
    decreases |steps|
  {
    steps != [] ==> AllowedStep(cfg, s, steps[0]) && AllowedRun(cfg, After(cfg, s, steps[0]), steps[1..])
  }

  predicate NeverSpoils(cfg: Config, s: Sys, steps: seq<Step>)
    decreases |steps|
  {
    steps != [] ==> !Spoils(cfg, s, steps[0].op) && NeverSpoils(cfg, After(cfg, s, steps[0]), steps[1..])
  }

  /** The run answers as the plain disk does. */
  ghost predicate Right(cfg: Config, s: Sys, steps: seq<Step>) {
    Run(cfg, s, steps) == PlainRun(s.m.primary, Requests(steps), cfg.index.chunk)
  }

  /** Nothing stale or short is cached for the addresses in use, which have distinct LBA hashes. */
  ghost predicate Clean(cfg: Config, s: Sys, used: set<Addr>) {
    && Sound(cfg, s) && AllWhole(cfg, s)
    && M.Fresh(cfg.index, s.m, used) && M.Distinct(cfg.index, used)
    && forall a :: a in used ==> cfg.index.lbaBucket(a) < |s.m.lba|
  }

  ghost predicate Within(steps: seq<Step>, used: set<Addr>) {
    forall i :: 0 <= i < |steps| ==> steps[i].op.addr in used
  }

  /** Reads from a clean state are right. */
  lemma CleanServes(cfg: Config, s: Sys, a: Addr, used: set<Addr>)
    requires Clean(cfg, s, used) && a in used
    ensures Serves(cfg, s, a)
  {
    if M.Hit(cfg.index, s.m, a).Some? {
      var h := M.HashFor(cfg.index, s.m.lba, a).value;
      assert StoredAt(cfg, s, h);
      var y :| Holds(cfg, CachedAt(cfg, s, h).value, y);
      M.HitSafeIffHashCurrent(cfg.index, s.m, a);
      CurrentSize(cfg, s, a);
      HitServesIff(cfg, s, a, y);
    }
  }

  lemma StepKeepsClean(cfg: Config, s: Sys, step: Step, used: set<Addr>)
    requires Clean(cfg, s, used) && AllowedStep(cfg, s, step) && step.op.addr in used && !Spoils(cfg, s, step.op)
    ensures Clean(cfg, After(cfg, s, step), used)
  {
    NextKeepsSound(cfg, s, step.op, step.choice, step.buf);
    NextKeepsWholeIff(cfg, s, step.op, step.choice, step.buf);
    M.NextKeepsFresh(cfg.index, s.m, step.op, step.choice, used);
    NextKeepsBuckets(cfg, s, step);
  }

  lemma NextKeepsBuckets(cfg: Config, s: Sys, step: Step)
    requires Sound(cfg, s)
    ensures |After(cfg, s, step).m.lba| == |s.m.lba|
  {
    M.NextTouches(cfg.index, s.m, step.op, step.choice);
    M.TouchKeepsBuckets(cfg.index, s.m.lba, step.op.addr, M.TouchedHash(cfg.index, s.m, step.op));
  }

  /** The run is right exactly when its first answer is and the rest of it is. */
  lemma RightCons(cfg: Config, s: Sys, step: Step, rest: seq<Step>)
    requires Sound(cfg, s)
    ensures var first := Outcome(cfg, s, step.op, step.buf)
                         == PlainStep(s.m.primary, step.op, cfg.index.chunk).1;
            Right(cfg, s, [step] + rest) <==> first && Right(cfg, After(cfg, s, step), rest)
    ensures AllowedRun(cfg, s, [step] + rest)
            <==> AllowedStep(cfg, s, step) && AllowedRun(cfg, After(cfg, s, step), rest)
  {
    var steps, r, chunk := [step] + rest, After(cfg, s, step), cfg.index.chunk;
    var plain := PlainStep(s.m.primary, step.op, chunk);
    M.NextTouches(cfg.index, s.m, step.op, step.choice);
    assert steps[1..] == rest;
    assert ([step.op] + Requests(rest))[1..] == Requests(rest);
    var q, p := Run(cfg, r, rest), PlainRun(plain.0, Requests(rest), chunk);
    assert Run(cfg, s, steps) == [Outcome(cfg, s, step.op, step.buf)] + q;
    assert PlainRun(s.m.primary, Requests(steps), chunk) == [plain.1] + p;
    assert ([Outcome(cfg, s, step.op, step.buf)] + q)[1..] == q && ([plain.1] + p)[1..] == p;
  }

  lemma CleanStepRight(cfg: Config, s: Sys, step: Step, used: set<Addr>)
    requires Clean(cfg, s, used) && AllowedStep(cfg, s, step) && step.op.addr in used
    ensures Outcome(cfg, s, step.op, step.buf) == PlainStep(s.m.primary, step.op, cfg.index.chunk).1
  {
    if step.op.Read? { CleanServes(cfg, s, step.op.addr, used); }
  }

  /** Write-through AC-DC over addresses with distinct LBA hashes, as long as no admission meets the guard. */
  lemma {:induction false} NeverSpoilsTransparent(cfg: Config, s: Sys, steps: seq<Step>, used: set<Addr>)
    requires Clean(cfg, s, used) && AllowedRun(cfg, s, steps) && Within(steps, used)
    requires NeverSpoils(cfg, s, steps)
    ensures Right(cfg, s, steps)
    decreases |steps|
  {
    if steps != [] {
      CleanStepRight(cfg, s, steps[0], used);
      StepKeepsClean(cfg, s, steps[0], used);
      NeverSpoilsTransparent(cfg, After(cfg, s, steps[0]), steps[1..], used);
      RightCons(cfg, s, steps[0], steps[1..]);
      assert [steps[0]] + steps[1..] == steps;
    }
  }

  /** The first `k` requests of a run and then one more are answered as the plain disk does. */
  ghost predicate RightThen(cfg: Config, s: Sys, steps: seq<Step>, k: nat, last: Step)
    requires k <= |steps|
  {
    AllowedRun(cfg, s, steps[..k] + [last]) ==> Right(cfg, s, steps[..k] + [last])
  }

  lemma ThenNow(cfg: Config, s: Sys, steps: seq<Step>, last: Step)
    requires Sound(cfg, s)
    ensures RightThen(cfg, s, steps, 0, last) <==>
            (AllowedStep(cfg, s, last) ==>
               Outcome(cfg, s, last.op, last.buf) == PlainStep(s.m.primary, last.op, cfg.index.chunk).1)
  {
    assert steps[..0] + [last] == [last] + [];
    RightCons(cfg, s, last, []);
  }

  lemma ThenCons(cfg: Config, s: Sys, steps: seq<Step>, used: set<Addr>, k: nat, last: Step)
    requires Clean(cfg, s, used) && steps != [] && AllowedStep(cfg, s, steps[0]) && steps[0].op.addr in used
    requires 1 <= k <= |steps|
    ensures RightThen(cfg, s, steps, k, last) <==> RightThen(cfg, After(cfg, s, steps[0]), steps[1..], k - 1, last)
  {
    CleanStepRight(cfg, s, steps[0], used);
    RightCons(cfg, s, steps[0], steps[1..][..k - 1] + [last]);
    assert steps[..k] + [last] == [steps[0]] + (steps[1..][..k - 1] + [last]);
  }

  lemma {:induction false} NeverSpoilsThenRight(cfg: Config, s: Sys, steps: seq<Step>, used: set<Addr>, k: nat,
                                                last: Step)
    requires Clean(cfg, s, used) && AllowedRun(cfg, s, steps) && Within(steps, used)
    requires NeverSpoils(cfg, s, steps) && k <= |steps| && last.op.addr in used
    ensures RightThen(cfg, s, steps, k, last)
    decreases |steps|
  {
    if k == 0 {
      ThenNow(cfg, s, steps, last);
      if AllowedStep(cfg, s, last) { CleanStepRight(cfg, s, last, used); }
    } else {
      StepKeepsClean(cfg, s, steps[0], used);
      NeverSpoilsThenRight(cfg, After(cfg, s, steps[0]), steps[1..], used, k - 1, last);
      ThenCons(cfg, s, steps, used, k, last);
    }
  }

  /** Reading the address back shows a spoilt admission, for some earlier content of the buffers. */
  lemma SpoiltReadBack(cfg: Config, s: Sys, step: Step, rest: seq<Step>, used: set<Addr>) returns (last: Step)
    requires Clean(cfg, s, used) && AllowedStep(cfg, s, step) && step.op.addr in used && Spoils(cfg, s, step.op)
    ensures last.op == Read(step.op.addr) && !RightThen(cfg, After(cfg, s, step), rest, 0, last)
  {
    hide Next, Answer, Sound, M.Hit, M.Next, M.CurrentFp, Right;
    var r, a := After(cfg, s, step), step.op.addr;
    ReadBackIff(cfg, s, step.op, step.choice, step.buf);
    NextKeepsSound(cfg, s, step.op, step.choice, step.buf);
    CurrentSize(cfg, r, a);
    var buf :| Sized(cfg, buf) && Answer(cfg, r, a, buf) != Current(cfg, r, a);
    last := Step(Read(a), step.choice, buf);
    ThenNow(cfg, r, rest, last);
  }

  lemma {:induction false} SpoiltRunFails(cfg: Config, s: Sys, steps: seq<Step>, used: set<Addr>)
    returns (k: nat, last: Step)
    requires Clean(cfg, s, used) && AllowedRun(cfg, s, steps) && Within(steps, used) && !NeverSpoils(cfg, s, steps)
    ensures k <= |steps| && last.op.addr in used && !RightThen(cfg, s, steps, k, last)
    decreases |steps|
  {
    if Spoils(cfg, s, steps[0].op) {
      k := 0;
      last := SpoiltReadBack(cfg, s, steps[0], steps[1..], used);
    } else {
      StepKeepsClean(cfg, s, steps[0], used);
      k, last := SpoiltRunFails(cfg, After(cfg, s, steps[0]), steps[1..], used);
    }
    k := k + 1;
    ThenCons(cfg, s, steps, used, k, last);
  }

  /**
   Over addresses with distinct LBA hashes, write-through AC-DC answers a run and any request after any part of it as
   the plain disk does, whatever the buffers held, exactly when no admission of the run meets the guard.
   */
  lemma TransparentIffNeverSpoils(cfg: Config, s: Sys, steps: seq<Step>, used: set<Addr>)
    requires Clean(cfg, s, used) && AllowedRun(cfg, s, steps) && Within(steps, used)
    ensures NeverSpoils(cfg, s, steps)
            <==> forall k, last: Step :: 0 <= k <= |steps| && last.op.addr in used ==> RightThen(cfg, s, steps, k, last)
  {
    if NeverSpoils(cfg, s, steps) {
      forall k, last: Step | 0 <= k <= |steps| && last.op.addr in used ensures RightThen(cfg, s, steps, k, last) {
        NeverSpoilsThenRight(cfg, s, steps, used, k, last);
      }
    } else {
      var k, last := SpoiltRunFails(cfg, s, steps, used);
    }
  }

  // ----- From empty indexes

  lemma UnusedClean(cfg: Config, s: Sys, used: set<Addr>)
    requires ConfigOk(cfg) && M.HashesSplit(cfg.index) && Shaped(cfg, s) && M.Unused(cfg.index, s.m)
    requires M.Distinct(cfg.index, used) && forall a :: a in used ==> cfg.index.lbaBucket(a) < |s.m.lba|
    ensures Clean(cfg, s, used)
  {
    M.UnusedInv(cfg.index, s.m, used);
    forall h ensures CachedAt(cfg, s, h) == None {
      var b := cfg.index.fpBucket(h);
      if b < |s.m.fp| { M.UnusedBucket(s.m.fp[b], cfg.index.fpKey(h)); }
    }
  }

  /** From empty indexes, any disk and any bytes on the device. */
  lemma WriteThroughTransparent(cfg: Config, s: Sys, steps: seq<Step>, used: set<Addr>)
    requires ConfigOk(cfg) && M.HashesSplit(cfg.index) && Shaped(cfg, s) && M.Unused(cfg.index, s.m)
    requires M.Distinct(cfg.index, used) && forall a :: a in used ==> cfg.index.lbaBucket(a) < |s.m.lba|
    requires AllowedRun(cfg, s, steps) && Within(steps, used) && NeverSpoils(cfg, s, steps)
    ensures Right(cfg, s, steps)
  {
    UnusedClean(cfg, s, used);
    NeverSpoilsTransparent(cfg, s, steps, used);
  }

  /** Without compression all chunks have the same number of slots, and no admission meets the guard. */
  lemma UncompressedNeverSpoils(cfg: Config, s: Sys, op: Request, c: M.Choice)
    requires Sound(cfg, s) && AllWhole(cfg, s) && AllowedOp(cfg, s, op, c) && !cfg.codec.enabled
    ensures !Spoils(cfg, s, op)
  {
    var x := Content(cfg, s, op);
    var h := HashOf(cfg, x);
    if M.EntryAt(cfg.index, s.m.fp, h).Some? {
      assert M.EntryOk(cfg.index, s.m.fp, s.m.meta, s.m.primary, h);
      assert StoredAt(cfg, s, h);
      var y :| Holds(cfg, CachedAt(cfg, s, h).value, y);
    }
  }

  lemma {:induction false} UncompressedTransparent(cfg: Config, s: Sys, steps: seq<Step>, used: set<Addr>)
    requires Clean(cfg, s, used) && AllowedRun(cfg, s, steps) && Within(steps, used) && !cfg.codec.enabled
    ensures NeverSpoils(cfg, s, steps) && Right(cfg, s, steps)
    decreases |steps|
  {
    if steps != [] {
      UncompressedNeverSpoils(cfg, s, steps[0].op, steps[0].choice);
      StepKeepsClean(cfg, s, steps[0], used);
      UncompressedTransparent(cfg, After(cfg, s, steps[0]), steps[1..], used);
    }
    NeverSpoilsTransparent(cfg, s, steps, used);
  }

  // ----- Inputs that fail

  /** Content stored as it is and short of slots is served up to them; the rest is what the buffer held. */
  lemma TruncatedAnswer(cfg: Config, s: Sys, a: Addr, y: Block, buf: Buffers)
    requires Sound(cfg, s) && M.Hit(cfg.index, s.m, a).Some? && Sized(cfg, buf) && Packed(cfg, y) == []
    requires Holds(cfg, CachedAt(cfg, s, M.HashFor(cfg.index, s.m.lba, a).value).value, y)
    ensures var n := M.SlotsAt(cfg.index, s.m.fp, M.HashFor(cfg.index, s.m.lba, a).value);
            var len := SlotAt(n, cfg.geometry.subchunkSize);
            len <= cfg.index.chunk && Answer(cfg, s, a, buf) == y[..len] + buf.data[len..]
  {
    var k := CachedAt(cfg, s, M.HashFor(cfg.index, s.m.lba, a).value).value;
    NeededBounds(cfg, y);
    SlotAtMonotone(k.slots, MaxSubchunks(cfg), cfg.geometry.subchunkSize);
    assert k.bytes == y[..|k.bytes|];
  }

  /** Caching content of a fingerprint hash whose bucket holds nothing else. */
  lemma LoneAdmission(cfg: Config, s: Sys, op: Request, n: nat) returns (c: M.Choice)
    requires Sound(cfg, s) && Admits(cfg, s, op) && cfg.index.lbaBucket(op.addr) < |s.m.lba|
    requires var x := Content(cfg, s, op);
             var h := HashOf(cfg, x);
             var b := cfg.index.fpBucket(h);
             && |x| == cfg.index.chunk && n == M.SlotsGiven(cfg.index, s.m.fp, h, op.Write?, Needed(cfg, x))
             && b < |s.m.fp| && 1 <= n <= cfg.geometry.slots
             && M.UnusedTable(FpTable.Dropped(s.m.fp[b], {cfg.index.fpKey(h)}))
    ensures AllowedOp(cfg, s, op, c) && c.n == n && c.compressedLen == |Packed(cfg, Content(cfg, s, op))|
    ensures var b := cfg.index.fpBucket(HashOf(cfg, Content(cfg, s, op)));
            var r := M.Next(cfg.index, s.m, op, c);
            && r.fp == s.m.fp[b := c.table]
            && M.UnusedTable(FpTable.Dropped(c.table, {cfg.index.fpKey(HashOf(cfg, Content(cfg, s, op)))}))
  {
    var x := Content(cfg, s, op);
    c := M.FirstCache(cfg.index, s.m, op.addr, cfg.index.fpOf(x), n, |Packed(cfg, x)|);
  }

  /** Two contents with one hash, the one on the disk needing more slots than the other. */
  ghost predicate Confusable(cfg: Config, x: Block, y: Block) {
    && HashOf(cfg, x) == HashOf(cfg, y) && x != y && |y| == cfg.index.chunk && Decoded(cfg, y) == y
    && Needed(cfg, y) < Needed(cfg, x) && Needed(cfg, y) <= cfg.geometry.slots
    && cfg.index.fpBucket(HashOf(cfg, x)) < cfg.geometry.buckets
  }

  /** A read that misses content whose hash has another content's chunk, of too few slots. */
  lemma MissStarves(cfg: Config, r: Sys, a: Addr)
    requires M.HashFor(cfg.index, r.m.lba, a) == None
    requires var x := Current(cfg, r, a);
             var k := CachedAt(cfg, r, HashOf(cfg, x));
             k.Some? && k.value.fp != cfg.index.fpOf(x) && k.value.slots < Needed(cfg, x)
    ensures Admits(cfg, r, Read(a)) && Starves(cfg, r, Read(a))
  {
  }

  /** The first write of `y`: it is cached whole. */
  lemma SmallerCached(cfg: Config, s: Sys, b: Addr, y: Block, buf: Buffers) returns (c: M.Choice)
    requires Sound(cfg, s) && M.Unused(cfg.index, s.m) && Sized(cfg, buf) && cfg.index.lbaBucket(b) < |s.m.lba|
    requires |y| == cfg.index.chunk && Decoded(cfg, y) == y && Needed(cfg, y) <= cfg.geometry.slots
    requires cfg.index.fpBucket(HashOf(cfg, y)) < cfg.geometry.buckets
    ensures var step := Step(Write(b, y), c, buf);
            var r := After(cfg, s, step);
            var k := CachedAt(cfg, r, HashOf(cfg, y));
            && AllowedStep(cfg, s, step) && !Spoils(cfg, s, step.op)
            && k.Some? && k.value.fp == cfg.index.fpOf(y) && k.value.slots == Needed(cfg, y)
            && M.UnusedTable(FpTable.Dropped(r.m.fp[cfg.index.fpBucket(HashOf(cfg, y))],
                                             {cfg.index.fpKey(HashOf(cfg, y))}))
  {
    var h, op := HashOf(cfg, y), Write(b, y);
    M.UnusedBucket(s.m.fp[cfg.index.fpBucket(h)], cfg.index.fpKey(h));
    NeededBounds(cfg, y);
    c := LoneAdmission(cfg, s, op, Needed(cfg, y));
    AdmittedHere(cfg, s, op, c, buf);
  }

  /** Then a read of `a` is still a miss and no duplicate. */
  lemma SmallerFirst(cfg: Config, s: Sys, a: Addr, b: Addr, y: Block, buf: Buffers) returns (c: M.Choice)
    requires Clean(cfg, s, {a, b}) && M.Unused(cfg.index, s.m) && a != b && Sized(cfg, buf)
    requires Confusable(cfg, Current(cfg, s, a), y)
    ensures var step := Step(Write(b, y), c, buf); var r := After(cfg, s, step);
            && AllowedStep(cfg, s, step) && !Spoils(cfg, s, step.op)
            && Current(cfg, r, a) == Current(cfg, s, a) && Admits(cfg, r, Read(a)) && Starves(cfg, r, Read(a))
            && M.SlotsAt(cfg.index, r.m.fp, HashOf(cfg, y)) == Needed(cfg, y)
            && M.UnusedTable(FpTable.Dropped(r.m.fp[cfg.index.fpBucket(HashOf(cfg, y))],
                                             {cfg.index.fpKey(HashOf(cfg, y))}))
  {
    c := SmallerCached(cfg, s, b, y, buf);
    UnknownStays(cfg, s, a, b, HashOf(cfg, y));
    M.NextTouches(cfg.index, s.m, Write(b, y), c);
    MissStarves(cfg, After(cfg, s, Step(Write(b, y), c, buf)), a);
  }

  /** An address the empty index does not know stays unknown when another's hash is recorded. */
  lemma UnknownStays(cfg: Config, s: Sys, a: Addr, b: Addr, h: nat)
    requires Clean(cfg, s, {a, b}) && M.Unused(cfg.index, s.m) && a != b
    ensures M.HashFor(cfg.index, M.TouchLba(cfg.index, s.m.lba, b, h), a) == None
  {
    M.TouchHash(cfg.index, s.m.lba, b, h, a);
    var i := Find(s.m.lba[cfg.index.lbaBucket(a)], cfg.index.lbaKey(a));
  }

  /**
   Distinct LBA hashes, empty indexes: write `y` to `b`, read `a`, and read `a` again.  The second read is a hit on the
   fingerprint of the address's content, which was given only the slots of `y`, and for some buffers it is wrong.
   */
  lemma SmallerNeighbourTruncates(cfg: Config, s: Sys, a: Addr, b: Addr, y: Block, buf: Buffers)
    returns (steps: seq<Step>)
    requires Clean(cfg, s, {a, b}) && M.Unused(cfg.index, s.m) && a != b && Sized(cfg, buf)
    requires Confusable(cfg, Current(cfg, s, a), y)
    ensures |steps| == 3 && steps[0].op == Write(b, y) && steps[1].op == Read(a) == steps[2].op
    ensures AllowedRun(cfg, s, steps) && !Right(cfg, s, steps)
    ensures var r := After(cfg, After(cfg, s, steps[0]), steps[1]);
            && M.Hit(cfg.index, r.m, a).Some?
            && M.Hit(cfg.index, r.m, a).value.fp == M.CurrentFp(cfg.index, r.m.primary, a)
            && steps[1].choice.n == Needed(cfg, y) < Needed(cfg, Current(cfg, r, a))
  {
    var used := {a, b};
    var c1 := SmallerFirst(cfg, s, a, b, y, buf);
    var s1 := Step(Write(b, y), c1, buf);
    var r1 := After(cfg, s, s1);
    StepKeepsClean(cfg, s, s1, used);
    NeededBounds(cfg, y);
    CurrentSize(cfg, r1, a);
    var c2 := LoneAdmission(cfg, r1, Read(a), Needed(cfg, y));
    var s2 := Step(Read(a), c2, buf);
    var last := SpoiltReadBack(cfg, r1, s2, [], used);
    steps := [s1, s2, last];
    M.CachedIsHit(cfg.index, r1.m, a, M.CurrentFp(cfg.index, r1.m.primary, a), c2);
    TwoThenOne(cfg, s, s1, s2, last, used);
  }

  lemma TwoThenOne(cfg: Config, s: Sys, s1: Step, s2: Step, last: Step, used: set<Addr>)
    requires Clean(cfg, s, used) && AllowedStep(cfg, s, s1) && s1.op.addr in used
    requires Clean(cfg, After(cfg, s, s1), used) && AllowedStep(cfg, After(cfg, s, s1), s2) && s2.op.addr in used
    requires !RightThen(cfg, After(cfg, After(cfg, s, s1), s2), [], 0, last)
    ensures AllowedRun(cfg, s, [s1, s2, last]) && !Right(cfg, s, [s1, s2, last])
  {
    hide Clean, AllowedStep, After, Right, AllowedRun;
    var steps := [s1, s2];
    assert steps[1..] == [s2] && [s2][1..] == [];
    ThenCons(cfg, After(cfg, s, s1), [s2], used, 1, last);
    ThenCons(cfg, s, steps, used, 2, last);
    assert steps[..2] + [last] == [s1, s2, last];
  }

  /** With fewer than four subchunks, compressed content that needs all of them is stored as it is and then decoded. */
  lemma TwoSubchunksGarble(index: M.Config, geometry: Geometry)
    requires index.chunk == 4 && geometry.subchunkSize == 2
    ensures var codec := Codec((x: Block) => if |x| == 4 && x[0] == 0 then x[1..] else [], (w: Block) => [0] + w, true);
            && Inverse(codec) && Sensitive(codec, 4)
            && Decoded(Config(index, codec, geometry), [0, 1, 2, 3]) == [0, 0, 1, 2]
  {
    var codec := Codec((x: Block) => if |x| == 4 && x[0] == 0 then x[1..] else [], (w: Block) => [0] + w, true);
    var x: Block := [0, 1, 2, 3];
    forall w, k: nat | k < |w| && |codec.decompress(w)| == 4 ensures Undetermined(codec, w, k) {
      var v := w[|w| - 1 := OtherByte(w[|w| - 1])];
      assert codec.decompress(v)[|w|] != codec.decompress(w)[|w|];
      assert AgreesOn(v, w, k);
    }
    assert Packed(Config(index, codec, geometry), x) == [1, 2, 3];
    assert Bytes(x, 0, 3) == [0, 1, 2];
  }
}
