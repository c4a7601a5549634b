/**
 The D-ARC cache as a whole: the two indexes, the cache device, the primary disk and the dirty list.
 The reference it is compared with is a disk without a cache.
 */
module DarcSystem {
  import opened Common
  import L = ArcLists
  import D = DarcModel

  datatype Mode = WriteThrough | WriteBack

  /** `dirty` is the dirty list's latest update per address: where on the cache device its last write is. */
  datatype Sys = Sys(d: D.Darc, primary: Device, cache: Device, dirty: map<Addr, nat>, mode: Mode)

  function Init(lbaCapacity: nat, x: nat, fpCapacity: nat, chunk: nat, primary: Device, cache: Device,
                mode: Mode): Sys {
    Sys(D.Darc(L.Empty(lbaCapacity, 0, x), D.EmptyFps(fpCapacity, chunk)), primary, cache, map[], mode)
  }

  // ----- One request

  /** The addresses whose last write is at `location` of the cache device. */
  function DirtyAt(dirty: map<Addr, nat>, location: nat): set<Addr> {
    set a | a in dirty && dirty[a] == location
  }

  /** Give every address in `targets` the block `data`. */
  function CopyTo(primary: Device, targets: set<Addr>, data: Block): Device {
    map a | a in primary.Keys + targets :: if a in targets then data else primary[a]
  }

  /** Copy the block at `location` to every address whose last write is there, and forget those. */
  function FlushOneBlock(s: Sys, location: nat): Sys {
    s.(primary := CopyTo(s.primary, DirtyAt(s.dirty, location), BlockAt(s.cache, location)),
       dirty := s.dirty - DirtyAt(s.dirty, location))
  }

  function Settle(s: Sys, i: D.Inserted): Sys {
    var s1 := s.(d := i.d);
    if s.mode == WriteBack && i.evicted.Some? then FlushOneBlock(s1, i.evicted.value) else s1
  }

  function UpdateMetadata(s: Sys, a: Addr, fp: Fp): Sys {
    Settle(s, D.Update(s.d, a, fp))
  }

  /** Where the chunk with fingerprint `fp` is stored. */
  function LocationOf(d: D.Darc, fp: Fp): nat {
    if fp in d.fps.mp then d.fps.mp[fp].location else 0
  }

  predicate Hit(d: D.Darc, a: Addr) {
    a in d.lba.mp && d.lba.mp[a].fp in d.fps.mp
  }

  /** Store a block with fingerprint `fp` after its metadata update `i`, unless it was a duplicate. */
  function Store(s: Sys, i: D.Inserted, fp: Fp, data: Block): Sys {
    var s1 := Settle(s, i);
    if fp in s.d.fps.mp then s1 else s1.(cache := s1.cache[LocationOf(s1.d, fp) := data])
  }

  function Admit(s: Sys, a: Addr, data: Block, h: Block -> Fp): Sys {
    Store(s, D.Update(s.d, a, h(data)), h(data), data)
  }

  function InternalRead(s: Sys, a: Addr, h: Block -> Fp): (Sys, Block) {
    if Hit(s.d, a) then
      (UpdateMetadata(s, a, s.d.lba.mp[a].fp), BlockAt(s.cache, LocationOf(s.d, s.d.lba.mp[a].fp)))
    else
      (Admit(s, a, BlockAt(s.primary, a), h), BlockAt(s.primary, a))
  }

  function Persist(s: Sys, a: Addr, data: Block, fp: Fp): Sys {
    match s.mode
    case WriteThrough => s.(primary := s.primary[a := data])
    case WriteBack => s.(dirty := s.dirty[a := LocationOf(s.d, fp)])
  }

  function InternalWrite(s: Sys, a: Addr, data: Block, h: Block -> Fp): Sys {
    Persist(Admit(s, a, data, h), a, data, h(data))
  }

  // ----- Runs, and the plain disk

  function Step(s: Sys, r: Request, h: Block -> Fp): (Sys, Option<Block>) {
    match r
    case Read(a) => (InternalRead(s, a, h).0, Some(InternalRead(s, a, h).1))
    case Write(a, data) => (InternalWrite(s, a, data, h), None)
  }

  function Run(s: Sys, rs: seq<Request>, h: Block -> Fp): (Sys, seq<Option<Block>>)
    decreases |rs|
  {
    if rs == [] then (s, [])
    else
      var (s1, out) := Step(s, rs[0], h);
      var (s2, rest) := Run(s1, rs[1..], h);
      (s2, [out] + rest)
  }

  function PlainStep(disk: Device, r: Request): (Device, Option<Block>) {
    match r
    case Read(a) => (disk, Some(BlockAt(disk, a)))
    case Write(a, data) => (disk[a := data], None)
  }

  function PlainRun(disk: Device, rs: seq<Request>): (Device, seq<Option<Block>>)
    decreases |rs|
  {
    if rs == [] then (disk, [])
    else
      var (d1, out) := PlainStep(disk, rs[0]);
      var (d2, rest) := PlainRun(d1, rs[1..]);
      (d2, [out] + rest)
  }

  // ----- Invariants

  /** Every cached fingerprint's location holds a block with that fingerprint. */
  ghost predicate Stored(d: D.Darc, cache: Device, h: Block -> Fp) {
    forall f :: f in d.fps.mp ==> h(BlockAt(cache, d.fps.mp[f].location)) == f
  }

  ghost predicate Live(d: D.Darc, location: nat) {
    exists f :: f in d.fps.mp && d.fps.mp[f].location == location
  }

  /** The last written data of `a` is on the cache device where the dirty list says, or else on the primary. */
  ghost predicate DurableAt(s: Sys, disk: Device, a: Addr) {
    if a in s.dirty then Live(s.d, s.dirty[a]) && BlockAt(s.cache, s.dirty[a]) == BlockAt(disk, a)
    else BlockAt(s.primary, a) == BlockAt(disk, a)
  }

  /** Holds after every request, in both modes; `disk` is what a disk without a cache would hold. */
  ghost predicate Sound(s: Sys, disk: Device, h: Block -> Fp) {
    && D.Inv(s.d) && Stored(s.d, s.cache, h)
    && (forall a :: DurableAt(s, disk, a))
    && (s.mode == WriteThrough ==> s.dirty == map[])
  }

  /** Every known address carries the fingerprint of its last written data. */
  ghost predicate Fresh(lba: L.Lists, disk: Device, h: Block -> Fp) {
    forall a :: a in lba.mp ==> lba.mp[a].fp == h(BlockAt(disk, a))
  }

  lemma InitSound(lbaCapacity: nat, x: nat, fpCapacity: nat, chunk: nat, primary: Device, cache: Device, mode: Mode,
                  h: Block -> Fp)
    requires lbaCapacity >= 1 && fpCapacity >= 1 && chunk >= 1
    ensures var s := Init(lbaCapacity, x, fpCapacity, chunk, primary, cache, mode);
            Sound(s, primary, h) && Fresh(s.d.lba, primary, h)
  {
    var s := Init(lbaCapacity, x, fpCapacity, chunk, primary, cache, mode);
    SlotAtIsProduct(fpCapacity, chunk);
    forall f ensures L.Refs(s.d.lba, f) == {} {}
  }

  // ----- Requests keep the invariants

  /** A fingerprint's location survives unless it is the one the update recycled. */
  lemma LiveAfterUpdate(s: Sys, i: D.Inserted, a: Addr, fp: Fp, location: nat)
    requires D.Updates(s.d.lba.mp, s.d.fps, i, a, fp) && Live(s.d, location)
    ensures i.evicted == Some(location) || Live(i.d, location)
  {
    var f :| f in s.d.fps.mp && s.d.fps.mp[f].location == location;
    if f in i.d.fps.mp { assert i.d.fps.mp[f].location == location; }
  }

  /** Settling an update may move dirty blocks to the primary, but loses none of them, and leaves no dirty
      block at the location given to a new fingerprint. */
  lemma SettleDurable(s: Sys, disk: Device, i: D.Inserted, a: Addr, fp: Fp, b: Addr)
    requires D.Updates(s.d.lba.mp, s.d.fps, i, a, fp) && D.Inv(i.d)
    requires DurableAt(s, disk, b) && (s.mode == WriteThrough ==> s.dirty == map[])
    ensures var s1 := Settle(s, i);
            && DurableAt(s1, disk, b)
            && (fp !in s.d.fps.mp && b in s1.dirty ==> s1.dirty[b] != LocationOf(s1.d, fp))
  {
    if b in s.dirty {
      LiveAfterUpdate(s, i, a, fp, s.dirty[b]);
      if fp !in s.d.fps.mp && i.evicted != Some(s.dirty[b]) {
        var f :| f in s.d.fps.mp && s.d.fps.mp[f].location == s.dirty[b];
        assert f != fp && f in i.d.fps.mp;
      }
    }
  }

  lemma AdmitStored(d: D.Darc, cache: Device, i: D.Inserted, a: Addr, data: Block, h: Block -> Fp)
    requires Stored(d, cache, h) && D.Inv(i.d) && D.Updates(d.lba.mp, d.fps, i, a, h(data))
    ensures var cache' := if h(data) in d.fps.mp then cache else cache[LocationOf(i.d, h(data)) := data];
            && Stored(i.d, cache', h)
            && (CollisionFree(h) ==> BlockAt(cache', LocationOf(i.d, h(data))) == data)
  {
    var fp, cache' := h(data), if h(data) in d.fps.mp then cache else cache[LocationOf(i.d, h(data)) := data];
    forall f | f in i.d.fps.mp ensures h(BlockAt(cache', i.d.fps.mp[f].location)) == f {
      if f != fp {
        assert i.d.fps.mp[f].location != i.d.fps.mp[fp].location;
        assert h(BlockAt(cache, d.fps.mp[f].location)) == f;
      }
    }
  }

  /** `a` now carries `fp`, and nothing else that is known changed. */
  ghost predicate Learns(lba0: L.Lists, lba1: L.Lists, a: Addr, fp: Fp) {
    && a in lba1.mp && lba1.mp[a].fp == fp
    && (forall b :: b in lba1.mp && b != a ==> b in lba0.mp && lba1.mp[b].fp == lba0.mp[b].fp)
  }

  lemma StoreDurable(s: Sys, disk: Device, i: D.Inserted, a: Addr, fp: Fp, data: Block, b: Addr)
    requires D.Updates(s.d.lba.mp, s.d.fps, i, a, fp) && D.Inv(i.d)
    requires DurableAt(s, disk, b) && (s.mode == WriteThrough ==> s.dirty == map[])
    ensures DurableAt(Store(s, i, fp, data), disk, b)
  {
    SettleDurable(s, disk, i, a, fp, b);
  }

  lemma StoreSound(s: Sys, disk: Device, i: D.Inserted, a: Addr, data: Block, h: Block -> Fp)
    requires Sound(s, disk, h) && D.Inv(i.d) && D.Updates(s.d.lba.mp, s.d.fps, i, a, h(data))
    ensures Sound(Store(s, i, h(data), data), disk, h)
  {
    AdmitStored(s.d, s.cache, i, a, data, h);
    forall b ensures DurableAt(Store(s, i, h(data), data), disk, b) {
      assert DurableAt(s, disk, b);
      StoreDurable(s, disk, i, a, h(data), data, b);
    }
  }

  lemma StoreLearns(s: Sys, disk: Device, i: D.Inserted, a: Addr, data: Block, h: Block -> Fp)
    requires Sound(s, disk, h) && CollisionFree(h)
    requires D.Inv(i.d) && D.Updates(s.d.lba.mp, s.d.fps, i, a, h(data))
    ensures var s1 := Store(s, i, h(data), data);
            && s1.mode == s.mode && Learns(s.d.lba, s1.d.lba, a, h(data))
            && Live(s1.d, LocationOf(s1.d, h(data))) && BlockAt(s1.cache, LocationOf(s1.d, h(data))) == data
  {
    AdmitStored(s.d, s.cache, i, a, data, h);
  }

  lemma AdmitSound(s: Sys, disk: Device, a: Addr, data: Block, h: Block -> Fp)
    requires Sound(s, disk, h) && CollisionFree(h)
    ensures var s1 := Admit(s, a, data, h);
            && Sound(s1, disk, h) && s1.mode == s.mode && Learns(s.d.lba, s1.d.lba, a, h(data))
            && Live(s1.d, LocationOf(s1.d, h(data))) && BlockAt(s1.cache, LocationOf(s1.d, h(data))) == data
  {
    D.UpdateKeepsInv(s.d, a, h(data));
    StoreSound(s, disk, D.Update(s.d, a, h(data)), a, data, h);
    StoreLearns(s, disk, D.Update(s.d, a, h(data)), a, data, h);
  }

  // ----- Writes

  lemma PersistSound(s: Sys, disk: Device, a: Addr, data: Block, h: Block -> Fp)
    requires Sound(s, disk, h)
    requires Live(s.d, LocationOf(s.d, h(data))) && BlockAt(s.cache, LocationOf(s.d, h(data))) == data
    ensures Sound(Persist(s, a, data, h(data)), disk[a := data], h)
  {
    var disk', s1 := disk[a := data], Persist(s, a, data, h(data));
    forall b ensures DurableAt(s1, disk', b) {
      assert DurableAt(s, disk, b);
    }
  }

  lemma WriteSound(s: Sys, disk: Device, a: Addr, data: Block, h: Block -> Fp)
    requires Sound(s, disk, h) && CollisionFree(h)
    ensures var s1 := InternalWrite(s, a, data, h);
            && Sound(s1, disk[a := data], h) && s1.mode == s.mode && Learns(s.d.lba, s1.d.lba, a, h(data))
  {
    AdmitSound(s, disk, a, data, h);
    PersistSound(Admit(s, a, data, h), disk, a, data, h);
  }

  // ----- Reads

  /** A read that misses on an address whose last write sits on the cache device only. */
  predicate Stale(s: Sys, a: Addr) {
    a !in s.d.lba.mp && a in s.dirty && BlockAt(s.cache, s.dirty[a]) != BlockAt(s.primary, a)
  }

  lemma ReadSound(s: Sys, disk: Device, a: Addr, h: Block -> Fp)
    requires Sound(s, disk, h) && CollisionFree(h)
    ensures var (s1, data) := InternalRead(s, a, h);
            Sound(s1, disk, h) && s1.mode == s.mode && Learns(s.d.lba, s1.d.lba, a, h(data))
  {
    if Hit(s.d, a) {
      var data := BlockAt(s.cache, LocationOf(s.d, s.d.lba.mp[a].fp));
      assert h(data) == s.d.lba.mp[a].fp;
      AdmitSound(s, disk, a, data, h);
    } else {
      AdmitSound(s, disk, a, BlockAt(s.primary, a), h);
    }
  }

  /** While the known fingerprints are fresh, a read returns the last written data exactly when it is not stale. */
  lemma ReadCorrectIffNotStale(s: Sys, disk: Device, a: Addr, h: Block -> Fp)
    requires Sound(s, disk, h) && CollisionFree(h) && Fresh(s.d.lba, disk, h)
    ensures InternalRead(s, a, h).1 == BlockAt(disk, a) <==> !Stale(s, a)
    ensures !Stale(s, a) ==> Fresh(InternalRead(s, a, h).0.d.lba, disk, h)
  {
    ReadSound(s, disk, a, h);
    assert DurableAt(s, disk, a);
  }

  // ----- Whole runs

  /** No read of the run is stale when its turn comes. */
  predicate NeverStale(s: Sys, rs: seq<Request>, h: Block -> Fp)
    decreases |rs|
  {
    rs == [] || (!(rs[0].Read? && Stale(s, rs[0].addr)) && NeverStale(Step(s, rs[0], h).0, rs[1..], h))
  }

  lemma StepSound(s: Sys, disk: Device, r: Request, h: Block -> Fp)
    requires Sound(s, disk, h) && CollisionFree(h)
    ensures var s1 := Step(s, r, h).0;
            Sound(s1, PlainStep(disk, r).0, h) && s1.mode == s.mode
  {
    match r
    case Read(a) => ReadSound(s, disk, a, h);
    case Write(a, data) => WriteSound(s, disk, a, data, h);
  }

  lemma WriteKeepsFresh(s: Sys, disk: Device, a: Addr, data: Block, h: Block -> Fp)
    requires Sound(s, disk, h) && CollisionFree(h) && Fresh(s.d.lba, disk, h)
    ensures Fresh(InternalWrite(s, a, data, h).d.lba, disk[a := data], h)
  {
    WriteSound(s, disk, a, data, h);
    hide InternalWrite, Sound;
  }

  lemma StepCorrectIffNotStale(s: Sys, disk: Device, r: Request, h: Block -> Fp)
    requires Sound(s, disk, h) && CollisionFree(h) && Fresh(s.d.lba, disk, h)
    ensures Step(s, r, h).1 == PlainStep(disk, r).1 <==> !(r.Read? && Stale(s, r.addr))
    ensures !(r.Read? && Stale(s, r.addr)) ==> Fresh(Step(s, r, h).0.d.lba, PlainStep(disk, r).0, h)
  {
    hide InternalRead, InternalWrite, Stale, Sound, Fresh;
    match r
    case Read(a) => ReadCorrectIffNotStale(s, disk, a, h);
    case Write(a, data) => WriteKeepsFresh(s, disk, a, data, h);
  }

  /** Durability over any run, in both modes, stale reads included: each address's last written data is on
      the cache device where the dirty list says, or on the primary. */
  lemma {:induction false} RunKeepsData(s: Sys, disk: Device, rs: seq<Request>, h: Block -> Fp)
    requires Sound(s, disk, h) && CollisionFree(h)
    ensures Sound(Run(s, rs, h).0, PlainRun(disk, rs).0, h)
    decreases |rs|
  {
    if rs != [] {
      StepSound(s, disk, rs[0], h);
      RunKeepsData(Step(s, rs[0], h).0, PlainStep(disk, rs[0]).0, rs[1..], h);
    }
  }

  lemma RunCons(s: Sys, disk: Device, rs: seq<Request>, h: Block -> Fp, s1: Sys, disk1: Device)
    requires rs != [] && s1 == Step(s, rs[0], h).0 && disk1 == PlainStep(disk, rs[0]).0
    ensures Run(s, rs, h).1 == PlainRun(disk, rs).1 <==>
            Step(s, rs[0], h).1 == PlainStep(disk, rs[0]).1 && Run(s1, rs[1..], h).1 == PlainRun(disk1, rs[1..]).1
  {
    var q, r := Run(s, rs, h).1, PlainRun(disk, rs).1;
    assert q == [Step(s, rs[0], h).1] + Run(s1, rs[1..], h).1;
    assert r == [PlainStep(disk, rs[0]).1] + PlainRun(disk1, rs[1..]).1;
    if q == r { assert q[0] == r[0] && q[1..] == r[1..]; }
  }

  /** The cache answers a run as the plain disk would exactly when no read in it is stale. */
  lemma {:induction false} TransparentIffNeverStale(s: Sys, disk: Device, rs: seq<Request>, h: Block -> Fp)
    requires Sound(s, disk, h) && CollisionFree(h) && Fresh(s.d.lba, disk, h)
    ensures Run(s, rs, h).1 == PlainRun(disk, rs).1 <==> NeverStale(s, rs, h)
    decreases |rs|
  {
    if rs != [] {
      var s1, disk1 := Step(s, rs[0], h).0, PlainStep(disk, rs[0]).0;
      StepSound(s, disk, rs[0], h);
      StepCorrectIffNotStale(s, disk, rs[0], h);
      RunCons(s, disk, rs, h, s1, disk1);
      if !(rs[0].Read? && Stale(s, rs[0].addr)) {
        TransparentIffNeverStale(s1, disk1, rs[1..], h);
      }
    }
  }

  lemma {:induction false} WriteThroughNeverStale(s: Sys, disk: Device, rs: seq<Request>, h: Block -> Fp)
    requires Sound(s, disk, h) && CollisionFree(h) && s.mode == WriteThrough
    ensures NeverStale(s, rs, h)
    decreases |rs|
  {
    if rs != [] {
      StepSound(s, disk, rs[0], h);
      WriteThroughNeverStale(Step(s, rs[0], h).0, PlainStep(disk, rs[0]).0, rs[1..], h);
    }
  }

  /** A write-through cache cannot be told from the disk behind it, over any run from start-up. */
  lemma WriteThroughTransparent(lbaCapacity: nat, x: nat, fpCapacity: nat, chunk: nat, primary: Device, cache: Device,
                                rs: seq<Request>, h: Block -> Fp)
    requires lbaCapacity >= 1 && fpCapacity >= 1 && chunk >= 1 && CollisionFree(h)
    ensures var s := Init(lbaCapacity, x, fpCapacity, chunk, primary, cache, WriteThrough);
            Run(s, rs, h).1 == PlainRun(primary, rs).1
  {
    var s := Init(lbaCapacity, x, fpCapacity, chunk, primary, cache, WriteThrough);
    InitSound(lbaCapacity, x, fpCapacity, chunk, primary, cache, WriteThrough, h);
    WriteThroughNeverStale(s, primary, rs, h);
    TransparentIffNeverStale(s, primary, rs, h);
  }

  // ----- Reading a range

  /** The requests for `n` consecutive chunks. */
  function Reads(a: Addr, n: nat): seq<Request>
    decreases n
  {
    if n == 0 then [] else [Read(a)] + Reads(a + 1, n - 1)
  }

  function Answers(blocks: seq<Block>): (r: seq<Option<Block>>)
    ensures |r| == |blocks| && forall i :: 0 <= i < |r| ==> r[i] == Some(blocks[i])
  {
    seq(|blocks|, i requires 0 <= i < |blocks| => Some(blocks[i]))
  }

  ghost predicate AreBlocks(disk: Device, a: Addr, blocks: seq<Block>) {
    forall i :: 0 <= i < |blocks| ==> blocks[i] == BlockAt(disk, a + i)
  }

  lemma {:induction false} PlainReads(disk: Device, a: Addr, n: nat)
    ensures var r := PlainRun(disk, Reads(a, n)).1;
            |r| == n && forall i :: 0 <= i < n ==> r[i] == Some(BlockAt(disk, a + i))
    decreases n
  {
    if n > 0 {
      assert Reads(a, n)[1..] == Reads(a + 1, n - 1);
      PlainReads(disk, a + 1, n - 1);
    }
  }

  /** Reading a range gives the disk's blocks exactly when no read in it is stale; in write-through none is. */
  lemma RangeRightIffNeverStale(s: Sys, disk: Device, a: Addr, n: nat, h: Block -> Fp, blocks: seq<Block>)
    requires Sound(s, disk, h) && CollisionFree(h) && Run(s, Reads(a, n), h).1 == Answers(blocks) && |blocks| == n
    ensures Fresh(s.d.lba, disk, h) ==> (AreBlocks(disk, a, blocks) <==> NeverStale(s, Reads(a, n), h))
    ensures s.mode == WriteThrough ==> NeverStale(s, Reads(a, n), h)
  {
    PlainReads(disk, a, n);
    var r := PlainRun(disk, Reads(a, n)).1;
    assert AreBlocks(disk, a, blocks) ==> Answers(blocks) == r;
    assert Answers(blocks) == r ==> forall i :: 0 <= i < n ==> Answers(blocks)[i] == r[i];
    if Fresh(s.d.lba, disk, h) { TransparentIffNeverStale(s, disk, Reads(a, n), h); }
    if s.mode == WriteThrough { WriteThroughNeverStale(s, disk, Reads(a, n), h); }
  }

  /** Reading the range from `s` is what was read so far and then reading the rest from `now`. */
  ghost predicate Left(s: Sys, now: Sys, a: Addr, n: nat, h: Block -> Fp, blocks: seq<Block>) {
    && |blocks| <= n
    && var all, rest := Reads(a, n), Reads(a + |blocks|, n - |blocks|);
    && Run(s, all, h) == (Run(now, rest, h).0, Answers(blocks) + Run(now, rest, h).1)
    && (NeverStale(s, all, h) ==> NeverStale(now, rest, h))
  }

  lemma LeftAll(s: Sys, a: Addr, n: nat, h: Block -> Fp)
    ensures Left(s, s, a, n, h, [])
  {
    hide Run, NeverStale, Reads;
    var r := Run(s, Reads(a, n), h);
    assert Answers([]) + r.1 == r.1;
  }

  /** The first read of a range, and what is left of the run. */
  lemma FirstRead(s: Sys, a: Addr, n: nat, h: Block -> Fp, next: Sys, data: Block)
    requires n > 0 && (next, data) == InternalRead(s, a, h)
    ensures var r := Run(next, Reads(a + 1, n - 1), h); Run(s, Reads(a, n), h) == (r.0, [Some(data)] + r.1)
    ensures NeverStale(s, Reads(a, n), h) <==> !Stale(s, a) && NeverStale(next, Reads(a + 1, n - 1), h)
  {
    hide InternalRead, InternalWrite, Stale;
    assert Reads(a, n)[0] == Read(a) && Reads(a, n)[1..] == Reads(a + 1, n - 1);
  }

  lemma LeftStep(s: Sys, now: Sys, a: Addr, n: nat, h: Block -> Fp, blocks: seq<Block>, next: Sys, data: Block)
    requires Left(s, now, a, n, h, blocks) && |blocks| < n && (next, data) == InternalRead(now, a + |blocks|, h)
    ensures Left(s, next, a, n, h, blocks + [data])
    ensures NeverStale(s, Reads(a, n), h) ==> !Stale(now, a + |blocks|)
  {
    hide Run, NeverStale, Reads, InternalRead, Stale;
    var k := |blocks|;
    FirstRead(now, a + k, n - k, h, next, data);
    var r := Run(next, Reads(a + k + 1, n - k - 1), h);
    assert Answers(blocks) + ([Some(data)] + r.1) == Answers(blocks + [data]) + r.1;
  }

  lemma LeftNone(s: Sys, now: Sys, a: Addr, n: nat, h: Block -> Fp, blocks: seq<Block>)
    requires Left(s, now, a, n, h, blocks) && |blocks| == n
    ensures Run(s, Reads(a, n), h) == (now, Answers(blocks))
  {
    hide InternalRead, InternalWrite, Stale;
    assert Reads(a + n, 0) == [];
    assert Answers(blocks) + [] == Answers(blocks);
  }

  // ----- Write-back is not transparent

  // The states of the counterexample: room for one known address and two fingerprints.

  function OneKnown(a: Addr, f: Fp): L.Lists {
    L.Lists([a], [], [], [], [], map[a := L.Entry(f, L.T1)], 0, 0, 1)
  }

  function OneCached(f: Fp): D.FpIndex {
    D.FpIndex(map[f := D.FpEntry(0, 1)], [], D.Space(2, 1, 0, 1), 2)
  }

  function TwoCached(f: Fp, m: nat, zero: seq<Fp>, g: Fp, n: nat): D.FpIndex {
    D.FpIndex(map[f := D.FpEntry(0, m), g := D.FpEntry(1, n)], zero, D.Space(2, 2, 0, 1), 2)
  }

  function AfterOneWrite(h: Block -> Fp): Sys {
    Sys(D.Darc(OneKnown(0, h([1])), OneCached(h([1]))), map[], map[0 := [1]], map[0 := 0], WriteBack)
  }

  /** Address 0 was dropped from the lists, but its block is still only on the cache device. */
  function AfterTwoWrites(h: Block -> Fp): Sys {
    Sys(D.Darc(OneKnown(1, h([2])), TwoCached(h([1]), 0, [h([1])], h([2]), 1)),
        map[], map[0 := [1], 1 := [2]], map[0 := 0, 1 := 1], WriteBack)
  }

  lemma FirstWrite(h: Block -> Fp)
    ensures InternalWrite(Init(1, 0, 2, 1, map[], map[], WriteBack), 0, [1], h) == AfterOneWrite(h)
  {
    assert L.Update(L.Empty(1, 0, 0), 0, h([1])).lists == OneKnown(0, h([1]));
  }

  lemma SecondUpdate(f: Fp, g: Fp)
    ensures L.Update(OneKnown(0, f), 1, g) == L.Outcome(OneKnown(1, g), Some(0))
  {
    var lba, e := OneKnown(0, f), L.Entry(f, L.B3);
    assert L.MoveBack(lba, L.T1, L.B1) == L.Lists([], [], [0], [], [], map[0 := L.Entry(f, L.B1)], 0, 0, 1);
    assert L.ManageMetadataCache(lba, 1) == L.Outcome(L.Lists([], [], [], [], [0], map[0 := e], 0, 0, 1), Some(0));
    assert L.CheckMetadataCache(lba, 1) == L.Outcome(L.Lists([], [], [], [], [], map[], 0, 0, 1), Some(0));
  }

  lemma SecondInsert(f: Fp, g: Fp)
    requires f != g
    ensures D.Insert(D.Darc(OneKnown(0, f), OneCached(f)), 1, g)
            == D.Inserted(D.Darc(OneKnown(0, f), TwoCached(f, 1, [], g, 0)), Some(1), None)
  {
    assert |OneCached(f).mp| == 1;
    assert D.Enter(OneCached(f), g) == TwoCached(f, 1, [], g, 0);
  }

  lemma SecondReferences(f: Fp, g: Fp)
    requires f != g
    ensures D.Reference(D.Dereference(TwoCached(f, 1, [], g, 0), f), g) == TwoCached(f, 0, [f], g, 1)
  {
    assert D.Dereference(TwoCached(f, 1, [], g, 0), f) == TwoCached(f, 0, [f], g, 0);
  }

  lemma SecondWrite(h: Block -> Fp)
    requires CollisionFree(h)
    ensures InternalWrite(AfterOneWrite(h), 1, [2], h) == AfterTwoWrites(h)
  {
    var x: Block, y: Block := [1], [2];
    assert x[0] != y[0];
    assert h(x) != h(y);
    SecondInsert(h(x), h(y));
    SecondUpdate(h(x), h(y));
    SecondReferences(h(x), h(y));
  }

  lemma ThirdStale(s: Sys, s1: Sys, s2: Sys, rs: seq<Request>, h: Block -> Fp)
    requires |rs| == 3 && rs[2].Read? && Stale(s2, rs[2].addr)
    requires s1 == Step(s, rs[0], h).0 && s2 == Step(s1, rs[1], h).0
    ensures !NeverStale(s, rs, h)
  {
    hide Step, Stale;
    assert rs[1..][0] == rs[1] && rs[1..][1..] == rs[2..] && rs[2..][0] == rs[2];
    assert !NeverStale(s2, rs[2..], h);
    assert !NeverStale(s1, rs[1..], h);
  }

  /** In write-back mode the code drops a dirty address from the lists without flushing it, so a later read
      returns the primary's old block: three requests suffice. */
  lemma WriteBackCanReadStale(h: Block -> Fp)
    requires CollisionFree(h)
    ensures var s, rs := Init(1, 0, 2, 1, map[], map[], WriteBack), [Write(0, [1]), Write(1, [2]), Read(0)];
            Run(s, rs, h).1 != PlainRun(map[], rs).1
  {
    var s, rs := Init(1, 0, 2, 1, map[], map[], WriteBack), [Write(0, [1]), Write(1, [2]), Read(0)];
    FirstWrite(h);
    SecondWrite(h);
    InitSound(1, 0, 2, 1, map[], map[], WriteBack, h);
    assert Stale(AfterTwoWrites(h), 0);
    ThirdStale(s, AfterOneWrite(h), AfterTwoWrites(h), rs, h);
    hide InternalRead, InternalWrite, Stale, Sound, NeverStale, Run;
    TransparentIffNeverStale(s, map[], rs, h);
  }
}
