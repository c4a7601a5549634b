/**
 The CD-ARC engine as the program runs it: the fingerprint index over write-evict units, the unit
 allocator, the placement of units on the cache device, and the per-request steps.  The five lists are
 the same program text as in `DarcIndex`; here they are held as one value and moved on by `ArcLists`,
 with every lost or gained reference reported to the fingerprint index as the program does.
 */
module CdarcIndex {
  import opened Common
  import opened Storage
  import L = ArcLists
  import M = CdarcModel
  import Y = CdarcSystem

  class WeuAllocator {
    var weuId: nat
    const weuSize: nat
    var currentOffset: nat
    var evictedWeuIds: set<nat>

    function State(): M.WeuAllocator
      reads this
    {
      M.WeuAllocator(weuId, weuSize, currentOffset, evictedWeuIds)
    }

    constructor (weuSize: nat)
      ensures State() == M.WeuAllocator(0, weuSize, 0, {})
    {
      this.weuSize := weuSize;
      weuId, currentOffset, evictedWeuIds := 0, 0, {};
    }

    method Recycle(weu: nat)
      modifies this
      ensures State() == old(State()).(evicted := old(evictedWeuIds) + {weu})
    {
      evictedWeuIds := evictedWeuIds + {weu};
    }

    method Allocate(len: nat) returns (e: M.Extent)
      modifies this
      ensures (State(), e) == M.Allocate(old(State()), len)
    {
      if len + currentOffset > weuSize {
        weuId := weuId + 1;
        currentOffset := 0;
      }
      e := M.Extent(weuId, currentOffset, len);
      currentOffset := currentOffset + len;
    }
  }

  class CdarcLbaIndex {
    var lists: L.Lists

    constructor (capacity: nat, p: nat, x: nat)
      ensures lists == L.Empty(capacity, p, x)
    {
      lists := L.Empty(capacity, p, x);
    }

    method AdjustAdaptiveFactor(a: Addr)
      modifies this
      ensures lists == L.AdjustAdaptiveFactor(old(lists), a)
    {
      lists := L.AdjustAdaptiveFactor(lists, a);
    }

    /** Demote one address to make room for `a`. */
    method ManageMetadataCache(a: Addr, fps: CdarcFpIndex)
      requires L.Inv(lists) && L.HeldSize(lists) > 0 && M.Counted(M.Cdarc(lists, fps.State()))
      modifies this, fps
      ensures M.Cdarc(lists, fps.State()) == M.Manage(old(M.Cdarc(lists, fps.State())), a)
    {
      L.ManageKeepsInv(lists, a);
      var o := L.ManageMetadataCache(lists, a);
      M.HeldIsCounted(M.Cdarc(lists, fps.State()), o.demoted.value);
      fps.Dereference(lists.mp[o.demoted.value].fp);
      lists := o.lists;
    }

    method Update(a: Addr, fp: Fp, fps: CdarcFpIndex)
      requires L.Inv(lists) && M.Exact(M.Cdarc(lists, fps.State())) && fp in fps.mp
      modifies this, fps
      ensures M.Cdarc(lists, fps.State()) == M.Record(old(M.Cdarc(lists, fps.State())), a, fp)
    {
      L.UpdateRecords(lists, a, fp);
      var o := L.Update(lists, a, fp);
      if o.demoted.Some? {
        M.HeldIsCounted(M.Cdarc(lists, fps.State()), o.demoted.value);
        fps.Dereference(lists.mp[o.demoted.value].fp);
      }
      lists := o.lists;
      fps.Reference(fp);
    }
  }

  class CdarcFpIndex {
    var mp: map<Fp, M.Extent>
    var weuReferenceCount: map<nat, nat>
    var zeroReferenceList: seq<nat>
    const alloc: WeuAllocator
    const capacity: nat

    function State(): M.FpIndex
      reads this, alloc
    {
      M.FpIndex(mp, weuReferenceCount, zeroReferenceList, alloc.State(), capacity)
    }

    constructor (capacity: nat, weuSize: nat)
      ensures State() == M.EmptyFps(capacity, weuSize) && fresh(alloc)
    {
      this.capacity := capacity;
      mp, weuReferenceCount, zeroReferenceList := map[], map[], [];
      alloc := new WeuAllocator(weuSize);
    }

    /** A stale fingerprint is dropped on the way. */
    method Lookup(fp: Fp) returns (e: Option<M.Extent>)
      modifies this
      ensures (State(), e) == M.Lookup(old(State()), fp)
    {
      if fp !in mp { return None; }
      if mp[fp].weu in alloc.evictedWeuIds {
        mp := mp - {fp};
        return None;
      }
      return Some(mp[fp]);
    }

    method Reference(fp: Fp)
      requires fp in mp
      modifies this
      ensures State() == M.Reference(old(State()), fp)
    {
      var weu := mp[fp].weu;
      if weu !in weuReferenceCount {
        weuReferenceCount := weuReferenceCount[weu := 0];
      }
      weuReferenceCount := weuReferenceCount[weu := weuReferenceCount[weu] + 1];
      if weuReferenceCount[weu] == 1 {
        zeroReferenceList := Erase(zeroReferenceList, weu);
      }
    }

    method Dereference(fp: Fp)
      requires fp in mp && M.CountOf(State(), mp[fp].weu) > 0
      modifies this
      ensures State() == M.Dereference(old(State()), fp)
    {
      var weu := mp[fp].weu;
      weuReferenceCount := weuReferenceCount[weu := weuReferenceCount[weu] - 1];
      if weuReferenceCount[weu] == 0 {
        zeroReferenceList := [weu] + zeroReferenceList;
      }
    }

    /** Demote addresses, through the other index, until some unit has no reference left. */
    method DrainReferences(lbas: CdarcLbaIndex, a: Addr)
      requires L.Inv(lbas.lists) && M.Exact(M.Cdarc(lbas.lists, State())) && weuReferenceCount != map[]
      modifies this, lbas
      ensures M.Cdarc(lbas.lists, State()) == M.Drain(old(M.Cdarc(lbas.lists, State())), a)
      ensures zeroReferenceList != []
    {
      ghost var d0 := M.Cdarc(lbas.lists, State());
      while |zeroReferenceList| == 0
        invariant L.Inv(lbas.lists) && M.Exact(M.Cdarc(lbas.lists, State())) && weuReferenceCount != map[]
        invariant M.Drain(M.Cdarc(lbas.lists, State()), a) == M.Drain(d0, a)
        decreases L.HeldSize(lbas.lists)
      {
        ghost var d := M.Cdarc(lbas.lists, State());
        M.NoZeroMeansHeld(d);
        M.ManageKeepsExact(d, a);
        lbas.ManageMetadataCache(a, this);
        assert weuReferenceCount.Keys != {};
      }
    }

    method EvictZero() returns (weu: nat)
      requires zeroReferenceList != []
      modifies this, alloc
      ensures State() == M.EvictZero(old(State()))
      ensures weu == old(zeroReferenceList[|zeroReferenceList| - 1])
    {
      weu := zeroReferenceList[|zeroReferenceList| - 1];
      zeroReferenceList := zeroReferenceList[..|zeroReferenceList| - 1];
      weuReferenceCount := weuReferenceCount - {weu};
      alloc.Recycle(weu);
    }

    /** Enter `fp` unless it is in the map; a full device first gives up an unreferenced unit. */
    method Update(lbas: CdarcLbaIndex, a: Addr, fp: Fp, len: nat)
      returns (placed: Option<M.Extent>, evicted: Option<nat>)
      requires M.Inv(M.Cdarc(lbas.lists, State())) && len <= alloc.weuSize
      modifies this, alloc, lbas
      ensures M.Inserted(M.Cdarc(lbas.lists, State()), placed, evicted)
              == M.Insert(old(M.Cdarc(lbas.lists, State())), a, fp, len)
    {
      evicted := None;
      if fp in mp { return None, None; }
      if len + alloc.currentOffset > alloc.weuSize && |weuReferenceCount| == capacity {
        M.DrainKeepsExact(M.Cdarc(lbas.lists, State()), a);
        DrainReferences(lbas, a);
        var weu := EvictZero();
        evicted := Some(weu);
      }
      var e := alloc.Allocate(len);
      mp := mp[fp := e];
      placed := Some(e);
    }
  }

  /** Where the data goes: the primary, the cache device, or the buffer of the open unit. */
  class ManageModule {
    var weuToCachedataLocation: map<nat, nat>
    var currentWeuId: nat
    var currentCachedataLocation: nat
    const weuSize: nat
    var primary: Device
    var cache: Block
    var buffer: Block

    function At(): Y.Placement
      reads this
    {
      Y.Placement(weuToCachedataLocation, currentWeuId, currentCachedataLocation)
    }

    constructor (weuSize: nat, primary: Device, cache: Block, buffer: Block)
      ensures At() == Y.Placement(map[], 0, 0)
      ensures this.weuSize == weuSize && this.primary == primary && this.cache == cache && this.buffer == buffer
    {
      this.weuSize, this.primary, this.cache, this.buffer := weuSize, primary, cache, buffer;
      weuToCachedataLocation, currentWeuId, currentCachedataLocation := map[], 0, 0;
    }

    method ReadCached(e: M.Extent) returns (blob: Block)
      requires e.weu == currentWeuId || e.weu in weuToCachedataLocation
      ensures forall d :: blob == Y.ReadExtent(Y.Sys(d, At(), primary, cache, buffer), e)
    {
      if currentWeuId == e.weu {
        blob := Bytes(buffer, e.offset, e.len);
      } else {
        blob := Bytes(cache, weuToCachedataLocation[e.weu] + e.offset, e.len);
      }
    }

    /** Write a new blob to the open unit, closing the previous one first when the unit changed. */
    method WriteCached(e: M.Extent, evicted: Option<nat>, blob: Block)
      requires |buffer| == weuSize
      requires evicted.Some? ==> evicted.value == currentWeuId || evicted.value in weuToCachedataLocation
      modifies this
      ensures primary == old(primary)
      ensures forall d ::
                Y.PlaceBlob(Y.Sys(d, old(At()), old(primary), old(cache), old(buffer)), e, evicted, blob)
                == Y.Sys(d, At(), primary, cache, buffer)
    {
      if currentWeuId != e.weu {
        if evicted != Some(currentWeuId) {
          if evicted.Some? {
            var to := weuToCachedataLocation[evicted.value];
            weuToCachedataLocation := weuToCachedataLocation - {evicted.value};
            cache := Patch(cache, to, buffer);
            weuToCachedataLocation := weuToCachedataLocation[currentWeuId := to];
          } else {
            cache := Patch(cache, currentCachedataLocation, buffer);
            weuToCachedataLocation := weuToCachedataLocation[currentWeuId := currentCachedataLocation];
            currentCachedataLocation := currentCachedataLocation + weuSize;
          }
        }
        currentWeuId := e.weu;
      }
      buffer := Patch(buffer, e.offset, blob);
    }
  }

  class AustereCache {
    const lbas: CdarcLbaIndex
    const fps: CdarcFpIndex
    const manage: ManageModule
    const cfg: Y.Config

    function State(): Y.Sys
      reads this, lbas, fps, fps.alloc, manage
    {
      Y.Sys(M.Cdarc(lbas.lists, fps.State()), manage.At(), manage.primary, manage.cache, manage.buffer)
    }

    /** Every address the cache knows is up to date, and everything it stores is readable. */
    ghost predicate Coherent()
      reads this, lbas, fps, fps.alloc, manage
    {
      && Y.Sound(State(), cfg) && Y.Fresh(lbas.lists, manage.primary, cfg)
      && CollisionFree(cfg.h) && Inverse(cfg.codec) && manage.weuSize == fps.alloc.weuSize
    }

    constructor (lbaCapacity: nat, capacity: nat, weuSize: nat, primary: Device, cache: Block, buffer: Block,
                 cfg: Y.Config)
      requires lbaCapacity >= 1 && capacity >= 1 && 1 <= cfg.chunk <= weuSize == |buffer|
      requires SlotAt(capacity, weuSize) <= |cache| && forall a :: a in primary ==> |primary[a]| == cfg.chunk
      requires CollisionFree(cfg.h) && Inverse(cfg.codec)
      ensures Coherent() && State() == Y.Init(lbaCapacity, 0, capacity, weuSize, primary, cache, buffer)
      ensures fresh({lbas, fps, fps.alloc, manage})
    {
      lbas := new CdarcLbaIndex(lbaCapacity, 0, 0);
      fps := new CdarcFpIndex(capacity, weuSize);
      manage := new ManageModule(weuSize, primary, cache, buffer);
      this.cfg := cfg;
      new;
      Y.InitSound(lbaCapacity, 0, capacity, weuSize, primary, cache, buffer, cfg);
    }

    method UpdateMetadata(a: Addr, fp: Fp, len: nat) returns (placed: Option<M.Extent>, evicted: Option<nat>)
      requires M.Inv(State().d) && len <= fps.alloc.weuSize && (fp in fps.mp ==> M.Live(fps.State(), fp))
      modifies lbas, fps, fps.alloc
      ensures var i := M.Update(old(State()).d, a, fp, len);
              State() == old(State()).(d := i.d) && placed == i.placed && evicted == i.evicted
    {
      M.AdjustKeepsInv(State().d, a);
      lbas.AdjustAdaptiveFactor(a);
      M.InsertKeepsInv(State().d, a, fp, len);
      placed, evicted := fps.Update(lbas, a, fp, len);
      lbas.Update(a, fp, fps);
    }

    /** Deduplicate a chunk, update the metadata, and store the chunk unless its content was cached. */
    method Admit(a: Addr, data: Block)
      requires Y.Sound(State(), cfg) && Inverse(cfg.codec) && manage.weuSize == fps.alloc.weuSize && |data| == cfg.chunk
      modifies lbas, fps, fps.alloc, manage
      ensures State() == Y.Admit(old(State()), a, data, cfg)
    {
      var fp, blob := cfg.h(data), Y.Blob(cfg.codec, data);
      Y.AdmitReady(State(), cfg, a, data);
      var known := fps.Lookup(fp);
      var placed, evicted := UpdateMetadata(a, fp, |blob|);
      if known.None? {
        manage.WriteCached(placed.value, evicted, blob);
      }
    }

    /** The extent an address can be served from, if any. */
    method LookUp(a: Addr) returns (cached: Option<M.Extent>)
      requires Y.Sound(State(), cfg)
      modifies fps
      ensures if a !in lbas.lists.mp then State() == old(State()) && cached == None
              else
                var fp := lbas.lists.mp[a].fp;
                && State() == Y.LookUp(old(State()), fp)
                && cached == if M.Live(old(fps.State()), fp) then Some(old(fps.mp)[fp]) else None
      ensures Y.Sound(State(), cfg)
    {
      cached := None;
      if a in lbas.lists.mp {
        Y.LookUpSound(State(), cfg, lbas.lists.mp[a].fp);
        cached := fps.Lookup(lbas.lists.mp[a].fp);
      }
    }

    method InternalRead(a: Addr) returns (data: Block)
      requires Coherent()
      modifies lbas, fps, fps.alloc, manage
      ensures State() == Y.InternalRead(old(State()), a, cfg).0
      ensures data == Y.InternalRead(old(State()), a, cfg).1
    {
      var cached := LookUp(a);
      if cached.Some? {
        var blob := manage.ReadCached(cached.value);
        data := Y.Unblob(cfg, blob);
        var _, _ := UpdateMetadata(a, lbas.lists.mp[a].fp, cached.value.len);
      } else {
        data := ChunkAt(manage.primary, a, cfg.chunk);
        Admit(a, data);
      }
    }

    method InternalWrite(a: Addr, data: Block)
      requires Coherent() && |data| == cfg.chunk
      modifies lbas, fps, fps.alloc, manage
      ensures State() == Y.InternalWrite(old(State()), a, data, cfg)
    {
      Admit(a, data);
      manage.primary := manage.primary[a := data];
    }

    /** Read `n` consecutive chunks: they are the primary's, and the cache stays coherent. */
    method Read(a: Addr, n: nat) returns (blocks: seq<Block>)
      requires Coherent()
      modifies lbas, fps, fps.alloc, manage
      ensures Coherent() && manage.primary == old(manage.primary) && |blocks| == n
      ensures forall i :: 0 <= i < n ==> blocks[i] == ChunkAt(manage.primary, a + i, cfg.chunk)
    {
      hide Y.Sound, Y.Fresh;
      blocks := [];
      while |blocks| < n
        invariant Coherent() && manage.primary == old(manage.primary) && |blocks| <= n
        invariant forall i :: 0 <= i < |blocks| ==> blocks[i] == ChunkAt(manage.primary, a + i, cfg.chunk)
      {
        var data := ReadChunk(a + |blocks|);
        blocks := blocks + [data];
      }
    }

    method ReadChunk(a: Addr) returns (data: Block)
      requires Coherent()
      modifies lbas, fps, fps.alloc, manage
      ensures Coherent() && manage.primary == old(manage.primary) && data == ChunkAt(manage.primary, a, cfg.chunk)
    {
      Y.StepTransparent(State(), cfg, Common.Read(a));
      data := InternalRead(a);
    }

    /** Write consecutive chunks from address `a` on: the primary changes there and nowhere else. */
    method Write(a: Addr, blocks: seq<Block>)
      requires Coherent() && forall i :: 0 <= i < |blocks| ==> |blocks[i]| == cfg.chunk
      modifies lbas, fps, fps.alloc, manage
      ensures Coherent() && manage.primary == Overwritten(old(manage.primary), a, blocks, |blocks|)
      ensures forall b: Addr :: ChunkAt(manage.primary, b, cfg.chunk)
                                == if a <= b < a + |blocks| then blocks[b - a]
                                   else ChunkAt(old(manage.primary), b, cfg.chunk)
    {
      hide Y.Sound, Y.Fresh;
      var i := 0;
      while i < |blocks|
        invariant i <= |blocks| && Coherent() && manage.primary == Overwritten(old(manage.primary), a, blocks, i)
      {
        WriteChunk(a + i, blocks[i]);
        i := i + 1;
      }
      forall b: Addr { OverwrittenBlock(old(manage.primary), a, blocks, |blocks|, b); }
    }

    method WriteChunk(a: Addr, data: Block)
      requires Coherent() && |data| == cfg.chunk
      modifies lbas, fps, fps.alloc, manage
      ensures Coherent() && manage.primary == old(manage.primary)[a := data]
    {
      Y.StepTransparent(State(), cfg, Common.Write(a, data));
      InternalWrite(a, data);
    }
  }
}
