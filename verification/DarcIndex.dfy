/**
 The D-ARC engine as the program runs it: two indexes that update their lists, maps and counts in place
 and call each other, a dirty list over two devices, and the per-request steps.  Every method is proved
 against the functions of `ArcLists`, `DarcModel` and `DarcSystem`; that the aborts of the source are
 unreachable is the preconditions of `Reference`, `Dereference` and `MoveFromAToB`.
 */
module DarcIndex {
  import opened Common
  import L = ArcLists
  import D = DarcModel
  import Y = DarcSystem

  class SpaceAllocator {
    var capacity: nat
    var nextLocation: nat
    var freeLocation: nat
    const chunkSize: nat

    function State(): D.Space
      reads this
    {
      D.Space(capacity, nextLocation, freeLocation, chunkSize)
    }

    constructor (capacity: nat, chunkSize: nat)
      ensures State() == D.Space(capacity, 0, 0, chunkSize)
    {
      this.capacity, this.chunkSize := capacity, chunkSize;
      nextLocation, freeLocation := 0, 0;
    }

    method Recycle(location: nat)
      modifies this
      ensures State() == D.Recycle(old(State()), location)
    {
      freeLocation := location;
    }

    method Allocate() returns (location: nat)
      modifies this
      ensures (State(), location) == D.Allocate(old(State()))
    {
      if nextLocation != capacity {
        location := nextLocation;
        nextLocation := nextLocation + chunkSize;
      } else {
        location := freeLocation;
      }
    }
  }

  class Devices {
    var primary: Device
    var cache: Device

    constructor (primary: Device, cache: Device)
      ensures this.primary == primary && this.cache == cache
    {
      this.primary, this.cache := primary, cache;
    }
  }

  class DirtyList {
    var latestUpdates: map<Addr, nat>
    const io: Devices

    constructor (io: Devices)
      ensures latestUpdates == map[] && this.io == io
    {
      latestUpdates := map[];
      this.io := io;
    }

    method FlushOneBlock(location: nat)
      modifies this, io
      ensures io.cache == old(io.cache)
      ensures io.primary == Y.CopyTo(old(io.primary), Y.DirtyAt(old(latestUpdates), location),
                                     BlockAt(old(io.cache), location))
      ensures latestUpdates == old(latestUpdates) - Y.DirtyAt(old(latestUpdates), location)
    {
      ghost var dirty0 := latestUpdates;
      ghost var primary0 := io.primary;
      var lbasToFlush: set<Addr> := {};
      var toScan := latestUpdates.Keys;
      while toScan != {}
        invariant toScan <= dirty0.Keys && latestUpdates == dirty0 && io.primary == primary0
        invariant io.cache == old(io.cache)
        invariant lbasToFlush == Y.DirtyAt(dirty0, location) - toScan
        decreases toScan
      {
        var a :| a in toScan;
        if latestUpdates[a] == location { lbasToFlush := lbasToFlush + {a}; }
        toScan := toScan - {a};
      }
      var data := BlockAt(io.cache, location);
      while lbasToFlush != {}
        invariant lbasToFlush <= Y.DirtyAt(dirty0, location)
        invariant io.cache == old(io.cache)
        invariant latestUpdates == dirty0 - (Y.DirtyAt(dirty0, location) - lbasToFlush)
        invariant io.primary == Y.CopyTo(primary0, Y.DirtyAt(dirty0, location) - lbasToFlush, data)
        decreases lbasToFlush
      {
        var a :| a in lbasToFlush;
        io.primary := io.primary[a := data];
        latestUpdates := latestUpdates - {a};
        lbasToFlush := lbasToFlush - {a};
      }
    }
  }

  class DarcFpIndex {
    var mp: map<Fp, D.FpEntry>
    var zeroReferenceList: seq<Fp>
    const space: SpaceAllocator
    const capacity: nat

    function State(): D.FpIndex
      reads this, space
    {
      D.FpIndex(mp, zeroReferenceList, space.State(), capacity)
    }

    constructor (capacity: nat, chunkSize: nat)
      ensures State() == D.EmptyFps(capacity, chunkSize) && fresh(space)
    {
      this.capacity := capacity;
      mp, zeroReferenceList := map[], [];
      space := new SpaceAllocator(capacity * chunkSize, chunkSize);
    }

    method Lookup(fp: Fp) returns (location: Option<nat>)
      ensures location == if fp in mp then Some(mp[fp].location) else None
    {
      location := if fp in mp then Some(mp[fp].location) else None;
    }

    method Reference(fp: Fp)
      requires fp in mp
      modifies this
      ensures State() == D.Reference(old(State()), fp)
    {
      var e := mp[fp];
      mp := mp[fp := e.(count := e.count + 1)];
      if mp[fp].count == 1 {
        zeroReferenceList := Erase(zeroReferenceList, fp);
      }
    }

    method Dereference(fp: Fp)
      requires fp in mp && mp[fp].count > 0
      modifies this
      ensures State() == D.Dereference(old(State()), fp)
    {
      var e := mp[fp];
      mp := mp[fp := e.(count := e.count - 1)];
      if mp[fp].count == 0 {
        zeroReferenceList := [fp] + zeroReferenceList;
      }
    }

    /** Demote addresses, through the other index, until some fingerprint has no reference left. */
    method DrainReferences(lbas: DarcLbaIndex, a: Addr)
      requires D.Inv(D.Darc(lbas.State(), State())) && |mp| == capacity
      modifies this, lbas
      ensures D.Darc(lbas.State(), State()) == D.Drain(old(D.Darc(lbas.State(), State())), a)
      ensures zeroReferenceList != []
    {
      ghost var d0 := D.Darc(lbas.State(), State());
      while |zeroReferenceList| == 0
        invariant D.Inv(D.Darc(lbas.State(), State())) && |mp| == capacity
        invariant D.Drain(D.Darc(lbas.State(), State()), a) == D.Drain(d0, a)
        decreases L.HeldSize(lbas.State())
      {
        ghost var d := D.Darc(lbas.State(), State());
        D.NoZeroMeansHeld(d);
        D.ManageKeepsInv(d, a);
        D.SamePlacesPlaced(d.fps, D.Manage(d, a).fps);
        lbas.ManageMetadataCache(a, this);
      }
    }

    /** Evict the least recently zeroed fingerprint; in write-back mode, first save the dirty block it stores. */
    method EvictZero(dirty: DirtyList, mode: Y.Mode)
      requires zeroReferenceList != [] && zeroReferenceList[|zeroReferenceList| - 1] in mp
      modifies this, space, dirty, dirty.io
      ensures State() == D.EvictZero(old(State())) && dirty.io.cache == old(dirty.io.cache)
      ensures var victim := space.freeLocation;
              && dirty.io.primary == (if mode == Y.WriteThrough then old(dirty.io.primary)
                                      else Y.CopyTo(old(dirty.io.primary), Y.DirtyAt(old(dirty.latestUpdates), victim),
                                                    BlockAt(old(dirty.io.cache), victim)))
              && dirty.latestUpdates == (if mode == Y.WriteThrough then old(dirty.latestUpdates)
                                         else old(dirty.latestUpdates) - Y.DirtyAt(old(dirty.latestUpdates), victim))
    {
      var victim := zeroReferenceList[|zeroReferenceList| - 1];
      zeroReferenceList := zeroReferenceList[..|zeroReferenceList| - 1];
      space.Recycle(mp[victim].location);
      if mode == Y.WriteBack { dirty.FlushOneBlock(mp[victim].location); }
      mp := mp - {victim};
    }

    /** Enter `fp` unless it is cached, evicting an unreferenced fingerprint when the index is full. */
    method Update(lbas: DarcLbaIndex, dirty: DirtyList, mode: Y.Mode, a: Addr, fp: Fp) returns (location: Option<nat>)
      requires D.Inv(D.Darc(lbas.State(), State()))
      modifies this, space, lbas, dirty, dirty.io
      ensures var i := D.Insert(old(D.Darc(lbas.State(), State())), a, fp);
              && D.Darc(lbas.State(), State()) == i.d && location == i.location
              && dirty.io.cache == old(dirty.io.cache)
              && (if mode == Y.WriteBack && i.evicted.Some? then
                    && dirty.io.primary == Y.CopyTo(old(dirty.io.primary),
                                                    Y.DirtyAt(old(dirty.latestUpdates), i.evicted.value),
                                                    BlockAt(old(dirty.io.cache), i.evicted.value))
                    && dirty.latestUpdates == old(dirty.latestUpdates)
                                              - Y.DirtyAt(old(dirty.latestUpdates), i.evicted.value)
                  else
                    dirty.io.primary == old(dirty.io.primary) && dirty.latestUpdates == old(dirty.latestUpdates))
    {
      if fp in mp { return None; }
      if |mp| == capacity {
        D.DrainKeepsInv(D.Darc(lbas.State(), State()), a);
        DrainReferences(lbas, a);
        D.EvictKeepsExact(D.Darc(lbas.State(), State()));
        EvictZero(dirty, mode);
      }
      var l := space.Allocate();
      mp := mp[fp := D.FpEntry(l, 0)];
      location := Some(l);
    }
  }

  class DarcLbaIndex {
    var t1: seq<Addr>
    var t2: seq<Addr>
    var b1: seq<Addr>
    var b2: seq<Addr>
    var b3: seq<Addr>
    var mp: map<Addr, L.Entry>
    var p: nat
    var x: nat
    const capacity: nat

    function State(): L.Lists
      reads this
    {
      L.Lists(t1, t2, b1, b2, b3, mp, p, x, capacity)
    }

    constructor (capacity: nat, p: nat, x: nat)
      ensures State() == L.Empty(capacity, p, x)
    {
      t1, t2, b1, b2, b3, mp := [], [], [], [], [], map[];
      this.p, this.x, this.capacity := p, x, capacity;
    }

    method Lookup(a: Addr) returns (fp: Option<Fp>)
      ensures fp == if a in mp then Some(mp[a].fp) else None
    {
      fp := if a in mp then Some(mp[a].fp) else None;
    }

    method AdjustAdaptiveFactor(a: Addr)
      modifies this
      ensures State() == L.AdjustAdaptiveFactor(old(State()), a)
    {
      if a !in mp { return; }
      if mp[a].list == L.B1 {
        if p < capacity { p := p + 1; }
      } else if mp[a].list == L.B2 {
        if p > 0 { p := p - 1; }
      }
    }

    static predicate Holds(id: L.ListId) { id == L.T1 || id == L.T2 }

    method MoveFromAToB(from: L.ListId, to: L.ListId, fps: DarcFpIndex)
      requires from != to && L.Of(State(), from) != []
      requires var a := L.Of(State(), from)[|L.Of(State(), from)| - 1];
               && a in mp
               && (Holds(from) || Holds(to) ==> mp[a].fp in fps.mp)
               && (Holds(from) ==> fps.mp[mp[a].fp].count > 0)
      modifies this, fps
      ensures State() == L.MoveBack(old(State()), from, to)
      ensures var fp := old(mp[L.Of(State(), from)[|L.Of(State(), from)| - 1]].fp);
              var f1 := if Holds(from) then D.Dereference(old(fps.State()), fp) else old(fps.State());
              fps.State() == if Holds(to) then D.Reference(f1, fp) else f1
    {
      var a := PopBack(from);
      if Holds(from) { fps.Dereference(mp[a].fp); }
      if Holds(to) { fps.Reference(mp[a].fp); }
      mp := mp[a := mp[a].(list := to)];
      PushFront(to, a);
    }

    method PopBack(id: L.ListId) returns (a: Addr)
      requires L.Of(State(), id) != []
      modifies this
      ensures a == old(L.Of(State(), id)[|L.Of(State(), id)| - 1])
      ensures State() == L.Put(old(State()), id, old(L.Of(State(), id)[..|L.Of(State(), id)| - 1]))
    {
      match id {
        case T1 => a := t1[|t1| - 1]; t1 := t1[..|t1| - 1];
        case T2 => a := t2[|t2| - 1]; t2 := t2[..|t2| - 1];
        case B1 => a := b1[|b1| - 1]; b1 := b1[..|b1| - 1];
        case B2 => a := b2[|b2| - 1]; b2 := b2[..|b2| - 1];
        case B3 => a := b3[|b3| - 1]; b3 := b3[..|b3| - 1];
      }
    }

    method PushFront(id: L.ListId, a: Addr)
      modifies this
      ensures State() == L.Put(old(State()), id, [a] + old(L.Of(State(), id)))
    {
      match id {
        case T1 => t1 := [a] + t1;
        case T2 => t2 := [a] + t2;
        case B1 => b1 := [a] + b1;
        case B2 => b2 := [a] + b2;
        case B3 => b3 := [a] + b3;
      }
    }

    /** Forget the least recent ghost of `from`; no reference count changes. */
    method ShiftToB3(from: L.ListId, fps: DarcFpIndex)
      requires from == L.B1 || from == L.B2
      requires L.Wf(State()) && L.Of(State(), from) != []
      modifies this, fps
      ensures State() == L.MoveBack(old(State()), from, L.B3) && fps.State() == old(fps.State())
      ensures L.Wf(State()) && L.HeldSize(State()) == L.HeldSize(old(State()))
      ensures mp.Keys == old(mp.Keys) && forall b :: b in mp ==> mp[b].fp == old(mp)[b].fp
      ensures old(D.Counted(D.Darc(State(), fps.State()))) ==> D.Counted(D.Darc(State(), fps.State()))
    {
      ghost var s := State();
      assert L.Listed(L.Of(s, from), mp, from);
      L.ShiftToB3KeepsWf(s, from);
      MoveFromAToB(from, L.B3, fps);
      if D.Counted(D.Darc(s, fps.State())) { D.SameHeldSameCounts(D.Darc(s, fps.State()), State()); }
    }

    /** Demote one address to make room for `a`; the lists it takes from are never empty. */
    method ManageMetadataCache(a: Addr, fps: DarcFpIndex)
      requires L.Inv(State()) && L.HeldSize(State()) > 0
      requires D.Counted(D.Darc(State(), fps.State()))
      modifies this, fps
      ensures State() == L.ManageMetadataCache(old(State()), a).lists
      ensures fps.State() == D.DereferenceOf(old(fps.State()), old(State()),
                                             L.ManageMetadataCache(old(State()), a).demoted)
    {
      if |t1| + |b1| >= capacity {
        if |t1| >= capacity {
          RetireT1(a, fps);
        } else {
          ShiftAndReplace(L.B1, a, fps);
        }
      } else if |b1| + |b2| >= capacity {
        ShiftAndReplace(L.B2, a, fps);
      } else {
        ReplaceInMetadataCache(a, fps);
      }
    }

    /** With all of T1 and B1's share in T1: demote T1's least recent entry and forget B1's. */
    method RetireT1(a: Addr, fps: DarcFpIndex)
      requires L.Inv(State()) && L.HeldSize(State()) > 0 && |t1| + |b1| >= capacity && |t1| >= capacity
      requires D.Counted(D.Darc(State(), fps.State()))
      modifies this, fps
      ensures State() == L.ManageMetadataCache(old(State()), a).lists
      ensures fps.State()
              == D.DereferenceOf(old(fps.State()), old(State()), L.ManageMetadataCache(old(State()), a).demoted)
    {
      L.RetireT1KeepsWf(State());
      D.HeldIsCounted(D.Darc(State(), fps.State()), t1[|t1| - 1]);
      MoveFromAToB(L.T1, L.B1, fps);
      ShiftToB3(L.B1, fps);
    }

    /** Forget a ghost of `from`, then demote from T1 or T2. */
    method ShiftAndReplace(from: L.ListId, a: Addr, fps: DarcFpIndex)
      requires from == L.B1 || from == L.B2
      requires L.Wf(State()) && L.HeldSize(State()) > 0 && L.Of(State(), from) != []
      requires D.Counted(D.Darc(State(), fps.State()))
      modifies this, fps
      ensures State() == L.ReplaceInMetadataCache(L.MoveBack(old(State()), from, L.B3), a).lists
      ensures fps.State() == D.DereferenceOf(old(fps.State()), old(State()),
                                             L.ReplaceInMetadataCache(L.MoveBack(old(State()), from, L.B3), a).demoted)
    {
      ShiftToB3(from, fps);
      ghost var m := State();
      ReplaceInMetadataCache(a, fps);
    }

    method ReplaceInMetadataCache(a: Addr, fps: DarcFpIndex)
      requires L.Wf(State()) && L.HeldSize(State()) > 0
      requires D.Counted(D.Darc(State(), fps.State()))
      modifies this, fps
      ensures State() == L.ReplaceInMetadataCache(old(State()), a).lists
      ensures fps.State() == D.DereferenceOf(old(fps.State()), old(State()),
                                             L.ReplaceInMetadataCache(old(State()), a).demoted)
    {
      assert L.Listed(L.Of(State(), L.T1), mp, L.T1) && L.Listed(L.Of(State(), L.T2), mp, L.T2);
      if t1 != [] && (|t1| > p || (|t1| == p && a in mp && mp[a].list == L.B2) || t2 == []) {
        D.HeldIsCounted(D.Darc(State(), fps.State()), t1[|t1| - 1]);
        MoveFromAToB(L.T1, L.B1, fps);
      } else {
        D.HeldIsCounted(D.Darc(State(), fps.State()), t2[|t2| - 1]);
        MoveFromAToB(L.T2, L.B2, fps);
      }
    }

    method CheckMetadataCache(a: Addr, fps: DarcFpIndex, ghost pending: set<Fp>)
      requires L.Inv(State()) && D.Exact(D.Darc(State(), fps.State()), pending)
      modifies this, fps
      ensures L.Inv(State()) && D.Exact(D.Darc(State(), fps.State()), pending)
      ensures !L.Full(State()) && fps.mp.Keys == old(fps.mp.Keys)
      ensures !old(L.Full(State())) ==> State() == old(State()) && fps.State() == old(fps.State())
      ensures State() == L.CheckMetadataCache(old(State()), a).lists
      ensures fps.State() == D.DereferenceOf(old(fps.State()), old(State()),
                                             L.CheckMetadataCache(old(State()), a).demoted)
    {
      ghost var d := D.Darc(State(), fps.State());
      ghost var o := L.CheckMetadataCache(d.lba, a);
      D.CheckKeepsExact(d, a, pending);
      if |t1| + |t2| + |b3| == capacity + x {
        if b3 == [] {
          ManageMetadataCache(a, fps);
        }
        ghost var s := State();
        if b3 != [] {
          mp := mp - {b3[|b3| - 1]};
          b3 := b3[..|b3| - 1];
        }
        assert State() == L.DropB3(s);
      }
      assert D.Darc(State(), fps.State()) == D.Darc(o.lists, D.DereferenceOf(d.fps, d.lba, o.demoted));
    }

    method EraseFrom(id: L.ListId, a: Addr)
      modifies this
      ensures State() == L.Put(old(State()), id, Erase(old(L.Of(State(), id)), a))
    {
      match id {
        case T1 => t1 := Erase(t1, a);
        case T2 => t2 := Erase(t2, a);
        case B1 => b1 := Erase(b1, a);
        case B2 => b2 := Erase(b2, a);
        case B3 => b3 := Erase(b3, a);
      }
    }

    function ListOf(a: Addr): Option<L.ListId>
      reads this
    {
      if a in mp then Some(mp[a].list) else None
    }

    /** Take `a` off its list, dropping the reference it held, and push it to T1 (from B3) or T2. */
    method Promote(a: Addr, fp: Fp, fps: DarcFpIndex)
      requires a in mp && D.Counted(D.Darc(State(), fps.State()))
      modifies this, fps
      ensures State() == L.Promote(old(State()), a, fp)
      ensures fps.State() == if L.InT(old(State()), a) then D.Dereference(old(fps.State()), old(mp[a].fp))
                             else old(fps.State())
    {
      var result := mp[a].list;
      if Holds(result) {
        D.HeldIsCounted(D.Darc(State(), fps.State()), a);
        fps.Dereference(mp[a].fp);
      }
      EraseFrom(result, a);
      var to := if result == L.B3 then L.T1 else L.T2;
      PushFront(to, a);
      mp := mp[a := L.Entry(fp, to)];
    }

    method AddToT1(a: Addr, fp: Fp)
      modifies this
      ensures State() == L.PushFront(old(State()), a, fp, L.T1)
    {
      PushFront(L.T1, a);
      mp := mp[a := L.Entry(fp, L.T1)];
    }

    method Update(a: Addr, fp: Fp, fps: DarcFpIndex, ghost pending: set<Fp>)
      requires L.Inv(State()) && D.Exact(D.Darc(State(), fps.State()), pending)
      requires fp in fps.mp
      modifies this, fps
      ensures D.Darc(State(), fps.State()) == D.Record(old(D.Darc(State(), fps.State())), a, fp)
    {
      ghost var d := D.Darc(State(), fps.State());
      ghost var o := L.Update(State(), a, fp);
      L.UpdateByCase(d.lba, a, fp);
      var result := ListOf(a);
      if result == Some(L.B1) || result == Some(L.B2) {
        CheckMetadataCache(a, fps, pending);
        result := ListOf(a);
        assert fps.State() == D.DereferenceOf(d.fps, d.lba, o.demoted);
      }
      if result.None? {
        CheckMetadataCache(a, fps, pending);
        AddToT1(a, fp);
        assert State() == o.lists && fps.State() == D.DereferenceOf(d.fps, d.lba, o.demoted);
      } else {
        Promote(a, fp, fps);
        assert State() == o.lists && fps.State() == D.DereferenceOf(d.fps, d.lba, o.demoted);
      }
      fps.Reference(fp);
    }
  }

  /** One request at a time over both indexes and both devices. */
  class AustereCache {
    const lbas: DarcLbaIndex
    const fps: DarcFpIndex
    const dirty: DirtyList
    const io: Devices
    const mode: Y.Mode
    const h: Block -> Fp

    function State(): Y.Sys
      reads this, lbas, fps, fps.space, dirty, io
    {
      Y.Sys(D.Darc(lbas.State(), fps.State()), io.primary, io.cache, dirty.latestUpdates, mode)
    }

    ghost predicate Valid(disk: Device)
      reads this, lbas, fps, fps.space, dirty, io
    {
      dirty.io == io && CollisionFree(h) && Y.Sound(State(), disk, h)
    }

    constructor (lbaCapacity: nat, fpCapacity: nat, chunkSize: nat, primary: Device, cache: Device, mode: Y.Mode,
                 h: Block -> Fp)
      requires lbaCapacity >= 1 && fpCapacity >= 1 && chunkSize >= 1 && CollisionFree(h)
      ensures Valid(primary) && State() == Y.Init(lbaCapacity, 0, fpCapacity, chunkSize, primary, cache, mode)
      ensures fresh({lbas, fps, fps.space, dirty, io})
    {
      var devices := new Devices(primary, cache);
      io := devices;
      lbas := new DarcLbaIndex(lbaCapacity, 0, 0);
      fps := new DarcFpIndex(fpCapacity, chunkSize);
      this.mode, this.h := mode, h;
      dirty := new DirtyList(devices);
      new;
      Y.InitSound(lbaCapacity, 0, fpCapacity, chunkSize, primary, cache, mode, h);
    }

    method UpdateMetadata(a: Addr, fp: Fp) returns (location: Option<nat>)
      requires dirty.io == io && D.Inv(D.Darc(lbas.State(), fps.State()))
      modifies lbas, fps, fps.space, dirty, io
      ensures State() == Y.UpdateMetadata(old(State()), a, fp)
      ensures location == D.Update(old(State()).d, a, fp).location
    {
      ghost var d := D.Darc(lbas.State(), fps.State());
      D.AdjustKeepsInv(d, a);
      lbas.AdjustAdaptiveFactor(a);
      D.InsertKeepsInv(D.Darc(lbas.State(), fps.State()), a, fp);
      location := fps.Update(lbas, dirty, mode, a, fp);
      lbas.Update(a, fp, fps, if fp in d.fps.mp then {} else {fp});
    }

    /** Send a chunk to the devices: to the primary for a write in write-through mode, to the cache device
        when its content is new. */
    method ManageWrite(a: Addr, data: Block, isWrite: bool, isDuplicate: bool, location: nat)
      modifies io
      ensures io.primary == if mode == Y.WriteThrough && isWrite then old(io.primary)[a := data] else old(io.primary)
      ensures io.cache == if isDuplicate then old(io.cache) else old(io.cache)[location := data]
    {
      if mode == Y.WriteThrough && isWrite { io.primary := io.primary[a := data]; }
      if !isDuplicate { io.cache := io.cache[location := data]; }
    }

    /** Deduplicate a chunk, update the metadata and send it where it belongs. */
    method Admit(a: Addr, data: Block, isWrite: bool) returns (location: nat)
      requires dirty.io == io && D.Inv(State().d)
      modifies lbas, fps, fps.space, dirty, io
      ensures var s1 := Y.Admit(old(State()), a, data, h);
              && location == Y.LocationOf(s1.d, h(data))
              && State() == if mode == Y.WriteThrough && isWrite then s1.(primary := s1.primary[a := data]) else s1
    {
      D.UpdateKeepsInv(State().d, a, h(data));
      var duplicate := fps.Lookup(h(data));
      var entered := UpdateMetadata(a, h(data));
      location := if duplicate.Some? then duplicate.value else entered.value;
      ManageWrite(a, data, isWrite, duplicate.Some?, location);
    }

    method InternalRead(a: Addr, ghost disk: Device) returns (data: Block)
      requires Valid(disk)
      modifies lbas, fps, fps.space, dirty, io
      ensures (State(), data) == Y.InternalRead(old(State()), a, h)
      ensures Valid(disk)
      ensures old(Coherent(disk)) && (mode == Y.WriteThrough || !old(Y.Stale(State(), a)))
              ==> Coherent(disk) && data == BlockAt(disk, a)
    {
      ReadKeepsCoherence(disk, a);
      var known := lbas.Lookup(a);
      var cached: Option<nat> := None;
      if known.Some? { cached := fps.Lookup(known.value); }
      if cached.Some? {
        data := BlockAt(io.cache, cached.value);
        var _ := UpdateMetadata(a, known.value);
      } else {
        data := BlockAt(io.primary, a);
        var _ := Admit(a, data, false);
      }
    }

    method InternalWrite(a: Addr, data: Block, ghost disk: Device)
      requires Valid(disk)
      modifies lbas, fps, fps.space, dirty, io
      ensures State() == Y.InternalWrite(old(State()), a, data, h)
      ensures Valid(disk[a := data])
      ensures old(Coherent(disk)) ==> Coherent(disk[a := data])
    {
      WriteKeepsCoherence(disk, a, data);
      var location := Admit(a, data, true);
      if mode == Y.WriteBack {
        dirty.latestUpdates := dirty.latestUpdates[a := location];
      }
    }

    /** Everything known about addresses is up to date with `disk`, the disk a client should see. */
    ghost predicate Coherent(disk: Device)
      reads this, lbas, fps, fps.space, dirty, io
    {
      Valid(disk) && Y.Fresh(lbas.State(), disk, h)
    }

    lemma ReadKeepsCoherence(disk: Device, a: Addr)
      requires Valid(disk)
      ensures var (s1, data) := Y.InternalRead(State(), a, h);
              && Y.Sound(s1, disk, h)
              && (Coherent(disk) && (mode == Y.WriteThrough || !Y.Stale(State(), a)) ==>
                    Y.Fresh(s1.d.lba, disk, h) && data == BlockAt(disk, a))
    {
      Y.ReadSound(State(), disk, a, h);
      if Coherent(disk) { Y.ReadCorrectIffNotStale(State(), disk, a, h); }
    }

    lemma WriteKeepsCoherence(disk: Device, a: Addr, data: Block)
      requires Valid(disk)
      ensures var s1 := Y.InternalWrite(State(), a, data, h);
              && Y.Sound(s1, disk[a := data], h)
              && (Coherent(disk) ==> Y.Fresh(s1.d.lba, disk[a := data], h))
    {
      Y.WriteSound(State(), disk, a, data, h);
    }

    /** Read `n` consecutive chunks: they are the client's disk's exactly when no read is stale, as in write-through. */
    method Read(a: Addr, n: nat, ghost disk: Device) returns (blocks: seq<Block>)
      requires Valid(disk)
      modifies lbas, fps, fps.space, dirty, io
      ensures Valid(disk) && |blocks| == n
      ensures (State(), Y.Answers(blocks)) == Y.Run(old(State()), Y.Reads(a, n), h)
      ensures old(Coherent(disk)) ==> (Y.AreBlocks(disk, a, blocks) <==> Y.NeverStale(old(State()), Y.Reads(a, n), h))
      ensures mode == Y.WriteThrough ==> Y.NeverStale(old(State()), Y.Reads(a, n), h)
      ensures old(Coherent(disk)) && Y.NeverStale(old(State()), Y.Reads(a, n), h) ==> Coherent(disk)
    {
      hide Y.Sound, Y.Fresh, Y.Left, Y.NeverStale, Y.InternalRead, Y.Stale;
      ghost var s, all := State(), Y.Reads(a, n);
      blocks := [];
      Y.LeftAll(s, a, n, h);
      while |blocks| < n
        invariant |blocks| <= n && Valid(disk) && Y.Left(s, State(), a, n, h, blocks)
        invariant old(Coherent(disk)) && Y.NeverStale(s, all, h) ==> Coherent(disk)
      {
        ghost var now := State();
        var data := InternalRead(a + |blocks|, disk);
        Y.LeftStep(s, now, a, n, h, blocks, State(), data);
        blocks := blocks + [data];
      }
      Y.LeftNone(s, State(), a, n, h, blocks);
      Y.RangeRightIffNeverStale(s, disk, a, n, h, blocks);
    }

    /** Write consecutive chunks from address `a` on. */
    method Write(a: Addr, blocks: seq<Block>, ghost disk: Device)
      requires Valid(disk)
      modifies lbas, fps, fps.space, dirty, io
      ensures var r := Overwritten(disk, a, blocks, |blocks|);
              && Valid(r) && (old(Coherent(disk)) ==> Coherent(r))
              && forall b: Addr :: BlockAt(r, b) == if a <= b < a + |blocks| then blocks[b - a] else BlockAt(disk, b)
    {
      hide Y.Sound, Y.Fresh, Y.InternalWrite;
      var i := 0;
      while i < |blocks|
        invariant i <= |blocks| && Valid(Overwritten(disk, a, blocks, i))
        invariant old(Coherent(disk)) ==> Coherent(Overwritten(disk, a, blocks, i))
      {
        InternalWrite(a + i, blocks[i], Overwritten(disk, a, blocks, i));
        i := i + 1;
      }
      forall b: Addr { OverwrittenBlock(disk, a, blocks, |blocks|, b); }
    }
  }
}
