/**
 What a CD-ARC request does to the lists, the units and the stored bytes: where it puts its address, that it demotes
 only while it must, which unit it recycles, where in which unit it places new content and as which bytes.
 */
module CdarcOrder {
  import opened Common
  import opened Storage
  import opened ArcOrder
  import L = ArcLists
  import M = CdarcModel
  import Y = CdarcSystem

  // ----- The eviction loop

  /** Room made `k` times over. */
  function Times(d: M.Cdarc, a: Addr, k: nat): M.Cdarc
    decreases k
  {
    if k == 0 then d else Times(M.Manage(d, a), a, k - 1)
  }

  /** The loop makes room until a unit is unreferenced, and not once more. */
  ghost predicate StopsAt(d: M.Cdarc, a: Addr, k: nat, r: M.Cdarc) {
    r == Times(d, a, k) && r.fps.zero != [] && forall j: nat :: j < k ==> Times(d, a, j).fps.zero == []
  }

  lemma StopsLater(d: M.Cdarc, a: Addr, k: nat, r: M.Cdarc)
    requires d.fps.zero == [] && StopsAt(M.Manage(d, a), a, k, r)
    ensures StopsAt(d, a, k + 1, r)
  {
    hide M.Manage;
    forall j: nat | j < k + 1 ensures Times(d, a, j).fps.zero == [] {
      if j > 0 { assert Times(d, a, j) == Times(M.Manage(d, a), a, j - 1); }
    }
  }

  lemma {:induction false} DrainStopsAtOnce(d: M.Cdarc, a: Addr) returns (k: nat)
    requires L.Inv(d.lba) && M.Exact(d) && d.fps.count != map[]
    ensures StopsAt(d, a, k, M.Drain(d, a)) && Shortens(d.lba, M.Drain(d, a).lba)
    decreases L.HeldSize(d.lba)
  {
    k := 0;
    if d.fps.zero == [] {
      M.NoZeroMeansHeld(d);
      M.ManageKeepsExact(d, a);
      assert M.Manage(d, a).fps.count.Keys != {};
      ManageShortens(d.lba, a);
      k := DrainStopsAtOnce(M.Manage(d, a), a);
      StopsLater(d, a, k, M.Drain(M.Manage(d, a), a));
      k := k + 1;
    }
  }

  // ----- Where content is placed, and which unit is recycled

  /** New content of `len` bytes does not fit the open unit, and all units are in use and referenced. */
  predicate MustDrain(f: M.FpIndex, fp: Fp, len: nat) {
    !M.Live(f, fp) && len + f.alloc.offset > f.alloc.size && |f.count| == f.capacity && f.zero == []
  }

  /** The units but the last of the unreferenced ones, which is recycled. */
  ghost predicate Recycles(f: M.FpIndex, r: M.FpIndex, victim: nat) {
    && f.zero != [] && victim == f.zero[|f.zero| - 1] && victim in f.count && f.count[victim] == 0
    && r.zero == f.zero[..|f.zero| - 1] && r.count == f.count - {victim}
    && r.alloc.evicted == f.alloc.evicted + {victim}
    && forall x :: x in r.zero ==> Older(f.zero, victim, x)
  }

  /** Behind what the open unit holds if it fits there, and else at the start of the next unit. */
  function PlaceFor(w: M.WeuAllocator, len: nat): M.Extent {
    if len + w.offset <= w.size then M.Extent(w.weuId, w.offset, len) else M.Extent(w.weuId + 1, 0, len)
  }

  /** `r` is `f` with `fp` placed there; `evicted` may differ. */
  ghost predicate PlacedIn(f: M.FpIndex, r: M.FpIndex, fp: Fp, len: nat) {
    var e := PlaceFor(f.alloc, len);
    r.mp == f.mp[fp := e] && r.alloc.weuId == e.weu && r.alloc.offset == e.offset + len
  }

  lemma EntersAt(f: M.FpIndex, fp: Fp, len: nat)
    ensures var r := M.Enter(f, fp, len);
            && PlacedIn(f, r, fp, len) && r.count == f.count && r.zero == f.zero && r.alloc.evicted == f.alloc.evicted
            && M.Allocate(f.alloc, len).1 == PlaceFor(f.alloc, len)
  {
  }

  /**
   New content has its place in the open unit or the next one; only when a new unit is needed and all are in use is
   one recycled, the one unreferenced the longest, once one is unreferenced.
   */
  lemma PlacementLaw(d: M.Cdarc, a: Addr, fp: Fp, len: nat) returns (k: nat, victim: nat)
    requires M.Inv(d) && len <= d.fps.alloc.size
    ensures var i, w := M.Insert(d, a, fp, len), d.fps.alloc;
            if fp in d.fps.mp then i == M.Inserted(d, None, None)
            else
              && i.placed == Some(PlaceFor(w, len)) && PlacedIn(d.fps, i.d.fps, fp, len)
              && if len + w.offset <= w.size || |d.fps.count| < d.fps.capacity then
                   i.d.lba == d.lba && i.evicted == None && i.d.fps.count == d.fps.count && i.d.fps.zero == d.fps.zero
                 else
                   var m := Times(d, a, k);
                   StopsAt(d, a, k, m) && i.d.lba == m.lba && i.evicted == Some(victim)
                   && Recycles(m.fps, i.d.fps, victim)
  {
    k, victim := 0, 0;
    if fp !in d.fps.mp {
      if M.IsFull(d.fps.alloc, len) && |d.fps.count| == d.fps.capacity {
        k := DrainStopsAtOnce(d, a);
        victim := RecyclingLaw(d, a, fp, len);
        hide M.Drain, Times, Recycles, PlacedIn;
      } else {
        EntersAt(d.fps, fp, len);
        hide M.Enter, M.Allocate, M.Drain;
      }
    }
  }

  lemma RecyclingLaw(d: M.Cdarc, a: Addr, fp: Fp, len: nat) returns (victim: nat)
    requires M.Inv(d) && fp !in d.fps.mp && M.IsFull(d.fps.alloc, len) && |d.fps.count| == d.fps.capacity
    requires d.fps.count != map[]
    ensures var i, m := M.Insert(d, a, fp, len), M.Drain(d, a);
            && i.placed == Some(PlaceFor(d.fps.alloc, len)) && PlacedIn(d.fps, i.d.fps, fp, len)
            && i.d.lba == m.lba && i.evicted == Some(victim) && Recycles(m.fps, i.d.fps, victim)
  {
    var m := M.Drain(d, a);
    M.DrainKeepsExact(d, a);
    victim := VictimRecycled(m.fps, fp, len);
    EntersAt(M.EvictZero(m.fps), fp, len);
    hide M.Drain, M.Inv, M.Enter, M.Allocate, Recycles, M.Exact;
  }

  lemma VictimRecycled(f: M.FpIndex, fp: Fp, len: nat) returns (victim: nat)
    requires M.Tallied(f) && f.zero != []
    ensures victim == f.zero[|f.zero| - 1] && Recycles(f, M.Enter(M.EvictZero(f), fp, len), victim)
  {
    var z := f.zero;
    victim := z[|z| - 1];
    assert victim in z && z == z[..|z| - 1] + [victim];
    OlderBack(z, z[..|z| - 1], victim);
  }

  /** A unit that loses its last reference is behind all that were unreferenced before it. */
  lemma NewestUnreferenced(f: M.FpIndex, fp: Fp)
    requires fp in f.mp && M.CountOf(f, f.mp[fp].weu) == 1
    ensures var z, w := M.Dereference(f, fp).zero, f.mp[fp].weu;
            && (forall x :: x in f.zero ==> Older(z, x, w)) && (forall x, y :: Older(f.zero, x, y) ==> Older(z, x, y))
  {
    OlderPushed(f.zero, f.mp[fp].weu);
  }

  /** References keep the order of the others. */
  lemma ReferenceKeepsAge(f: M.FpIndex, fp: Fp, x: nat, y: nat)
    requires fp in f.mp && Older(f.zero, x, y) && x != f.mp[fp].weu && y != f.mp[fp].weu
    ensures Older(M.Reference(f, fp).zero, x, y)
  {
    OlderErased(f.zero, f.mp[fp].weu, x, y);
  }

  // ----- One request

  /** The cache answers the request. */
  predicate Served(s: Y.Sys, r: Request) {
    r.Read? && r.addr in s.d.lba.mp && M.Live(s.d.fps, s.d.lba.mp[r.addr].fp)
  }

  /** The content of a request that the cache does not answer. */
  function Content(s: Y.Sys, r: Request, cfg: Y.Config): Block {
    if r.Write? then r.data else ChunkAt(s.primary, r.addr, cfg.chunk)
  }

  /** The fingerprint that a request records for its address. */
  function FpOf(s: Y.Sys, r: Request, cfg: Y.Config): Fp {
    if Served(s, r) then s.d.lba.mp[r.addr].fp else cfg.h(Content(s, r, cfg))
  }

  /** What is stored: the codec's output when it is on and the output shorter than the chunk, else the chunk. */
  function Output(c: Codec, x: Block): Block {
    if c.enabled && c.compress(x) != [] && |c.compress(x)| < |x| then c.compress(x) else x
  }

  /** The metadata once the request has looked up the fingerprints it meets; stale ones are gone. */
  function LookedUp(s: Y.Sys, r: Request, cfg: Y.Config): M.Cdarc {
    var d := if r.Read? && r.addr in s.d.lba.mp && !Served(s, r) then Y.LookUp(s, s.d.lba.mp[r.addr].fp).d else s.d;
    d.(fps := M.Lookup(d.fps, FpOf(s, r, cfg)).0)
  }

  function Updated(s: Y.Sys, r: Request, cfg: Y.Config): M.Inserted {
    M.Update(LookedUp(s, r, cfg), r.addr, FpOf(s, r, cfg), |Output(cfg.codec, Content(s, r, cfg))|)
  }

  lemma LookedUpKeeps(s: Y.Sys, r: Request, cfg: Y.Config)
    requires M.Inv(s.d)
    ensures var d, fp := LookedUp(s, r, cfg), FpOf(s, r, cfg);
            && M.Inv(d) && d.lba == s.d.lba && d.fps.alloc == s.d.fps.alloc && d.fps.count == s.d.fps.count
            && d.fps.zero == s.d.fps.zero && d.fps.capacity == s.d.fps.capacity
            && (fp in d.fps.mp <==> M.Live(s.d.fps, fp)) && (fp in d.fps.mp ==> M.Live(d.fps, fp))
  {
    var fp := FpOf(s, r, cfg);
    var d := if r.Read? && r.addr in s.d.lba.mp && !Served(s, r) then Y.LookUp(s, s.d.lba.mp[r.addr].fp).d else s.d;
    if r.Read? && r.addr in s.d.lba.mp {
      M.LookupKeepsInv(s.d, s.d.lba.mp[r.addr].fp);
      M.LookupFindsLive(s.d.fps, s.d.lba.mp[r.addr].fp);
    }
    M.LookupKeepsInv(d, fp);
    M.LookupFindsLive(d.fps, fp);
    hide M.Inv, M.Lookup;
  }

  /** Every request, hit or miss, updates the metadata. */
  lemma StepUpdates(s: Y.Sys, r: Request, cfg: Y.Config)
    requires M.Inv(s.d)
    ensures Y.Step(s, r, cfg).0.d == Updated(s, r, cfg).d
  {
    LookedUpKeeps(s, r, cfg);
    M.LookupFindsLive(s.d.fps, FpOf(s, r, cfg));
    hide M.Inv, M.Record, M.Lookup, L.AdjustAdaptiveFactor, Y.PlaceBlob;
  }

  /** The lists that the address's own update meets: a request without a unit for new content drains first. */
  function Met(s: Y.Sys, r: Request, cfg: Y.Config): L.Lists {
    var d := LookedUp(s, r, cfg);
    M.Insert(d.(lba := L.AdjustAdaptiveFactor(d.lba, r.addr)), r.addr, FpOf(s, r, cfg),
             |Output(cfg.codec, Content(s, r, cfg))|).d.lba
  }

  /** The codec's output is never longer than the chunk. */
  lemma OutputFits(s: Y.Sys, r: Request, cfg: Y.Config)
    requires Y.Sound(s, cfg) && (r.Write? ==> |r.data| == cfg.chunk)
    ensures |Output(cfg.codec, Content(s, r, cfg))| <= cfg.chunk <= s.d.fps.alloc.size
    ensures Output(cfg.codec, Content(s, r, cfg)) == Y.Blob(cfg.codec, Content(s, r, cfg))
  {
  }

  lemma MetKeepsOrder(s: Y.Sys, r: Request, cfg: Y.Config)
    requires Y.Sound(s, cfg) && (r.Write? ==> |r.data| == cfg.chunk)
    ensures var m := Met(s, r, cfg);
            && L.Inv(m) && m.mp.Keys == s.d.lba.mp.Keys && Shortens(s.d.lba, m)
            && (!MustDrain(s.d.fps, FpOf(s, r, cfg), |Output(cfg.codec, Content(s, r, cfg))|)
                ==> m == s.d.lba.(p := m.p))
  {
    OutputFits(s, r, cfg);
    LookedUpKeeps(s, r, cfg);
    hide LookedUp, Output, FpOf, Content, Y.Sound, M.Inv, M.Insert, MustDrain, Shortens;
    InsertMeets(LookedUp(s, r, cfg), r.addr, FpOf(s, r, cfg), |Output(cfg.codec, Content(s, r, cfg))|);
    LookedUpDrains(s.d.fps, LookedUp(s, r, cfg).fps, FpOf(s, r, cfg), |Output(cfg.codec, Content(s, r, cfg))|);
  }

  lemma LookedUpDrains(f: M.FpIndex, r: M.FpIndex, fp: Fp, len: nat)
    requires M.Live(r, fp) <==> M.Live(f, fp)
    requires r.alloc == f.alloc && r.count == f.count && r.zero == f.zero && r.capacity == f.capacity
    ensures MustDrain(r, fp, len) <==> MustDrain(f, fp, len)
  {
  }

  lemma InsertMeets(d0: M.Cdarc, a: Addr, fp: Fp, len: nat)
    requires M.Inv(d0) && len <= d0.fps.alloc.size && (fp in d0.fps.mp ==> M.Live(d0.fps, fp))
    ensures var m := M.Insert(d0.(lba := L.AdjustAdaptiveFactor(d0.lba, a)), a, fp, len).d.lba;
            && L.Inv(m) && m.mp.Keys == d0.lba.mp.Keys && Shortens(d0.lba, m)
            && (!MustDrain(d0.fps, fp, len) ==> m == d0.lba.(p := m.p))
  {
    hide M.Insert, L.AdjustAdaptiveFactor, M.Inv, M.Drain, M.Enter;
    var d := d0.(lba := L.AdjustAdaptiveFactor(d0.lba, a));
    M.AdjustKeepsInv(d0, a);
    InvOfLists(d0);
    AdaptiveFactor(d0.lba, a);
    InsertKeepsLists(d, a, fp, len);
    InsertShortens(d, a, fp, len);
  }

  lemma InvOfLists(d: M.Cdarc)
    requires M.Inv(d)
    ensures L.Inv(d.lba)
  {
  }

  lemma InsertKeepsLists(d: M.Cdarc, a: Addr, fp: Fp, len: nat)
    requires M.Inv(d) && len <= d.fps.alloc.size
    ensures var m := M.Insert(d, a, fp, len).d.lba; L.Inv(m) && m.mp.Keys == d.lba.mp.Keys
  {
    M.InsertKeepsInv(d, a, fp, len);
    hide M.Insert;
  }

  lemma InsertShortens(d: M.Cdarc, a: Addr, fp: Fp, len: nat)
    requires M.Inv(d) && len <= d.fps.alloc.size && (fp in d.fps.mp ==> M.Live(d.fps, fp))
    ensures Shortens(d.lba, M.Insert(d, a, fp, len).d.lba)
    ensures !MustDrain(d.fps, fp, len) ==> M.Insert(d, a, fp, len).d.lba == d.lba
  {
    if fp !in d.fps.mp && M.IsFull(d.fps.alloc, len) && |d.fps.count| == d.fps.capacity {
      var k := DrainStopsAtOnce(d, a);
    }
  }

  /**
   After any request its address is the most recent of T1 or T2: of T2 if the lists met have it on T1, T2, B1 or B2 and
   do not give it up, else of T1.
   */
  lemma StepPlaces(s: Y.Sys, r: Request, cfg: Y.Config)
    requires Y.Sound(s, cfg) && (r.Write? ==> |r.data| == cfg.chunk)
    ensures var m, after := Met(s, r, cfg), Y.Step(s, r, cfg).0.d.lba;
            && Filed(Checked(m, r.addr), r.addr, SeenOnce(m, r.addr), after) && First(after, r.addr)
  {
    StepUpdates(s, r, cfg);
    MetKeepsOrder(s, r, cfg);
    UpdatePlaces(Met(s, r, cfg), r.addr, FpOf(s, r, cfg));
    hide L.Update, Filed, Checked, SeenOnce, First, M.Insert, Y.Step, Y.Sound, LookedUp, L.Inv;
  }

  /** Unless the request drains, this is said of the lists before it. */
  lemma StepPlacesDirectly(s: Y.Sys, r: Request, cfg: Y.Config)
    requires Y.Sound(s, cfg) && (r.Write? ==> |r.data| == cfg.chunk)
    requires !MustDrain(s.d.fps, FpOf(s, r, cfg), |Output(cfg.codec, Content(s, r, cfg))|)
    ensures var a, after := r.addr, Y.Step(s, r, cfg).0.d.lba;
            if SeenOnce(s.d.lba, a) then after.t1 != [] && after.t1[0] == a else after.t2 != [] && after.t2[0] == a
  {
    hide Met, Checked, Y.Step, Erase, GivenUp, FpOf, Y.Sound, MustDrain, Shortens, L.Inv;
    StepPlaces(s, r, cfg);
    MetKeepsOrder(s, r, cfg);
    hide SeenOnce;
    FactorOnly(s.d.lba, Met(s, r, cfg), r.addr);
  }

  /**
   An address goes to T2 exactly when it was known and neither the drain sent it to B3 nor the check gives it up; else
   it goes to T1, known or not.
   */
  lemma ToT2Iff(s: Y.Sys, r: Request, cfg: Y.Config)
    requires Y.Sound(s, cfg) && (r.Write? ==> |r.data| == cfg.chunk)
    ensures var a, m, after := r.addr, Met(s, r, cfg), Y.Step(s, r, cfg).0.d.lba;
            && First(after, a)
            && (a in after.t2 <==> Known(s.d.lba, a) && a !in m.b3 && !(a in m.b1 + m.b2 && GivenUp(m, a)))
            && (a in after.t1 <==> a !in after.t2)
  {
    var a, m, after := r.addr, Met(s, r, cfg), Y.Step(s, r, cfg).0.d.lba;
    StepPlaces(s, r, cfg);
    MetKeepsOrder(s, r, cfg);
    hide Met, Y.Step, Shortens, GivenUp, Checked, Filed, MustDrain;
    CheckedListed(m, a);
    FiledSide(Checked(m, a), a, SeenOnce(m, a), after);
    SeenOnceIff(s.d.lba, m, a);
  }

  /**
   A read of an address whose fingerprint's unit was not recycled is served from its extent, in the buffer if the unit
   is open and else on the device, and decompressed unless it is as long as a chunk; any other from the disk.
   */
  lemma StepServes(s: Y.Sys, a: Addr, cfg: Y.Config)
    ensures var bytes := BytesOf(s, if Served(s, Read(a)) then s.d.fps.mp[s.d.lba.mp[a].fp] else M.Extent(0, 0, 0));
            Y.Step(s, Read(a), cfg).1
            == Some(if !Served(s, Read(a)) then ChunkAt(s.primary, a, cfg.chunk)
                    else if |bytes| == cfg.chunk then bytes
                    else cfg.codec.decompress(bytes))
  {
    hide M.Update, Y.LookUp, Y.Admit, Bytes;
  }

  /** The bytes of an extent. */
  function BytesOf(s: Y.Sys, e: M.Extent): Block {
    if e.weu == s.at.open then Bytes(s.buffer, e.offset, e.len)
    else if e.weu !in s.at.location then []
    else Bytes(s.cache, s.at.location[e.weu] + e.offset, e.len)
  }

  // ----- The order of last requests, over whole runs

  lemma StepKeepsOrder(s: Y.Sys, r: Request, cfg: Y.Config, last: Addr -> nat, now: nat)
    requires Y.Sound(s, cfg) && (r.Write? ==> |r.data| == cfg.chunk)
    requires Ordered(s.d.lba, last) && forall b :: b in s.d.lba.mp ==> last(b) < now
    ensures var lba := Y.Step(s, r, cfg).0.d.lba;
            && Ordered(lba, Requested(last, r.addr, now))
            && forall b :: b in lba.mp ==> Requested(last, r.addr, now)(b) < now + 1
  {
    var m, fp := Met(s, r, cfg), FpOf(s, r, cfg);
    StepUpdates(s, r, cfg);
    MetKeepsOrder(s, r, cfg);
    ShortensOrdered(s.d.lba, m, last);
    UpdateKeepsOrder(m, r.addr, fp, last, now);
    L.UpdateRecords(m, r.addr, fp);
    hide L.Update, M.Insert, Y.Step, Y.Sound, LookedUp, L.Inv, Ordered, Shortens;
  }

  function RunState(s: Y.Sys, rs: seq<Request>, cfg: Y.Config): Y.Sys
    decreases |rs|
  {
    if rs == [] then s else RunState(Y.Step(s, rs[0], cfg).0, rs[1..], cfg)
  }

  /** The engine is sound and up to date, its lists in order, and nothing was requested after `now`. */
  ghost predicate InOrder(s: Y.Sys, cfg: Y.Config, last: Addr -> nat, now: nat) {
    && Y.Sound(s, cfg) && Y.Fresh(s.d.lba, s.primary, cfg)
    && Ordered(s.d.lba, last) && forall b :: b in s.d.lba.mp ==> last(b) < now
  }

  lemma StepKeepsInOrder(s: Y.Sys, r: Request, cfg: Y.Config, last: Addr -> nat, now: nat)
    requires InOrder(s, cfg, last, now) && CollisionFree(cfg.h) && Inverse(cfg.codec)
    requires r.Write? ==> |r.data| == cfg.chunk
    ensures InOrder(Y.Step(s, r, cfg).0, cfg, Requested(last, r.addr, now), now + 1)
  {
    hide Y.Step, Y.Sound, Y.Fresh, Ordered, Requested;
    StepKeepsOrder(s, r, cfg, last, now);
    Y.StepTransparent(s, cfg, r);
  }

  lemma {:induction false} RunKeepsOrder(s: Y.Sys, rs: seq<Request>, cfg: Y.Config, last: Addr -> nat, now: nat)
    requires InOrder(s, cfg, last, now) && CollisionFree(cfg.h) && Inverse(cfg.codec)
    requires forall i :: 0 <= i < |rs| && rs[i].Write? ==> |rs[i].data| == cfg.chunk
    ensures Ordered(RunState(s, rs, cfg).d.lba, LastRequests(last, now, rs))
    decreases |rs|
  {
    hide Y.Step, Y.Sound, Y.Fresh, Ordered, Requested;
    if rs != [] {
      StepKeepsInOrder(s, rs[0], cfg, last, now);
      RunKeepsOrder(Y.Step(s, rs[0], cfg).0, rs[1..], cfg, Requested(last, rs[0].addr, now), now + 1);
    }
  }

  /** From start-up T1 then B1, and T2 then B2, list addresses from the latest to the earliest requested. */
  lemma FirstRunOrdered(lbaCapacity: nat, x: nat, capacity: nat, size: nat, primary: Device, cache: Block,
                        buffer: Block, rs: seq<Request>, cfg: Y.Config)
    requires lbaCapacity >= 1 && capacity >= 1 && 1 <= cfg.chunk <= size == |buffer|
    requires SlotAt(capacity, size) <= |cache| && forall a :: a in primary ==> |primary[a]| == cfg.chunk
    requires forall i :: 0 <= i < |rs| && rs[i].Write? ==> |rs[i].data| == cfg.chunk
    requires CollisionFree(cfg.h) && Inverse(cfg.codec)
    ensures var s := Y.Init(lbaCapacity, x, capacity, size, primary, cache, buffer);
            Ordered(RunState(s, rs, cfg).d.lba, LastRequests((a: Addr) => 0, 0, rs))
  {
    var s := Y.Init(lbaCapacity, x, capacity, size, primary, cache, buffer);
    Y.InitSound(lbaCapacity, x, capacity, size, primary, cache, buffer, cfg);
    RunKeepsOrder(s, rs, cfg, (a: Addr) => 0, 0);
  }

  // ----- What is stored

  /**
   New content is placed as the codec's output when compression is on and that is shorter than the chunk, and otherwise
   as it is; the bytes at its extent are then that output.
   */
  lemma AdmissionStores(s: Y.Sys, r: Request, cfg: Y.Config)
    requires Y.Sound(s, cfg) && Y.Fresh(s.d.lba, s.primary, cfg) && CollisionFree(cfg.h) && Inverse(cfg.codec)
    requires (r.Write? ==> |r.data| == cfg.chunk) && !M.Live(s.d.fps, FpOf(s, r, cfg))
    ensures var x, s1, fp := Content(s, r, cfg), Y.Step(s, r, cfg).0, FpOf(s, r, cfg);
            var z := cfg.codec.compress(x);
            && fp == cfg.h(x) && fp in s1.d.fps.mp
            && var e := s1.d.fps.mp[fp];
            && Updated(s, r, cfg).placed == Some(e)
            && (if cfg.codec.enabled && 0 < |z| < cfg.chunk then e.len == |z| && Y.ReadExtent(s1, e) == z
                else e.len == cfg.chunk && Y.ReadExtent(s1, e) == x)
  {
    var x, s1, fp := Content(s, r, cfg), Y.Step(s, r, cfg).0, FpOf(s, r, cfg);
    OutputFits(s, r, cfg);
    Y.StepTransparent(s, cfg, r);
    assert Y.StoredAt(s1, cfg, fp);
    UpdatedPlaces(s, r, cfg);
    StepUpdates(s, r, cfg);
    hide Y.Step, Updated, Y.Sound, Y.Fresh, Y.ReadExtent;
  }

  lemma UpdatedPlaces(s: Y.Sys, r: Request, cfg: Y.Config)
    requires Y.Sound(s, cfg) && (r.Write? ==> |r.data| == cfg.chunk)
    ensures var i, fp := Updated(s, r, cfg), FpOf(s, r, cfg);
            && M.Live(i.d.fps, fp)
            && (if M.Live(s.d.fps, fp) then i.placed == None
                else i.placed == Some(i.d.fps.mp[fp]) && i.d.fps.mp[fp].len == |Output(cfg.codec, Content(s, r, cfg))|)
  {
    OutputFits(s, r, cfg);
    LookedUpKeeps(s, r, cfg);
    M.UpdateKeepsInv(LookedUp(s, r, cfg), r.addr, FpOf(s, r, cfg), |Output(cfg.codec, Content(s, r, cfg))|);
    LearntIsLive(Updated(s, r, cfg).d, r.addr);
  }

  lemma LearntIsLive(d: M.Cdarc, a: Addr)
    requires M.Inv(d) && a in d.lba.mp
    ensures L.InT(d.lba, a) ==> M.Live(d.fps, d.lba.mp[a].fp)
  {
    M.ReferencesAreLive(d);
  }

  /** A duplicate, or a request that the cache answers, writes neither the device nor the buffer. */
  lemma DuplicateWritesNothing(s: Y.Sys, r: Request, cfg: Y.Config)
    requires Y.Sound(s, cfg) && (r.Write? ==> |r.data| == cfg.chunk) && M.Live(s.d.fps, FpOf(s, r, cfg))
    ensures var s1 := Y.Step(s, r, cfg).0;
            s1.cache == s.cache && s1.buffer == s.buffer && s1.at == s.at
  {
    UpdatedPlaces(s, r, cfg);
    LookedUpKeeps(s, r, cfg);
    OutputFits(s, r, cfg);
    hide M.Inv, M.Update, M.Lookup, Y.PlaceBlob;
  }
}
