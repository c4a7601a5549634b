/**
 What a D-ARC request does to the lists, the fingerprints and the devices, one by one: where it puts its address,
 that it demotes only while it must, which fingerprint it evicts, and that over every run the lists stay in the order
 of last requests.
 */
module DarcOrder {
  import opened Common
  import opened ArcOrder
  import L = ArcLists
  import D = DarcModel
  import Y = DarcSystem

  // ----- The eviction loop

  /** Room made `k` times over. */
  function Times(d: D.Darc, a: Addr, k: nat): D.Darc
    decreases k
  {
    if k == 0 then d else Times(D.Manage(d, a), a, k - 1)
  }

  /** The loop makes room until a fingerprint is unreferenced, and not once more. */
  ghost predicate StopsAt(d: D.Darc, a: Addr, k: nat, r: D.Darc) {
    r == Times(d, a, k) && r.fps.zero != [] && forall j: nat :: j < k ==> Times(d, a, j).fps.zero == []
  }

  lemma {:induction false} DrainStopsAtOnce(d: D.Darc, a: Addr) returns (k: nat)
    requires D.Inv(d) && |d.fps.mp| == d.fps.capacity
    ensures StopsAt(d, a, k, D.Drain(d, a))
    decreases L.HeldSize(d.lba)
  {
    k := 0;
    if d.fps.zero == [] {
      D.NoZeroMeansHeld(d);
      D.ManageKeepsInv(d, a);
      D.SamePlacesPlaced(d.fps, D.Manage(d, a).fps);
      k := DrainStopsAtOnce(D.Manage(d, a), a);
      StopsLater(d, a, k, D.Drain(D.Manage(d, a), a));
      k := k + 1;
    }
  }

  lemma StopsLater(d: D.Darc, a: Addr, k: nat, r: D.Darc)
    requires d.fps.zero == [] && StopsAt(D.Manage(d, a), a, k, r)
    ensures StopsAt(d, a, k + 1, r)
  {
    hide D.Manage;
    forall j: nat | j < k + 1 ensures Times(d, a, j).fps.zero == [] {
      if j > 0 { assert Times(d, a, j) == Times(D.Manage(d, a), a, j - 1); }
    }
  }

  lemma ShortensTwice(s: L.Lists, m: L.Lists, r: L.Lists)
    requires Shortens(s, m) && Shortens(m, r)
    ensures Shortens(s, r)
  {
  }

  lemma {:induction false} DrainShortens(d: D.Darc, a: Addr)
    requires D.Inv(d) && |d.fps.mp| == d.fps.capacity
    ensures Shortens(d.lba, D.Drain(d, a).lba)
    decreases L.HeldSize(d.lba)
  {
    if d.fps.zero == [] {
      D.NoZeroMeansHeld(d);
      D.ManageKeepsInv(d, a);
      D.SamePlacesPlaced(d.fps, D.Manage(d, a).fps);
      ManageShortens(d.lba, a);
      DrainShortens(D.Manage(d, a), a);
      ShortensTwice(d.lba, D.Manage(d, a).lba, D.Drain(D.Manage(d, a), a).lba);
    }
  }

  // ----- What is evicted

  /** The index is full, the fingerprint is new, and every cached one is referenced. */
  predicate MustDrain(d: D.Darc, fp: Fp) {
    fp !in d.fps.mp && |d.fps.mp| == d.fps.capacity && d.fps.zero == []
  }

  /** `fp` took the place of `victim`, the last of the unreferenced fingerprints; nothing else changed. */
  ghost predicate Replaces(f: D.FpIndex, r: D.FpIndex, victim: Fp, fp: Fp) {
    && f.zero != [] && victim == f.zero[|f.zero| - 1] && victim in f.mp && f.mp[victim].count == 0
    && r.mp == (f.mp - {victim})[fp := D.FpEntry(f.mp[victim].location, 0)]
    && r.zero == f.zero[..|f.zero| - 1]
    && forall x :: x in r.zero ==> Older(f.zero, victim, x)
  }

  /**
   A cached fingerprint changes nothing; with room the new one gets a location of its own and nothing else changes; in
   a full index it gets that of the fingerprint unreferenced the longest, once one is unreferenced.
   */
  lemma EvictionLaw(d: D.Darc, a: Addr, fp: Fp) returns (k: nat, victim: Fp)
    requires D.Inv(d)
    ensures var i := D.Insert(d, a, fp);
            if fp in d.fps.mp then i == D.Inserted(d, None, None)
            else if |d.fps.mp| < d.fps.capacity then
              && i.d.lba == d.lba && i.d.fps.zero == d.fps.zero && i.evicted == None
              && i.location.Some? && i.d.fps.mp == d.fps.mp[fp := D.FpEntry(i.location.value, 0)]
            else
              var m := Times(d, a, k);
              && StopsAt(d, a, k, m) && i.d.lba == m.lba && Replaces(m.fps, i.d.fps, victim, fp)
              && i.location == i.evicted == Some(m.fps.mp[victim].location)
  {
    k, victim := 0, 0;
    if fp !in d.fps.mp {
      if |d.fps.mp| != d.fps.capacity {
        D.EnterFreshPlaced(d.fps, fp);
      } else {
        k := DrainStopsAtOnce(d, a);
        victim := Victim(d, a, fp, Times(d, a, k));
      }
    }
  }

  lemma Victim(d: D.Darc, a: Addr, fp: Fp, m: D.Darc) returns (victim: Fp)
    requires D.Inv(d) && |d.fps.mp| == d.fps.capacity && fp !in d.fps.mp && m == D.Drain(d, a) && m.fps.zero != []
    ensures var i := D.Insert(d, a, fp);
            && i.d.lba == m.lba && Replaces(m.fps, i.d.fps, victim, fp)
            && i.location == i.evicted == Some(m.fps.mp[victim].location)
  {
    D.DrainKeepsInv(d, a);
    D.SamePlacesPlaced(d.fps, m.fps);
    hide D.Drain, D.Enter, D.EvictZero, D.Allocate, D.Placed, D.Tallied;
    victim := VictimReplaced(m.fps, fp);
  }

  /** A full index gives the new fingerprint the place of the last unreferenced one. */
  lemma VictimReplaced(f: D.FpIndex, fp: Fp) returns (victim: Fp)
    requires D.Tallied(f, {}) && D.Placed(f) && f.zero != [] && fp !in f.mp && |f.mp| == f.capacity
    ensures var e := D.EvictZero(f);
            && Replaces(f, D.Enter(e, fp), victim, fp)
            && D.Allocate(e.space).1 == e.space.free == f.mp[victim].location
  {
    var z := f.zero;
    victim := z[|z| - 1];
    assert victim in z;
    assert z == z[..|z| - 1] + [victim];
    OlderBack(z, z[..|z| - 1], victim);
  }

  /** A fingerprint that loses its last reference is behind all that were unreferenced before it. */
  lemma NewestUnreferenced(f: D.FpIndex, fp: Fp)
    requires fp in f.mp && f.mp[fp].count == 1
    ensures var z := D.Dereference(f, fp).zero;
            && (forall x :: x in f.zero ==> Older(z, x, fp)) && (forall x, y :: Older(f.zero, x, y) ==> Older(z, x, y))
  {
    OlderPushed(f.zero, fp);
  }

  /** References keep the order of the others. */
  lemma ReferenceKeepsAge(f: D.FpIndex, fp: Fp, x: Fp, y: Fp)
    requires Older(f.zero, x, y) && x != fp && y != fp
    ensures Older(D.Reference(f, fp).zero, x, y)
  {
    OlderErased(f.zero, fp, x, y);
  }

  // ----- Where a request puts its address

  /** The fingerprint that a request records for its address. */
  function FpOf(s: Y.Sys, r: Request, h: Block -> Fp): Fp {
    if r.Write? then h(r.data)
    else if r.addr in s.d.lba.mp && s.d.lba.mp[r.addr].fp in s.d.fps.mp then s.d.lba.mp[r.addr].fp
    else h(BlockAt(s.primary, r.addr))
  }

  /** Every request, hit or miss, updates the metadata. */
  lemma StepUpdates(s: Y.Sys, r: Request, h: Block -> Fp)
    ensures Y.Step(s, r, h).0.d == D.Update(s.d, r.addr, FpOf(s, r, h)).d
  {
    hide D.Update;
  }

  /** The lists that the address's own update meets: a full index with no unreferenced fingerprint drains first. */
  function Met(s: Y.Sys, r: Request, h: Block -> Fp): L.Lists {
    D.Insert(s.d.(lba := L.AdjustAdaptiveFactor(s.d.lba, r.addr)), r.addr, FpOf(s, r, h)).d.lba
  }

  lemma MetUnlessDrained(s: Y.Sys, r: Request, h: Block -> Fp)
    requires D.Inv(s.d) && !MustDrain(s.d, FpOf(s, r, h))
    ensures Met(s, r, h) == s.d.lba.(p := Met(s, r, h).p)
  {
    AdaptiveFactor(s.d.lba, r.addr);
  }

  lemma MetKeepsOrder(s: Y.Sys, r: Request, h: Block -> Fp)
    requires D.Inv(s.d)
    ensures L.Inv(Met(s, r, h)) && Met(s, r, h).mp.Keys == s.d.lba.mp.Keys && Shortens(s.d.lba, Met(s, r, h))
  {
    var a, fp := r.addr, FpOf(s, r, h);
    var d := s.d.(lba := L.AdjustAdaptiveFactor(s.d.lba, a));
    D.AdjustKeepsInv(s.d, a);
    AdaptiveFactor(s.d.lba, a);
    D.InsertKeepsInv(d, a, fp);
    if fp !in d.fps.mp && |d.fps.mp| == d.fps.capacity { DrainShortens(d, a); }
  }

  /**
   After any request its address is the most recent of T1 or T2: of T2 if the lists met have it on T1, T2, B1 or B2 and
   do not give it up, else of T1.
   */
  lemma StepPlaces(s: Y.Sys, disk: Device, r: Request, h: Block -> Fp)
    requires Y.Sound(s, disk, h)
    ensures var m, after := Met(s, r, h), Y.Step(s, r, h).0.d.lba;
            && Filed(Checked(m, r.addr), r.addr, SeenOnce(m, r.addr), after) && First(after, r.addr)
  {
    StepUpdates(s, r, h);
    MetKeepsOrder(s, r, h);
    UpdatePlaces(Met(s, r, h), r.addr, FpOf(s, r, h));
  }

  /** Unless the request drains, this is said of the lists before it. */
  lemma StepPlacesDirectly(s: Y.Sys, disk: Device, r: Request, h: Block -> Fp)
    requires Y.Sound(s, disk, h) && !MustDrain(s.d, FpOf(s, r, h))
    ensures var a, after := r.addr, Y.Step(s, r, h).0.d.lba;
            if SeenOnce(s.d.lba, a) then after.t1 != [] && after.t1[0] == a else after.t2 != [] && after.t2[0] == a
  {
    hide Met, Checked, Y.Step, Erase, SeenOnce, FpOf;
    StepPlaces(s, disk, r, h);
    MetUnlessDrained(s, r, h);
    FactorOnly(s.d.lba, Met(s, r, h), r.addr);
  }

  /**
   An address goes to T2 exactly when it was known and neither the drain sent it to B3 nor the check gives it up; else
   it goes to T1, known or not.
   */
  lemma ToT2Iff(s: Y.Sys, disk: Device, r: Request, h: Block -> Fp)
    requires Y.Sound(s, disk, h)
    ensures var a, m, after := r.addr, Met(s, r, h), Y.Step(s, r, h).0.d.lba;
            && First(after, a)
            && (a in after.t2 <==> Known(s.d.lba, a) && a !in m.b3 && !(a in m.b1 + m.b2 && GivenUp(m, a)))
            && (a in after.t1 <==> a !in after.t2)
  {
    var a, m, after := r.addr, Met(s, r, h), Y.Step(s, r, h).0.d.lba;
    StepPlaces(s, disk, r, h);
    MetKeepsOrder(s, r, h);
    hide Met, Y.Step, Shortens, GivenUp, Checked, Filed;
    CheckedListed(m, a);
    FiledSide(Checked(m, a), a, SeenOnce(m, a), after);
    SeenOnceIff(s.d.lba, m, a);
  }

  /** With one entry in each index: the second write of an address finds it in T1 and leaves it there. */
  lemma DrainSendsToT1(h: Block -> Fp, mode: Y.Mode)
    requires CollisionFree(h)
    ensures var s := Y.Init(1, 0, 1, 1, map[], map[], mode);
            var s1 := Y.Step(s, Write(0, [1]), h).0;
            var s2 := Y.Step(s1, Write(0, [2]), h).0;
            && s1.d.lba.t1 == [0] && s1.d.lba.t2 == [] && s2.d.lba.t1 == [0] && s2.d.lba.t2 == []
  {
    var s := Y.Init(1, 0, 1, 1, map[], map[], mode);
    var x: Block, y: Block := [1], [2];
    assert x[0] != y[0];
    StepUpdates(s, Write(0, x), h);
    FirstUpdate(h(x));
    var s1 := Y.Step(s, Write(0, x), h).0;
    StepUpdates(s1, Write(0, y), h);
    SecondUpdate(h(x), h(y));
  }

  function OneFp(f: Fp, n: nat, zero: seq<Fp>): D.FpIndex {
    D.FpIndex(map[f := D.FpEntry(0, n)], zero, D.Space(1, 1, 0, 1), 1)
  }

  function OneAddr(f: Fp, id: L.ListId): L.Lists {
    L.Put(L.Empty(1, 0, 0), id, [0]).(mp := map[0 := L.Entry(f, id)])
  }

  lemma FirstUpdate(f: Fp)
    ensures D.Update(D.Darc(L.Empty(1, 0, 0), D.EmptyFps(1, 1)), 0, f).d == D.Darc(OneAddr(f, L.T1), OneFp(f, 1, []))
  {
    assert L.Update(L.Empty(1, 0, 0), 0, f).lists == OneAddr(f, L.T1);
  }

  lemma SecondUpdate(f: Fp, g: Fp)
    requires f != g
    ensures D.Update(D.Darc(OneAddr(f, L.T1), OneFp(f, 1, [])), 0, g).d == D.Darc(OneAddr(g, L.T1), OneFp(g, 1, []))
  {
    var d := D.Darc(OneAddr(f, L.T1), OneFp(f, 1, []));
    SecondRoom(f);
    var m := D.Manage(d, 0);
    assert m.fps == OneFp(f, 0, [f]);
    assert D.Drain(d, 0) == m;
    assert D.Enter(D.EvictZero(m.fps), g) == OneFp(g, 0, []);
    assert L.Update(m.lba, 0, g) == L.Outcome(OneAddr(g, L.T1), None);
  }

  lemma SecondRoom(f: Fp)
    ensures L.ManageMetadataCache(OneAddr(f, L.T1), 0) == L.Outcome(OneAddr(f, L.B3), Some(0))
  {
    assert L.MoveBack(OneAddr(f, L.T1), L.T1, L.B1) == OneAddr(f, L.B1);
    assert L.MoveBack(OneAddr(f, L.B1), L.B1, L.B3) == OneAddr(f, L.B3);
  }

  /** A read of an address whose fingerprint is cached is served from its location, any other from the disk. */
  lemma StepServes(s: Y.Sys, a: Addr, h: Block -> Fp)
    ensures var known := a in s.d.lba.mp && s.d.lba.mp[a].fp in s.d.fps.mp;
            Y.Step(s, Read(a), h).1
            == Some(if known then BlockAt(s.cache, s.d.fps.mp[s.d.lba.mp[a].fp].location) else BlockAt(s.primary, a))
  {
    hide D.Update;
  }

  // ----- The order of last requests, over whole runs

  lemma StepKeepsOrder(s: Y.Sys, disk: Device, r: Request, h: Block -> Fp, last: Addr -> nat, now: nat)
    requires Y.Sound(s, disk, h) && CollisionFree(h)
    requires Ordered(s.d.lba, last) && forall b :: b in s.d.lba.mp ==> last(b) < now
    ensures var lba := Y.Step(s, r, h).0.d.lba;
            && Ordered(lba, Requested(last, r.addr, now))
            && forall b :: b in lba.mp ==> Requested(last, r.addr, now)(b) < now + 1
  {
    var m, fp := Met(s, r, h), FpOf(s, r, h);
    StepUpdates(s, r, h);
    MetKeepsOrder(s, r, h);
    ShortensOrdered(s.d.lba, m, last);
    UpdateKeepsOrder(m, r.addr, fp, last, now);
    L.UpdateRecords(m, r.addr, fp);
  }

  lemma {:induction false} RunKeepsOrder(s: Y.Sys, disk: Device, rs: seq<Request>, h: Block -> Fp, last: Addr -> nat,
                                         now: nat)
    requires Y.Sound(s, disk, h) && CollisionFree(h)
    requires Ordered(s.d.lba, last) && forall b :: b in s.d.lba.mp ==> last(b) < now
    ensures Ordered(Y.Run(s, rs, h).0.d.lba, LastRequests(last, now, rs))
    decreases |rs|
  {
    if rs != [] {
      StepKeepsOrder(s, disk, rs[0], h, last, now);
      Y.StepSound(s, disk, rs[0], h);
      RunKeepsOrder(Y.Step(s, rs[0], h).0, Y.PlainStep(disk, rs[0]).0, rs[1..], h, Requested(last, rs[0].addr, now),
                    now + 1);
    }
  }

  /** From start-up, in both modes: T1 then B1, and T2 then B2, list the latest requested addresses first. */
  lemma FirstRunOrdered(lbaCapacity: nat, x: nat, fpCapacity: nat, chunk: nat, primary: Device, cache: Device,
                        mode: Y.Mode, rs: seq<Request>, h: Block -> Fp)
    requires lbaCapacity >= 1 && fpCapacity >= 1 && chunk >= 1 && CollisionFree(h)
    ensures var s := Y.Init(lbaCapacity, x, fpCapacity, chunk, primary, cache, mode);
            Ordered(Y.Run(s, rs, h).0.d.lba, LastRequests((a: Addr) => 0, 0, rs))
  {
    var s := Y.Init(lbaCapacity, x, fpCapacity, chunk, primary, cache, mode);
    Y.InitSound(lbaCapacity, x, fpCapacity, chunk, primary, cache, mode, h);
    RunKeepsOrder(s, primary, rs, h, (a: Addr) => 0, 0);
  }

  // ----- What a request does to the devices

  /** The block that a request stores if its fingerprint is new. */
  function NewBlock(s: Y.Sys, r: Request): Block {
    if r.Write? then r.data else BlockAt(s.primary, r.addr)
  }

  /** In write-back, a full index gives up a location, and every address whose last write is there is flushed. */
  predicate Flushes(s: Y.Sys, fp: Fp, at: nat, b: Addr) {
    && s.mode == Y.WriteBack && fp !in s.d.fps.mp && |s.d.fps.mp| == s.d.fps.capacity
    && b in s.dirty && s.dirty[b] == at
  }

  /** What is at location or address `b` after a request that recorded `fp`, stored at `at`. */
  predicate DevicesAt(s: Y.Sys, r: Request, fp: Fp, at: nat, s1: Y.Sys, b: nat) {
    CacheAt(s, r, fp, at, s1, b) && PrimaryAt(s, r, fp, at, s1, b) && MarkAt(s, r, fp, at, s1, b)
  }

  predicate CacheAt(s: Y.Sys, r: Request, fp: Fp, at: nat, s1: Y.Sys, b: nat) {
    BlockAt(s1.cache, b) == if fp !in s.d.fps.mp && b == at then NewBlock(s, r) else BlockAt(s.cache, b)
  }

  predicate PrimaryAt(s: Y.Sys, r: Request, fp: Fp, at: nat, s1: Y.Sys, b: nat) {
    BlockAt(s1.primary, b) == if s.mode == Y.WriteThrough && r.Write? && b == r.addr then NewBlock(s, r)
                              else if Flushes(s, fp, at, b) then BlockAt(s.cache, at)
                              else BlockAt(s.primary, b)
  }

  predicate MarkAt(s: Y.Sys, r: Request, fp: Fp, at: nat, s1: Y.Sys, b: nat) {
    MarkOf(s1, b) == if s.mode == Y.WriteBack && r.Write? && b == r.addr then Some(at)
                     else if Flushes(s, fp, at, b) then None
                     else MarkOf(s, b)
  }

  /** Where the last write of an address is, if it is dirty. */
  function MarkOf(s: Y.Sys, b: Addr): Option<nat> {
    if b in s.dirty then Some(s.dirty[b]) else None
  }

  /**
   A duplicate writes nothing to the cache device, new content goes to its own location only; a write goes through to
   the primary or is marked dirty, as the mode says; only the addresses of an evicted location are flushed.
   */
  lemma StepDevices(s: Y.Sys, disk: Device, r: Request, h: Block -> Fp, b: nat)
    requires Y.Sound(s, disk, h)
    ensures var s1, fp := Y.Step(s, r, h).0, FpOf(s, r, h);
            fp in s1.d.fps.mp && DevicesAt(s, r, fp, s1.d.fps.mp[fp].location, s1, b)
  {
    var fp := FpOf(s, r, h);
    var i := D.Update(s.d, r.addr, fp);
    UpdateEvicts(s.d, r.addr, fp);
    StepUpdates(s, r, h);
    StepIsStore(s, i, r, fp, h);
    hide D.Update, D.Inv, Y.Sound, Y.Step, FpOf, DevicesAt, Y.Store, Y.Persist;
    StoredAt(s, i, i.d.fps.mp[fp].location, r, fp, b);
  }

  /** A full index evicts for a new fingerprint, which gets the location given up. */
  lemma UpdateEvicts(d: D.Darc, a: Addr, fp: Fp)
    requires D.Inv(d)
    ensures var i := D.Update(d, a, fp);
            && fp in i.d.fps.mp
            && i.evicted
               == (if fp !in d.fps.mp && |d.fps.mp| == d.fps.capacity then Some(i.d.fps.mp[fp].location) else None)
  {
    D.UpdateKeepsInv(d, a, fp);
    EvictsWhenFull(d, a, fp);
  }

  lemma SettledAt(s: Y.Sys, i: D.Inserted, at: nat, fp: Fp, b: nat)
    requires i.evicted == if fp !in s.d.fps.mp && |s.d.fps.mp| == s.d.fps.capacity then Some(at) else None
    ensures var s1 := Y.Settle(s, i);
            && s1.d == i.d && s1.cache == s.cache && s1.mode == s.mode
            && BlockAt(s1.primary, b) == (if Flushes(s, fp, at, b) then BlockAt(s.cache, at) else BlockAt(s.primary, b))
            && MarkOf(s1, b) == (if Flushes(s, fp, at, b) then None else MarkOf(s, b))
  {
    FlushedAt(s.(d := i.d), at, b);
    hide Y.FlushOneBlock;
  }

  /** A flush changes exactly the addresses whose last write is at the location. */
  lemma FlushedAt(s: Y.Sys, at: nat, b: nat)
    ensures var s1 := Y.FlushOneBlock(s, at);
            && s1.d == s.d && s1.cache == s.cache && s1.mode == s.mode
            && BlockAt(s1.primary, b)
               == (if MarkOf(s, b) == Some(at) then BlockAt(s.cache, at) else BlockAt(s.primary, b))
            && MarkOf(s1, b) == (if MarkOf(s, b) == Some(at) then None else MarkOf(s, b))
  {
  }

  lemma StoredAt(s: Y.Sys, i: D.Inserted, at: nat, r: Request, fp: Fp, b: nat)
    requires i.evicted == if fp !in s.d.fps.mp && |s.d.fps.mp| == s.d.fps.capacity then Some(at) else None
    requires fp in i.d.fps.mp && at == i.d.fps.mp[fp].location
    ensures var s1 := Y.Store(s, i, fp, NewBlock(s, r));
            DevicesAt(s, r, fp, at, if r.Write? then Y.Persist(s1, r.addr, r.data, fp) else s1, b)
  {
    var s0 := Y.Settle(s, i);
    var s1 := Y.Store(s, i, fp, NewBlock(s, r));
    SettledAt(s, i, at, fp, b);
    hide Y.Settle, Flushes, CacheAt, PrimaryAt, MarkAt;
    assert s1 == if fp in s.d.fps.mp then s0 else s0.(cache := s0.cache[at := NewBlock(s, r)]);
    PersistedAt(s, s0, s1, r, fp, at, b);
  }

  lemma PersistedAt(s: Y.Sys, s0: Y.Sys, s1: Y.Sys, r: Request, fp: Fp, at: nat, b: nat)
    requires s0.cache == s.cache && s0.mode == s.mode && fp in s0.d.fps.mp && at == s0.d.fps.mp[fp].location
    requires BlockAt(s0.primary, b) == if Flushes(s, fp, at, b) then BlockAt(s.cache, at) else BlockAt(s.primary, b)
    requires MarkOf(s0, b) == if Flushes(s, fp, at, b) then None else MarkOf(s, b)
    requires s1 == if fp in s.d.fps.mp then s0 else s0.(cache := s0.cache[at := NewBlock(s, r)])
    ensures DevicesAt(s, r, fp, at, if r.Write? then Y.Persist(s1, r.addr, r.data, fp) else s1, b)
  {
    hide Flushes;
  }

  lemma EvictsWhenFull(d: D.Darc, a: Addr, fp: Fp)
    requires D.Inv(d)
    ensures D.Update(d, a, fp).evicted.Some? <==> fp !in d.fps.mp && |d.fps.mp| == d.fps.capacity
  {
    D.AdjustKeepsInv(d, a);
    var k, victim := EvictionLaw(d.(lba := L.AdjustAdaptiveFactor(d.lba, a)), a, fp);
  }

  /** A request is an update, a store of new content, and for a write the primary's block or the dirty mark. */
  lemma StepIsStore(s: Y.Sys, i: D.Inserted, r: Request, fp: Fp, h: Block -> Fp)
    requires i == D.Update(s.d, r.addr, fp) && fp == FpOf(s, r, h)
    ensures var s1 := Y.Store(s, i, fp, NewBlock(s, r));
            Y.Step(s, r, h).0 == if r.Write? then Y.Persist(s1, r.addr, r.data, fp) else s1
  {
    hide D.Update, Y.Settle, Y.Persist;
  }
}
