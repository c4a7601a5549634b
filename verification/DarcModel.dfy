/**
 The D-ARC engine on values: the fingerprint index with its reference counts, zero-reference list
 and space allocator, and the two indexes working together.
 */
module DarcModel {
  import opened Common
  import L = ArcLists

  /** Hands out `capacity / chunk` consecutive locations, then the one recycled last. */
  datatype Space = Space(capacity: nat, next: nat, free: nat, chunk: nat)

  datatype FpEntry = FpEntry(location: nat, count: nat)

  datatype FpIndex = FpIndex(mp: map<Fp, FpEntry>, zero: seq<Fp>, space: Space, capacity: nat)

  datatype Darc = Darc(lba: L.Lists, fps: FpIndex)

  /** What inserting a fingerprint did: the location it was given and the one taken from an evicted
      fingerprint, if any. */
  datatype Inserted = Inserted(d: Darc, location: Option<nat>, evicted: Option<nat>)

  function EmptyFps(capacity: nat, chunk: nat): FpIndex {
    FpIndex(map[], [], Space(capacity * chunk, 0, 0, chunk), capacity)
  }

  // ----- Operations

  function Recycle(s: Space, location: nat): Space {
    s.(free := location)
  }

  function Allocate(s: Space): (Space, nat) {
    if s.next != s.capacity then (s.(next := s.next + s.chunk), s.next) else (s, s.free)
  }

  /** The source aborts when `fp` is not cached; `DarcIndex` shows that no caller gets there. */
  function Reference(f: FpIndex, fp: Fp): FpIndex {
    if fp !in f.mp then f
    else
      var e := f.mp[fp];
      f.(mp := f.mp[fp := e.(count := e.count + 1)], zero := if e.count == 0 then Erase(f.zero, fp) else f.zero)
  }

  /** The source aborts when `fp` is not cached, and a count of zero would wrap around. */
  function Dereference(f: FpIndex, fp: Fp): FpIndex {
    if fp !in f.mp || f.mp[fp].count == 0 then f
    else
      var e := f.mp[fp];
      f.(mp := f.mp[fp := e.(count := e.count - 1)], zero := if e.count == 1 then [fp] + f.zero else f.zero)
  }

  function DereferenceOf(f: FpIndex, lba: L.Lists, demoted: Option<Addr>): FpIndex {
    if demoted.Some? && demoted.value in lba.mp then Dereference(f, lba.mp[demoted.value].fp) else f
  }

  function Manage(d: Darc, a: Addr): Darc {
    var o := L.ManageMetadataCache(d.lba, a);
    Darc(o.lists, DereferenceOf(d.fps, d.lba, o.demoted))
  }

  /** Demote addresses until some fingerprint has no reference left. */
  function Drain(d: Darc, a: Addr): Darc
    decreases L.HeldSize(d.lba)
  {
    var d' := Manage(d, a);
    if d.fps.zero != [] then d
    else if L.HeldSize(d'.lba) < L.HeldSize(d.lba) then Drain(d', a) else d'
  }

  /** Take the least recently zeroed fingerprint out and give its location back. */
  function EvictZero(f: FpIndex): FpIndex {
    if f.zero == [] || f.zero[|f.zero| - 1] !in f.mp then f
    else
      var victim := f.zero[|f.zero| - 1];
      f.(zero := f.zero[..|f.zero| - 1], mp := f.mp - {victim}, space := Recycle(f.space, f.mp[victim].location))
  }

  /** Enter `fp` at a fresh location with no references, and not on the zero-reference list. */
  function Enter(f: FpIndex, fp: Fp): FpIndex {
    var (space, location) := Allocate(f.space);
    f.(mp := f.mp[fp := FpEntry(location, 0)], space := space)
  }

  function Insert(d: Darc, a: Addr, fp: Fp): Inserted {
    if fp in d.fps.mp then Inserted(d, None, None)
    else if |d.fps.mp| != d.fps.capacity then
      Inserted(d.(fps := Enter(d.fps, fp)), Some(Allocate(d.fps.space).1), None)
    else
      var d1 := Drain(d, a);
      var f := EvictZero(d1.fps);
      Inserted(d1.(fps := Enter(f, fp)), Some(Allocate(f.space).1), Some(f.space.free))
  }

  function Record(d: Darc, a: Addr, fp: Fp): Darc {
    var o := L.Update(d.lba, a, fp);
    Darc(o.lists, Reference(DereferenceOf(d.fps, d.lba, o.demoted), fp))
  }

  /** The metadata update of one request. */
  function Update(d: Darc, a: Addr, fp: Fp): Inserted {
    var i := Insert(d.(lba := L.AdjustAdaptiveFactor(d.lba, a)), a, fp);
    i.(d := Record(i.d, a, fp))
  }

  // ----- Reference counts

  /** The zero-reference list is duplicate-free and is exactly the count-0 fingerprints, except those in
      `pending`: entered during the current request and not referenced yet. */
  ghost predicate Tallied(f: FpIndex, pending: set<Fp>) {
    && NoDup(f.zero)
    && (forall g :: g in f.zero <==> g in f.mp && f.mp[g].count == 0 && g !in pending)
    && (forall g :: g in pending ==> g in f.mp && f.mp[g].count == 0)
  }

  /** Each count is the number of T1 and T2 addresses carrying the fingerprint, and all of those are cached. */
  ghost predicate Counted(d: Darc) {
    && (forall f :: f in d.fps.mp ==> d.fps.mp[f].count == |L.Refs(d.lba, f)|)
    && (forall a :: L.InT(d.lba, a) ==> d.lba.mp[a].fp in d.fps.mp)
  }

  ghost predicate Exact(d: Darc, pending: set<Fp>) {
    Tallied(d.fps, pending) && Counted(d)
  }

  /** Only counts differ between `f0` and `f1`, each by `delta`. */
  ghost predicate SamePlaces(f0: FpIndex, f1: FpIndex) {
    && f1.mp.Keys == f0.mp.Keys && f1.space == f0.space && f1.capacity == f0.capacity
    && (forall f :: f in f0.mp ==> f1.mp[f].location == f0.mp[f].location)
  }

  lemma DereferenceTally(f: FpIndex, fp: Fp, pending: set<Fp>)
    requires Tallied(f, pending) && fp in f.mp && f.mp[fp].count >= 1
    ensures var r := Dereference(f, fp);
            && Tallied(r, pending) && SamePlaces(f, r)
            && r.mp == f.mp[fp := f.mp[fp].(count := f.mp[fp].count - 1)]
  {
    NoDupCons(fp, f.zero);
  }

  lemma ReferenceTally(f: FpIndex, fp: Fp, pending: set<Fp>)
    requires Tallied(f, pending) && pending <= {fp} && fp in f.mp
    ensures var r := Reference(f, fp);
            && Tallied(r, {}) && SamePlaces(f, r)
            && r.mp == f.mp[fp := f.mp[fp].(count := f.mp[fp].count + 1)]
  {
  }

  lemma HeldIsCounted(d: Darc, a: Addr)
    requires Counted(d) && L.InT(d.lba, a)
    ensures var f := d.lba.mp[a].fp; f in d.fps.mp && d.fps.mp[f].count >= 1
  {
    assert a in L.Refs(d.lba, d.lba.mp[a].fp);
  }

  lemma SameHeldSameCounts(d: Darc, lba: L.Lists)
    requires Counted(d) && L.Loses(d.lba, lba, None)
    ensures Counted(d.(lba := lba))
  {
    forall f ensures L.Refs(lba, f) == L.Refs(d.lba, f) {}
  }

  lemma DemotionKeepsExact(d: Darc, lba: L.Lists, a: Addr, pending: set<Fp>)
    requires Exact(d, pending) && L.Loses(d.lba, lba, Some(a))
    ensures Exact(Darc(lba, DereferenceOf(d.fps, d.lba, Some(a))), pending)
    ensures SamePlaces(d.fps, DereferenceOf(d.fps, d.lba, Some(a)))
  {
    HeldIsCounted(d, a);
    DereferenceTally(d.fps, d.lba.mp[a].fp, pending);
    forall f ensures |L.Refs(lba, f)| == |L.Refs(d.lba, f)| - (if d.lba.mp[a].fp == f then 1 else 0) {
      L.RefsAfterDemotion(d.lba, lba, a, {f});
    }
  }

  /** A check leaves the counts exact, and room for one more address. */
  lemma CheckKeepsExact(d: Darc, a: Addr, pending: set<Fp>)
    requires L.Inv(d.lba) && Exact(d, pending)
    ensures var o := L.CheckMetadataCache(d.lba, a);
            && L.Inv(o.lists) && !L.Full(o.lists)
            && Exact(Darc(o.lists, DereferenceOf(d.fps, d.lba, o.demoted)), pending)
            && DereferenceOf(d.fps, d.lba, o.demoted).mp.Keys == d.fps.mp.Keys
  {
    L.CheckKeepsInv(d.lba, a);
    var o := L.CheckMetadataCache(d.lba, a);
    if o.demoted.Some? { DemotionKeepsExact(d, o.lists, o.demoted.value, pending); }
    else { SameHeldSameCounts(d, o.lists); }
  }

  lemma RecordTally(d: Darc, o: L.Outcome, a: Addr, fp: Fp, pending: set<Fp>)
    requires Exact(d, pending) && pending <= {fp} && fp in d.fps.mp && L.Records(d.lba, o, a, fp)
    ensures Exact(Darc(o.lists, Reference(DereferenceOf(d.fps, d.lba, o.demoted), fp)), {})
    ensures SamePlaces(d.fps, Reference(DereferenceOf(d.fps, d.lba, o.demoted), fp))
  {
    forall f ensures |L.Refs(o.lists, f)| == |L.Refs(d.lba, f)|
                                             - (if o.demoted.Some? && d.lba.mp[o.demoted.value].fp == f then 1 else 0)
                                             + (if f == fp then 1 else 0) {
      L.RefsAfterUpdate(d.lba, o, a, fp, {f});
    }
    if o.demoted.Some? {
      HeldIsCounted(d, o.demoted.value);
      DereferenceTally(d.fps, d.lba.mp[o.demoted.value].fp, pending);
    }
    ReferenceTally(DereferenceOf(d.fps, d.lba, o.demoted), fp, pending);
    forall b | L.InT(o.lists, b) ensures o.lists.mp[b].fp in d.fps.mp {
      if b != a { assert L.InT(d.lba, b); }
    }
  }

  lemma RecordKeepsExact(d: Darc, a: Addr, fp: Fp, pending: set<Fp>)
    requires L.Inv(d.lba) && Exact(d, pending) && pending <= {fp} && fp in d.fps.mp
    ensures L.Inv(Record(d, a, fp).lba) && Exact(Record(d, a, fp), {})
    ensures L.Records(d.lba, L.Update(d.lba, a, fp), a, fp)
    ensures SamePlaces(d.fps, Record(d, a, fp).fps)
  {
    L.UpdateKeepsBudget(d.lba, a, fp);
    L.UpdateRecords(d.lba, a, fp);
    RecordTally(d, L.Update(d.lba, a, fp), a, fp, pending);
  }

  // ----- Locations on the cache device

  ghost predicate Apart(mp: map<Fp, FpEntry>) {
    forall f, g :: f in mp && g in mp && mp[f].location == mp[g].location ==> f == g
  }

  /** The cached fingerprints sit one to one on the first slots of the device, and the allocator's next
      fresh location is the first slot beyond them. */
  ghost predicate Placed(f: FpIndex) {
    && f.capacity >= 1 && f.space.chunk >= 1
    && |f.mp| <= f.capacity
    && f.space.capacity == SlotAt(f.capacity, f.space.chunk)
    && f.space.next == SlotAt(|f.mp|, f.space.chunk)
    && Apart(f.mp)
    && (forall g :: g in f.mp ==> f.mp[g].location in SlotSet(|f.mp|, f.space.chunk))
  }

  lemma SamePlacesPlaced(f0: FpIndex, f1: FpIndex)
    requires SamePlaces(f0, f1)
    ensures |f1.mp| == |f0.mp|
    ensures Placed(f0) ==> Placed(f1)
  {
    assert |f1.mp.Keys| == |f0.mp.Keys|;
  }

  /** A fresh slot, while the device is not full. */
  lemma EnterFreshPlaced(f: FpIndex, fp: Fp)
    requires Placed(f) && fp !in f.mp && |f.mp| != f.capacity
    ensures Placed(Enter(f, fp))
  {
    var k, c := |f.mp|, f.space.chunk;
    SlotAtIncreases(k, f.capacity, c);
    SlotSetBelow(k, c);
    assert |Enter(f, fp).mp| == k + 1;
  }

  /** The evicted fingerprint's slot goes to the new one: a bijection again. */
  lemma EnterRecycledPlaced(f: FpIndex, fp: Fp)
    requires Placed(f) && fp !in f.mp && |f.mp| == f.capacity
    requires f.zero != [] && f.zero[|f.zero| - 1] in f.mp
    ensures Placed(Enter(EvictZero(f), fp))
    ensures Enter(EvictZero(f), fp).mp[fp].location == EvictZero(f).space.free
  {
    var victim := f.zero[|f.zero| - 1];
    var r := Enter(EvictZero(f), fp);
    assert r.mp.Keys == f.mp.Keys - {victim} + {fp};
    assert |f.mp.Keys - {victim}| == |f.mp.Keys| - 1;
    assert |r.mp| == |r.mp.Keys| == |f.mp.Keys| == |f.mp|;
  }

  function Locations(mp: map<Fp, FpEntry>): set<nat> {
    set f | f in mp :: mp[f].location
  }

  lemma {:induction false} ApartSize(mp: map<Fp, FpEntry>)
    requires Apart(mp)
    ensures |Locations(mp)| == |mp|
    decreases |mp|
  {
    if fp :| fp in mp {
      var rest := mp - {fp};
      assert |rest.Keys| == |mp.Keys| - 1;
      ApartSize(rest);
      forall g | g in rest ensures rest[g].location in Locations(mp) { assert mp[g].location == rest[g].location; }
      forall g | g in mp && g != fp ensures mp[g].location in Locations(rest) { assert g in rest; }
      assert mp[fp].location in Locations(mp);
      assert Locations(mp) == Locations(rest) + {mp[fp].location};
    }
  }

  /** The live locations are exactly {0, c, ..., (k-1)c} for chunk size c and k cached fingerprints, one each. */
  lemma LocationsAreTheFirstSlots(f: FpIndex, x: nat)
    requires Placed(f)
    ensures |Locations(f.mp)| == |f.mp| <= f.capacity
    ensures x in Locations(f.mp) <==> exists i: nat :: i < |f.mp| && x == i * f.space.chunk
  {
    ApartSize(f.mp);
    SlotSetSize(|f.mp|, f.space.chunk);
    SubsetOfEqualSize(Locations(f.mp), SlotSet(|f.mp|, f.space.chunk));
    var i := SlotSetIndex(|f.mp|, f.space.chunk, x);
  }

  // ----- What every request keeps

  ghost predicate Inv(d: Darc) {
    L.Inv(d.lba) && Exact(d, {}) && Placed(d.fps)
  }

  /** With every cached fingerprint referenced, some address is in T1 or T2. */
  lemma NoZeroMeansHeld(d: Darc)
    requires Inv(d) && d.fps.zero == [] && |d.fps.mp| == d.fps.capacity
    ensures L.HeldSize(d.lba) > 0
  {
    assert |d.fps.mp.Keys| >= 1;
    var f :| f in d.fps.mp.Keys;
    assert f !in d.fps.zero;
    var a :| a in L.Refs(d.lba, f);
    assert L.Listed(L.Of(d.lba, d.lba.mp[a].list), d.lba.mp, d.lba.mp[a].list);
  }

  lemma ManageKeepsInv(d: Darc, a: Addr)
    requires Inv(d) && L.HeldSize(d.lba) > 0
    ensures Inv(Manage(d, a)) && SamePlaces(d.fps, Manage(d, a).fps)
    ensures L.HeldSize(Manage(d, a).lba) == L.HeldSize(d.lba) - 1
    ensures Manage(d, a).lba.mp.Keys == d.lba.mp.Keys
    ensures forall b :: b in d.lba.mp ==> Manage(d, a).lba.mp[b].fp == d.lba.mp[b].fp
  {
    L.ManageKeepsInv(d.lba, a);
    var o := L.ManageMetadataCache(d.lba, a);
    DemotionKeepsExact(d, o.lists, o.demoted.value, {});
    SamePlacesPlaced(d.fps, Manage(d, a).fps);
  }

  /** The eviction loop ends, and with a fingerprint to evict. */
  lemma {:induction false} DrainKeepsInv(d: Darc, a: Addr)
    requires Inv(d) && |d.fps.mp| == d.fps.capacity
    ensures Inv(Drain(d, a)) && SamePlaces(d.fps, Drain(d, a).fps)
    ensures Drain(d, a).fps.zero != []
    ensures Drain(d, a).lba.mp.Keys == d.lba.mp.Keys
    ensures forall b :: b in d.lba.mp ==> Drain(d, a).lba.mp[b].fp == d.lba.mp[b].fp
    decreases L.HeldSize(d.lba)
  {
    if d.fps.zero == [] {
      NoZeroMeansHeld(d);
      ManageKeepsInv(d, a);
      SamePlacesPlaced(d.fps, Manage(d, a).fps);
      DrainKeepsInv(Manage(d, a), a);
    }
  }

  lemma EnterKeepsExact(d: Darc, fp: Fp)
    requires Exact(d, {}) && fp !in d.fps.mp
    ensures Exact(d.(fps := Enter(d.fps, fp)), {fp})
  {
    assert L.Refs(d.lba, fp) == {};
  }

  lemma EvictKeepsExact(d: Darc)
    requires Exact(d, {}) && d.fps.zero != []
    ensures d.fps.zero[|d.fps.zero| - 1] in d.fps.mp
    ensures Exact(d.(fps := EvictZero(d.fps)), {})
  {
    var z := d.fps.zero;
    var victim := z[|z| - 1];
    assert victim in z && z == z[..|z| - 1] + [victim];
    forall a | L.InT(d.lba, a) ensures d.lba.mp[a].fp != victim { HeldIsCounted(d, a); }
  }

  /** What inserting `fp` for a request on address `a` leaves behind. */
  ghost predicate Inserts(d: Darc, i: Inserted, fp: Fp) {
    && i.d.lba.mp.Keys == d.lba.mp.Keys
    && (forall b :: b in d.lba.mp ==> i.d.lba.mp[b].fp == d.lba.mp[b].fp)
    && fp in i.d.fps.mp
    && (forall g :: g in i.d.fps.mp && g != fp ==> g in d.fps.mp && i.d.fps.mp[g].location == d.fps.mp[g].location)
    && (if fp in d.fps.mp then
          && i.location == i.evicted == None
          && i.d.fps.mp.Keys == d.fps.mp.Keys && i.d.fps.mp[fp].location == d.fps.mp[fp].location
        else
          && i.location == Some(i.d.fps.mp[fp].location)
          && (i.evicted.Some? ==> i.evicted == i.location)
          && (i.evicted.None? ==> i.d.fps.mp.Keys == d.fps.mp.Keys + {fp})
          && (forall g :: g in d.fps.mp && g !in i.d.fps.mp ==> i.evicted == Some(d.fps.mp[g].location)))
  }

  lemma InsertRecycled(d: Darc, a: Addr, fp: Fp)
    requires Inv(d) && fp !in d.fps.mp && |d.fps.mp| == d.fps.capacity
    ensures var i := Insert(d, a, fp);
            && L.Inv(i.d.lba) && Exact(i.d, {fp}) && Placed(i.d.fps)
            && Inserts(d, i, fp)
  {
    var d1 := Drain(d, a);
    DrainKeepsInv(d, a);
    SamePlacesPlaced(d.fps, d1.fps);
    EvictKeepsExact(d1);
    EnterRecycledPlaced(d1.fps, fp);
    EnterKeepsExact(d1.(fps := EvictZero(d1.fps)), fp);
    RecycledInserts(d, d1, fp);
  }

  lemma RecycledInserts(d: Darc, d1: Darc, fp: Fp)
    requires SamePlaces(d.fps, d1.fps) && fp !in d.fps.mp && d1.fps.zero != []
    requires d1.fps.zero[|d1.fps.zero| - 1] in d1.fps.mp
    requires d1.lba.mp.Keys == d.lba.mp.Keys && forall b :: b in d.lba.mp ==> d1.lba.mp[b].fp == d.lba.mp[b].fp
    requires Enter(EvictZero(d1.fps), fp).mp[fp].location == EvictZero(d1.fps).space.free
    ensures var f := EvictZero(d1.fps);
            Inserts(d, Inserted(d1.(fps := Enter(f, fp)), Some(Allocate(f.space).1), Some(f.space.free)), fp)
  {
  }

  lemma FreshInserts(d: Darc, fp: Fp)
    requires fp !in d.fps.mp
    ensures Inserts(d, Inserted(d.(fps := Enter(d.fps, fp)), Some(Allocate(d.fps.space).1), None), fp)
  {
  }

  lemma InsertKeepsInv(d: Darc, a: Addr, fp: Fp)
    requires Inv(d)
    ensures var i := Insert(d, a, fp);
            && L.Inv(i.d.lba) && Exact(i.d, if fp in d.fps.mp then {} else {fp}) && Placed(i.d.fps)
            && Inserts(d, i, fp)
  {
    if fp !in d.fps.mp {
      if |d.fps.mp| != d.fps.capacity {
        EnterFreshPlaced(d.fps, fp);
        EnterKeepsExact(d, fp);
        FreshInserts(d, fp);
      } else {
        InsertRecycled(d, a, fp);
      }
    } else {
      assert Insert(d, a, fp).d == d;
    }
  }

  lemma AdjustKeepsInv(d: Darc, a: Addr)
    requires Inv(d)
    ensures Inv(d.(lba := L.AdjustAdaptiveFactor(d.lba, a)))
  {
    var d' := d.(lba := L.AdjustAdaptiveFactor(d.lba, a));
    forall id ensures L.Listed(L.Of(d'.lba, id), d'.lba.mp, id) {
      assert L.Listed(L.Of(d.lba, id), d.lba.mp, id);
    }
    forall f ensures L.Refs(d'.lba, f) == L.Refs(d.lba, f) {}
  }

  /** What a whole metadata update leaves behind, seen from outside the lists: `a` now carries `fp`, `fp` is
      cached, and whatever else is still known is as it was. */
  ghost predicate Updates(mp: map<Addr, L.Entry>, f: FpIndex, i: Inserted, a: Addr, fp: Fp) {
    && a in i.d.lba.mp && i.d.lba.mp[a].fp == fp
    && (forall b :: b in i.d.lba.mp && b != a ==> b in mp && i.d.lba.mp[b].fp == mp[b].fp)
    && fp in i.d.fps.mp
    && (forall g :: g in i.d.fps.mp && g != fp ==> g in f.mp && i.d.fps.mp[g].location == f.mp[g].location)
    && (if fp in f.mp then
          && i.location == i.evicted == None
          && i.d.fps.mp.Keys == f.mp.Keys && i.d.fps.mp[fp].location == f.mp[fp].location
        else
          && i.location == Some(i.d.fps.mp[fp].location)
          && (i.evicted.Some? ==> i.evicted == i.location)
          && (i.evicted.None? ==> i.d.fps.mp.Keys == f.mp.Keys + {fp})
          && (forall g :: g in f.mp && g !in i.d.fps.mp ==> i.evicted == Some(f.mp[g].location)))
  }

  lemma RecordAfterInsert(d: Darc, i: Inserted, a: Addr, fp: Fp)
    requires L.Inv(i.d.lba) && Placed(i.d.fps) && Exact(i.d, if fp in d.fps.mp then {} else {fp})
    requires Inserts(d, i, fp)
    ensures Inv(Record(i.d, a, fp))
    ensures Updates(d.lba.mp, d.fps, i.(d := Record(i.d, a, fp)), a, fp)
  {
    RecordKeepsExact(i.d, a, fp, if fp in d.fps.mp then {} else {fp});
    SamePlacesPlaced(i.d.fps, Record(i.d, a, fp).fps);
    RecordUpdates(d, i, L.Update(i.d.lba, a, fp), Record(i.d, a, fp), a, fp);
  }

  lemma RecordUpdates(d: Darc, i: Inserted, o: L.Outcome, r: Darc, a: Addr, fp: Fp)
    requires Inserts(d, i, fp)
    requires L.Records(i.d.lba, o, a, fp) && r.lba == o.lists
    requires SamePlaces(i.d.fps, r.fps)
    ensures Updates(d.lba.mp, d.fps, i.(d := r), a, fp)
  {
    forall b | b in r.lba.mp && b != a ensures b in d.lba.mp && r.lba.mp[b].fp == d.lba.mp[b].fp {
      assert b in i.d.lba.mp;
    }
  }

  /** Every metadata update keeps the lists' structure and budget, the exact counts and the slot bijection. */
  lemma UpdateKeepsInv(d: Darc, a: Addr, fp: Fp)
    requires Inv(d)
    ensures Inv(Update(d, a, fp).d)
    ensures Updates(d.lba.mp, d.fps, Update(d, a, fp), a, fp)
  {
    var d0 := d.(lba := L.AdjustAdaptiveFactor(d.lba, a));
    AdjustKeepsInv(d, a);
    var i := Insert(d0, a, fp);
    InsertKeepsInv(d0, a, fp);
    RecordAfterInsert(d0, i, a, fp);
  }
}
