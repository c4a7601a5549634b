/**
 The CD-ARC engine on values: fingerprints live in write-evict units (WEUs) that are filled in order,
 counted by reference, and recycled whole.  A recycled unit's fingerprints stay in the map until a
 lookup finds them stale.
 */
module CdarcModel {
  import opened Common
  import L = ArcLists

  datatype Extent = Extent(weu: nat, offset: nat, len: nat)

  /** Fills the open unit `weuId` up to `size` bytes, then opens the next one. */
  datatype WeuAllocator = WeuAllocator(weuId: nat, size: nat, offset: nat, evicted: set<nat>)

  datatype FpIndex = FpIndex(mp: map<Fp, Extent>, count: map<nat, nat>, zero: seq<nat>, alloc: WeuAllocator,
                             capacity: nat)

  datatype Cdarc = Cdarc(lba: L.Lists, fps: FpIndex)

  /** What inserting a fingerprint did: where it was placed, and the unit recycled to make room. */
  datatype Inserted = Inserted(d: Cdarc, placed: Option<Extent>, evicted: Option<nat>)

  function EmptyFps(capacity: nat, size: nat): FpIndex {
    FpIndex(map[], map[], [], WeuAllocator(0, size, 0, {}), capacity)
  }

  // ----- Operations

  predicate IsFull(w: WeuAllocator, len: nat) {
    len + w.offset > w.size
  }

  function Allocate(w: WeuAllocator, len: nat): (WeuAllocator, Extent) {
    if IsFull(w, len) then (w.(weuId := w.weuId + 1, offset := len), Extent(w.weuId + 1, 0, len))
    else (w.(offset := w.offset + len), Extent(w.weuId, w.offset, len))
  }

  predicate Live(f: FpIndex, fp: Fp) {
    fp in f.mp && f.mp[fp].weu !in f.alloc.evicted
  }

  /** A lookup drops the fingerprint when its unit has been recycled. */
  function Lookup(f: FpIndex, fp: Fp): (FpIndex, Option<Extent>) {
    if fp !in f.mp then (f, None)
    else if f.mp[fp].weu in f.alloc.evicted then (f.(mp := f.mp - {fp}), None)
    else (f, Some(f.mp[fp]))
  }

  function CountOf(f: FpIndex, weu: nat): nat {
    if weu in f.count then f.count[weu] else 0
  }

  /** The source aborts when `fp` is not in the map; `CdarcIndex` shows that no caller gets there. */
  function Reference(f: FpIndex, fp: Fp): FpIndex {
    if fp !in f.mp then f
    else
      var weu := f.mp[fp].weu;
      f.(count := f.count[weu := CountOf(f, weu) + 1],
         zero := if CountOf(f, weu) == 0 then Erase(f.zero, weu) else f.zero)
  }

  /** The source aborts when `fp` is not in the map, and a count of zero would wrap around. */
  function Dereference(f: FpIndex, fp: Fp): FpIndex {
    if fp !in f.mp || CountOf(f, f.mp[fp].weu) == 0 then f
    else
      var weu := f.mp[fp].weu;
      f.(count := f.count[weu := f.count[weu] - 1], zero := if f.count[weu] == 1 then [weu] + f.zero else f.zero)
  }

  function DereferenceOf(f: FpIndex, lba: L.Lists, demoted: Option<Addr>): FpIndex {
    if demoted.Some? && demoted.value in lba.mp then Dereference(f, lba.mp[demoted.value].fp) else f
  }

  function Manage(d: Cdarc, a: Addr): Cdarc {
    var o := L.ManageMetadataCache(d.lba, a);
    Cdarc(o.lists, DereferenceOf(d.fps, d.lba, o.demoted))
  }

  /** Demote addresses until some unit has no reference left. */
  function Drain(d: Cdarc, a: Addr): Cdarc
    decreases L.HeldSize(d.lba)
  {
    var d' := Manage(d, a);
    if d.fps.zero != [] then d
    else if L.HeldSize(d'.lba) < L.HeldSize(d.lba) then Drain(d', a) else d'
  }

  /** Recycle the least recently zeroed unit. */
  function EvictZero(f: FpIndex): FpIndex {
    if f.zero == [] then f
    else
      var victim := f.zero[|f.zero| - 1];
      f.(zero := f.zero[..|f.zero| - 1], count := f.count - {victim},
         alloc := f.alloc.(evicted := f.alloc.evicted + {victim}))
  }

  function Enter(f: FpIndex, fp: Fp, len: nat): FpIndex {
    var (alloc, e) := Allocate(f.alloc, len);
    f.(mp := f.mp[fp := e], alloc := alloc)
  }

  function Insert(d: Cdarc, a: Addr, fp: Fp, len: nat): Inserted {
    if fp in d.fps.mp then Inserted(d, None, None)
    else if IsFull(d.fps.alloc, len) && |d.fps.count| == d.fps.capacity then
      var d1 := Drain(d, a);
      var f := EvictZero(d1.fps);
      Inserted(d1.(fps := Enter(f, fp, len)), Some(Allocate(f.alloc, len).1),
               if d1.fps.zero == [] then None else Some(d1.fps.zero[|d1.fps.zero| - 1]))
    else
      Inserted(d.(fps := Enter(d.fps, fp, len)), Some(Allocate(d.fps.alloc, len).1), None)
  }

  function Record(d: Cdarc, a: Addr, fp: Fp): Cdarc {
    var o := L.Update(d.lba, a, fp);
    Cdarc(o.lists, Reference(DereferenceOf(d.fps, d.lba, o.demoted), fp))
  }

  /** The metadata update of one request. */
  function Update(d: Cdarc, a: Addr, fp: Fp, len: nat): Inserted {
    var i := Insert(d.(lba := L.AdjustAdaptiveFactor(d.lba, a)), a, fp, len);
    i.(d := Record(i.d, a, fp))
  }

  // ----- Reference counts of units

  function FpsIn(mp: map<Fp, Extent>, weu: nat): set<Fp> {
    set f | f in mp && mp[f].weu == weu
  }

  /** The addresses of T1 and T2 whose fingerprint is stored in the unit. */
  function WeuRefs(d: Cdarc, weu: nat): set<Addr> {
    L.RefsIn(d.lba, FpsIn(d.fps.mp, weu))
  }

  /** The zero-reference list is duplicate-free and is exactly the counted units with count 0. */
  ghost predicate Tallied(f: FpIndex) {
    && NoDup(f.zero)
    && (forall w :: w in f.zero <==> w in f.count && f.count[w] == 0)
  }

  /** Each unit's count is the number of T1 and T2 addresses whose fingerprint maps to it, and every such
      address's fingerprint maps to a counted unit. */
  ghost predicate Counted(d: Cdarc) {
    && (forall w :: w in d.fps.count ==> d.fps.count[w] == |WeuRefs(d, w)|)
    && (forall a :: L.InT(d.lba, a) ==> d.lba.mp[a].fp in d.fps.mp && d.fps.mp[d.lba.mp[a].fp].weu in d.fps.count)
  }

  ghost predicate Exact(d: Cdarc) {
    Tallied(d.fps) && Counted(d)
  }

  /** Only counts and the zero-reference list differ between `f0` and `f1`. */
  ghost predicate SamePlaces(f0: FpIndex, f1: FpIndex) {
    f1.mp == f0.mp && f1.alloc == f0.alloc && f1.capacity == f0.capacity
  }

  lemma DereferenceTally(f: FpIndex, fp: Fp)
    requires Tallied(f) && fp in f.mp && CountOf(f, f.mp[fp].weu) >= 1
    ensures var r, w := Dereference(f, fp), f.mp[fp].weu;
            && Tallied(r) && SamePlaces(f, r) && r.count == f.count[w := f.count[w] - 1]
  {
    NoDupCons(f.mp[fp].weu, f.zero);
  }

  lemma ReferenceTally(f: FpIndex, fp: Fp)
    requires Tallied(f) && fp in f.mp
    ensures var r, w := Reference(f, fp), f.mp[fp].weu;
            && Tallied(r) && SamePlaces(f, r) && r.count == f.count[w := CountOf(f, w) + 1]
  {
  }

  lemma HeldIsCounted(d: Cdarc, a: Addr)
    requires Counted(d) && L.InT(d.lba, a)
    ensures var fp := d.lba.mp[a].fp; fp in d.fps.mp && CountOf(d.fps, d.fps.mp[fp].weu) >= 1
  {
    assert a in WeuRefs(d, d.fps.mp[d.lba.mp[a].fp].weu);
  }

  lemma SameHeldSameCounts(d: Cdarc, lba: L.Lists)
    requires Counted(d) && L.Loses(d.lba, lba, None)
    ensures Counted(d.(lba := lba))
  {
    forall w ensures WeuRefs(d.(lba := lba), w) == WeuRefs(d, w) {}
  }

  lemma DemotionKeepsExact(d: Cdarc, lba: L.Lists, a: Addr)
    requires Exact(d) && L.Loses(d.lba, lba, Some(a))
    ensures Exact(Cdarc(lba, DereferenceOf(d.fps, d.lba, Some(a))))
    ensures SamePlaces(d.fps, DereferenceOf(d.fps, d.lba, Some(a)))
    ensures DereferenceOf(d.fps, d.lba, Some(a)).count.Keys == d.fps.count.Keys
  {
    HeldIsCounted(d, a);
    DereferenceTally(d.fps, d.lba.mp[a].fp);
    var d1 := Cdarc(lba, DereferenceOf(d.fps, d.lba, Some(a)));
    forall w ensures |WeuRefs(d1, w)| == |WeuRefs(d, w)| - (if d.fps.mp[d.lba.mp[a].fp].weu == w then 1 else 0) {
      L.RefsAfterDemotion(d.lba, lba, a, FpsIn(d.fps.mp, w));
    }
  }

  /** Whether the address `o` demotes refers to the unit `w`, as a number. */
  function DemotedFrom(d: Cdarc, o: L.Outcome, w: nat): nat {
    if o.demoted.Some? && o.demoted.value in d.lba.mp && d.lba.mp[o.demoted.value].fp in FpsIn(d.fps.mp, w) then 1
    else 0
  }

  lemma RecordTally(d: Cdarc, o: L.Outcome, a: Addr, fp: Fp)
    requires Exact(d) && fp in d.fps.mp && L.Records(d.lba, o, a, fp)
    ensures var f1 := Reference(DereferenceOf(d.fps, d.lba, o.demoted), fp);
            && Tallied(f1) && SamePlaces(d.fps, f1)
            && f1.count.Keys == d.fps.count.Keys + {d.fps.mp[fp].weu}
            && forall w :: CountOf(f1, w) == CountOf(d.fps, w) - DemotedFrom(d, o, w)
                                             + (if fp in FpsIn(d.fps.mp, w) then 1 else 0)
  {
    if o.demoted.Some? {
      HeldIsCounted(d, o.demoted.value);
      DereferenceTally(d.fps, d.lba.mp[o.demoted.value].fp);
    }
    ReferenceTally(DereferenceOf(d.fps, d.lba, o.demoted), fp);
  }

  lemma RecordCounted(d: Cdarc, o: L.Outcome, f1: FpIndex, a: Addr, fp: Fp)
    requires Exact(d) && fp in d.fps.mp && L.Records(d.lba, o, a, fp) && SamePlaces(d.fps, f1)
    requires f1.count.Keys == d.fps.count.Keys + {d.fps.mp[fp].weu}
    requires forall w :: CountOf(f1, w) == CountOf(d.fps, w) - DemotedFrom(d, o, w)
                                           + (if fp in FpsIn(d.fps.mp, w) then 1 else 0)
    ensures Counted(Cdarc(o.lists, f1))
  {
    var d1 := Cdarc(o.lists, f1);
    forall w | w in f1.count ensures f1.count[w] == |WeuRefs(d1, w)| {
      UnitsOutsideUnreferenced(d, w);
      L.RefsAfterUpdate(d.lba, o, a, fp, FpsIn(d.fps.mp, w));
      assert CountOf(f1, w) == f1.count[w];
    }
    forall b | L.InT(o.lists, b)
      ensures o.lists.mp[b].fp in d1.fps.mp && d1.fps.mp[o.lists.mp[b].fp].weu in d1.fps.count {
      if b != a { assert L.InT(d.lba, b); }
    }
  }

  lemma UnitsOutsideUnreferenced(d: Cdarc, w: nat)
    requires Counted(d)
    ensures CountOf(d.fps, w) == |WeuRefs(d, w)|
  {
    if w !in d.fps.count { assert WeuRefs(d, w) == {}; }
  }

  // ----- Units and extents

  /** Counted and recycled units are apart, no unit is beyond the open one, and every fingerprint in the map is
      in one of them. */
  ghost predicate UnitsCore(f: FpIndex) {
    && f.alloc.offset <= f.alloc.size
    && (forall w :: w in f.count ==> w !in f.alloc.evicted && w <= f.alloc.weuId)
    && (forall w :: w in f.alloc.evicted ==> w <= f.alloc.weuId)
    && (forall g :: g in f.mp ==>
          f.mp[g].weu in f.count || f.mp[g].weu in f.alloc.evicted || f.mp[g].weu == f.alloc.weuId)
  }

  /** The open unit is not recycled, and there is room to count it. */
  ghost predicate UnitsOpen(f: FpIndex) {
    && UnitsCore(f)
    && f.alloc.weuId !in f.alloc.evicted
    && (if f.alloc.weuId in f.count then |f.count| <= f.capacity else |f.count| < f.capacity)
  }

  /** Between requests the open unit is counted too, unless nothing was ever cached. */
  ghost predicate Units(f: FpIndex) {
    && UnitsOpen(f)
    && (f.alloc.weuId in f.count
        || (f.count == map[] && f.mp == map[] && f.alloc.evicted == {} && f.alloc.offset == 0))
  }

  predicate DisjointExtents(e: Extent, e': Extent) {
    e.weu == e'.weu ==> e.offset + e.len <= e'.offset || e'.offset + e'.len <= e.offset
  }

  /** The extents that are not stale lie within their units, apart, and below the open unit's fill mark. */
  ghost predicate Extents(f: FpIndex) {
    && (forall g :: Live(f, g) ==> f.mp[g].offset + f.mp[g].len <= f.alloc.size)
    && (forall g :: Live(f, g) && f.mp[g].weu == f.alloc.weuId ==> f.mp[g].offset + f.mp[g].len <= f.alloc.offset)
    && (forall g, g' :: Live(f, g) && Live(f, g') && g != g' ==> DisjointExtents(f.mp[g], f.mp[g']))
  }

  ghost predicate Inv(d: Cdarc) {
    L.Inv(d.lba) && Exact(d) && Units(d.fps) && Extents(d.fps)
  }

  lemma NoZeroMeansHeld(d: Cdarc)
    requires L.Inv(d.lba) && Exact(d) && d.fps.zero == [] && d.fps.count != map[]
    ensures L.HeldSize(d.lba) > 0
  {
    var w :| w in d.fps.count;
    assert w !in d.fps.zero;
    var a :| a in WeuRefs(d, w);
    assert L.Listed(L.Of(d.lba, d.lba.mp[a].list), d.lba.mp, d.lba.mp[a].list);
  }

  lemma ManageKeepsExact(d: Cdarc, a: Addr)
    requires L.Inv(d.lba) && Exact(d) && L.HeldSize(d.lba) > 0
    ensures var r := Manage(d, a);
            && L.Inv(r.lba) && Exact(r) && SamePlaces(d.fps, r.fps) && r.fps.count.Keys == d.fps.count.Keys
            && L.HeldSize(r.lba) == L.HeldSize(d.lba) - 1 && r.lba.mp.Keys == d.lba.mp.Keys
            && forall b :: b in d.lba.mp ==> r.lba.mp[b].fp == d.lba.mp[b].fp
  {
    L.ManageKeepsInv(d.lba, a);
    var o := L.ManageMetadataCache(d.lba, a);
    DemotionKeepsExact(d, o.lists, o.demoted.value);
  }

  /** The eviction loop ends, and with a unit to recycle. */
  lemma {:induction false} DrainKeepsExact(d: Cdarc, a: Addr)
    requires L.Inv(d.lba) && Exact(d) && d.fps.count != map[]
    ensures var r := Drain(d, a);
            && L.Inv(r.lba) && Exact(r) && SamePlaces(d.fps, r.fps) && r.fps.count.Keys == d.fps.count.Keys
            && r.fps.zero != [] && r.lba.mp.Keys == d.lba.mp.Keys
            && forall b :: b in d.lba.mp ==> r.lba.mp[b].fp == d.lba.mp[b].fp
    decreases L.HeldSize(d.lba)
  {
    if d.fps.zero == [] {
      NoZeroMeansHeld(d);
      ManageKeepsExact(d, a);
      assert Manage(d, a).fps.count.Keys != {};
      DrainKeepsExact(Manage(d, a), a);
    }
  }

  lemma EvictKeepsExact(d: Cdarc)
    requires Exact(d) && d.fps.zero != []
    ensures d.fps.zero[|d.fps.zero| - 1] in d.fps.count
    ensures Exact(d.(fps := EvictZero(d.fps)))
  {
    var z := d.fps.zero;
    var victim := z[|z| - 1];
    var d' := d.(fps := EvictZero(d.fps));
    assert victim in z && z == z[..|z| - 1] + [victim];
    forall a | L.InT(d.lba, a) ensures d.fps.mp[d.lba.mp[a].fp].weu != victim { HeldIsCounted(d, a); }
    forall w ensures WeuRefs(d', w) == WeuRefs(d, w) {}
  }

  /** A new fingerprint changes no unit's references, nor does forgetting an unreferenced one. */
  lemma MapChangeKeepsExact(d: Cdarc, f: FpIndex)
    requires Exact(d) && f.count == d.fps.count && f.zero == d.fps.zero
    requires forall a :: L.InT(d.lba, a) ==> d.lba.mp[a].fp in f.mp && f.mp[d.lba.mp[a].fp] == d.fps.mp[d.lba.mp[a].fp]
    ensures Exact(d.(fps := f))
  {
    forall w ensures WeuRefs(d.(fps := f), w) == WeuRefs(d, w) {
      forall a | L.InT(d.lba, a) ensures a in WeuRefs(d.(fps := f), w) <==> a in WeuRefs(d, w) {}
    }
  }

  lemma LookupKeepsUnits(f: FpIndex, fp: Fp)
    requires Units(f) && Extents(f)
    ensures var r := Lookup(f, fp).0; Units(r) && Extents(r)
  {
    var r := Lookup(f, fp).0;
    LookupFindsLive(f, fp);
    hide Lookup;
    assert forall g, g' :: Live(r, g) && Live(r, g') && g != g' ==> DisjointExtents(f.mp[g], f.mp[g']);
  }

  lemma LookupKeepsHeld(d: Cdarc, fp: Fp, a: Addr)
    requires Exact(d) && Units(d.fps) && L.InT(d.lba, a)
    ensures var f := Lookup(d.fps, fp).0; d.lba.mp[a].fp in f.mp && f.mp[d.lba.mp[a].fp] == d.fps.mp[d.lba.mp[a].fp]
  {
    HeldIsCounted(d, a);
  }

  lemma LookupKeepsInv(d: Cdarc, fp: Fp)
    requires Inv(d)
    ensures Inv(d.(fps := Lookup(d.fps, fp).0))
  {
    var f := Lookup(d.fps, fp).0;
    LookupKeepsUnits(d.fps, fp);
    forall a | L.InT(d.lba, a) ensures d.lba.mp[a].fp in f.mp && f.mp[d.lba.mp[a].fp] == d.fps.mp[d.lba.mp[a].fp] {
      LookupKeepsHeld(d, fp, a);
    }
    hide Units, Extents, Exact, L.Inv, Lookup;
    LookupFindsLive(d.fps, fp);
    MapChangeKeepsExact(d, f);
  }

  /** A lookup finds exactly the fingerprints whose unit is not recycled, and keeps all of those. */
  lemma LookupFindsLive(f: FpIndex, fp: Fp)
    ensures var (r, e) := Lookup(f, fp);
            && e == (if Live(f, fp) then Some(f.mp[fp]) else None)
            && (e.None? ==> fp !in r.mp)
            && r.alloc == f.alloc && r.count == f.count && r.capacity == f.capacity && r.zero == f.zero
            && (forall g :: Live(r, g) <==> Live(f, g))
            && (forall g :: g in r.mp ==> g in f.mp && r.mp[g] == f.mp[g])
  {
  }

  lemma EnterKeepsExact(d: Cdarc, fp: Fp, len: nat)
    requires Exact(d) && fp !in d.fps.mp
    ensures Exact(d.(fps := Enter(d.fps, fp, len)))
  {
    MapChangeKeepsExact(d, Enter(d.fps, fp, len));
  }

  lemma EnterKeepsExtents(f: FpIndex, fp: Fp, len: nat)
    requires UnitsCore(f) && Extents(f) && len <= f.alloc.size && fp !in f.mp
    ensures Extents(Enter(f, fp, len))
  {
    var r := Enter(f, fp, len);
    forall g | Live(r, g) && g != fp
      ensures Live(f, g) && r.mp[g] == f.mp[g] && r.mp[g].weu <= f.alloc.weuId && DisjointExtents(r.mp[g], r.mp[fp]) {}
  }

  /** Room is left to open the next unit: when the open one is full, a unit was recycled or one was free. */
  lemma EnterKeepsUnits(f: FpIndex, fp: Fp, len: nat)
    requires UnitsCore(f) && len <= f.alloc.size
    requires if IsFull(f.alloc, len) then
               |f.count| < f.capacity && (f.alloc.weuId in f.count || f.alloc.weuId in f.alloc.evicted)
             else UnitsOpen(f)
    ensures UnitsOpen(Enter(f, fp, len))
  {
  }

  lemma EvictKeepsUnits(f: FpIndex)
    requires UnitsCore(f) && f.alloc.weuId in f.count && Extents(f)
    requires f.zero != [] && f.zero[|f.zero| - 1] in f.count
    ensures var r := EvictZero(f); UnitsCore(r) && Extents(r) && |r.count| == |f.count| - 1
  {
    var victim := f.zero[|f.zero| - 1];
    assert EvictZero(f).count.Keys == f.count.Keys - {victim};
    assert |f.count.Keys - {victim}| == |f.count.Keys| - 1;
  }

  // ----- What one request changes

  /** The allocator moved on by one extent: within the open unit, or into a new one. */
  ghost predicate Advances(w0: WeuAllocator, w1: WeuAllocator, e: Extent) {
    && w1.size == w0.size && e.weu == w1.weuId && e.offset + e.len == w1.offset
    && (if w1.weuId == w0.weuId then e.offset == w0.offset else w1.weuId == w0.weuId + 1 && e.offset == 0)
  }

  /** What entering a fingerprint of `len` bytes changes in the fingerprint index: a new unit is opened only when
      the open one is full, and then a counted unit is recycled just when all units are in use. */
  ghost predicate Places(f: FpIndex, r: FpIndex, placed: Option<Extent>, evicted: Option<nat>, fp: Fp, len: nat) {
    && fp in r.mp && r.capacity == f.capacity
    && (if fp in f.mp then
          placed == None && evicted == None && r.mp == f.mp && r.alloc == f.alloc
        else
          && placed.Some? && placed.value.len == len
          && r.mp == f.mp[fp := placed.value] && Advances(f.alloc, r.alloc, placed.value)
          && (r.alloc.weuId != f.alloc.weuId ==> IsFull(f.alloc, len))
          && (evicted.Some? ==> evicted.value in f.count && r.alloc.weuId == f.alloc.weuId + 1)
          && (evicted.None? && r.alloc.weuId == f.alloc.weuId + 1 ==> |f.count| < f.capacity)
          && r.alloc.evicted == (if evicted.Some? then f.alloc.evicted + {evicted.value} else f.alloc.evicted))
  }

  /** The counted units are the old ones but for the recycled one. */
  ghost predicate Recounts(f: FpIndex, r: FpIndex, evicted: Option<nat>) {
    r.count.Keys == if evicted.Some? then f.count.Keys - {evicted.value} else f.count.Keys
  }

  ghost predicate SameFps(lba0: L.Lists, lba1: L.Lists) {
    lba1.mp.Keys == lba0.mp.Keys && forall b :: b in lba0.mp ==> lba1.mp[b].fp == lba0.mp[b].fp
  }

  /** Ready for `Record`: everything but the open unit's own count. */
  ghost predicate Ready(d: Cdarc) {
    L.Inv(d.lba) && Exact(d) && UnitsOpen(d.fps) && Extents(d.fps)
  }

  ghost predicate Inserts(d: Cdarc, i: Inserted, fp: Fp, len: nat) {
    && Ready(i.d) && SameFps(d.lba, i.d.lba)
    && Places(d.fps, i.d.fps, i.placed, i.evicted, fp, len) && Recounts(d.fps, i.d.fps, i.evicted)
  }

  lemma InsertDirectly(d: Cdarc, fp: Fp, len: nat)
    requires Inv(d) && fp !in d.fps.mp && len <= d.fps.alloc.size
    requires IsFull(d.fps.alloc, len) ==> |d.fps.count| != d.fps.capacity
    ensures Inserts(d, Inserted(d.(fps := Enter(d.fps, fp, len)), Some(Allocate(d.fps.alloc, len).1), None), fp, len)
  {
    EnterKeepsExact(d, fp, len);
    EnterKeepsExtents(d.fps, fp, len);
    EnterKeepsUnits(d.fps, fp, len);
  }

  lemma EvictThenEnterReady(d1: Cdarc, fp: Fp, len: nat)
    requires Ready(d1) && fp !in d1.fps.mp && len <= d1.fps.alloc.size
    requires IsFull(d1.fps.alloc, len) && |d1.fps.count| == d1.fps.capacity && d1.fps.alloc.weuId in d1.fps.count
    requires d1.fps.zero != []
    ensures Ready(d1.(fps := Enter(EvictZero(d1.fps), fp, len)))
  {
    var f := EvictZero(d1.fps);
    EvictKeepsExact(d1);
    EvictKeepsUnits(d1.fps);
    EnterKeepsExact(d1.(fps := f), fp, len);
    EnterKeepsExtents(f, fp, len);
    EnterKeepsUnits(f, fp, len);
  }

  lemma EvictThenEnterPlaces(f: FpIndex, f1: FpIndex, fp: Fp, len: nat)
    requires SamePlaces(f, f1) && f1.count.Keys == f.count.Keys && fp !in f.mp
    requires IsFull(f.alloc, len) && Tallied(f1) && f1.zero != []
    ensures var f2, victim := EvictZero(f1), f1.zero[|f1.zero| - 1];
            var r := Enter(f2, fp, len);
            Recounts(f, r, Some(victim)) && Places(f, r, Some(Allocate(f2.alloc, len).1), Some(victim), fp, len)
  {
    assert f1.zero[|f1.zero| - 1] in f1.zero;
  }

  lemma SamePlacesReady(d: Cdarc, d1: Cdarc)
    requires Inv(d) && SamePlaces(d.fps, d1.fps) && d1.fps.count.Keys == d.fps.count.Keys
    requires L.Inv(d1.lba) && Exact(d1)
    ensures Ready(d1) && |d1.fps.count| == |d.fps.count|
  {
    assert |d1.fps.count.Keys| == |d.fps.count.Keys|;
  }

  lemma InsertRecycling(d: Cdarc, d1: Cdarc, a: Addr, fp: Fp, len: nat)
    requires Inv(d) && len <= d.fps.alloc.size && fp !in d.fps.mp && d1 == Drain(d, a)
    requires IsFull(d.fps.alloc, len) && |d.fps.count| == d.fps.capacity
    ensures d1.fps.zero != []
    ensures var f := EvictZero(d1.fps);
            Inserts(d, Inserted(d1.(fps := Enter(f, fp, len)), Some(Allocate(f.alloc, len).1),
                                Some(d1.fps.zero[|d1.fps.zero| - 1])), fp, len)
  {
    DrainKeepsExact(d, a);
    SamePlacesReady(d, d1);
    EvictThenEnterReady(d1, fp, len);
    EvictThenEnterPlaces(d.fps, d1.fps, fp, len);
  }

  lemma InsertKeepsInv(d: Cdarc, a: Addr, fp: Fp, len: nat)
    requires Inv(d) && len <= d.fps.alloc.size
    ensures Inserts(d, Insert(d, a, fp, len), fp, len)
  {
    if fp in d.fps.mp {
      assert Inserts(d, Inserted(d, None, None), fp, len);
    } else if IsFull(d.fps.alloc, len) && |d.fps.count| == d.fps.capacity {
      InsertRecycling(d, Drain(d, a), a, fp, len);
    } else {
      InsertDirectly(d, fp, len);
    }
  }

  /** What a whole metadata update leaves behind: `a` carries `fp`, and whatever else is still known is as it was. */
  ghost predicate Learns(mp: map<Addr, L.Entry>, lba: L.Lists, a: Addr, fp: Fp) {
    && a in lba.mp && lba.mp[a].fp == fp
    && (forall b :: b in lba.mp && b != a ==> b in mp && lba.mp[b].fp == mp[b].fp)
  }

  ghost predicate Updates(mp: map<Addr, L.Entry>, f: FpIndex, i: Inserted, a: Addr, fp: Fp, len: nat) {
    && Learns(mp, i.d.lba, a, fp)
    && Places(f, i.d.fps, i.placed, i.evicted, fp, len)
    && i.d.fps.count.Keys == (if i.evicted.Some? then f.count.Keys - {i.evicted.value} else f.count.Keys)
                             + {i.d.fps.mp[fp].weu}
  }

  lemma RecordKeepsInv(d: Cdarc, i: Inserted, a: Addr, fp: Fp, len: nat)
    requires Inv(d) && Inserts(d, i, fp, len) && (fp in d.fps.mp ==> Live(d.fps, fp))
    ensures Inv(Record(i.d, a, fp))
    ensures Updates(d.lba.mp, d.fps, i.(d := Record(i.d, a, fp)), a, fp, len)
  {
    var o := L.Update(i.d.lba, a, fp);
    L.UpdateKeepsBudget(i.d.lba, a, fp);
    L.UpdateRecords(i.d.lba, a, fp);
    RecordTally(i.d, o, a, fp);
    RecordCounted(i.d, o, Record(i.d, a, fp).fps, a, fp);
    RecordUnits(i.d.fps, Record(i.d, a, fp).fps, fp);
    RecordLearns(d.lba, i.d.lba, o, a, fp);
  }

  lemma RecordUnits(f: FpIndex, r: FpIndex, fp: Fp)
    requires UnitsOpen(f) && Extents(f) && SamePlaces(f, r) && fp in f.mp
    requires r.count.Keys == f.count.Keys + {f.mp[fp].weu}
    requires f.mp[fp].weu == f.alloc.weuId || (f.mp[fp].weu in f.count && f.alloc.weuId in f.count)
    ensures Units(r) && Extents(r)
  {
    assert |r.count.Keys| == |r.count| && |f.count.Keys| == |f.count|;
    if f.mp[fp].weu !in f.count.Keys {
      assert |f.count.Keys + {f.mp[fp].weu}| == |f.count| + 1;
    } else {
      assert r.count.Keys == f.count.Keys;
    }
  }

  lemma RecordLearns(lba0: L.Lists, lba1: L.Lists, o: L.Outcome, a: Addr, fp: Fp)
    requires SameFps(lba0, lba1) && L.Records(lba1, o, a, fp)
    ensures Learns(lba0.mp, o.lists, a, fp)
  {
    forall b | b in o.lists.mp && b != a ensures b in lba0.mp && o.lists.mp[b].fp == lba0.mp[b].fp {
      assert b in lba1.mp;
    }
  }

  lemma AdjustKeepsInv(d: Cdarc, a: Addr)
    requires Inv(d)
    ensures Inv(d.(lba := L.AdjustAdaptiveFactor(d.lba, a)))
  {
    var d' := d.(lba := L.AdjustAdaptiveFactor(d.lba, a));
    forall id ensures L.Listed(L.Of(d'.lba, id), d'.lba.mp, id) {
      assert L.Listed(L.Of(d.lba, id), d.lba.mp, id);
    }
    forall w ensures WeuRefs(d', w) == WeuRefs(d, w) {}
  }

  lemma InsertAndRecordKeepInv(d: Cdarc, a: Addr, fp: Fp, len: nat)
    requires Inv(d) && len <= d.fps.alloc.size && (fp in d.fps.mp ==> Live(d.fps, fp))
    ensures var i := Insert(d, a, fp, len);
            && Inv(Record(i.d, a, fp))
            && Updates(d.lba.mp, d.fps, i.(d := Record(i.d, a, fp)), a, fp, len)
  {
    InsertKeepsInv(d, a, fp, len);
    RecordKeepsInv(d, Insert(d, a, fp, len), a, fp, len);
  }

  /** Every metadata update keeps the lists' structure, the exact unit counts, and the extents apart; only
      unreferenced units are recycled. */
  lemma UpdateKeepsInv(d: Cdarc, a: Addr, fp: Fp, len: nat)
    requires Inv(d) && len <= d.fps.alloc.size && (fp in d.fps.mp ==> Live(d.fps, fp))
    ensures Inv(Update(d, a, fp, len).d)
    ensures Updates(d.lba.mp, d.fps, Update(d, a, fp, len), a, fp, len)
  {
    AdjustKeepsInv(d, a);
    hide Inv, Updates, Insert, Record, Live;
    InsertAndRecordKeepInv(d.(lba := L.AdjustAdaptiveFactor(d.lba, a)), a, fp, len);
  }

  /** No address of T1 or T2 ever points into a recycled unit, and the counted units fit the device. */
  lemma ReferencesAreLive(d: Cdarc)
    requires Inv(d)
    ensures forall a :: L.InT(d.lba, a) ==> Live(d.fps, d.lba.mp[a].fp)
    ensures |d.fps.count| <= d.fps.capacity
  {
    forall a | L.InT(d.lba, a) ensures Live(d.fps, d.lba.mp[a].fp) { HeldIsCounted(d, a); }
  }
}
