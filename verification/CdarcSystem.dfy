/**
 The CD-ARC cache as a whole, write-through: the open unit is filled in memory and copied to the cache
 device when the next one opens, at a location of its own or at the location of the recycled unit.
 Both the buffer and the cache device are byte-addressed.
 */
module CdarcSystem {
  import opened Common
  import opened Storage
  import L = ArcLists
  import M = CdarcModel

  datatype Config = Config(h: Block -> Fp, codec: Codec, chunk: nat)

  /** Where the closed units are on the device, the open unit, and the next unused location. */
  datatype Placement = Placement(location: map<nat, nat>, open: nat, next: nat)

  datatype Sys = Sys(d: M.Cdarc, at: Placement, primary: Device, cache: Block, buffer: Block)

  function Init(lbaCapacity: nat, x: nat, capacity: nat, size: nat, primary: Device, cache: Block, buffer: Block): Sys {
    Sys(M.Cdarc(L.Empty(lbaCapacity, 0, x), M.EmptyFps(capacity, size)), Placement(map[], 0, 0), primary, cache, buffer)
  }

  // ----- Compression

  /** What is stored for a chunk: its compressed form when that is shorter, else the chunk itself. */
  function Blob(c: Codec, data: Block): Block {
    var z := c.compress(data);
    if c.enabled && 0 < |z| < |data| then z else data
  }

  function Unblob(cfg: Config, blob: Block): Block {
    if |blob| == cfg.chunk then blob else cfg.codec.decompress(blob)
  }

  lemma UnblobBlob(cfg: Config, data: Block)
    requires Inverse(cfg.codec) && |data| == cfg.chunk
    ensures Unblob(cfg, Blob(cfg.codec, data)) == data
    ensures |Blob(cfg.codec, data)| <= cfg.chunk
  {
  }

  // ----- One request

  /** The bytes of an extent: from the buffer when its unit is open, else from the device. */
  function ReadExtent(s: Sys, e: M.Extent): Block {
    if e.weu == s.at.open then Bytes(s.buffer, e.offset, e.len)
    else if e.weu in s.at.location then Bytes(s.cache, s.at.location[e.weu] + e.offset, e.len)
    else []
  }

  /** Close the open unit when the chunk went to another one: copy it to the recycled unit's location, or to an
      unused one; a recycled open unit is just dropped. */
  function SwitchUnit(s: Sys, weu: nat, evicted: Option<nat>): Sys {
    if weu == s.at.open then s
    else if evicted == Some(s.at.open) then s.(at := s.at.(open := weu))
    else if evicted.Some? && evicted.value in s.at.location then
      var to := s.at.location[evicted.value];
      s.(cache := Patch(s.cache, to, s.buffer),
         at := s.at.(location := (s.at.location - {evicted.value})[s.at.open := to], open := weu))
    else
      var to := s.at.next;
      s.(cache := Patch(s.cache, to, s.buffer),
         at := Placement(s.at.location[s.at.open := to], weu, to + |s.buffer|))
  }

  function PlaceBlob(s: Sys, e: M.Extent, evicted: Option<nat>, blob: Block): Sys {
    var s1 := SwitchUnit(s, e.weu, evicted);
    s1.(buffer := Patch(s1.buffer, e.offset, blob))
  }

  /** Looking a fingerprint up may drop it from the map. */
  function LookUp(s: Sys, fp: Fp): Sys {
    s.(d := s.d.(fps := M.Lookup(s.d.fps, fp).0))
  }

  /** Update the metadata and store the blob unless its content was cached. */
  function Settle(s: Sys, i: M.Inserted, blob: Block): Sys {
    if i.placed.Some? then PlaceBlob(s, i.placed.value, i.evicted, blob).(d := i.d) else s.(d := i.d)
  }

  function Admit(s: Sys, a: Addr, data: Block, cfg: Config): Sys {
    var s1, blob := LookUp(s, cfg.h(data)), Blob(cfg.codec, data);
    Settle(s1, M.Update(s1.d, a, cfg.h(data), |blob|), blob)
  }

  function InternalRead(s: Sys, a: Addr, cfg: Config): (Sys, Block) {
    var chunk := ChunkAt(s.primary, a, cfg.chunk);
    if a !in s.d.lba.mp then (Admit(s, a, chunk, cfg), chunk)
    else
      var fp := s.d.lba.mp[a].fp;
      var s1 := LookUp(s, fp);
      if M.Live(s.d.fps, fp) then
        (s1.(d := M.Update(s1.d, a, fp, s.d.fps.mp[fp].len).d), Unblob(cfg, ReadExtent(s, s.d.fps.mp[fp])))
      else (Admit(s1, a, chunk, cfg), chunk)
  }

  function InternalWrite(s: Sys, a: Addr, data: Block, cfg: Config): Sys {
    var s1 := Admit(s, a, data, cfg);
    s1.(primary := s1.primary[a := data])
  }

  // ----- Placement of the closed units

  /** Every counted unit but the open one has its own slot of the device, the slots are the first ones, and the
      next unused location is the first slot beyond them. */
  ghost predicate Placed(f: M.FpIndex, at: Placement) {
    PlacedIn(f.count.Keys, f.alloc.weuId, f.alloc.size, at)
  }

  /** Each of the units but the open one has a slot of its own, and `next` is the first slot not given yet. */
  ghost predicate PlacedIn(units: set<nat>, open: nat, size: nat, at: Placement) {
    && at.open == open
    && at.location.Keys == units - {open}
    && at.next == SlotAt(|at.location|, size)
    && Slotted(at.location, size)
  }

  /** The locations are the first slots of the device, each given once. */
  ghost predicate Slotted(location: map<nat, nat>, size: nat) {
    && (forall w :: w in location ==> location[w] in SlotSet(|location|, size))
    && (forall w, v :: w in location && v in location && location[w] == location[v] ==> w == v)
  }

  lemma {:induction false} SlotsApart(k: nat, size: nat, x: nat, y: nat)
    requires x in SlotSet(k, size) && y in SlotSet(k, size) && x != y && size >= 1
    ensures x + size <= y || y + size <= x
  {
    if x in SlotSet(k - 1, size) && y in SlotSet(k - 1, size) {
      SlotsApart(k - 1, size, x, y);
    } else {
      SlotEndsBelow(k - 1, size, if x in SlotSet(k - 1, size) then x else y);
    }
  }

  lemma {:induction false} SlotEndsBelow(k: nat, size: nat, x: nat)
    requires x in SlotSet(k, size) && size >= 1
    ensures x + size <= SlotAt(k, size)
  {
    if x in SlotSet(k - 1, size) { SlotEndsBelow(k - 1, size, x); }
  }

  /** The placement after a switch, on its own. */
  function SwitchPlacement(at: Placement, size: nat, weu: nat, evicted: Option<nat>): Placement {
    if weu == at.open then at
    else if evicted == Some(at.open) then at.(open := weu)
    else if evicted.Some? && evicted.value in at.location then
      at.(location := (at.location - {evicted.value})[at.open := at.location[evicted.value]], open := weu)
    else Placement(at.location[at.open := at.next], weu, at.next + size)
  }

  lemma SwitchReusing(f: M.FpIndex, at: Placement, r: M.FpIndex, w: nat)
    requires Placed(f, at) && w in at.location && w in f.count && at.open in f.count
    requires r.alloc.size == f.alloc.size && r.alloc.weuId == f.alloc.weuId + 1 && r.alloc.weuId !in f.count
    requires r.count.Keys == f.count.Keys - {w} + {r.alloc.weuId}
    ensures Placed(r, SwitchPlacement(at, f.alloc.size, r.alloc.weuId, Some(w)))
  {
    var location := (at.location - {w})[at.open := at.location[w]];
    assert location.Keys == at.location.Keys - {w} + {at.open};
    assert |at.location.Keys - {w}| == |at.location.Keys| - 1;
    assert |location| == |location.Keys| == |at.location.Keys| == |at.location|;
  }

  /** Giving one more unit the next slot. */
  lemma InsertSlot(m: map<nat, nat>, k: nat, size: nat, r: map<nat, nat>)
    requires k !in m && size >= 1 && r == m[k := SlotAt(|m|, size)] && Slotted(m, size)
    ensures |r| == |m| + 1 && r.Keys == m.Keys + {k} && Slotted(r, size)
    ensures SlotAt(|r|, size) == SlotAt(|m|, size) + size
  {
    SlotSetBelow(|m|, size);
    assert r.Keys == m.Keys + {k};
    assert |r| == |m| + 1;
  }

  lemma SwitchFresh(f: M.FpIndex, at: Placement, r: M.FpIndex)
    requires Placed(f, at) && at.open in f.count && f.alloc.size >= 1
    requires r.alloc.size == f.alloc.size && r.alloc.weuId == f.alloc.weuId + 1 && r.alloc.weuId !in f.count
    requires r.count.Keys == f.count.Keys + {r.alloc.weuId}
    ensures Placed(r, SwitchPlacement(at, f.alloc.size, r.alloc.weuId, None))
  {
    FreshPlaced(f.count.Keys, f.alloc.size, at, r.alloc.weuId);
  }

  lemma FreshPlaced(units: set<nat>, size: nat, at: Placement, weu: nat)
    requires PlacedIn(units, at.open, size, at) && at.open in units && weu !in units && size >= 1
    ensures PlacedIn(units + {weu}, weu, size, Placement(at.location[at.open := at.next], weu, at.next + size))
  {
    InsertSlot(at.location, at.open, size, at.location[at.open := at.next]);
    OpenUnitSets(units, at.open, weu);
  }

  lemma OpenUnitSets(units: set<nat>, open: nat, weu: nat)
    requires open in units && weu !in units
    ensures (units - {open}) + {open} == units && (units + {weu}) - {weu} == units
  {
  }

  /** After any metadata update the closed units still have a slot each. */
  lemma SwitchKeepsPlaced(f: M.FpIndex, at: Placement, i: M.Inserted, a: Addr, fp: Fp, len: nat, mp: map<Addr, L.Entry>)
    requires M.Units(f) && Placed(f, at) && fp !in f.mp && f.alloc.size >= 1 && len <= f.alloc.size
    requires M.Updates(mp, f, i, a, fp, len)
    ensures Placed(i.d.fps, SwitchPlacement(at, f.alloc.size, i.d.fps.alloc.weuId, i.evicted))
  {
    var weu := i.d.fps.alloc.weuId;
    if weu == at.open {
      assert i.d.fps.count.Keys - {weu} == f.count.Keys - {weu};
    } else if i.evicted == Some(at.open) {
      assert i.d.fps.count.Keys - {weu} == f.count.Keys - {at.open};
    } else if i.evicted.Some? {
      SwitchReusing(f, at, i.d.fps, i.evicted.value);
    } else {
      SwitchFresh(f, at, i.d.fps);
    }
  }

  lemma PlacementSize(f: M.FpIndex, at: Placement)
    requires M.Units(f) && Placed(f, at) && at.open in f.count
    ensures |at.location| == |f.count| - 1 < f.capacity
  {
    assert |f.count.Keys - {at.open}| == |f.count.Keys| - 1;
    assert |at.location| == |at.location.Keys|;
  }

  /** The closed units' locations are aligned and pairwise apart, and like the open unit's future one they fit a
      device of `capacity` units. */
  lemma ClosedUnitsFit(f: M.FpIndex, at: Placement, w: nat)
    requires M.Units(f) && Placed(f, at) && f.alloc.size >= 1 && w in at.location
    ensures exists i: nat :: i < f.capacity && at.location[w] == i * f.alloc.size
    ensures at.location[w] + f.alloc.size <= SlotAt(f.capacity, f.alloc.size)
    ensures at.next + f.alloc.size <= SlotAt(f.capacity, f.alloc.size)
    ensures forall v :: v in at.location && v != w ==>
              at.location[w] + f.alloc.size <= at.location[v] || at.location[v] + f.alloc.size <= at.location[w]
  {
    var k, size := |at.location|, f.alloc.size;
    PlacementSize(f, at);
    var i := SlotSetIndex(k, size, at.location[w]);
    SlotEndsBelow(k, size, at.location[w]);
    SlotAtMonotone(k, f.capacity, size);
    SlotAtMonotone(k + 1, f.capacity, size);
    forall v | v in at.location && v != w
      ensures at.location[w] + size <= at.location[v] || at.location[v] + size <= at.location[w] {
      SlotsApart(k, size, at.location[w], at.location[v]);
    }
  }

  // ----- What is stored

  /** Every fingerprint a lookup accepts reads back exactly the blob of its content. */
  ghost predicate StoredAt(s: Sys, cfg: Config, fp: Fp) {
    M.Live(s.d.fps, fp) ==>
      forall data :: |data| == cfg.chunk && cfg.h(data) == fp ==> ReadExtent(s, s.d.fps.mp[fp]) == Blob(cfg.codec, data)
  }

  ghost predicate Sized(s: Sys, cfg: Config) {
    && 1 <= cfg.chunk <= s.d.fps.alloc.size == |s.buffer|
    && SlotAt(s.d.fps.capacity, s.d.fps.alloc.size) <= |s.cache|
    && (forall a :: a in s.primary ==> |s.primary[a]| == cfg.chunk)
  }

  /** Holds after every request. */
  ghost predicate Sound(s: Sys, cfg: Config) {
    && M.Inv(s.d) && Placed(s.d.fps, s.at) && Sized(s, cfg)
    && (forall fp :: StoredAt(s, cfg, fp))
  }

  /** Every known address carries the fingerprint of the primary's current chunk. */
  ghost predicate Fresh(lba: L.Lists, primary: Device, cfg: Config) {
    forall a :: a in lba.mp ==> lba.mp[a].fp == cfg.h(ChunkAt(primary, a, cfg.chunk))
  }

  // ----- Storing a blob disturbs no other

  /** An extent of a unit that stays in use, within the unit and below the fill mark if the unit is open. */
  ghost predicate Kept(f: M.FpIndex, e: M.Extent, evicted: Option<nat>) {
    && e.weu in f.count && evicted != Some(e.weu) && e.offset + e.len <= f.alloc.size
    && (e.weu == f.alloc.weuId ==> e.offset + e.len <= f.alloc.offset)
  }

  /** Where a switch copies the open unit. */
  function Target(at: Placement, evicted: Option<nat>): nat {
    if evicted.Some? && evicted.value in at.location then at.location[evicted.value] else at.next
  }

  lemma SwitchKeepsOpenUnit(s: Sys, cfg: Config, evicted: Option<nat>, e: M.Extent)
    requires M.Units(s.d.fps) && Placed(s.d.fps, s.at) && Sized(s, cfg) && Kept(s.d.fps, e, evicted)
    requires e.weu == s.at.open && (evicted.Some? ==> evicted.value in s.at.location)
    ensures Bytes(Patch(s.cache, Target(s.at, evicted), s.buffer), Target(s.at, evicted) + e.offset, e.len)
            == Bytes(s.buffer, e.offset, e.len)
  {
    SwitchTarget(s, cfg, evicted);
    hide Placed, Target, M.Units, Patch, Bytes;
    PatchedPart(s.cache, Target(s.at, evicted), s.buffer, e.offset, e.len);
  }

  lemma SwitchKeepsClosedUnit(s: Sys, cfg: Config, evicted: Option<nat>, e: M.Extent)
    requires M.Units(s.d.fps) && Placed(s.d.fps, s.at) && Sized(s, cfg) && Kept(s.d.fps, e, evicted)
    requires e.weu in s.at.location && (evicted.Some? ==> evicted.value in s.at.location)
    ensures Bytes(Patch(s.cache, Target(s.at, evicted), s.buffer), s.at.location[e.weu] + e.offset, e.len)
            == Bytes(s.cache, s.at.location[e.weu] + e.offset, e.len)
  {
    SwitchTarget(s, cfg, evicted);
    TargetApart(s, cfg, evicted, e.weu);
    PatchRead(s.cache, Target(s.at, evicted), s.buffer, s.at.location[e.weu] + e.offset, e.len);
  }

  /** Closing the open unit moves its bytes to the device and overwrites no unit that stays in use. */
  lemma SwitchKeepsExtent(s: Sys, cfg: Config, weu: nat, evicted: Option<nat>, e: M.Extent)
    requires M.Units(s.d.fps) && Placed(s.d.fps, s.at) && Sized(s, cfg) && Kept(s.d.fps, e, evicted)
    requires if weu == s.at.open then evicted.None? else weu == s.at.open + 1
    requires evicted.Some? ==> evicted.value in s.d.fps.count
    ensures ReadExtent(SwitchUnit(s, weu, evicted), e) == ReadExtent(s, e)
  {
    if weu != s.at.open && evicted != Some(s.at.open) {
      if e.weu == s.at.open {
        SwitchKeepsOpenUnit(s, cfg, evicted, e);
      } else {
        SwitchKeepsClosedUnit(s, cfg, evicted, e);
      }
    }
  }

  /** The location the open unit is copied to lies on the device. */
  lemma SwitchTarget(s: Sys, cfg: Config, evicted: Option<nat>)
    requires M.Units(s.d.fps) && Placed(s.d.fps, s.at) && Sized(s, cfg) && s.at.open in s.d.fps.count
    requires evicted.Some? ==> evicted.value in s.at.location
    ensures Target(s.at, evicted) + |s.buffer| <= |s.cache|
  {
    var size := s.d.fps.alloc.size;
    PlacementSize(s.d.fps, s.at);
    SlotAtMonotone(|s.at.location| + 1, s.d.fps.capacity, size);
    if evicted.Some? { ClosedUnitsFit(s.d.fps, s.at, evicted.value); }
  }

  lemma TargetApart(s: Sys, cfg: Config, evicted: Option<nat>, w: nat)
    requires M.Units(s.d.fps) && Placed(s.d.fps, s.at) && Sized(s, cfg) && w in s.at.location && evicted != Some(w)
    requires evicted.Some? ==> evicted.value in s.at.location
    ensures var to := if evicted.Some? then s.at.location[evicted.value] else s.at.next;
            s.at.location[w] + |s.buffer| <= to || to + |s.buffer| <= s.at.location[w]
  {
    SlotEndsBelow(|s.at.location|, s.d.fps.alloc.size, s.at.location[w]);
    if evicted.Some? { ClosedUnitsFit(s.d.fps, s.at, evicted.value); }
  }

  // ----- One request keeps everything readable

  lemma LiveIsKept(d: M.Cdarc, i: M.Inserted, mp: map<Addr, L.Entry>, a: Addr, fp: Fp, len: nat, g: Fp)
    requires M.Inv(d) && M.Updates(mp, d.fps, i, a, fp, len) && M.Live(i.d.fps, g) && g != fp
    ensures M.Live(d.fps, g) && i.d.fps.mp[g] == d.fps.mp[g] && Kept(d.fps, d.fps.mp[g], i.evicted)
  {
  }

  lemma PlaceReads(s: Sys, e: M.Extent, evicted: Option<nat>, blob: Block, x: M.Extent)
    requires |blob| == e.len && e.offset + e.len <= |s.buffer|
    ensures ReadExtent(PlaceBlob(s, e, evicted, blob), e) == blob
    ensures (x.weu == e.weu ==> x.offset + x.len <= e.offset) ==>
              ReadExtent(PlaceBlob(s, e, evicted, blob), x) == ReadExtent(SwitchUnit(s, e.weu, evicted), x)
  {
    PatchRead(s.buffer, e.offset, blob, x.offset, x.len);
  }

  /** The facts about an update that inserted `fp` that placing its blob depends on. */
  lemma PlacedExtent(f: M.FpIndex, r: M.FpIndex, placed: Option<M.Extent>, evicted: Option<nat>, fp: Fp, len: nat)
    requires M.Places(f, r, placed, evicted, fp, len) && fp !in f.mp && r.alloc.offset <= r.alloc.size
    ensures placed == Some(r.mp[fp])
    ensures var e := r.mp[fp];
            && e.len == len && e.offset + e.len <= f.alloc.size
            && (if e.weu == f.alloc.weuId then evicted.None? && e.offset == f.alloc.offset
                else e.weu == f.alloc.weuId + 1)
            && (evicted.Some? ==> evicted.value in f.count)
  {
  }

  /** An old extent in the unit the new one is placed in lies below it. */
  lemma OldExtentBelow(f: M.FpIndex, r: M.FpIndex, placed: Option<M.Extent>, evicted: Option<nat>, fp: Fp, len: nat,
                       g: Fp)
    requires M.Places(f, r, placed, evicted, fp, len) && fp !in f.mp && M.Units(f) && M.Extents(f)
    requires M.Live(f, g) && f.mp[g].weu == r.mp[fp].weu
    ensures f.mp[g].offset + f.mp[g].len <= r.mp[fp].offset
  {
  }

  lemma PlaceKeepsOther(s: Sys, cfg: Config, i: M.Inserted, a: Addr, fp: Fp, blob: Block, g: Fp)
    requires M.Inv(s.d) && Placed(s.d.fps, s.at) && Sized(s, cfg) && i.d.fps.alloc.offset <= i.d.fps.alloc.size
    requires M.Updates(s.d.lba.mp, s.d.fps, i, a, fp, |blob|) && fp !in s.d.fps.mp
    requires M.Live(i.d.fps, g) && g != fp
    ensures M.Live(s.d.fps, g)
    ensures ReadExtent(PlaceBlob(s, i.d.fps.mp[fp], i.evicted, blob), i.d.fps.mp[g]) == ReadExtent(s, s.d.fps.mp[g])
  {
    PlacedExtent(s.d.fps, i.d.fps, i.placed, i.evicted, fp, |blob|);
    LiveIsKept(s.d, i, s.d.lba.mp, a, fp, |blob|, g);
    if s.d.fps.mp[g].weu == i.d.fps.mp[fp].weu {
      OldExtentBelow(s.d.fps, i.d.fps, i.placed, i.evicted, fp, |blob|, g);
    }
    PlaceReads(s, i.d.fps.mp[fp], i.evicted, blob, s.d.fps.mp[g]);
    SwitchKeepsExtent(s, cfg, i.d.fps.mp[fp].weu, i.evicted, s.d.fps.mp[g]);
  }

  lemma PlaceStoresNew(s: Sys, cfg: Config, i: M.Inserted, data: Block)
    requires |s.buffer| == s.d.fps.alloc.size && i.d.fps.alloc.offset <= i.d.fps.alloc.size && CollisionFree(cfg.h)
    requires cfg.h(data) !in s.d.fps.mp
    requires M.Places(s.d.fps, i.d.fps, i.placed, i.evicted, cfg.h(data), |Blob(cfg.codec, data)|)
    ensures StoredAt(PlaceBlob(s, i.d.fps.mp[cfg.h(data)], i.evicted, Blob(cfg.codec, data)).(d := i.d), cfg,
                     cfg.h(data))
  {
    var fp, blob := cfg.h(data), Blob(cfg.codec, data);
    PlacedExtent(s.d.fps, i.d.fps, i.placed, i.evicted, fp, |blob|);
    PlaceReads(s, i.d.fps.mp[fp], i.evicted, blob, i.d.fps.mp[fp]);
  }

  lemma PlaceKeepsStored(s: Sys, s1: Sys, cfg: Config, i: M.Inserted, a: Addr, fp: Fp, blob: Block, g: Fp)
    requires M.Inv(s.d) && Placed(s.d.fps, s.at) && Sized(s, cfg) && i.d.fps.alloc.offset <= i.d.fps.alloc.size
    requires M.Updates(s.d.lba.mp, s.d.fps, i, a, fp, |blob|) && fp !in s.d.fps.mp && g != fp
    requires s1 == PlaceBlob(s, i.d.fps.mp[fp], i.evicted, blob) && StoredAt(s, cfg, g)
    ensures StoredAt(s1.(d := i.d), cfg, g)
  {
    if M.Live(i.d.fps, g) {
      PlaceKeepsOther(s, cfg, i, a, fp, blob, g);
      ReadIgnoresMetadata(s1, i.d, i.d.fps.mp[g]);
      StoredMoves(s, s1.(d := i.d), cfg, g);
    }
  }

  lemma ReadIgnoresMetadata(s: Sys, d: M.Cdarc, e: M.Extent)
    ensures ReadExtent(s.(d := d), e) == ReadExtent(s, e)
  {
  }

  lemma StoredMoves(s: Sys, r: Sys, cfg: Config, g: Fp)
    requires StoredAt(s, cfg, g) && M.Live(s.d.fps, g) && M.Live(r.d.fps, g)
    requires ReadExtent(r, r.d.fps.mp[g]) == ReadExtent(s, s.d.fps.mp[g])
    ensures StoredAt(r, cfg, g)
  {
  }

  lemma PlaceKeepsSizes(s: Sys, e: M.Extent, evicted: Option<nat>, blob: Block)
    ensures var s1 := PlaceBlob(s, e, evicted, blob);
            && |s1.buffer| == |s.buffer| && |s1.cache| == |s.cache| && s1.primary == s.primary
            && s1.at == SwitchPlacement(s.at, |s.buffer|, e.weu, evicted)
  {
  }

  /** After the update and the placement every accepted fingerprint, old or new, reads back its blob. */
  lemma PlaceSound(s: Sys, cfg: Config, i: M.Inserted, a: Addr, data: Block)
    requires Sound(s, cfg) && CollisionFree(cfg.h) && |data| == cfg.chunk && Inverse(cfg.codec)
    requires M.Inv(i.d) && cfg.h(data) !in s.d.fps.mp
    requires M.Updates(s.d.lba.mp, s.d.fps, i, a, cfg.h(data), |Blob(cfg.codec, data)|)
    ensures Sound(PlaceBlob(s, i.d.fps.mp[cfg.h(data)], i.evicted, Blob(cfg.codec, data)).(d := i.d), cfg)
  {
    var fp, blob := cfg.h(data), Blob(cfg.codec, data);
    var s1 := PlaceBlob(s, i.d.fps.mp[fp], i.evicted, blob);
    PlacedExtent(s.d.fps, i.d.fps, i.placed, i.evicted, fp, |blob|);
    UnblobBlob(cfg, data);
    SwitchKeepsPlaced(s.d.fps, s.at, i, a, fp, |blob|, s.d.lba.mp);
    PlaceKeepsSizes(s, i.d.fps.mp[fp], i.evicted, blob);
    PlaceStoresNew(s, cfg, i, data);
    forall g ensures StoredAt(s1.(d := i.d), cfg, g) {
      assert StoredAt(s, cfg, g);
      if g != fp { PlaceKeepsStored(s, s1, cfg, i, a, fp, blob, g); }
    }
  }

  /** What is stored depends only on the devices and on the extents of the accepted fingerprints. */
  lemma SameBytesStored(s: Sys, s1: Sys, cfg: Config)
    requires s1.at == s.at && s1.cache == s.cache && s1.buffer == s.buffer
    requires forall g :: M.Live(s1.d.fps, g) ==> M.Live(s.d.fps, g) && s1.d.fps.mp[g] == s.d.fps.mp[g]
    requires forall g :: StoredAt(s, cfg, g)
    ensures forall g :: StoredAt(s1, cfg, g)
  {
    forall g ensures StoredAt(s1, cfg, g) {
      assert StoredAt(s, cfg, g);
      if M.Live(s1.d.fps, g) { assert ReadExtent(s1, s1.d.fps.mp[g]) == ReadExtent(s, s.d.fps.mp[g]); }
    }
  }

  lemma LookUpSound(s: Sys, cfg: Config, fp: Fp)
    requires Sound(s, cfg)
    ensures var s1 := LookUp(s, fp);
            && Sound(s1, cfg) && s1.d.lba == s.d.lba && s1.primary == s.primary
            && (fp in s1.d.fps.mp <==> M.Live(s.d.fps, fp)) && (fp in s1.d.fps.mp ==> M.Live(s1.d.fps, fp))
  {
    M.LookupKeepsInv(s.d, fp);
    M.LookupFindsLive(s.d.fps, fp);
    SameBytesStored(s, LookUp(s, fp), cfg);
  }

  /** An update for a cached fingerprint places nothing. */
  lemma DuplicateSound(s: Sys, cfg: Config, i: M.Inserted, a: Addr, fp: Fp, len: nat)
    requires Sound(s, cfg) && M.Inv(i.d) && M.Live(s.d.fps, fp)
    requires M.Updates(s.d.lba.mp, s.d.fps, i, a, fp, len)
    ensures Sound(s.(d := i.d), cfg)
  {
    DuplicateCounts(s.d.fps, i, a, fp, len, s.d.lba.mp);
    SameBytesStored(s, s.(d := i.d), cfg);
  }

  lemma DuplicateCounts(f: M.FpIndex, i: M.Inserted, a: Addr, fp: Fp, len: nat, mp: map<Addr, L.Entry>)
    requires M.Units(f) && M.Live(f, fp) && M.Updates(mp, f, i, a, fp, len)
    ensures i.d.fps.count.Keys == f.count.Keys && i.d.fps.alloc == f.alloc && i.d.fps.mp == f.mp
    ensures i.d.fps.capacity == f.capacity
  {
  }

  lemma AdmitSound(s: Sys, cfg: Config, a: Addr, data: Block)
    requires Sound(s, cfg) && CollisionFree(cfg.h) && Inverse(cfg.codec) && |data| == cfg.chunk
    ensures var s1 := Admit(s, a, data, cfg);
            Sound(s1, cfg) && M.Learns(s.d.lba.mp, s1.d.lba, a, cfg.h(data)) && s1.primary == s.primary
  {
    var fp, blob := cfg.h(data), Blob(cfg.codec, data);
    var s1 := LookUp(s, fp);
    LookUpSound(s, cfg, fp);
    UnblobBlob(cfg, data);
    M.UpdateKeepsInv(s1.d, a, fp, |blob|);
    AdmitLookedUp(s1, cfg, M.Update(s1.d, a, fp, |blob|), a, data);
  }

  /** What a request may rely on once it looked the fingerprint of its chunk up. */
  lemma AdmitReady(s: Sys, cfg: Config, a: Addr, data: Block)
    requires Sound(s, cfg) && Inverse(cfg.codec) && |data| == cfg.chunk
    ensures var s1, fp, blob := LookUp(s, cfg.h(data)), cfg.h(data), Blob(cfg.codec, data);
            var i := M.Update(s1.d, a, fp, |blob|);
            && M.Inv(s1.d) && |blob| <= s1.d.fps.alloc.size == |s1.buffer|
            && (fp in s1.d.fps.mp <==> M.Live(s.d.fps, fp)) && (fp in s1.d.fps.mp ==> M.Live(s1.d.fps, fp))
            && (i.placed.Some? <==> fp !in s1.d.fps.mp)
            && (i.evicted.Some? ==> i.evicted.value == s1.at.open || i.evicted.value in s1.at.location)
  {
    LookUpSound(s, cfg, cfg.h(data));
    UnblobBlob(cfg, data);
    M.UpdateKeepsInv(LookUp(s, cfg.h(data)).d, a, cfg.h(data), |Blob(cfg.codec, data)|);
  }

  lemma AdmitLookedUp(s: Sys, cfg: Config, i: M.Inserted, a: Addr, data: Block)
    requires Sound(s, cfg) && CollisionFree(cfg.h) && Inverse(cfg.codec) && |data| == cfg.chunk
    requires M.Inv(i.d) && (cfg.h(data) in s.d.fps.mp ==> M.Live(s.d.fps, cfg.h(data)))
    requires M.Updates(s.d.lba.mp, s.d.fps, i, a, cfg.h(data), |Blob(cfg.codec, data)|)
    ensures var s1 := Settle(s, i, Blob(cfg.codec, data));
            Sound(s1, cfg) && s1.d == i.d && s1.primary == s.primary
  {
    var blob := Blob(cfg.codec, data);
    if cfg.h(data) in s.d.fps.mp {
      DuplicateSound(s, cfg, i, a, cfg.h(data), |blob|);
    } else {
      PlacedExtent(s.d.fps, i.d.fps, i.placed, i.evicted, cfg.h(data), |blob|);
      PlaceSound(s, cfg, i, a, data);
      PlaceKeepsSizes(s, i.d.fps.mp[cfg.h(data)], i.evicted, blob);
    }
  }

  // ----- Transparency

  lemma ReadHit(s: Sys, cfg: Config, a: Addr, fp: Fp)
    requires Sound(s, cfg) && Inverse(cfg.codec) && M.Live(s.d.fps, fp)
    requires fp == cfg.h(ChunkAt(s.primary, a, cfg.chunk))
    ensures Unblob(cfg, ReadExtent(s, s.d.fps.mp[fp])) == ChunkAt(s.primary, a, cfg.chunk)
    ensures var s1 := LookUp(s, fp);
            var i := M.Update(s1.d, a, fp, s.d.fps.mp[fp].len);
            Sound(s1.(d := i.d), cfg) && M.Learns(s.d.lba.mp, i.d.lba, a, fp)
  {
    assert StoredAt(s, cfg, fp);
    UnblobBlob(cfg, ChunkAt(s.primary, a, cfg.chunk));
    var s1, len := LookUp(s, fp), s.d.fps.mp[fp].len;
    LookUpSound(s, cfg, fp);
    M.UpdateKeepsInv(s1.d, a, fp, len);
    DuplicateSound(s1, cfg, M.Update(s1.d, a, fp, len), a, fp, len);
  }

  lemma ReadTransparent(s: Sys, cfg: Config, a: Addr)
    requires Sound(s, cfg) && Fresh(s.d.lba, s.primary, cfg) && CollisionFree(cfg.h) && Inverse(cfg.codec)
    ensures var (s1, data) := InternalRead(s, a, cfg);
            && data == ChunkAt(s.primary, a, cfg.chunk)
            && Sound(s1, cfg) && s1.primary == s.primary && M.Learns(s.d.lba.mp, s1.d.lba, a, cfg.h(data))
  {
    if a !in s.d.lba.mp {
      AdmitSound(s, cfg, a, ChunkAt(s.primary, a, cfg.chunk));
    } else if M.Live(s.d.fps, s.d.lba.mp[a].fp) {
      ReadHit(s, cfg, a, s.d.lba.mp[a].fp);
    } else {
      LookUpSound(s, cfg, s.d.lba.mp[a].fp);
      AdmitSound(LookUp(s, s.d.lba.mp[a].fp), cfg, a, ChunkAt(s.primary, a, cfg.chunk));
    }
  }

  lemma WriteTransparent(s: Sys, cfg: Config, a: Addr, data: Block)
    requires Sound(s, cfg) && CollisionFree(cfg.h) && Inverse(cfg.codec) && |data| == cfg.chunk
    ensures var s1 := InternalWrite(s, a, data, cfg);
            && Sound(s1, cfg) && s1.primary == s.primary[a := data] && M.Learns(s.d.lba.mp, s1.d.lba, a, cfg.h(data))
  {
    AdmitSound(s, cfg, a, data);
    PrimaryWriteSound(Admit(s, a, data, cfg), cfg, a, data);
  }

  lemma PrimaryWriteSound(s: Sys, cfg: Config, a: Addr, data: Block)
    requires Sound(s, cfg) && |data| == cfg.chunk
    ensures Sound(s.(primary := s.primary[a := data]), cfg)
  {
    SameBytesStored(s, s.(primary := s.primary[a := data]), cfg);
  }

  function Step(s: Sys, r: Request, cfg: Config): (Sys, Option<Block>) {
    match r
    case Read(a) => (InternalRead(s, a, cfg).0, Some(InternalRead(s, a, cfg).1))
    case Write(a, data) => (InternalWrite(s, a, data, cfg), None)
  }

  function Run(s: Sys, rs: seq<Request>, cfg: Config): seq<Option<Block>>
    decreases |rs|
  {
    if rs == [] then [] else [Step(s, rs[0], cfg).1] + Run(Step(s, rs[0], cfg).0, rs[1..], cfg)
  }

  lemma LearnsFresh(lba0: L.Lists, lba1: L.Lists, disk0: Device, disk1: Device, cfg: Config, a: Addr)
    requires Fresh(lba0, disk0, cfg) && M.Learns(lba0.mp, lba1, a, cfg.h(ChunkAt(disk1, a, cfg.chunk)))
    requires forall b :: b != a ==> ChunkAt(disk1, b, cfg.chunk) == ChunkAt(disk0, b, cfg.chunk)
    ensures Fresh(lba1, disk1, cfg)
  {
  }

  lemma StepTransparent(s: Sys, cfg: Config, r: Request)
    requires Sound(s, cfg) && Fresh(s.d.lba, s.primary, cfg) && CollisionFree(cfg.h) && Inverse(cfg.codec)
    requires r.Write? ==> |r.data| == cfg.chunk
    ensures var s1 := Step(s, r, cfg).0;
            && Sound(s1, cfg) && Fresh(s1.d.lba, s1.primary, cfg)
            && PlainStep(s.primary, r, cfg.chunk) == (s1.primary, Step(s, r, cfg).1)
  {
    match r
    case Read(a) => ReadKeepsFresh(s, cfg, a);
    case Write(a, data) => WriteKeepsFresh(s, cfg, a, data);
  }

  lemma ReadKeepsFresh(s: Sys, cfg: Config, a: Addr)
    requires Sound(s, cfg) && Fresh(s.d.lba, s.primary, cfg) && CollisionFree(cfg.h) && Inverse(cfg.codec)
    ensures var (s1, data) := InternalRead(s, a, cfg);
            && data == ChunkAt(s.primary, a, cfg.chunk)
            && Sound(s1, cfg) && s1.primary == s.primary && Fresh(s1.d.lba, s1.primary, cfg)
  {
    hide InternalRead, Sound;
    ReadTransparent(s, cfg, a);
    LearnsFresh(s.d.lba, InternalRead(s, a, cfg).0.d.lba, s.primary, s.primary, cfg, a);
  }

  lemma WriteKeepsFresh(s: Sys, cfg: Config, a: Addr, data: Block)
    requires Sound(s, cfg) && Fresh(s.d.lba, s.primary, cfg) && CollisionFree(cfg.h) && Inverse(cfg.codec)
    requires |data| == cfg.chunk
    ensures var s1 := InternalWrite(s, a, data, cfg);
            Sound(s1, cfg) && s1.primary == s.primary[a := data] && Fresh(s1.d.lba, s1.primary, cfg)
  {
    hide InternalWrite, Sound;
    WriteTransparent(s, cfg, a, data);
    LearnsFresh(s.d.lba, InternalWrite(s, a, data, cfg).d.lba, s.primary, s.primary[a := data], cfg, a);
  }

  lemma {:induction false} RunTransparent(s: Sys, rs: seq<Request>, cfg: Config)
    requires Sound(s, cfg) && Fresh(s.d.lba, s.primary, cfg) && CollisionFree(cfg.h) && Inverse(cfg.codec)
    requires forall i :: 0 <= i < |rs| && rs[i].Write? ==> |rs[i].data| == cfg.chunk
    ensures Run(s, rs, cfg) == PlainRun(s.primary, rs, cfg.chunk)
    decreases |rs|
  {
    if rs != [] {
      StepTransparent(s, cfg, rs[0]);
      RunTransparent(Step(s, rs[0], cfg).0, rs[1..], cfg);
    }
  }

  lemma InitSound(lbaCapacity: nat, x: nat, capacity: nat, size: nat, primary: Device, cache: Block, buffer: Block,
                  cfg: Config)
    requires lbaCapacity >= 1 && capacity >= 1 && 1 <= cfg.chunk <= size == |buffer|
             && SlotAt(capacity, size) <= |cache|
    requires forall a :: a in primary ==> |primary[a]| == cfg.chunk
    ensures var s := Init(lbaCapacity, x, capacity, size, primary, cache, buffer);
            Sound(s, cfg) && Fresh(s.d.lba, primary, cfg)
  {
  }

  /** A write-through CD-ARC cache cannot be told from the disk behind it, over any run from start-up. */
  lemma WriteThroughTransparent(lbaCapacity: nat, x: nat, capacity: nat, size: nat, primary: Device, cache: Block,
                                buffer: Block, rs: seq<Request>, cfg: Config)
    requires lbaCapacity >= 1 && capacity >= 1 && 1 <= cfg.chunk <= size == |buffer|
             && SlotAt(capacity, size) <= |cache|
    requires forall a :: a in primary ==> |primary[a]| == cfg.chunk
    requires forall i :: 0 <= i < |rs| && rs[i].Write? ==> |rs[i].data| == cfg.chunk
    requires CollisionFree(cfg.h) && Inverse(cfg.codec)
    ensures Run(Init(lbaCapacity, x, capacity, size, primary, cache, buffer), rs, cfg)
            == PlainRun(primary, rs, cfg.chunk)
  {
    InitSound(lbaCapacity, x, capacity, size, primary, cache, buffer, cfg);
    RunTransparent(Init(lbaCapacity, x, capacity, size, primary, cache, buffer), rs, cfg);
  }
}
