/**
 The AC-DC engine's request step, at the level of fingerprints and metadata: the two indexes of short hashes, the
 full fingerprint and the ring of addresses stored with each cached chunk, and the primary disk (write-through).
 All hashes are arbitrary functions and may collide.
 */
module AcdcModel {
  import opened Common
  import LbaTable
  import LbaReferences
  import FpTable
  import Sketch

  /** How many addresses a chunk's metadata lists. */
  const MAX_LBAS: nat := 60

  /** The metadata of a cached chunk: its fingerprint, the addresses listed, where the ring goes on when full, and
      the length of the compressed content, zero when it is not compressed. */
  datatype Meta = Meta(fp: Fp, lbas: seq<Addr>, next: RingIndex, compressedLen: nat)

  type RingIndex = i: nat | i < MAX_LBAS

  datatype Config = Config(
    fpOf: Block -> Fp,
    lbaBucket: Addr -> nat, lbaKey: Addr -> nat,
    fpHash: Fp -> nat, fpBucket: nat -> nat, fpKey: nat -> nat,
    separator: nat, chunk: nat)

  datatype State = State(lba: LbaReferences.Buckets, fp: seq<Table>, meta: map<(nat, nat), Meta>, primary: Device)

  /** What was given to new content, and what the fingerprint bucket's allocator did: `n` slots, a compressed length,
      and an eviction that depends on the reference counts and breaks ties freely. */
  datatype Choice = Choice(n: nat, compressedLen: nat, count: nat -> nat, gone: set<nat>, slot: nat, table: Table)

  // ----- One request

  /** The first slot of the chunk with a fingerprint hash. */
  function EntryAt(cfg: Config, fp: seq<Table>, h: nat): Option<nat> {
    if cfg.fpBucket(h) < |fp| then
      var l := FpTable.Lookup(fp[cfg.fpBucket(h)], cfg.fpKey(h));
      if l.None? then None else Some(l.value.0)
    else None
  }

  /** How many slots that chunk has. */
  function SlotsAt(cfg: Config, fp: seq<Table>, h: nat): nat {
    if cfg.fpBucket(h) < |fp| then
      var l := FpTable.Lookup(fp[cfg.fpBucket(h)], cfg.fpKey(h));
      if l.None? then 0 else l.value.1
    else 0
  }

  /**
   How many slots a request gives new content that needs `needed`.  A read compresses before it deduplicates, so a
   chunk found under the content's hash overrides what the content needs; a write compresses afterwards.
   */
  function SlotsGiven(cfg: Config, fp: seq<Table>, h: nat, write: bool, needed: nat): nat {
    if write || EntryAt(cfg, fp, h).None? then needed else SlotsAt(cfg, fp, h)
  }

  /** The metadata read to verify a hit on a fingerprint hash. */
  function MetaAt(cfg: Config, fp: seq<Table>, meta: map<(nat, nat), Meta>, h: nat): Option<Meta> {
    var e := EntryAt(cfg, fp, h);
    if e.Some? && (cfg.fpBucket(h), e.value) in meta then Some(meta[(cfg.fpBucket(h), e.value)]) else None
  }

  /** The LBA index's fingerprint hash for an address. */
  function HashFor(cfg: Config, lba: LbaReferences.Buckets, a: Addr): Option<nat> {
    if cfg.lbaBucket(a) < |lba| then LbaTable.Lookup(lba[cfg.lbaBucket(a)], cfg.lbaKey(a)) else None
  }

  /** A read hits the chunk whose metadata lists the address; its own fingerprint is not known then. */
  function Hit(cfg: Config, s: State, a: Addr): Option<Meta> {
    var v := HashFor(cfg, s.lba, a);
    var m := if v.None? then None else MetaAt(cfg, s.fp, s.meta, v.value);
    if m.Some? && a in m.value.lbas then m else None
  }

  /** List one more address, over the oldest when 60 are listed. */
  function AddLba(m: Meta, a: Addr): Meta {
    if |m.lbas| == MAX_LBAS then
      m.(lbas := m.lbas[m.next := a], next := if m.next + 1 == MAX_LBAS then 0 else m.next + 1)
    else m.(lbas := m.lbas + [a])
  }

  function CurrentFp(cfg: Config, primary: Device, a: Addr): Fp {
    cfg.fpOf(ChunkAt(primary, a, cfg.chunk))
  }

  function CurrentHash(cfg: Config, primary: Device, a: Addr): nat {
    cfg.fpHash(CurrentFp(cfg, primary, a))
  }

  /** The content with fingerprint `f` is already cached. */
  predicate Duplicate(cfg: Config, s: State, f: Fp) {
    var m := MetaAt(cfg, s.fp, s.meta, cfg.fpHash(f));
    m.Some? && m.value.fp == f
  }

  /** The allocator's choice is one it may make for fingerprint `f`. */
  ghost predicate Allowed(cfg: Config, s: State, f: Fp, c: Choice) {
    var h := cfg.fpHash(f);
    !Duplicate(cfg, s, f) ==>
      && cfg.fpBucket(h) < |s.fp| && c.n > 0
      && FpTable.Updates(s.fp[cfg.fpBucket(h)], cfg.fpKey(h), c.n, c.count, c.gone, c.slot, c.table)
  }

  function TouchLba(cfg: Config, lba: LbaReferences.Buckets, a: Addr, h: nat): LbaReferences.Buckets {
    var b := cfg.lbaBucket(a);
    if b < |lba| && 1 <= cfg.separator < |lba[b]| then LbaReferences.Touch(lba, b, cfg.lbaKey(a), h, cfg.separator).0
    else lba
  }

  /** Deduplicate content with fingerprint `f` at address `a` and update both indexes and the metadata. */
  function Cache(cfg: Config, s: State, a: Addr, f: Fp, c: Choice): State {
    var h := cfg.fpHash(f);
    var b := cfg.fpBucket(h);
    var s1 := s.(lba := TouchLba(cfg, s.lba, a, h));
    if Duplicate(cfg, s, f) then
      var at := (b, EntryAt(cfg, s.fp, h).value);
      if a in s.meta[at].lbas then s1 else s1.(meta := s.meta[at := AddLba(s.meta[at], a)])
    else if b < |s.fp| then
      s1.(fp := s.fp[b := c.table], meta := s.meta[(b, c.slot) := Meta(f, [a], 0, c.compressedLen)])
    else s1
  }

  function Next(cfg: Config, s: State, op: Request, c: Choice): State {
    match op
    case Read(a) =>
      if Hit(cfg, s, a).Some? then s.(lba := TouchLba(cfg, s.lba, a, HashFor(cfg, s.lba, a).value))
      else Cache(cfg, s, a, CurrentFp(cfg, s.primary, a), c)
    case Write(a, x) =>
      Cache(cfg, s, a, cfg.fpOf(x), c).(primary := s.primary[a := x])
  }

  ghost predicate AllowedOp(cfg: Config, s: State, op: Request, c: Choice) {
    match op
    case Read(a) => Hit(cfg, s, a).None? ==> Allowed(cfg, s, CurrentFp(cfg, s.primary, a), c)
    case Write(a, x) => Allowed(cfg, s, cfg.fpOf(x), c)
  }

  // ----- Invariant

  /** A fingerprint hash is its bucket number and its signature. */
  ghost predicate HashesSplit(cfg: Config) {
    forall g: nat, h: nat :: cfg.fpBucket(g) == cfg.fpBucket(h) && cfg.fpKey(g) == cfg.fpKey(h) ==> g == h
  }

  /** Of the addresses listed, those whose current content has the chunk's hash have the chunk's fingerprint. */
  ghost predicate MetaOk(cfg: Config, primary: Device, h: nat, m: Meta) {
    && cfg.fpHash(m.fp) == h && |m.lbas| <= MAX_LBAS
    && forall a :: a in m.lbas && CurrentHash(cfg, primary, a) == h ==> CurrentFp(cfg, primary, a) == m.fp
  }

  ghost predicate EntryOk(cfg: Config, fp: seq<Table>, meta: map<(nat, nat), Meta>, primary: Device, h: nat) {
    var e := EntryAt(cfg, fp, h);
    e.Some? ==> (cfg.fpBucket(h), e.value) in meta && MetaOk(cfg, primary, h, meta[(cfg.fpBucket(h), e.value)])
  }

  ghost predicate Inv(cfg: Config, s: State) {
    && LbaReferences.BucketsOk(s.lba, cfg.separator)
    && (forall b :: 0 <= b < |s.fp| ==> FpTable.OneRun(s.fp[b]))
    && (forall h :: EntryOk(cfg, s.fp, s.meta, s.primary, h))
  }

  // ----- The invariant is kept

  lemma AddLbaOk(cfg: Config, primary: Device, h: nat, m: Meta, a: Addr)
    requires MetaOk(cfg, primary, h, m) && CurrentFp(cfg, primary, a) == m.fp
    ensures MetaOk(cfg, primary, h, AddLba(m, a)) && a in AddLba(m, a).lbas
  {
    var r := AddLba(m, a);
    ListsAdded(m, a);
    forall b | b in r.lbas && b != a ensures b in m.lbas {}
  }

  /** Content with another hash, or the chunk's own, may be written to any address. */
  lemma WriteKeepsMeta(cfg: Config, primary: Device, h: nat, m: Meta, a: Addr, x: Block)
    requires MetaOk(cfg, primary, h, m) && (cfg.fpHash(cfg.fpOf(x)) != h || cfg.fpOf(x) == m.fp)
    ensures MetaOk(cfg, primary[a := x], h, m)
  {
    forall b | b in m.lbas && b != a ensures CurrentFp(cfg, primary[a := x], b) == CurrentFp(cfg, primary, b) {}
  }

  /** Deduplicating `f` keeps every cached chunk's metadata right, once `a` has content with that fingerprint. */
  lemma CacheKeepsEntry(cfg: Config, s: State, a: Addr, x: Block, c: Choice, g: nat)
    requires HashesSplit(cfg) && Inv(cfg, s) && Allowed(cfg, s, cfg.fpOf(x), c)
    ensures var r := Cache(cfg, s, a, cfg.fpOf(x), c); EntryOk(cfg, r.fp, r.meta, s.primary[a := x], g)
  {
    var f := cfg.fpOf(x);
    var h, b, r := cfg.fpHash(f), cfg.fpBucket(cfg.fpHash(f)), Cache(cfg, s, a, f, c);
    assert EntryOk(cfg, s.fp, s.meta, s.primary, g);
    if Duplicate(cfg, s, f) {
      DuplicateKeepsEntry(cfg, s, a, x, c, g);
    } else if g == h {
      FpTable.UpdateMeaning(s.fp[b], cfg.fpKey(h), c.n, c.count, c.gone, c.slot, c.table);
      assert MetaOk(cfg, s.primary[a := x], h, Meta(f, [a], 0, c.compressedLen));
    } else {
      NewEntryKeepsOther(cfg, s, a, x, c, g);
    }
  }

  lemma DuplicateKeepsEntry(cfg: Config, s: State, a: Addr, x: Block, c: Choice, g: nat)
    requires HashesSplit(cfg) && EntryOk(cfg, s.fp, s.meta, s.primary, g) && Duplicate(cfg, s, cfg.fpOf(x))
    requires EntryOk(cfg, s.fp, s.meta, s.primary, cfg.fpHash(cfg.fpOf(x)))
    ensures var r := Cache(cfg, s, a, cfg.fpOf(x), c); EntryOk(cfg, r.fp, r.meta, s.primary[a := x], g)
  {
    var f := cfg.fpOf(x);
    var h := cfg.fpHash(f);
    var e := EntryAt(cfg, s.fp, g);
    if e.Some? {
      var m := s.meta[(cfg.fpBucket(g), e.value)];
      var at := (cfg.fpBucket(h), EntryAt(cfg, s.fp, h).value);
      if (cfg.fpBucket(g), e.value) == at {
        WriteKeepsMeta(cfg, s.primary, cfg.fpHash(m.fp), m, a, x);
        AddLbaOk(cfg, s.primary[a := x], g, m, a);
      } else {
        assert g != h;
        WriteKeepsMeta(cfg, s.primary, g, m, a, x);
      }
    }
  }

  /** A duplicate changes no chunk's slots, fingerprint or compressed length. */
  lemma DuplicateKeepsContent(cfg: Config, s: State, a: Addr, f: Fp, c: Choice, g: nat)
    requires Duplicate(cfg, s, f)
    ensures var r := Cache(cfg, s, a, f, c);
            var m, m' := MetaAt(cfg, s.fp, s.meta, g), MetaAt(cfg, r.fp, r.meta, g);
            && r.fp == s.fp && (m'.Some? <==> m.Some?)
            && (m.Some? ==> m'.value.fp == m.value.fp && m'.value.compressedLen == m.value.compressedLen)
  {
  }

  /** A new chunk's slots are apart from those of the chunks that stay. */
  lemma NewEntryKeepsOther(cfg: Config, s: State, a: Addr, x: Block, c: Choice, g: nat)
    requires HashesSplit(cfg) && Inv(cfg, s) && Allowed(cfg, s, cfg.fpOf(x), c)
    requires !Duplicate(cfg, s, cfg.fpOf(x)) && g != cfg.fpHash(cfg.fpOf(x))
    ensures var r := Cache(cfg, s, a, cfg.fpOf(x), c); EntryOk(cfg, r.fp, r.meta, s.primary[a := x], g)
  {
    var f := cfg.fpOf(x);
    var h, b, r := cfg.fpHash(f), cfg.fpBucket(cfg.fpHash(f)), Cache(cfg, s, a, f, c);
    assert EntryOk(cfg, s.fp, s.meta, s.primary, g);
    if cfg.fpBucket(g) == b {
      FpTable.UpdateOthers(s.fp[b], cfg.fpKey(h), c.n, c.count, c.gone, c.slot, c.table, cfg.fpKey(g));
    }
    var e := EntryAt(cfg, r.fp, g);
    if e.Some? {
      assert EntryAt(cfg, s.fp, g) == e && (cfg.fpBucket(g), e.value) != (b, c.slot);
      WriteKeepsMeta(cfg, s.primary, g, s.meta[(cfg.fpBucket(g), e.value)], a, x);
    }
  }

  lemma TouchKeepsBuckets(cfg: Config, lba: LbaReferences.Buckets, a: Addr, h: nat)
    requires LbaReferences.BucketsOk(lba, cfg.separator)
    ensures LbaReferences.BucketsOk(TouchLba(cfg, lba, a, h), cfg.separator) && |TouchLba(cfg, lba, a, h)| == |lba|
  {
    if cfg.lbaBucket(a) < |lba| {
      LbaReferences.TouchKeepsWf(lba, cfg.lbaBucket(a), cfg.lbaKey(a), h, cfg.separator);
    }
  }

  lemma CacheKeepsRuns(cfg: Config, s: State, a: Addr, f: Fp, c: Choice)
    requires Inv(cfg, s) && Allowed(cfg, s, f, c)
    ensures var r := Cache(cfg, s, a, f, c);
            |r.fp| == |s.fp| && forall b :: 0 <= b < |r.fp| ==> FpTable.OneRun(r.fp[b])
  {
    var h := cfg.fpHash(f);
    if !Duplicate(cfg, s, f) {
      FpTable.UpdateMeaning(s.fp[cfg.fpBucket(h)], cfg.fpKey(h), c.n, c.count, c.gone, c.slot, c.table);
    }
  }

  lemma CacheKeepsInv(cfg: Config, s: State, a: Addr, x: Block, c: Choice)
    requires HashesSplit(cfg) && Inv(cfg, s) && Allowed(cfg, s, cfg.fpOf(x), c)
    ensures Inv(cfg, Cache(cfg, s, a, cfg.fpOf(x), c).(primary := s.primary[a := x]))
  {
    var r := Cache(cfg, s, a, cfg.fpOf(x), c);
    TouchKeepsBuckets(cfg, s.lba, a, cfg.fpHash(cfg.fpOf(x)));
    CacheKeepsRuns(cfg, s, a, cfg.fpOf(x), c);
    var primary := s.primary[a := x];
    forall g ensures EntryOk(cfg, r.fp, r.meta, primary, g) { CacheKeepsEntry(cfg, s, a, x, c, g); }
  }

  /** Two disks that read alike are alike for the invariant. */
  lemma SameReads(cfg: Config, s: State, primary: Device)
    requires Inv(cfg, s.(primary := primary))
             && forall a :: ChunkAt(primary, a, cfg.chunk) == ChunkAt(s.primary, a, cfg.chunk)
    ensures Inv(cfg, s)
  {
    forall h ensures EntryOk(cfg, s.fp, s.meta, s.primary, h) {
      assert EntryOk(cfg, s.fp, s.meta, primary, h);
      assert forall a :: CurrentFp(cfg, primary, a) == CurrentFp(cfg, s.primary, a);
    }
  }

  lemma NextKeepsInv(cfg: Config, s: State, op: Request, c: Choice)
    requires HashesSplit(cfg) && Inv(cfg, s) && AllowedOp(cfg, s, op, c)
    ensures Inv(cfg, Next(cfg, s, op, c))
  {
    match op {
      case Read(a) =>
        var x := ChunkAt(s.primary, a, cfg.chunk);
        if Hit(cfg, s, a).Some? {
          TouchKeepsBuckets(cfg, s.lba, a, HashFor(cfg, s.lba, a).value);
        } else {
          CacheKeepsInv(cfg, s, a, x, c);
          SameReads(cfg, Next(cfg, s, op, c), s.primary[a := x]);
        }
      case Write(a, x) =>
        CacheKeepsInv(cfg, s, a, x, c);
    }
  }

  /** Every fingerprint hash in the LBA index names a fingerprint bucket. */
  ghost predicate Known(cfg: Config, lba: LbaReferences.Buckets, nFp: nat) {
    forall b: nat, key: nat :: b < |lba| && LbaTable.Lookup(lba[b], key).Some? ==>
      cfg.fpBucket(LbaTable.Lookup(lba[b], key).value) < nFp
  }

  lemma TouchKeepsKnown(cfg: Config, lba: LbaReferences.Buckets, a: Addr, h: nat, nFp: nat)
    requires LbaReferences.BucketsOk(lba, cfg.separator) && Known(cfg, lba, nFp) && cfg.fpBucket(h) < nFp
    ensures Known(cfg, TouchLba(cfg, lba, a, h), nFp)
  {
    var r, i := TouchLba(cfg, lba, a, h), cfg.lbaBucket(a);
    forall b: nat, key: nat | b < |r| && LbaTable.Lookup(r[b], key).Some?
      ensures cfg.fpBucket(LbaTable.Lookup(r[b], key).value) < nFp
    {
      if i == b {
        if LbaTable.Lookup(lba[i], cfg.lbaKey(a)) == Some(h) {
          LbaTable.PromoteLookup(lba[i], Find(lba[i], cfg.lbaKey(a)), key);
        } else {
          LbaTable.UpdateLookup(lba[i], cfg.lbaKey(a), h, cfg.separator, key);
        }
      }
    }
  }

  // ----- Hits

  /** A hit has the fingerprint of the address's current content exactly when the LBA index holds its hash. */
  lemma HitSafeIffHashCurrent(cfg: Config, s: State, a: Addr)
    requires Inv(cfg, s) && Hit(cfg, s, a).Some?
    ensures Hit(cfg, s, a).value.fp == CurrentFp(cfg, s.primary, a)
            <==> HashFor(cfg, s.lba, a) == Some(CurrentHash(cfg, s.primary, a))
  {
    assert EntryOk(cfg, s.fp, s.meta, s.primary, HashFor(cfg, s.lba, a).value);
  }

  /** The fingerprint hash a request leaves with its address: on a hit the one already there. */
  function TouchedHash(cfg: Config, s: State, op: Request): nat {
    if op.Write? then cfg.fpHash(cfg.fpOf(op.data))
    else if Hit(cfg, s, op.addr).Some? then HashFor(cfg, s.lba, op.addr).value
    else CurrentHash(cfg, s.primary, op.addr)
  }

  lemma NextTouches(cfg: Config, s: State, op: Request, c: Choice)
    ensures var r := Next(cfg, s, op, c);
            && r.lba == TouchLba(cfg, s.lba, op.addr, TouchedHash(cfg, s, op))
            && r.primary == if op.Write? then s.primary[op.addr := op.data] else s.primary
  {
  }

  /** No two of the addresses have the same LBA hash. */
  ghost predicate Distinct(cfg: Config, used: set<Addr>) {
    forall a, b | a in used && b in used ::
      cfg.lbaBucket(a) == cfg.lbaBucket(b) && cfg.lbaKey(a) == cfg.lbaKey(b) ==> a == b
  }

  /** The LBA index holds the hash of the current content of every address it knows. */
  ghost predicate Fresh(cfg: Config, s: State, used: set<Addr>) {
    forall a :: a in used ==> HashFor(cfg, s.lba, a) in {None, Some(CurrentHash(cfg, s.primary, a))}
  }

  lemma TouchHash(cfg: Config, lba: LbaReferences.Buckets, a: Addr, h: nat, b: Addr)
    requires LbaReferences.BucketsOk(lba, cfg.separator)
    requires cfg.lbaBucket(a) == cfg.lbaBucket(b) && cfg.lbaKey(a) == cfg.lbaKey(b) ==> a == b
    ensures var r := TouchLba(cfg, lba, a, h);
            if a == b then HashFor(cfg, r, b) == if cfg.lbaBucket(a) < |lba| then Some(h) else None
            else HashFor(cfg, r, b) in {None, HashFor(cfg, lba, b)}
  {
    var i := cfg.lbaBucket(a);
    if i < |lba| && i == cfg.lbaBucket(b) {
      var t, key := lba[i], cfg.lbaKey(a);
      if LbaTable.Lookup(t, key) == Some(h) {
        LbaTable.PromoteLookup(t, Find(t, key), cfg.lbaKey(b));
      } else {
        LbaTable.UpdateLookup(t, key, h, cfg.separator, cfg.lbaKey(b));
      }
    }
  }

  lemma NextKeepsFresh(cfg: Config, s: State, op: Request, c: Choice, used: set<Addr>)
    requires Inv(cfg, s) && Fresh(cfg, s, used) && Distinct(cfg, used) && op.addr in used
    ensures Fresh(cfg, Next(cfg, s, op, c), used)
  {
    var s', h := Next(cfg, s, op, c), TouchedHash(cfg, s, op);
    NextTouches(cfg, s, op, c);
    forall b | b in used ensures HashFor(cfg, s'.lba, b) in {None, Some(CurrentHash(cfg, s'.primary, b))} {
      TouchHash(cfg, s.lba, op.addr, h, b);
      assert b != op.addr ==> CurrentHash(cfg, s'.primary, b) == CurrentHash(cfg, s.primary, b);
    }
  }

  /** After content was cached for an address, the LBA index holds its hash. */
  lemma CachedHash(cfg: Config, lba: LbaReferences.Buckets, a: Addr, h: nat)
    requires LbaReferences.BucketsOk(lba, cfg.separator) && cfg.lbaBucket(a) < |lba|
    ensures var r := TouchLba(cfg, lba, a, h);
            HashFor(cfg, r, a) == Some(h) && LbaReferences.BucketsOk(r, cfg.separator) && |r| == |lba|
  {
    TouchHash(cfg, lba, a, h, a);
    TouchKeepsBuckets(cfg, lba, a, h);
  }

  /** The metadata of content just deduplicated for an address lists it. */
  lemma CachedIsListed(cfg: Config, s: State, a: Addr, f: Fp, c: Choice)
    requires Inv(cfg, s) && Allowed(cfg, s, f, c)
    ensures var r := Cache(cfg, s, a, f, c); var m := MetaAt(cfg, r.fp, r.meta, cfg.fpHash(f));
            m.Some? && m.value.fp == f && a in m.value.lbas
  {
    var h := cfg.fpHash(f);
    var b := cfg.fpBucket(h);
    if Duplicate(cfg, s, f) {
      assert EntryOk(cfg, s.fp, s.meta, s.primary, h);
      ListsAdded(MetaAt(cfg, s.fp, s.meta, h).value, a);
    } else {
      FpTable.UpdateMeaning(s.fp[b], cfg.fpKey(h), c.n, c.count, c.gone, c.slot, c.table);
    }
  }

  /** Content just deduplicated for an address is what a read of it hits. */
  lemma CachedIsHit(cfg: Config, s: State, a: Addr, f: Fp, c: Choice)
    requires Inv(cfg, s) && Allowed(cfg, s, f, c) && cfg.lbaBucket(a) < |s.lba|
    ensures var r := Cache(cfg, s, a, f, c);
            HashFor(cfg, r.lba, a) == Some(cfg.fpHash(f)) && Hit(cfg, r, a).Some? && Hit(cfg, r, a).value.fp == f
  {
    hide LbaTable.Update, LbaTable.Promote;
    CachedIsListed(cfg, s, a, f, c);
    CachedHash(cfg, s.lba, a, cfg.fpHash(f));
  }

  lemma ListsAdded(m: Meta, a: Addr)
    requires |m.lbas| <= MAX_LBAS
    ensures a in AddLba(m, a).lbas
  {
    var r := AddLba(m, a);
    if |m.lbas| == MAX_LBAS { assert r.lbas[m.next] == a; } else { assert r.lbas[|m.lbas|] == a; }
  }

  // ----- Whole runs

  datatype Step = Step(op: Request, choice: Choice)

  function Run(cfg: Config, s: State, steps: seq<Step>): State
    decreases |steps|
  {
    if steps == [] then s else Run(cfg, Next(cfg, s, steps[0].op, steps[0].choice), steps[1..])
  }

  ghost predicate AllowedRun(cfg: Config, s: State, steps: seq<Step>)
    decreases |steps|
  {
    steps != [] ==>
      && AllowedOp(cfg, s, steps[0].op, steps[0].choice)
      && AllowedRun(cfg, Next(cfg, s, steps[0].op, steps[0].choice), steps[1..])
  }

  /** Every hit of the run is on the content last written to its address. */
  ghost predicate HitsCurrent(cfg: Config, s: State, steps: seq<Step>)
    decreases |steps|
  {
    steps != [] ==>
      && (steps[0].op.Read? && Hit(cfg, s, steps[0].op.addr).Some? ==>
            Hit(cfg, s, steps[0].op.addr).value.fp == CurrentFp(cfg, s.primary, steps[0].op.addr))
      && HitsCurrent(cfg, Next(cfg, s, steps[0].op, steps[0].choice), steps[1..])
  }

  /** With distinct LBA hashes, whatever fingerprint hashes collide and whatever is evicted, no hit is stale. */
  lemma {:induction false} DistinctRunsHitCurrent(cfg: Config, s: State, steps: seq<Step>, used: set<Addr>)
    requires HashesSplit(cfg) && Inv(cfg, s) && Fresh(cfg, s, used) && Distinct(cfg, used)
    requires AllowedRun(cfg, s, steps) && forall i :: 0 <= i < |steps| ==> steps[i].op.addr in used
    ensures HitsCurrent(cfg, s, steps) && Inv(cfg, Run(cfg, s, steps))
    decreases |steps|
  {
    if steps != [] {
      var op, c := steps[0].op, steps[0].choice;
      if Hit(cfg, s, op.addr).Some? { HitSafeIffHashCurrent(cfg, s, op.addr); }
      NextKeepsInv(cfg, s, op, c);
      NextKeepsFresh(cfg, s, op, c, used);
      DistinctRunsHitCurrent(cfg, Next(cfg, s, op, c), steps[1..], used);
    }
  }

  /** No slot of either index is in use. */
  ghost predicate Unused(cfg: Config, s: State) {
    && LbaReferences.Unused(s.lba) && (forall b :: 0 <= b < |s.lba| ==> 1 <= cfg.separator < |s.lba[b]|)
    && forall b, i :: 0 <= b < |s.fp| && 0 <= i < |s.fp[b]| ==> !s.fp[b][i].valid
  }

  lemma UnusedBucket(t: Table, key: nat)
    requires forall i :: 0 <= i < |t| ==> !t[i].valid
    ensures FpTable.OneRun(t) && FpTable.Lookup(t, key) == None
  {
    var i := Find(t, key);
  }

  lemma UnusedInv(cfg: Config, s: State, used: set<Addr>)
    requires Unused(cfg, s)
    ensures Inv(cfg, s) && Fresh(cfg, s, used)
  {
    forall b | 0 <= b < |s.fp| ensures FpTable.OneRun(s.fp[b]) { UnusedBucket(s.fp[b], 0); }
    forall h ensures EntryOk(cfg, s.fp, s.meta, s.primary, h) {
      var b := cfg.fpBucket(h);
      if b < |s.fp| { UnusedBucket(s.fp[b], cfg.fpKey(h)); }
    }
    forall a | a in used ensures HashFor(cfg, s.lba, a) == None {
      var b, key := cfg.lbaBucket(a), cfg.lbaKey(a);
      if b < |s.lba| {
        var i := Find(s.lba[b], key);
      }
    }
  }

  /** From empty indexes and any disk. */
  lemma FirstRunsHitCurrent(cfg: Config, s: State, steps: seq<Step>, used: set<Addr>)
    requires HashesSplit(cfg) && Unused(cfg, s) && Distinct(cfg, used)
    requires AllowedRun(cfg, s, steps) && forall i :: 0 <= i < |steps| ==> steps[i].op.addr in used
    ensures HitsCurrent(cfg, s, steps)
  {
    UnusedInv(cfg, s, used);
    DistinctRunsHitCurrent(cfg, s, steps, used);
  }

  // ----- Reference counts of a run

  /** What each request does to the LBA index. */
  function Requests(cfg: Config, s: State, steps: seq<Step>): seq<LbaReferences.Access>
    decreases |steps|
  {
    if steps == [] then []
    else
      var op := steps[0].op;
      [LbaReferences.Access(cfg.lbaBucket(op.addr), cfg.lbaKey(op.addr), TouchedHash(cfg, s, op))]
      + Requests(cfg, Next(cfg, s, op, steps[0].choice), steps[1..])
  }

  lemma {:induction false} RunTouches(cfg: Config, s: State, steps: seq<Step>)
    requires LbaReferences.BucketsOk(s.lba, cfg.separator)
    requires forall i :: 0 <= i < |steps| ==> cfg.lbaBucket(steps[i].op.addr) < |s.lba|
    ensures var rs := Requests(cfg, s, steps);
            && |rs| == |steps| && (forall i :: 0 <= i < |rs| ==> rs[i].bucket < |s.lba|)
            && Run(cfg, s, steps).lba == LbaReferences.Run(s.lba, rs, cfg.separator).0
    decreases |steps|
  {
    if steps != [] {
      var op, s1 := steps[0].op, Next(cfg, s, steps[0].op, steps[0].choice);
      NextTouches(cfg, s, op, steps[0].choice);
      TouchKeepsBuckets(cfg, s.lba, op.addr, TouchedHash(cfg, s, op));
      RunTouches(cfg, s1, steps[1..]);
      assert Requests(cfg, s, steps)[1..] == Requests(cfg, s1, steps[1..]);
    }
  }

  /**
   The reference counter along any run from empty indexes: no dereference finds a zero count, and each hash ends
   with one count for each slot holding it, one more for each core slot, and one for each time it leaked.
   */
  lemma RunCountsExact(cfg: Config, s: State, steps: seq<Step>, hash: nat)
    requires Unused(cfg, s) && forall i :: 0 <= i < |steps| ==> cfg.lbaBucket(steps[i].op.addr) < |s.lba|
    ensures var (lba, events, leaked) := LbaReferences.Run(s.lba, Requests(cfg, s, steps), cfg.separator);
            && lba == Run(cfg, s, steps).lba
            && LbaReferences.Replay(multiset{}, events).Some?
            && LbaReferences.Replay(multiset{}, events).value[hash]
               == LbaReferences.AllRefs(lba)[hash] + LbaReferences.AllZones(lba, cfg.separator)[hash] + leaked[hash]
  {
    UnusedInv(cfg, s, {});
    RunTouches(cfg, s, steps);
    LbaReferences.CountsNeverTooLow(s.lba, Requests(cfg, s, steps), cfg.separator, hash);
  }

  /** The allocator reads the bucket's counts of the full hashes from `counts`. */
  ghost predicate CountedBy(cfg: Config, f: Fp, c: Choice, counts: multiset<nat>) {
    forall g: nat :: cfg.fpBucket(g) == cfg.fpBucket(cfg.fpHash(f)) ==> c.count(cfg.fpKey(g)) == counts[g]
  }

  /** What recording `h` for the address displaces and releases; it is released after the new chunk has its slots. */
  function Displacing(cfg: Config, lba: LbaReferences.Buckets, a: Addr, h: nat): multiset<nat> {
    var b := cfg.lbaBucket(a);
    if b < |lba| && 1 <= cfg.separator < |lba[b]| && HashFor(cfg, lba, a) != Some(h) then
      LbaReferences.Released(LbaTable.Update(lba[b], cfg.lbaKey(a), h, cfg.separator).displaced, h)
    else multiset{}
  }

  /** The counts are those after the request, and one more for what it displaced. */
  ghost predicate CountedAfter(cfg: Config, lba: LbaReferences.Buckets, a: Addr, f: Fp, c: Choice,
                               after: multiset<nat>) {
    CountedBy(cfg, f, c, after + Displacing(cfg, lba, a, cfg.fpHash(f)))
  }

  /** How often the LBA index refers to each hash when new content takes its slots. */
  function References(cfg: Config, before: LbaReferences.Buckets, after: LbaReferences.Buckets, a: Addr, h: nat,
                      leak: multiset<nat>): multiset<nat>
  {
    LbaReferences.AllRefs(after) + LbaReferences.AllZones(after, cfg.separator) + leak + Displacing(cfg, before, a, h)
  }

  /**
   New content evicts only chunks of its own bucket, and none with more references, counting slots, core slots, what
   leaked and what is about to be released, than one that it keeps.
   */
  lemma EvictsLeastReferenced(cfg: Config, s: State, a: Addr, f: Fp, c: Choice, leak: multiset<nat>, g: nat, k: nat)
    requires HashesSplit(cfg) && Inv(cfg, s) && Allowed(cfg, s, f, c) && !Duplicate(cfg, s, f)
    requires var r := Cache(cfg, s, a, f, c);
             && CountedBy(cfg, f, c, References(cfg, s.lba, r.lba, a, cfg.fpHash(f), leak))
             && EntryAt(cfg, s.fp, g).Some? && EntryAt(cfg, r.fp, g).None? && g != cfg.fpHash(f)
             && EntryAt(cfg, r.fp, k).Some? && k != cfg.fpHash(f) && cfg.fpBucket(k) == cfg.fpBucket(cfg.fpHash(f))
    ensures cfg.fpBucket(g) == cfg.fpBucket(cfg.fpHash(f))
    ensures var refs := References(cfg, s.lba, Cache(cfg, s, a, f, c).lba, a, cfg.fpHash(f), leak); refs[g] <= refs[k]
  {
    var h := cfg.fpHash(f);
    var b := cfg.fpBucket(h);
    var t, key, kg, kk := s.fp[b], cfg.fpKey(h), cfg.fpKey(g), cfg.fpKey(k);
    FpTable.UpdateMeaning(t, key, c.n, c.count, c.gone, c.slot, c.table);
    FpTable.LookupFindsAll(t, kg);
    FpTable.LookupFindsAll(c.table, kg);
    FpTable.LookupFindsAll(c.table, kk);
    FpTable.EvictedLess(t, key, c.n, c.count, c.gone, c.slot, c.table, kg, kk);
  }

  /** With the sketch in place of the exact counter: while no cell overflows, its answer covers a hash's slots. */
  lemma SketchCoversSlots(cfg: Config, s: State, steps: seq<Step>, hash: nat, rows: Sketch.Hash, width: nat)
    requires Unused(cfg, s) && forall i :: 0 <= i < |steps| ==> cfg.lbaBucket(steps[i].op.addr) < |s.lba|
    requires width > 0
    requires Sketch.RoomFor(rows, width, [], LbaReferences.Run(s.lba, Requests(cfg, s, steps), cfg.separator).1)
    ensures var (lba, events, leaked) := LbaReferences.Run(s.lba, Requests(cfg, s, steps), cfg.separator);
            && lba == Run(cfg, s, steps).lba
            && Sketch.Query(rows, width, Sketch.Calls(rows, width, Sketch.Clear(width), events), hash)
               >= LbaReferences.AllRefs(lba)[hash] + LbaReferences.AllZones(lba, cfg.separator)[hash]
  {
    RunCountsExact(cfg, s, steps, hash);
    var events := LbaReferences.Run(s.lba, Requests(cfg, s, steps), cfg.separator).1;
    Sketch.RoomyNeverBelowCounter(rows, width, events, hash);
  }

  // ----- Colliding LBA hashes

  ghost predicate UnusedTable(t: Table) {
    forall i :: 0 <= i < |t| ==> !t[i].valid
  }

  /** What the allocator does in a bucket that holds no other signature. */
  function FirstChoice(t: Table, key: nat, n: nat, compressedLen: nat): Choice
    requires n <= |t|
  {
    Choice(n, compressedLen, (k: nat) => 0, {}, 0,
           FpTable.Taken(FpTable.Dropped(FpTable.Dropped(t, {key}), {}), 0, n, key))
  }

  lemma FirstChoiceUpdates(t: Table, key: nat, n: nat, len: nat)
    requires UnusedTable(FpTable.Dropped(t, {key})) && FpTable.OneRun(t) && 1 <= n <= |t|
    ensures var c := FirstChoice(t, key, n, len);
            && FpTable.Updates(t, key, c.n, c.count, c.gone, c.slot, c.table)
            && FpTable.OneRun(c.table) && FpTable.Lookup(c.table, key) == Some((0, n))
            && UnusedTable(FpTable.Dropped(c.table, {key}))
  {
    var c := FirstChoice(t, key, n, len);
    assert FpTable.FirstGap(FpTable.Dropped(FpTable.Dropped(t, {key}), {}), 0, n);
    FpTable.UpdateMeaning(t, key, c.n, c.count, c.gone, c.slot, c.table);
  }

  /** New content whose fingerprint bucket holds no other signature is cached in slot 0, listing the address. */
  lemma FirstCache(cfg: Config, s: State, a: Addr, f: Fp, n: nat, len: nat) returns (c: Choice)
    requires LbaReferences.BucketsOk(s.lba, cfg.separator) && cfg.lbaBucket(a) < |s.lba| && !Duplicate(cfg, s, f)
    requires var b := cfg.fpBucket(cfg.fpHash(f));
             && b < |s.fp| && FpTable.OneRun(s.fp[b]) && 1 <= n <= |s.fp[b]|
             && UnusedTable(FpTable.Dropped(s.fp[b], {cfg.fpKey(cfg.fpHash(f))}))
    ensures Allowed(cfg, s, f, c) && c.n == n && c.compressedLen == len
    ensures var h := cfg.fpHash(f); var b := cfg.fpBucket(h); var r := Cache(cfg, s, a, f, c);
            && r.fp == s.fp[b := c.table] && r.meta == s.meta[(b, 0) := Meta(f, [a], 0, len)]
            && r.primary == s.primary && r.lba == TouchLba(cfg, s.lba, a, h)
            && FpTable.Lookup(c.table, cfg.fpKey(h)) == Some((0, n))
            && FpTable.OneRun(c.table) && UnusedTable(FpTable.Dropped(c.table, {cfg.fpKey(h)}))
  {
    var h := cfg.fpHash(f);
    var t := s.fp[cfg.fpBucket(h)];
    c := FirstChoice(t, cfg.fpKey(h), n, len);
    FirstChoiceUpdates(t, cfg.fpKey(h), n, len);
  }

  /** Writing content whose fingerprint bucket is unused. */
  lemma FirstWrite(cfg: Config, s: State, a: Addr, x: Block) returns (c: Choice)
    requires LbaReferences.BucketsOk(s.lba, cfg.separator) && cfg.lbaBucket(a) < |s.lba|
    requires var b := cfg.fpBucket(cfg.fpHash(cfg.fpOf(x))); b < |s.fp| && |s.fp[b]| >= 1 && UnusedTable(s.fp[b])
    ensures AllowedOp(cfg, s, Write(a, x), c)
    ensures var f := cfg.fpOf(x);
            var h := cfg.fpHash(f);
            var b := cfg.fpBucket(h);
            var r := Next(cfg, s, Write(a, x), c);
            && r.fp == s.fp[b := c.table] && r.meta == s.meta[(b, 0) := Meta(f, [a], 0, 0)]
            && EntryAt(cfg, r.fp, h) == Some(0)
            && LbaReferences.BucketsOk(r.lba, cfg.separator) && |r.lba| == |s.lba|
            && r.primary == s.primary[a := x]
  {
    var h := cfg.fpHash(cfg.fpOf(x));
    UnusedBucket(s.fp[cfg.fpBucket(h)], cfg.fpKey(h));
    c := FirstCache(cfg, s, a, cfg.fpOf(x), 1, 0);
    CachedHash(cfg, s.lba, a, h);
  }

  /** Writing again content that is cached for `a` to an address with the same LBA hash makes reads of `a` hit it. */
  lemma WriteElsewhere(cfg: Config, s: State, a: Addr, b: Addr, x: Block, c: Choice)
    requires LbaReferences.BucketsOk(s.lba, cfg.separator)
    requires a != b && cfg.lbaBucket(a) == cfg.lbaBucket(b) < |s.lba| && cfg.lbaKey(a) == cfg.lbaKey(b)
    requires MetaAt(cfg, s.fp, s.meta, cfg.fpHash(cfg.fpOf(x))) == Some(Meta(cfg.fpOf(x), [a], 0, 0))
    ensures AllowedOp(cfg, s, Write(b, x), c)
    ensures var r := Next(cfg, s, Write(b, x), c);
            && Hit(cfg, r, a).Some? && Hit(cfg, r, a).value.fp == cfg.fpOf(x)
            && CurrentFp(cfg, r.primary, a) == CurrentFp(cfg, s.primary, a)
  {
    var h := cfg.fpHash(cfg.fpOf(x));
    var r := Next(cfg, s, Write(b, x), c);
    TouchHash(cfg, s.lba, b, h, b);
    assert HashFor(cfg, r.lba, a) == Some(h);
    assert MetaAt(cfg, r.fp, r.meta, h) == Some(AddLba(Meta(cfg.fpOf(x), [a], 0, 0), b));
    assert AddLba(Meta(cfg.fpOf(x), [a], 0, 0), b).lbas[0] == a;
  }

  /** A bucket that did not change still has its chunks. */
  lemma OtherBucketKept(cfg: Config, s: State, r: State, h: nat, j: nat, table: Table, slot: nat, m: Meta)
    requires j < |s.fp| && cfg.fpBucket(h) != j && r.fp == s.fp[j := table] && r.meta == s.meta[(j, slot) := m]
    ensures MetaAt(cfg, r.fp, r.meta, h) == MetaAt(cfg, s.fp, s.meta, h)
  {
  }

  /**
   Two addresses with one LBA hash: write x to `a`, then y to `a`, then x to `b`, and a read of `a` hits x.
   */
  lemma CollidingHashesHitStale(cfg: Config, s: State, a: Addr, b: Addr, x: Block, y: Block) returns (steps: seq<Step>)
    requires LbaReferences.BucketsOk(s.lba, cfg.separator)
    requires a != b && cfg.lbaBucket(a) == cfg.lbaBucket(b) < |s.lba| && cfg.lbaKey(a) == cfg.lbaKey(b)
    requires var i, j := cfg.fpBucket(cfg.fpHash(cfg.fpOf(x))), cfg.fpBucket(cfg.fpHash(cfg.fpOf(y)));
             i != j && i < |s.fp| && j < |s.fp| && |s.fp[i]| >= 1 && |s.fp[j]| >= 1
             && UnusedTable(s.fp[i]) && UnusedTable(s.fp[j])
    ensures |steps| == 3 && steps[0].op == Write(a, x) && steps[1].op == Write(a, y) && steps[2].op == Write(b, x)
    ensures AllowedRun(cfg, s, steps)
    ensures var r := Run(cfg, s, steps);
            && Hit(cfg, r, a).Some?
            && Hit(cfg, r, a).value.fp == cfg.fpOf(x) != cfg.fpOf(y) == CurrentFp(cfg, r.primary, a)
  {
    var c1 := FirstWrite(cfg, s, a, x);
    var s1 := Next(cfg, s, Write(a, x), c1);
    var c2 := FirstWrite(cfg, s1, a, y);
    var s2 := Next(cfg, s1, Write(a, y), c2);
    OtherBucketKept(cfg, s1, s2, cfg.fpHash(cfg.fpOf(x)), cfg.fpBucket(cfg.fpHash(cfg.fpOf(y))), c2.table, 0,
                    Meta(cfg.fpOf(y), [a], 0, 0));
    WriteElsewhere(cfg, s2, a, b, x, c1);
    steps := [Step(Write(a, x), c1), Step(Write(a, y), c2), Step(Write(b, x), c1)];
    RunOfThree(cfg, s, steps, s1, s2, Next(cfg, s2, Write(b, x), c1));
  }

  lemma RunOfThree(cfg: Config, s: State, steps: seq<Step>, s1: State, s2: State, s3: State)
    requires |steps| == 3 && s1 == Next(cfg, s, steps[0].op, steps[0].choice)
    requires s2 == Next(cfg, s1, steps[1].op, steps[1].choice) && s3 == Next(cfg, s2, steps[2].op, steps[2].choice)
    requires AllowedOp(cfg, s, steps[0].op, steps[0].choice) && AllowedOp(cfg, s1, steps[1].op, steps[1].choice)
    requires AllowedOp(cfg, s2, steps[2].op, steps[2].choice)
    ensures AllowedRun(cfg, s, steps) && Run(cfg, s, steps) == s3
  {
    var r1, r2 := steps[1..], steps[2..];
    assert r1[1..] == r2 && r2[1..] == [];
    assert AllowedRun(cfg, s3, r2[1..]) && Run(cfg, s3, r2[1..]) == s3;
    assert AllowedRun(cfg, s2, r2) && Run(cfg, s2, r2) == s3;
    assert AllowedRun(cfg, s1, r1) && Run(cfg, s1, r1) == s3;
  }
}
