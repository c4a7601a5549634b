/**
 The AC-DC engine on its packed indexes and on the cache device's bytes: each chunk's lookup, deduplication, update,
 compression, and transfer to and from the device.
 */
module AcdcIndex {
  import opened Common
  import opened Bits
  import opened Bitmap
  import opened ExactCounter
  import opened SketchCounter
  import Sketch
  import opened Index
  import FpBucket
  import opened AcdcModel
  import opened Storage
  import opened SsdLayout
  import Y = AcdcSystem
  import LbaTable
  import LbaReferences
  import LbaBucket
  import FpTable

  datatype Verification = BothValid | OnlyFpValid | OnlyLbaValid | NeitherValid | Unverified

  datatype Dedup = DupContent | NotDup | DedupUnknown

  datatype Outcome = HitCache | NotHit | LookupUnknown

  /** A chunk on its way through the engine. */
  datatype Chunk = Chunk(
    addr: Addr, lbaHash: nat, fingerprint: Fp, hasFingerprint: bool, fpHash: nat, nSubchunks: nat, compressedLen: nat,
    cachedataLocation: nat, metadataLocation: (nat, nat), metadata: Meta, hitLbaIndex: bool, hitFpIndex: bool,
    dedupResult: Dedup, lookupResult: Outcome, verification: Verification)

  /** The chunk as the chunker makes it. */
  function NewChunk(addr: Addr, lbaHash: nat): Chunk {
    Chunk(addr, lbaHash, 0, false, 0, 0, 0, 0, (0, 0), Meta(0, [], 0, 0), false, false, DedupUnknown, LookupUnknown,
          Unverified)
  }

  function Verdict(validLba: bool, validFp: bool): Verification {
    if validLba && validFp then BothValid
    else if validLba then OnlyLbaValid
    else if validFp then OnlyFpValid
    else NeitherValid
  }

  /** What probing the fingerprint index with a hash finds on behalf of an address, whose fingerprint may be known. */
  datatype Probe = Probe(location: (nat, nat), metadata: Meta, verification: Verification)

  function ProbeOf(cfg: Config, fp: seq<Table>, device: map<(nat, nat), Meta>, h: nat, a: Addr, known: bool, f: Fp)
    : Option<Probe>
  {
    var e, m := EntryAt(cfg, fp, h), MetaAt(cfg, fp, device, h);
    if e.None? || m.None? then None
    else Some(Probe((cfg.fpBucket(h), e.value), m.value, Verdict(a in m.value.lbas, known && m.value.fp == f)))
  }

  /** What probing leaves in the chunk. */
  predicate Probed(cfg: Config, g: Geometry, fp: seq<Table>, device: map<(nat, nat), Meta>, chunk: Chunk, r: Chunk) {
    var p := ProbeOf(cfg, fp, device, chunk.fpHash, chunk.addr, chunk.hasFingerprint, chunk.fingerprint);
    if p.None? then EntryAt(cfg, fp, chunk.fpHash).None? && r == chunk.(hitFpIndex := false)
    else
      && 0 < r.nSubchunks <= g.slots && |r.metadata.lbas| <= MAX_LBAS
      && r == chunk.(hitFpIndex := true, nSubchunks := SlotsAt(cfg, fp, chunk.fpHash),
                     cachedataLocation := CachedataLocation(g, p.value.location.0, p.value.location.1),
                     metadataLocation := p.value.location, metadata := p.value.metadata,
                     verification := p.value.verification)
  }

  /** What deduplication leaves in the chunk. */
  predicate Deduped(cfg: Config, s: State, slots: nat, chunk: Chunk, r: Chunk) {
    && r.addr == chunk.addr && r.lbaHash == chunk.lbaHash && r.lookupResult == chunk.lookupResult
    && r.fingerprint == chunk.fingerprint && r.fpHash == chunk.fpHash && r.compressedLen == chunk.compressedLen
    && r.nSubchunks == SlotsGiven(cfg, s.fp, chunk.fpHash, false, chunk.nSubchunks)
    && (EntryAt(cfg, s.fp, chunk.fpHash).Some? ==> 0 < r.nSubchunks <= slots)
    && (r.dedupResult == DupContent ==> EntryAt(cfg, s.fp, chunk.fpHash).Some?)
    && r.hitLbaIndex == (HashFor(cfg, s.lba, chunk.addr) == Some(chunk.fpHash))
    && r.dedupResult == (if Duplicate(cfg, s, chunk.fingerprint) then DupContent else NotDup)
    && (r.dedupResult == DupContent ==>
          && ProbeOf(cfg, s.fp, s.meta, r.fpHash, r.addr, true, r.fingerprint)
             == Some(Probe(r.metadataLocation, r.metadata, r.verification))
          && |r.metadata.lbas| <= MAX_LBAS)
  }

  /** A read hits when only its address is confirmed. */
  lemma HitIsProbe(cfg: Config, s: State, a: Addr, v: Option<nat>, p: Option<Probe>, f: Fp)
    requires v == HashFor(cfg, s.lba, a)
             && p == if v.None? then None else ProbeOf(cfg, s.fp, s.meta, v.value, a, false, f)
    ensures Hit(cfg, s, a) == if p.Some? && p.value.verification == OnlyLbaValid then Some(p.value.metadata) else None
  {
  }

  /** Content is a duplicate when its fingerprint is confirmed. */
  lemma DuplicateIsProbe(cfg: Config, s: State, a: Addr, f: Fp, p: Option<Probe>)
    requires p == ProbeOf(cfg, s.fp, s.meta, cfg.fpHash(f), a, true, f)
    ensures Duplicate(cfg, s, f) <==> p.Some? && p.value.verification in {OnlyFpValid, BothValid}
  {
  }

  /** The metadata region of the cache device. */
  class MetaVerification {
    var device: map<(nat, nat), Meta>

    constructor ()
      ensures device == map[]
    {
      device := map[];
    }

    /** Read the chunk's metadata and compare its address and, if known, its fingerprint. */
    method Verify(chunk: Chunk) returns (r: Chunk)
      requires chunk.metadataLocation in device
      ensures var m := device[chunk.metadataLocation];
              r == chunk.(metadata := m,
                          verification := Verdict(chunk.addr in m.lbas,
                                                  chunk.hasFingerprint && m.fp == chunk.fingerprint))
    {
      var m := device[chunk.metadataLocation];
      var validLba := false;
      var i := 0;
      while i < |m.lbas| && !validLba
        invariant i <= |m.lbas|
        invariant validLba <==> exists j :: 0 <= j < i && m.lbas[j] == chunk.addr
      {
        if m.lbas[i] == chunk.addr { validLba := true; }
        i := i + 1;
      }
      r := chunk.(metadata := m, verification := Verdict(validLba, chunk.hasFingerprint && m.fp == chunk.fingerprint));
    }

    /** List the address with a duplicate's metadata, or write a new chunk's. */
    method Update(chunk: Chunk)
      requires chunk.dedupResult == DupContent ==> |chunk.metadata.lbas| <= MAX_LBAS
      modifies this
      ensures device == match chunk.dedupResult
                        case DupContent => old(device)[chunk.metadataLocation := AddLba(chunk.metadata, chunk.addr)]
                        case NotDup =>
                          var m := Meta(chunk.fingerprint, [chunk.addr], 0, chunk.compressedLen);
                          old(device)[chunk.metadataLocation := m]
                        case DedupUnknown => old(device)
    {
      var m := chunk.metadata;
      if chunk.dedupResult == DupContent {
        if |m.lbas| == MAX_LBAS {
          m := m.(lbas := m.lbas[m.next := chunk.addr]);
          m := m.(next := if m.next + 1 == MAX_LBAS then 0 else m.next + 1);
        } else {
          m := m.(lbas := m.lbas + [chunk.addr]);
        }
        device := device[chunk.metadataLocation := m];
      } else if chunk.dedupResult == NotDup {
        m := Meta(chunk.fingerprint, [chunk.addr], 0, chunk.compressedLen);
        device := device[chunk.metadataLocation := m];
      }
    }
  }

  /** A deduplicated chunk, ready to be recorded. */
  predicate Ready(cfg: Config, s: State, slots: nat, chunk: Chunk) {
    && chunk.fpHash == cfg.fpHash(chunk.fingerprint) && 0 < chunk.nSubchunks <= slots
    && chunk.hitLbaIndex == (HashFor(cfg, s.lba, chunk.addr) == Some(chunk.fpHash))
    && chunk.dedupResult == (if Duplicate(cfg, s, chunk.fingerprint) then DupContent else NotDup)
    && (chunk.dedupResult == DupContent ==>
          && ProbeOf(cfg, s.fp, s.meta, chunk.fpHash, chunk.addr, true, chunk.fingerprint)
             == Some(Probe(chunk.metadataLocation, chunk.metadata, chunk.verification))
          && |chunk.metadata.lbas| <= MAX_LBAS)
  }

  /** The metadata region after the chunk is recorded at its location. */
  function Recorded(device: map<(nat, nat), Meta>, chunk: Chunk): map<(nat, nat), Meta> {
    match chunk.dedupResult
    case DupContent =>
      if chunk.verification == BothValid then device
      else device[chunk.metadataLocation := AddLba(chunk.metadata, chunk.addr)]
    case NotDup => device[chunk.metadataLocation := Meta(chunk.fingerprint, [chunk.addr], 0, chunk.compressedLen)]
    case DedupUnknown => device
  }

  /** Recording a chunk is the model's step. */
  lemma RecordingIsCache(cfg: Config, s: State, slots: nat, chunk: Chunk, r: Chunk, c: Choice, fp: seq<Table>)
    requires Ready(cfg, s, slots, chunk) && cfg.fpBucket(chunk.fpHash) < |s.fp|
    requires chunk.dedupResult == DupContent ==> r == chunk && fp == s.fp
    requires chunk.dedupResult != DupContent ==>
               && r.dedupResult == chunk.dedupResult && r.fingerprint == chunk.fingerprint && r.addr == chunk.addr
               && r.compressedLen == c.compressedLen && r.metadataLocation == (cfg.fpBucket(chunk.fpHash), c.slot)
               && fp == s.fp[cfg.fpBucket(chunk.fpHash) := c.table]
    ensures State(TouchLba(cfg, s.lba, chunk.addr, chunk.fpHash), fp, Recorded(s.meta, r), s.primary)
            == Cache(cfg, s, chunk.addr, chunk.fingerprint, c)
  {
  }

  // ----- The counter's calls of one request

  /** The calls before the release of what was displaced, and what is left to release. */
  lemma TouchInTwo(c: multiset<nat>, bs: LbaReferences.Buckets, b: nat, key: nat, h: nat, sep: nat, leak: multiset<nat>)
    requires b < |bs| && LbaReferences.BucketsOk(bs, sep) && LbaReferences.Exact(c, bs, sep, leak)
    requires LbaTable.Lookup(bs[b], key) != Some(h)
    ensures var o := LbaTable.Update(bs[b], key, h, sep);
            && LbaReferences.Replay(c, o.events).Some?
            && LbaReferences.Replay(LbaReferences.Replay(c, o.events).value + multiset{h},
                                    LbaReferences.Release(o.displaced, h))
               == LbaReferences.Replay(c, LbaReferences.Touch(bs, b, key, h, sep).1)
            && LbaReferences.Replay(c, LbaReferences.Touch(bs, b, key, h, sep).1).Some?
  {
    var o := LbaTable.Update(bs[b], key, h, sep);
    var release := LbaReferences.Release(o.displaced, h);
    LbaReferences.TouchKeepsExact(c, bs, b, key, h, sep, leak);
    LbaBucket.ReplaySplit(c, o.events, [LbaTable.Reference(h)] + release);
    LbaBucket.ReplaySplit(LbaReferences.Replay(c, o.events).value, [LbaTable.Reference(h)], release);
    LbaBucket.ReplayOne(LbaReferences.Replay(c, o.events).value, LbaTable.Reference(h));
  }

  /** The configuration's hashes are split by shifting and masking, name buckets that exist, and fit the slots. */
  ghost predicate Splits(cfg: Config, lbaHashOf: Addr -> nat, lbaKeyBits: nat, lbaValueBits: nat, lbaBuckets: nat,
                         fpKeyBits: nat, fpBuckets: nat)
  {
    && (forall a :: cfg.lbaBucket(a) == Shr(lbaHashOf(a), lbaKeyBits) < lbaBuckets)
    && (forall a :: cfg.lbaKey(a) == And(lbaHashOf(a), LowMask(lbaKeyBits)))
    && (forall h :: cfg.fpBucket(h) == Shr(h, fpKeyBits) && cfg.fpKey(h) == And(h, LowMask(fpKeyBits)))
    && (forall f :: cfg.fpBucket(cfg.fpHash(f)) < fpBuckets && cfg.fpHash(f) <= LowMask(lbaValueBits))
  }

  class MetadataModule {
    const cfg: Config
    const lbaHashOf: Addr -> nat
    const lbaIndex: LbaIndex
    const fpIndex: FpIndex
    const metaVerification: MetaVerification
    ghost var leak: multiset<nat>

    constructor (cfg: Config, lbaHashOf: Addr -> nat, lbaIndex: LbaIndex, fpIndex: FpIndex,
                 metaVerification: MetaVerification)
      ensures this.cfg == cfg && this.lbaHashOf == lbaHashOf && this.lbaIndex == lbaIndex && this.fpIndex == fpIndex
      ensures this.metaVerification == metaVerification && leak == multiset{}
    {
      this.cfg, this.lbaHashOf, this.lbaIndex, this.fpIndex := cfg, lbaHashOf, lbaIndex, fpIndex;
      this.metaVerification, leak := metaVerification, multiset{};
    }

    /** The configuration is that of the indexes, and the exact counter is in use. */
    ghost predicate Linked() {
      && cfg.separator == lbaIndex.separator && lbaIndex.counter == fpIndex.counter.exact
      && !fpIndex.counter.sketchEnabled
      && Splits(cfg, lbaHashOf, lbaIndex.memory.nBitsPerKey, lbaIndex.memory.nBitsPerValue, lbaIndex.memory.nBuckets,
                fpIndex.memory.nBitsPerKey,
                fpIndex.memory.nBuckets)
    }

    /** The five byte arrays are distinct. */
    ghost predicate Separate() {
      && lbaIndex.memory.data != fpIndex.memory.data && lbaIndex.memory.data != fpIndex.memory.valid
      && lbaIndex.memory.valid != fpIndex.memory.data && lbaIndex.memory.valid != fpIndex.memory.valid
      && fpIndex.counter.sketch.sketch.data != lbaIndex.memory.data
      && fpIndex.counter.sketch.sketch.data != lbaIndex.memory.valid
    }

    ghost predicate Valid()
      reads this, lbaIndex.memory.data, lbaIndex.memory.valid, lbaIndex.counter, fpIndex.memory.data,
            fpIndex.memory.valid
      reads fpIndex.counter.exact, fpIndex.counter.sketch, fpIndex.counter.sketch.sketch.data
    {
      && Linked() && Separate() && lbaIndex.Valid() && fpIndex.Valid()
      && LbaReferences.Exact(lbaIndex.counter.outstanding, lbaIndex.memory.Tables(), lbaIndex.separator, leak)
      && Known(cfg, lbaIndex.memory.Tables(), fpIndex.memory.nBuckets)
    }

    ghost function State(primary: Device): State
      reads lbaIndex.memory.data, lbaIndex.memory.valid, fpIndex.memory.data, fpIndex.memory.valid, metaVerification
    {
      AcdcModel.State(lbaIndex.memory.Tables(), fpIndex.memory.Tables(), metaVerification.device, primary)
    }

    /** Every cached chunk has its metadata on the device. */
    ghost predicate Stored()
      reads fpIndex.memory.data, fpIndex.memory.valid, metaVerification
    {
      forall h :: EntryAt(cfg, fpIndex.memory.Tables(), h).Some? ==>
        (cfg.fpBucket(h), EntryAt(cfg, fpIndex.memory.Tables(), h).value) in metaVerification.device
        && |metaVerification.device[(cfg.fpBucket(h), EntryAt(cfg, fpIndex.memory.Tables(), h).value)].lbas| <= MAX_LBAS
    }

    /** The LBA index's hash for the chunk's address. */
    method FindHash(chunk: Chunk) returns (value: Option<nat>)
      requires Valid() && chunk.lbaHash == lbaHashOf(chunk.addr)
      ensures value == HashFor(cfg, lbaIndex.memory.Tables(), chunk.addr)
      ensures value.Some? ==> cfg.fpBucket(value.value) < fpIndex.memory.nBuckets
    {
      value := lbaIndex.Lookup(chunk.lbaHash);
    }

    /** Look the chunk's fingerprint hash up and verify what is found against the chunk. */
    method FindChunk(chunk: Chunk) returns (r: Chunk)
      requires Valid() && Stored() && cfg.fpBucket(chunk.fpHash) < fpIndex.memory.nBuckets
      ensures Probed(cfg, fpIndex.geometry, fpIndex.memory.Tables(), metaVerification.device, chunk, r)
    {
      RunLength(chunk.fpHash);
      var found := fpIndex.Lookup(chunk.fpHash);
      r := chunk.(hitFpIndex := found.Some?);
      if found.Some? {
        r := r.(nSubchunks := found.value.nSubchunks, cachedataLocation := found.value.cachedataLocation,
                metadataLocation := (Shr(chunk.fpHash, fpIndex.memory.nBitsPerKey), found.value.slotId));
        r := metaVerification.Verify(r);
      }
    }

    /** A read's lookup. */
    method Lookup(chunk: Chunk, ghost s: State) returns (r: Chunk)
      requires Valid() && Stored() && chunk.lbaHash == lbaHashOf(chunk.addr) && s == State(s.primary)
      requires !chunk.hasFingerprint && chunk.verification == Unverified
      ensures r.addr == chunk.addr && r.lbaHash == chunk.lbaHash && !r.hasFingerprint
      ensures r.lookupResult == (if Hit(cfg, s, chunk.addr).Some? then HitCache else NotHit)
      ensures Hit(cfg, s, chunk.addr).Some? ==>
                && r.metadata == Hit(cfg, s, chunk.addr).value && Some(r.fpHash) == HashFor(cfg, s.lba, chunk.addr)
                && cfg.fpBucket(r.fpHash) < fpIndex.memory.nBuckets
                && r.compressedLen == r.metadata.compressedLen && r.nSubchunks == SlotsAt(cfg, s.fp, r.fpHash)
                && EntryAt(cfg, s.fp, r.fpHash).Some?
                && r.cachedataLocation == CachedataLocation(fpIndex.geometry, cfg.fpBucket(r.fpHash),
                                                            EntryAt(cfg, s.fp, r.fpHash).value)
    {
      var value := FindHash(chunk);
      r := chunk.(hitLbaIndex := value.Some?);
      if value.Some? {
        r := r.(fpHash := value.value);
        r := FindChunk(r);
      }
      HitIsProbe(cfg, s, chunk.addr, value,
                 if value.None? then None
                 else ProbeOf(cfg, s.fp, s.meta, value.value, chunk.addr, false, chunk.fingerprint),
                 chunk.fingerprint);
      if r.verification == OnlyLbaValid {
        r := r.(compressedLen := r.metadata.compressedLen, lookupResult := HitCache);
      } else {
        r := r.(lookupResult := NotHit);
      }
    }

    /** Compare the content with what is cached under its fingerprint hash. */
    method Dedup(chunk: Chunk, ghost s: State) returns (r: Chunk)
      requires Valid() && Stored() && chunk.lbaHash == lbaHashOf(chunk.addr) && s == State(s.primary)
      requires chunk.hasFingerprint && chunk.fpHash == cfg.fpHash(chunk.fingerprint)
      ensures Deduped(cfg, s, fpIndex.memory.nSlotsPerBucket, chunk, r)
    {
      var value := FindHash(chunk);
      r := chunk.(hitLbaIndex := value == Some(chunk.fpHash));
      r := FindChunk(r);
      DuplicateIsProbe(cfg, s, chunk.addr, chunk.fingerprint,
                       ProbeOf(cfg, s.fp, s.meta, chunk.fpHash, chunk.addr, true, chunk.fingerprint));
      r := r.(dedupResult := if r.hitFpIndex && (r.verification == OnlyFpValid || r.verification == BothValid)
                             then DupContent else NotDup);
    }

    /** A run found is not empty. */
    lemma RunLength(h: nat)
      requires Valid() && cfg.fpBucket(h) < fpIndex.memory.nBuckets
      ensures var l := FpTable.Lookup(fpIndex.memory.Tables()[cfg.fpBucket(h)], cfg.fpKey(h));
              l.Some? ==> 0 < l.value.1 <= fpIndex.memory.nSlotsPerBucket
    {
      FpTable.LookupFindsAll(fpIndex.memory.Tables()[cfg.fpBucket(h)], cfg.fpKey(h));
    }

    // ----- Update

    /** What the LBA side needs. */
    ghost predicate LbaValid()
      reads this, lbaIndex.memory.data, lbaIndex.memory.valid, lbaIndex.counter
    {
      && Linked() && Separate() && lbaIndex.Valid()
      && LbaReferences.Exact(lbaIndex.counter.outstanding, lbaIndex.memory.Tables(), lbaIndex.separator, leak)
    }

    /** The counter's state after a request on `a` that leaves hash `h` in the LBA index. */
    ghost function TouchCalls(a: Addr, h: nat): seq<LbaTable.Event>
      requires LbaValid()
      reads this, lbaIndex.memory.data, lbaIndex.memory.valid, lbaIndex.counter
    {
      LbaReferences.Touch(lbaIndex.memory.Tables(), cfg.lbaBucket(a), cfg.lbaKey(a), h, cfg.separator).1
    }

    /** Promote the address, or record its new hash and reference it; what it displaced is still to be released. */
    method TouchIndex(a: Addr, lbaHash: nat, h: nat, hit: bool) returns (removed: Option<nat>)
      requires LbaValid() && lbaHash == lbaHashOf(a) && (hit || h <= LowMask(lbaIndex.memory.nBitsPerValue))
      requires hit == (HashFor(cfg, lbaIndex.memory.Tables(), a) == Some(h))
      modifies lbaIndex.memory.data, lbaIndex.memory.valid, lbaIndex.counter
      ensures lbaIndex.Valid() && lbaIndex.memory.Tables() == TouchLba(cfg, old(lbaIndex.memory.Tables()), a, h)
      ensures LbaReferences.Replay(lbaIndex.counter.outstanding, LbaReferences.Release(removed, h))
              == LbaReferences.Replay(old(lbaIndex.counter.outstanding), old(TouchCalls(a, h)))
      ensures LbaReferences.Replay(lbaIndex.counter.outstanding, LbaReferences.Release(removed, h)).Some?
      ensures removed == if hit then None else DisplacedBy(old(lbaIndex.memory.Tables()), a, h)
    {
      if hit {
        PromoteHash(a, lbaHash, h);
        removed := None;
      } else {
        removed := EnterHash(a, lbaHash, h);
      }
    }

    /** The hash that recording `h` for the address displaces. */
    function DisplacedBy(tables: seq<Table>, a: Addr, h: nat): Option<nat> {
      var b := cfg.lbaBucket(a);
      if b < |tables| && 1 <= cfg.separator < |tables[b]| then
        LbaTable.Update(tables[b], cfg.lbaKey(a), h, cfg.separator).displaced
      else None
    }

    method PromoteHash(a: Addr, lbaHash: nat, h: nat)
      requires LbaValid() && lbaHash == lbaHashOf(a) && HashFor(cfg, lbaIndex.memory.Tables(), a) == Some(h)
      modifies lbaIndex.memory.data, lbaIndex.memory.valid, lbaIndex.counter
      ensures lbaIndex.Valid() && lbaIndex.memory.Tables() == TouchLba(cfg, old(lbaIndex.memory.Tables()), a, h)
      ensures Some(lbaIndex.counter.outstanding)
              == LbaReferences.Replay(old(lbaIndex.counter.outstanding), old(TouchCalls(a, h)))
    {
      hide TablesOf, LbaReferences.BucketsOk, LbaReferences.Leaked, Separate, Bits.Shr;
      LbaReferences.TouchKeepsExact(lbaIndex.counter.outstanding, lbaIndex.memory.Tables(), cfg.lbaBucket(a),
                                    cfg.lbaKey(a), h, cfg.separator, leak);
      lbaIndex.Promote(lbaHash);
    }

    method EnterHash(a: Addr, lbaHash: nat, h: nat) returns (removed: Option<nat>)
      requires LbaValid() && lbaHash == lbaHashOf(a) && h <= LowMask(lbaIndex.memory.nBitsPerValue)
      requires HashFor(cfg, lbaIndex.memory.Tables(), a) != Some(h)
      modifies lbaIndex.memory.data, lbaIndex.memory.valid, lbaIndex.counter
      ensures lbaIndex.Valid() && lbaIndex.memory.Tables() == TouchLba(cfg, old(lbaIndex.memory.Tables()), a, h)
      ensures LbaReferences.Replay(lbaIndex.counter.outstanding, LbaReferences.Release(removed, h))
              == LbaReferences.Replay(old(lbaIndex.counter.outstanding), old(TouchCalls(a, h)))
      ensures LbaReferences.Replay(lbaIndex.counter.outstanding, LbaReferences.Release(removed, h)).Some?
      ensures removed == DisplacedBy(old(lbaIndex.memory.Tables()), a, h)
    {
      hide TablesOf, LbaTable.Update, LbaReferences.Leaked, LbaReferences.Exact, LbaReferences.BucketsOk, Separate,
           Bits.Shr;
      TouchInTwo(lbaIndex.counter.outstanding, lbaIndex.memory.Tables(), cfg.lbaBucket(a), cfg.lbaKey(a), h,
                 cfg.separator, leak);
      removed := lbaIndex.Update(lbaHash, h);
      lbaIndex.counter.Reference(h);
    }

    /** Once what was displaced is released, the counter will be exact for these tables. */
    ghost predicate Owes(removed: Option<nat>, h: nat, tables: seq<Table>, leaked: multiset<nat>)
      reads lbaIndex.counter
    {
      var left := LbaReferences.Replay(lbaIndex.counter.outstanding, LbaReferences.Release(removed, h));
      left.Some? && LbaReferences.Exact(left.value, tables, lbaIndex.separator, leaked)
    }

    method EnterIndex(a: Addr, lbaHash: nat, h: nat, hit: bool) returns (removed: Option<nat>)
      requires LbaValid() && lbaHash == lbaHashOf(a) && (hit || h <= LowMask(lbaIndex.memory.nBitsPerValue))
      requires hit == (HashFor(cfg, lbaIndex.memory.Tables(), a) == Some(h))
      requires Known(cfg, lbaIndex.memory.Tables(), fpIndex.memory.nBuckets)
               && cfg.fpBucket(h) < fpIndex.memory.nBuckets
      modifies lbaIndex.memory.data, lbaIndex.memory.valid, lbaIndex.counter, `leak
      ensures Known(cfg, lbaIndex.memory.Tables(), fpIndex.memory.nBuckets)
      ensures lbaIndex.Valid() && lbaIndex.memory.Tables() == TouchLba(cfg, old(lbaIndex.memory.Tables()), a, h)
      ensures Owes(removed, h, lbaIndex.memory.Tables(), leak)
      ensures removed == if hit then None else DisplacedBy(old(lbaIndex.memory.Tables()), a, h)
    {
      ghost var bs := lbaIndex.memory.Tables();
      LbaReferences.TouchKeepsExact(lbaIndex.counter.outstanding, bs, cfg.lbaBucket(a), cfg.lbaKey(a), h, cfg.separator,
                                    leak);
      TouchKeepsKnown(cfg, bs, a, h, fpIndex.memory.nBuckets);
      removed := TouchIndex(a, lbaHash, h, hit);
      leak := leak + LbaReferences.Leaked(bs[cfg.lbaBucket(a)], cfg.lbaKey(a), h, cfg.separator);
    }

    /** Dereference what was displaced, unless its hash is the one entered. */
    method Release(removed: Option<nat>, h: nat, ghost tables: seq<Table>, ghost leaked: multiset<nat>)
      requires lbaIndex.counter.Valid() && Owes(removed, h, tables, leaked)
      modifies lbaIndex.counter
      ensures lbaIndex.counter.Valid()
              && LbaReferences.Exact(lbaIndex.counter.outstanding, tables, lbaIndex.separator, leaked)
      ensures old(lbaIndex.counter.outstanding) == lbaIndex.counter.outstanding + LbaReferences.Released(removed, h)
    {
      if removed.Some? && removed.value != h {
        LbaBucket.ReplayOne(lbaIndex.counter.outstanding, LbaTable.Dereference(removed.value));
        lbaIndex.counter.Dereference(removed.value);
      }
    }

    /** Give new content its slots; a duplicate has them already. */
    method PlaceChunk(chunk: Chunk) returns (r: Chunk, ghost c: Choice)
      requires Linked() && fpIndex.Valid() && chunk.fpHash == cfg.fpHash(chunk.fingerprint)
      requires 0 < chunk.nSubchunks <= fpIndex.memory.nSlotsPerBucket
      modifies fpIndex.memory.data, fpIndex.memory.valid
      ensures fpIndex.Valid()
      ensures chunk.dedupResult == DupContent ==> r == chunk && fpIndex.memory.Tables() == old(fpIndex.memory.Tables())
      ensures chunk.dedupResult != DupContent ==>
                var b := cfg.fpBucket(chunk.fpHash);
                && r == chunk.(metadataLocation := (b, c.slot),
                               cachedataLocation := CachedataLocation(fpIndex.geometry, b, c.slot))
                && c.n == chunk.nSubchunks && c.compressedLen == chunk.compressedLen
                && fpIndex.memory.Tables() == old(fpIndex.memory.Tables())[b := c.table]
                && FpTable.Updates(old(fpIndex.memory.Tables())[b], cfg.fpKey(chunk.fpHash), c.n, c.count, c.gone,
                                   c.slot, c.table)
                && CountedBy(cfg, chunk.fingerprint, c, fpIndex.counter.exact.outstanding)
    {
      r := chunk;
      if chunk.dedupResult != DupContent {
        ghost var b := cfg.fpBucket(chunk.fpHash);
        ghost var count := fpIndex.Counts(b);
        var placed; ghost var gone;
        placed, gone := fpIndex.Update(chunk.fpHash, chunk.nSubchunks);
        r := r.(cachedataLocation := placed.cachedataLocation,
                metadataLocation := (Shr(chunk.fpHash, fpIndex.memory.nBitsPerKey), placed.slotId));
        forall g: nat | cfg.fpBucket(g) == b
          ensures count(cfg.fpKey(g)) == fpIndex.counter.exact.outstanding[g]
        {
          FpBucket.HashOfParts(g, fpIndex.memory.nBitsPerKey);
        }
        c := Choice(chunk.nSubchunks, chunk.compressedLen, count, gone, placed.slotId, fpIndex.memory.Tables()[b]);
      } else {
        c := Choice(0, 0, (k: nat) => 0, {}, 0, []);
      }
    }

    /** The metadata is written when the address is new to it or the content is. */
    method RecordChunk(chunk: Chunk)
      requires chunk.dedupResult == DupContent ==> |chunk.metadata.lbas| <= MAX_LBAS
      modifies metaVerification
      ensures metaVerification.device == Recorded(old(metaVerification.device), chunk)
    {
      if (chunk.dedupResult == DupContent && chunk.verification != BothValid) || chunk.dedupResult == NotDup {
        metaVerification.Update(chunk);
      }
    }

    lemma HashInRange(f: Fp)
      requires Linked()
      ensures cfg.fpBucket(cfg.fpHash(f)) < fpIndex.memory.nBuckets
      ensures cfg.fpHash(f) <= LowMask(lbaIndex.memory.nBitsPerValue)
    {
    }

    /** The chunk's place on the device, once recorded, and the slots and the length recorded for it. */
    predicate Given(chunk: Chunk, r: Chunk, c: Choice) {
      && r.dedupResult == chunk.dedupResult && r.nSubchunks == chunk.nSubchunks
      && (chunk.dedupResult == NotDup ==>
            && c.n == chunk.nSubchunks && c.compressedLen == chunk.compressedLen
            && r.cachedataLocation == CachedataLocation(fpIndex.geometry, cfg.fpBucket(chunk.fpHash), c.slot))
    }

    /** After a miss or a write: record the chunk in both indexes and in its metadata. */
    method UpdateMiss(chunk: Chunk, ghost s: State) returns (r: Chunk, ghost c: Choice)
      requires Valid() && s == State(s.primary) && chunk.lbaHash == lbaHashOf(chunk.addr)
      requires Ready(cfg, s, fpIndex.memory.nSlotsPerBucket, chunk)
      modifies lbaIndex.memory.data, lbaIndex.memory.valid, lbaIndex.counter
      modifies fpIndex.memory.data, fpIndex.memory.valid, metaVerification, `leak
      ensures Valid() && State(s.primary) == Cache(cfg, s, chunk.addr, chunk.fingerprint, c)
      ensures Allowed(cfg, s, chunk.fingerprint, c) && Given(chunk, r, c)
      ensures chunk.dedupResult == NotDup ==>
                CountedAfter(cfg, s.lba, chunk.addr, chunk.fingerprint, c, lbaIndex.counter.outstanding)
    {
      hide AcdcModel.TouchLba, LbaReferences.Exact, LbaReferences.BucketsOk, TablesOf, Runs;
      hide AcdcModel.Cache, AcdcModel.Duplicate, AcdcModel.Allowed, ProbeOf, Owes, Known, HashFor;
      hide LbaIndex.TablesValid, FpIndex.TablesValid, Splits;
      hide CountedBy, CountedAfter, DisplacedBy, LbaReferences.Released;
      HasBucket(chunk.addr);
      ghost var before := lbaIndex.memory.Tables();
      var removed;
      removed, r, c := EnterAndStore(chunk, s);
      ghost var mid := lbaIndex.counter.outstanding;
      Release(removed, chunk.fpHash, lbaIndex.memory.Tables(), leak);
      if chunk.dedupResult == NotDup {
        CountedThen(before, chunk.addr, chunk.fingerprint, removed, c, mid, lbaIndex.counter.outstanding);
      }
    }

    /** The update up to the release of what was displaced. */
    method EnterAndStore(chunk: Chunk, ghost s: State) returns (removed: Option<nat>, r: Chunk, ghost c: Choice)
      requires Valid() && s == State(s.primary) && chunk.lbaHash == lbaHashOf(chunk.addr)
      requires Ready(cfg, s, fpIndex.memory.nSlotsPerBucket, chunk)
      modifies lbaIndex.memory.data, lbaIndex.memory.valid, lbaIndex.counter
      modifies fpIndex.memory.data, fpIndex.memory.valid, metaVerification, `leak
      ensures lbaIndex.Valid() && fpIndex.Valid() && Owes(removed, chunk.fpHash, lbaIndex.memory.Tables(), leak)
      ensures Known(cfg, lbaIndex.memory.Tables(), fpIndex.memory.nBuckets)
      ensures State(s.primary) == Cache(cfg, s, chunk.addr, chunk.fingerprint, c)
      ensures Allowed(cfg, s, chunk.fingerprint, c) && Given(chunk, r, c)
      ensures removed == if HashFor(cfg, s.lba, chunk.addr) == Some(cfg.fpHash(chunk.fingerprint)) then None
                         else DisplacedBy(s.lba, chunk.addr, cfg.fpHash(chunk.fingerprint))
      ensures chunk.dedupResult == NotDup ==> CountedBy(cfg, chunk.fingerprint, c, lbaIndex.counter.outstanding)
    {
      hide AcdcModel.TouchLba, LbaReferences.Exact, LbaReferences.BucketsOk, TablesOf, Runs;
      hide AcdcModel.Cache, AcdcModel.Duplicate, AcdcModel.Allowed, ProbeOf, Owes, Known, HashFor;
      hide LbaIndex.TablesValid, FpIndex.TablesValid, Splits, CountedBy, DisplacedBy;
      HashInRange(chunk.fingerprint);
      removed := EnterIndex(chunk.addr, chunk.lbaHash, chunk.fpHash, chunk.hitLbaIndex);
      r, c := StoreChunk(chunk, s);
    }

    /** The fingerprint index and the metadata after a miss or a write. */
    method StoreChunk(chunk: Chunk, ghost s: State) returns (r: Chunk, ghost c: Choice)
      requires Linked() && fpIndex.Valid() && s.fp == fpIndex.memory.Tables() && s.meta == metaVerification.device
      requires Ready(cfg, s, fpIndex.memory.nSlotsPerBucket, chunk)
      modifies fpIndex.memory.data, fpIndex.memory.valid, metaVerification
      ensures fpIndex.Valid() && Allowed(cfg, s, chunk.fingerprint, c)
      ensures Given(chunk, r, c)
      ensures chunk.dedupResult == NotDup ==> CountedBy(cfg, chunk.fingerprint, c, fpIndex.counter.exact.outstanding)
      ensures AcdcModel.State(TouchLba(cfg, s.lba, chunk.addr, chunk.fpHash), fpIndex.memory.Tables(),
                              metaVerification.device, s.primary)
              == Cache(cfg, s, chunk.addr, chunk.fingerprint, c)
    {
      hide AcdcModel.TouchLba, TablesOf, Runs;
      hide AcdcModel.Cache, AcdcModel.Duplicate, FpTable.Updates, Recorded, ProbeOf, AcdcModel.MetaAt;
      r, c := PlaceChunk(chunk);
      RecordChunk(r);
      RecordingIsCache(cfg, s, fpIndex.memory.nSlotsPerBucket, chunk, r, c, fpIndex.memory.Tables());
    }

    /** The address has a bucket in the LBA index. */
    lemma HasBucket(a: Addr)
      requires LbaValid()
      ensures cfg.lbaBucket(a) < |lbaIndex.memory.Tables()|
      ensures 1 <= cfg.separator < |lbaIndex.memory.Tables()[cfg.lbaBucket(a)]|
    {
    }

    /** The counts read in between are those afterwards and what was released. */
    lemma CountedThen(tables: seq<Table>, a: Addr, f: Fp, removed: Option<nat>, c: Choice, mid: multiset<nat>,
                      after: multiset<nat>)
      requires cfg.lbaBucket(a) < |tables| && 1 <= cfg.separator < |tables[cfg.lbaBucket(a)]|
      requires removed == if HashFor(cfg, tables, a) == Some(cfg.fpHash(f)) then None
               else DisplacedBy(tables, a, cfg.fpHash(f))
      requires CountedBy(cfg, f, c, mid) && mid == after + LbaReferences.Released(removed, cfg.fpHash(f))
      ensures CountedAfter(cfg, tables, a, f, c, after)
    {
    }

    /** After a hit: the address is promoted. */
    method UpdateHit(chunk: Chunk, ghost s: State)
      requires Valid() && s == State(s.primary) && chunk.lbaHash == lbaHashOf(chunk.addr)
      requires HashFor(cfg, s.lba, chunk.addr) == Some(chunk.fpHash)
               && cfg.fpBucket(chunk.fpHash) < fpIndex.memory.nBuckets
      modifies lbaIndex.memory.data, lbaIndex.memory.valid, lbaIndex.counter, `leak
      ensures Valid() && State(s.primary) == s.(lba := TouchLba(cfg, s.lba, chunk.addr, chunk.fpHash))
    {
      hide AcdcModel.TouchLba, LbaReferences.Exact, LbaReferences.BucketsOk, TablesOf, Runs;
      var removed := EnterIndex(chunk.addr, chunk.lbaHash, chunk.fpHash, true);
    }
  }

  // ----- The cache

  /** Short hashes split by shifting and masking are told apart by their parts. */
  lemma LinkedHashesSplit(m: MetadataModule)
    requires m.Linked()
    ensures HashesSplit(m.cfg)
  {
    forall g: nat, h: nat | m.cfg.fpBucket(g) == m.cfg.fpBucket(h) && m.cfg.fpKey(g) == m.cfg.fpKey(h) ensures g == h {
      HashIsBucketAndSignature(g, h, m.fpIndex.memory.nBitsPerKey);
    }
  }

  /** A hit is a step of the model. */
  lemma HitIsNext(cfg: Y.Config, s: Y.Sys, a: Addr, c: Choice, buf: Y.Buffers)
    requires Y.Shaped(cfg, s) && Hit(cfg.index, s.m, a).Some?
    ensures Y.AllowedOp(cfg, s, Read(a), c)
    ensures Y.Next(cfg, s, Read(a), c, buf)
            == Y.Sys(s.m.(lba := TouchLba(cfg.index, s.m.lba, a, HashFor(cfg.index, s.m.lba, a).value)), s.cache)
  {
    Y.CurrentSize(cfg, s, a);
  }

  /** The slots, the compressed length and the bytes that content is given, unless it is a duplicate. */
  ghost predicate Admitted(cfg: Y.Config, s: Y.Sys, x: Block, write: bool, buffer: Block, c: Choice, cache: Block) {
    && Allowed(cfg.index, s.m, cfg.index.fpOf(x), c)
    && (if Duplicate(cfg.index, s.m, cfg.index.fpOf(x)) then cache == s.cache
        else
          && c.n == SlotsGiven(cfg.index, s.m.fp, Y.HashOf(cfg, x), write, Y.Needed(cfg, x))
          && c.compressedLen == |Y.Packed(cfg, x)|
          && cache == Y.Store(cfg, s.cache, x, c.slot, c.n, Y.Buffers([], buffer)))
  }

  /** So is the admission of what a miss read or of what is written. */
  lemma AdmissionIsNext(cfg: Y.Config, s: Y.Sys, op: Request, c: Choice, buf: Y.Buffers, cache: Block)
    requires op.Read? ==> Hit(cfg.index, s.m, op.addr).None?
    requires var x := Y.Content(cfg, s, op);
             |x| == cfg.index.chunk && Admitted(cfg, s, x, op.Write?, buf.compressed, c, cache)
    ensures Y.AllowedOp(cfg, s, op, c)
    ensures var m := Cache(cfg.index, s.m, op.addr, cfg.index.fpOf(Y.Content(cfg, s, op)), c);
            Y.Next(cfg, s, op, c, buf)
            == Y.Sys(if op.Write? then m.(primary := s.m.primary[op.addr := op.data]) else m, cache)
  {
  }

  class AustereCache {
    const metadata: MetadataModule
    const cfg: Y.Config
    var primary: Device
    var cache: Block

    constructor (metadata: MetadataModule, cfg: Y.Config, primary: Device, cache: Block)
      ensures this.metadata == metadata && this.cfg == cfg && this.primary == primary && this.cache == cache
    {
      this.metadata, this.cfg, this.primary, this.cache := metadata, cfg, primary, cache;
    }

    ghost function State(): Y.Sys
      reads this, metadata.lbaIndex.memory.data, metadata.lbaIndex.memory.valid
      reads metadata.fpIndex.memory.data, metadata.fpIndex.memory.valid
      reads metadata.metaVerification
    {
      Y.Sys(metadata.State(primary), cache)
    }

    /** A chunk's subchunks fit a fingerprint bucket. */
    ghost predicate Configured() {
      && metadata.cfg == cfg.index && metadata.fpIndex.geometry == cfg.geometry && metadata.fpIndex.Placed()
      && Y.MaxSubchunks(cfg) <= cfg.geometry.slots && Y.ConfigOk(cfg)
    }

    ghost predicate Valid()
      reads this, metadata, metadata.lbaIndex.memory.data, metadata.lbaIndex.memory.valid, metadata.lbaIndex.counter
      reads metadata.fpIndex.memory.data, metadata.fpIndex.memory.valid, metadata.metaVerification
      reads metadata.fpIndex.counter.exact, metadata.fpIndex.counter.sketch, metadata.fpIndex.counter.sketch.sketch.data
    {
      metadata.Valid() && Configured() && Y.Sound(cfg, State())
    }

    /** Every cached chunk has its metadata. */
    lemma MetadataStored()
      requires Valid()
      ensures metadata.Stored()
    {
      forall h | EntryAt(metadata.cfg, metadata.fpIndex.memory.Tables(), h).Some?
        ensures var at := (metadata.cfg.fpBucket(h), EntryAt(metadata.cfg, metadata.fpIndex.memory.Tables(), h).value);
                at in metadata.metaVerification.device && |metadata.metaVerification.device[at].lbas| <= MAX_LBAS
      {
        assert EntryOk(metadata.cfg, State().m.fp, State().m.meta, State().m.primary, h);
      }
    }

    // ----- Transfer

    /** Compress content into a buffer: its compressed length, the slots it needs, and what the buffer then holds. */
    method Compress(x: Block, buffer: Block) returns (compressedLen: nat, nSubchunks: nat, compressed: Block)
      requires Y.ConfigOk(cfg) && |x| == cfg.index.chunk == |buffer|
      ensures compressedLen == |Y.Packed(cfg, x)| && nSubchunks == Y.Needed(cfg, x)
      ensures 1 <= nSubchunks <= Y.MaxSubchunks(cfg) && compressed == Patch(buffer, 0, Y.Form(cfg, x))
    {
      Y.NeededBounds(cfg, x);
      var z := cfg.codec.compress(x);
      compressedLen := if cfg.codec.enabled && 4 * |z| <= 3 * |x| then |z| else 0;
      var size := cfg.geometry.subchunkSize;
      var numMaxSubchunks := cfg.index.chunk / size;
      nSubchunks := if compressedLen == 0 then numMaxSubchunks else (compressedLen + size - 1) / size;
      compressed := if nSubchunks == numMaxSubchunks then x else Patch(buffer, 0, z);
    }

    /** Read a hit's slots into the buffers, and decompress them if they are compressed. */
    method ReadCached(chunk: Chunk, buf: Y.Buffers) returns (data: Block)
      ensures data == Y.Unpacked(cfg, Bytes(cache, chunk.cachedataLocation,
                                            SlotAt(chunk.nSubchunks, cfg.geometry.subchunkSize)),
                                 chunk.compressedLen, buf)
    {
      SlotAtIsProduct(chunk.nSubchunks, cfg.geometry.subchunkSize);
      var bytes := Bytes(cache, chunk.cachedataLocation, chunk.nSubchunks * cfg.geometry.subchunkSize);
      if chunk.compressedLen == 0 {
        data := Patch(buf.data, 0, bytes);
      } else {
        var compressed := Patch(buf.compressed, 0, bytes);
        data := cfg.codec.decompress(Bytes(compressed, 0, chunk.compressedLen));
      }
    }

    /** Write the chunk's slots from the buffer it was compressed into. */
    method WriteCached(chunk: Chunk, compressed: Block)
      modifies `cache
      ensures cache == Patch(old(cache), chunk.cachedataLocation,
                             Bytes(compressed, 0, SlotAt(chunk.nSubchunks, cfg.geometry.subchunkSize)))
    {
      SlotAtIsProduct(chunk.nSubchunks, cfg.geometry.subchunkSize);
      cache := Patch(cache, chunk.cachedataLocation,
                     Bytes(compressed, 0, chunk.nSubchunks * cfg.geometry.subchunkSize));
    }

    // ----- Requests

    /** A chunk on its way to deduplication: a read has compressed it already, a write has not. */
    ghost predicate Prepared(chunk: Chunk, x: Block, write: bool) {
      && chunk.lbaHash == metadata.lbaHashOf(chunk.addr) && chunk.hasFingerprint && |x| == cfg.index.chunk
      && chunk.fingerprint == cfg.index.fpOf(x) && chunk.fpHash == cfg.index.fpHash(chunk.fingerprint)
      && (!write ==> chunk.nSubchunks == Y.Needed(cfg, x) && chunk.compressedLen == |Y.Packed(cfg, x)|)
    }

    /** What new content is given, and where it is to be written. */
    ghost predicate Placed(s: Y.Sys, x: Block, write: bool, r: Chunk, c: Choice) {
      && r.dedupResult == (if Duplicate(cfg.index, s.m, cfg.index.fpOf(x)) then DupContent else NotDup)
      && (r.dedupResult == NotDup ==>
            && c.n == SlotsGiven(cfg.index, s.m.fp, Y.HashOf(cfg, x), write, Y.Needed(cfg, x))
            && c.compressedLen == |Y.Packed(cfg, x)| && r.nSubchunks == c.n
            && r.cachedataLocation == CachedataLocation(cfg.geometry, cfg.index.fpBucket(Y.HashOf(cfg, x)), c.slot))
    }

    /** New content's eviction followed the counter, as it was once the LBA index was updated. */
    ghost predicate Counted(s: Y.Sys, a: Addr, x: Block, c: Choice)
      reads metadata.lbaIndex.counter
    {
      CountedAfter(cfg.index, s.m.lba, a, cfg.index.fpOf(x), c, metadata.lbaIndex.counter.outstanding)
    }

    /** Deduplicate content of the chunk's address and record it. */
    method DedupAndUpdate(chunk: Chunk, x: Block, write: bool, buffer: Block, prepared: Block)
      returns (r: Chunk, compressed: Block, ghost c: Choice)
      requires Valid() && Prepared(chunk, x, write) && |buffer| == |x|
      requires !write ==> prepared == Patch(buffer, 0, Y.Form(cfg, x))
      modifies metadata`leak, metadata.lbaIndex.memory.data, metadata.lbaIndex.memory.valid, metadata.lbaIndex.counter
      modifies metadata.fpIndex.memory.data, metadata.fpIndex.memory.valid, metadata.metaVerification
      ensures metadata.Valid() && State().m == Cache(cfg.index, old(State()).m, chunk.addr, chunk.fingerprint, c)
      ensures Allowed(cfg.index, old(State()).m, chunk.fingerprint, c) && Placed(old(State()), x, write, r, c)
      ensures r.dedupResult == NotDup ==> compressed == Patch(buffer, 0, Y.Form(cfg, x))
      ensures r.dedupResult == NotDup ==> Counted(old(State()), chunk.addr, x, c)
    {
      hide AcdcModel.TouchLba, AcdcModel.Cache, AcdcModel.Inv, LbaReferences.Exact, LbaReferences.BucketsOk;
      hide TablesOf, Runs, Known, Splits, LbaIndex.TablesValid, FpIndex.TablesValid, CountedAfter;
      hide Y.Packed, Y.Form, Y.Sound, CachedataLocation, AcdcModel.Duplicate, AcdcModel.Allowed, ProbeOf;
      ghost var s := State().m;
      MetadataStored();
      Y.NeededBounds(cfg, x);
      r := metadata.Dedup(chunk, s);
      compressed := prepared;
      if write && r.dedupResult == NotDup {
        var len, n;
        len, n, compressed := Compress(x, buffer);
        r := r.(nSubchunks := n, compressedLen := len);
      }
      r, c := metadata.UpdateMiss(r, s);
    }

    /** Deduplicate content and write it to the cache device if it is new. */
    method Admit(chunk: Chunk, x: Block, write: bool, buffer: Block) returns (ghost c: Choice)
      requires Valid() && chunk.lbaHash == metadata.lbaHashOf(chunk.addr) && |x| == cfg.index.chunk == |buffer|
      modifies `cache, metadata`leak, metadata.lbaIndex.memory.data, metadata.lbaIndex.memory.valid,
               metadata.lbaIndex.counter
      modifies metadata.fpIndex.memory.data, metadata.fpIndex.memory.valid, metadata.metaVerification
      ensures metadata.Valid() && State().m == Cache(cfg.index, old(State()).m, chunk.addr, cfg.index.fpOf(x), c)
      ensures Admitted(cfg, old(State()), x, write, buffer, c, cache)
      ensures !Duplicate(cfg.index, old(State()).m, cfg.index.fpOf(x)) ==> Counted(old(State()), chunk.addr, x, c)
    {
      hide AcdcModel.Cache, AcdcModel.Duplicate, AcdcModel.Allowed, Y.Sound, MetadataModule.Valid, Y.ConfigOk;
      hide Y.Packed, Y.Needed, Y.Form, AcdcModel.SlotsGiven, CachedataLocation, TablesOf, Counted;
      var fp := cfg.index.fpOf(x);
      var prepared := chunk.(fingerprint := fp, hasFingerprint := true, fpHash := cfg.index.fpHash(fp));
      var compressed := buffer;
      if !write {
        var len, n;
        len, n, compressed := Compress(x, buffer);
        prepared := prepared.(nSubchunks := n, compressedLen := len);
      }
      var r;
      r, compressed, c := DedupAndUpdate(prepared, x, write, buffer, compressed);
      if r.dedupResult == NotDup { WriteCached(r, compressed); }
    }

    lemma CleanRead(s: Y.Sys, addr: Addr, buf: Y.Buffers)
      requires Y.Sized(cfg, buf)
      ensures forall used :: Y.Clean(cfg, s, used) && addr in used ==>
                Y.Answer(cfg, s, addr, buf) == ChunkAt(s.m.primary, addr, cfg.index.chunk)
    {
      forall used | Y.Clean(cfg, s, used) && addr in used
        ensures Y.Answer(cfg, s, addr, buf) == ChunkAt(s.m.primary, addr, cfg.index.chunk)
      {
        Y.CleanServes(cfg, s, addr, used);
      }
    }

    /** Read one chunk, whatever the request's buffers held before. */
    method InternalRead(addr: Addr, buf: Y.Buffers) returns (data: Block, ghost c: Choice)
      requires Valid() && Y.Sized(cfg, buf)
      modifies `cache, metadata`leak, metadata.lbaIndex.memory.data, metadata.lbaIndex.memory.valid,
               metadata.lbaIndex.counter
      modifies metadata.fpIndex.memory.data, metadata.fpIndex.memory.valid, metadata.metaVerification
      ensures Valid() && State() == Y.Next(cfg, old(State()), Read(addr), c, buf)
      ensures Y.AllowedOp(cfg, old(State()), Read(addr), c) && data == Y.Answer(cfg, old(State()), addr, buf)
      ensures Y.Admits(cfg, old(State()), Read(addr)) ==>
                Counted(old(State()), addr, ChunkAt(primary, addr, cfg.index.chunk), c)
      ensures forall used :: old(Y.Clean(cfg, State(), used)) && addr in used ==>
                data == ChunkAt(primary, addr, cfg.index.chunk)
    {
      hide AcdcModel.TouchLba, AcdcModel.Cache, AcdcModel.Inv, AcdcModel.Hit, MetadataModule.Valid, TablesOf, Runs;
      hide Y.AllowedOp, Y.Next, Y.ConfigOk, Y.Shaped, Admitted, AcdcModel.SlotsAt, Counted;
      ghost var s := State();
      MetadataStored();
      CleanRead(s, addr, buf);
      var chunk := metadata.Lookup(NewChunk(addr, metadata.lbaHashOf(addr)), s.m);
      if chunk.lookupResult == HitCache {
        data := ReadCached(chunk, buf);
        metadata.UpdateHit(chunk, s.m);
        c := Choice(0, 0, (k: nat) => 0, {}, 0, []);
        HitIsNext(cfg, s, addr, c, buf);
      } else {
        data := ChunkAt(primary, addr, cfg.index.chunk);
        Y.CurrentSize(cfg, s, addr);
        c := Admit(chunk, data, false, buf.compressed);
        AdmissionIsNext(cfg, s, Read(addr), c, buf, cache);
      }
      Y.NextKeepsSound(cfg, s, Read(addr), c, buf);
    }

    /** Write one chunk through to the primary disk. */
    method InternalWrite(addr: Addr, x: Block, buf: Y.Buffers) returns (ghost c: Choice)
      requires Valid() && Y.Sized(cfg, buf) && |x| == cfg.index.chunk
      modifies this, metadata`leak, metadata.lbaIndex.memory.data, metadata.lbaIndex.memory.valid,
               metadata.lbaIndex.counter
      modifies metadata.fpIndex.memory.data, metadata.fpIndex.memory.valid, metadata.metaVerification
      ensures Valid() && State() == Y.Next(cfg, old(State()), Write(addr, x), c, buf)
      ensures Y.AllowedOp(cfg, old(State()), Write(addr, x), c)
      ensures Y.Admits(cfg, old(State()), Write(addr, x)) ==> Counted(old(State()), addr, x, c)
    {
      hide AcdcModel.TouchLba, AcdcModel.Cache, AcdcModel.Inv, MetadataModule.Valid, TablesOf, Runs;
      hide Y.AllowedOp, Y.Next, Y.ConfigOk, Y.Shaped, Admitted, Counted;
      ghost var s := State();
      c := Admit(NewChunk(addr, metadata.lbaHashOf(addr)), x, true, buf.compressed);
      AdmissionIsNext(cfg, s, Write(addr, x), c, buf, cache);
      primary := primary[addr := x];
      Y.NextKeepsSound(cfg, s, Write(addr, x), c, buf);
    }
  }

  /** The engine with empty indexes over any disk and any bytes of the device. */
  method NewCache(cfg: Y.Config, lbaHashOf: Addr -> nat, primary: Device, bytes: Block,
                  lbaKeyBits: nat, lbaValueBits: nat, lbaSlots: nat, lbaBuckets: nat, fpKeyBits: nat, rows: Sketch.Hash)
    returns (cache: AustereCache)
    requires lbaKeyBits <= 32 && lbaValueBits <= 64 && fpKeyBits <= 32 && 1 <= cfg.index.separator < lbaSlots
    requires Y.ConfigOk(cfg) && Y.MaxSubchunks(cfg) <= cfg.geometry.slots
    requires cfg.geometry.DeviceSize(SlotAt(cfg.geometry.Slots(), cfg.geometry.subchunkSize)) <= |bytes|
    requires forall a :: a in primary ==> |primary[a]| == cfg.index.chunk
    requires Splits(cfg.index, lbaHashOf, lbaKeyBits, lbaValueBits, lbaBuckets, fpKeyBits, cfg.geometry.buckets)
    ensures cache.Valid() && Unused(cfg.index, cache.State().m) && cache.cfg == cfg
    ensures cache.State().m.primary == primary && cache.State().cache == bytes
  {
    hide MetadataModule.Valid, TablesOf, Runs, AcdcModel.Inv, Y.Sound, Splits;
    var metadata := NewMetadata(cfg.index, cfg.geometry, lbaHashOf, lbaKeyBits, lbaValueBits, lbaSlots, lbaBuckets,
                                fpKeyBits, rows);
    cache := new AustereCache(metadata, cfg, primary, bytes);
    Y.UnusedClean(cfg, cache.State(), {});
  }

  method NewMetadata(cfg: Config, geometry: Geometry, lbaHashOf: Addr -> nat, lbaKeyBits: nat, lbaValueBits: nat,
                     lbaSlots: nat, lbaBuckets: nat, fpKeyBits: nat, rows: Sketch.Hash)
    returns (metadata: MetadataModule)
    requires lbaKeyBits <= 32 && lbaValueBits <= 64 && fpKeyBits <= 32 && 1 <= cfg.separator < lbaSlots
    requires Splits(cfg, lbaHashOf, lbaKeyBits, lbaValueBits, lbaBuckets, fpKeyBits, geometry.buckets)
    ensures metadata.Valid() && metadata.cfg == cfg && metadata.fpIndex.geometry == geometry
            && metadata.fpIndex.Placed()
    ensures HashesSplit(cfg) && forall primary :: Unused(cfg, metadata.State(primary))
    ensures |metadata.fpIndex.memory.Tables()| == geometry.buckets
    ensures forall b :: 0 <= b < geometry.buckets ==> |metadata.fpIndex.memory.Tables()[b]| == geometry.slots
  {
    hide TablesOf, Runs, LbaReferences.BucketsOk, LbaReferences.Exact, AcdcModel.Known;
    var counter := NewCounter(rows);
    var lbaIndex := new LbaIndex(lbaKeyBits, lbaValueBits, lbaSlots, lbaBuckets, counter.exact, cfg.separator);
    var fpIndex := new FpIndex(fpKeyBits, geometry, counter);
    var metaVerification := new MetaVerification();
    metadata := new MetadataModule(cfg, lbaHashOf, lbaIndex, fpIndex, metaVerification);
    LbaReferences.UnusedExact(lbaIndex.memory.Tables(), cfg.separator);
    UnusedKnown(cfg, lbaIndex.memory.Tables(), geometry.buckets);
    LinkedHashesSplit(metadata);
  }

  method NewCounter(rows: Sketch.Hash) returns (counter: ReferenceCounter)
    ensures fresh(counter) && fresh(counter.exact) && fresh(counter.sketch) && fresh(counter.sketch.sketch.data)
    ensures counter.Valid() && !counter.sketchEnabled && counter.exact.outstanding == multiset{}
  {
    var exact := new MapReferenceCounter();
    var sketch := NewSketch(rows);
    counter := new ReferenceCounter(false, exact, sketch);
  }

  lemma UnusedKnown(cfg: Config, lba: LbaReferences.Buckets, nFp: nat)
    requires LbaReferences.Unused(lba)
    ensures Known(cfg, lba, nFp)
  {
  }

  method NewSketch(rows: Sketch.Hash) returns (sketch: SketchReferenceCounter)
    ensures fresh(sketch) && fresh(sketch.sketch) && fresh(sketch.sketch.data) && sketch.Valid()
    ensures forall c :: 0 <= c < |sketch.Cells()| ==> Sketch.Total(sketch.Cells()[c]) == 0
  {
    var bytes := new Byte[3](_ => 0);
    var manipulator := new Manipulator(bytes, 0);
    assert Sketch.ROWS == 4 && SlotAt(4, 1) == 4;
    sketch := new SketchReferenceCounter(1, rows, manipulator);
  }
}
