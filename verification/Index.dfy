/** The two indexes: buckets packed one after another in shared memory, reached through short hashes. */
module Index {
  import opened Common
  import opened Bits
  import opened Bitmap
  import opened Bucket
  import opened LbaBucket
  import opened FpBucket
  import opened ExactCounter
  import opened SketchCounter
  import opened SsdLayout
  import LbaTable
  import LbaReferences
  import FpTable

  // ----- Shared memory

  /** How an index packs its buckets: the bytes of a bucket's slots and of its valid bits, each rounded up. */
  datatype Memory = Memory(buckets: nat, bytes: nat, validBytes: nat, keyBits: nat, valueBits: nat, slots: nat) {
    ghost predicate Fits() {
      SlotAt(slots, keyBits + valueBits) <= 8 * bytes && slots <= 8 * validBytes && keyBits <= 32 && valueBits <= 64
    }

    function Shape(b: nat): Layout {
      Layout(SlotAt(b, bytes), SlotAt(b, validBytes), keyBits, valueBits, slots)
    }
  }

  function TablesOf(m: Memory, data: seq<Byte>, valid: seq<Byte>): (r: seq<Table>)
    ensures |r| == m.buckets && forall b :: 0 <= b < |r| ==> |r[b]| == m.slots
  {
    seq(m.buckets, b requires 0 <= b => Records(m.Shape(b), data, valid))
  }

  lemma BucketsApart(m: Memory, b: nat, c: nat)
    requires m.Fits() && b < c
    ensures m.Shape(b).End() <= 8 * m.Shape(c).data && 8 * m.Shape(b).valid + m.slots <= 8 * m.Shape(c).valid
  {
    SlotAtMonotone(b + 1, c, m.bytes);
    SlotAtMonotone(b + 1, c, m.validBytes);
  }

  lemma BucketInside(m: Memory, b: nat)
    requires m.Fits() && b < m.buckets
    ensures m.Shape(b).End() <= 8 * SlotAt(m.buckets, m.bytes)
    ensures 8 * m.Shape(b).valid + m.slots <= 8 * SlotAt(m.buckets, m.validBytes)
  {
    SlotAtMonotone(b + 1, m.buckets, m.bytes);
    SlotAtMonotone(b + 1, m.buckets, m.validBytes);
  }

  /** A change inside one bucket's memory changes that bucket's table only. */
  lemma OneTableChanged(m: Memory, data: seq<Byte>, data': seq<Byte>, valid: seq<Byte>, valid': seq<Byte>, b: nat)
    requires m.Fits() && b < m.buckets
    requires var l := m.Shape(b);
             && Outside(data', 8 * l.data, l.End()) == Outside(data, 8 * l.data, l.End())
             && Outside(valid', 8 * l.valid, 8 * l.valid + l.slots)
                == Outside(valid, 8 * l.valid, 8 * l.valid + l.slots)
    ensures TablesOf(m, data', valid') == TablesOf(m, data, valid)[b := Records(m.Shape(b), data', valid')]
  {
    forall c: nat | c < m.buckets && c != b
      ensures Records(m.Shape(c), data', valid') == Records(m.Shape(c), data, valid)
    {
      BucketsApart(m, if b < c then b else c, if b < c then c else b);
      OtherBucket(m.Shape(b), data, data', valid, valid', m.Shape(c));
    }
  }

  /** Rounding the bits of a bucket up to whole bytes leaves room for them. */
  lemma RoundedUp(slots: nat, bits: nat)
    ensures SlotAt(slots, bits) <= 8 * ((bits * slots + 7) / 8) && slots <= 8 * ((1 * slots + 7) / 8)
  {
    SlotAtIsProduct(slots, bits);
  }

  /** A hash is its bucket number and its signature. */
  lemma HashIsBucketAndSignature(g: nat, h: nat, bits: nat)
    requires Shr(g, bits) == Shr(h, bits) && And(g, LowMask(bits)) == And(h, LowMask(bits))
    ensures g == h
  {
    forall i: nat ensures Bit(g, i) <==> Bit(h, i) {
      if i < bits {
        AndBit(g, LowMask(bits), i);
        AndBit(h, LowMask(bits), i);
        LowMaskBit(bits, i);
      } else {
        ShrBit(g, bits, i - bits);
        ShrBit(h, bits, i - bits);
      }
    }
    SameBits(g, h);
  }

  /** Replacing one well-formed table keeps all well-formed. */
  lemma ReplacedTable(ts: seq<Table>, b: nat, t: Table, separator: nat)
    requires LbaReferences.BucketsOk(ts, separator) && b < |ts| && LbaTable.Wf(t) && |t| == |ts[b]|
    ensures LbaReferences.BucketsOk(ts[b := t], separator)
  {
  }

  // ----- An index's memory

  /** The buckets' slots and valid bits, one bucket after another, with a spare byte at the end of each array. */
  class BucketMemory {
    const nBitsPerKey: nat
    const nBitsPerValue: nat
    const nSlotsPerBucket: nat
    const nBuckets: nat
    const nBytesPerBucket: nat
    const nBytesPerBucketForValid: nat
    const data: array<Byte>
    const valid: array<Byte>

    constructor (nBitsPerKey: nat, nBitsPerValue: nat, nSlotsPerBucket: nat, nBuckets: nat)
      requires nBitsPerKey <= 32 && nBitsPerValue <= 64
      ensures Laid() && fresh(data) && fresh(valid)
      ensures this.nBitsPerKey == nBitsPerKey && this.nBitsPerValue == nBitsPerValue
      ensures this.nSlotsPerBucket == nSlotsPerBucket && this.nBuckets == nBuckets
      ensures forall b, i :: 0 <= b < nBuckets && 0 <= i < nSlotsPerBucket ==> !Tables()[b][i].valid
    {
      this.nBitsPerKey, this.nBitsPerValue := nBitsPerKey, nBitsPerValue;
      this.nSlotsPerBucket, this.nBuckets := nSlotsPerBucket, nBuckets;
      var bytes := ((nBitsPerKey + nBitsPerValue) * nSlotsPerBucket + 7) / 8;
      var validBytes := (1 * nSlotsPerBucket + 7) / 8;
      this.nBytesPerBucket, this.nBytesPerBucketForValid := bytes, validBytes;
      this.data := new Byte[bytes * nBuckets + 1](_ => 0);
      this.valid := new Byte[validBytes * nBuckets + 1](_ => 0);
      new;
      RoundedUp(nSlotsPerBucket, nBitsPerKey + nBitsPerValue);
      SlotAtIsProduct(nBuckets, bytes);
      SlotAtIsProduct(nBuckets, validBytes);
      forall b: nat, i: nat | b < nBuckets && i < nSlotsPerBucket ensures !Tables()[b][i].valid {
        ZeroBit((8 * Shape().Shape(b).valid + i) % 8);
      }
    }

    function Shape(): Memory {
      Memory(nBuckets, nBytesPerBucket, nBytesPerBucketForValid, nBitsPerKey, nBitsPerValue, nSlotsPerBucket)
    }

    ghost predicate Laid() {
      && Shape().Fits() && data != valid
      && SlotAt(nBuckets, nBytesPerBucket) < data.Length && SlotAt(nBuckets, nBytesPerBucketForValid) < valid.Length
    }

    ghost function Tables(): (r: seq<Table>)
      reads data, valid
      ensures |r| == nBuckets && forall b :: 0 <= b < |r| ==> |r[b]| == nSlotsPerBucket
    {
      TablesOf(Shape(), data[..], valid[..])
    }

    /** A manipulator of one bucket. */
    method GetBucket(bucketId: nat) returns (r: Bucket)
      requires Laid() && bucketId < nBuckets
      ensures fresh(r) && r.Valid() && r.data.data == data && r.valid.data == valid && r.nSlots == nSlotsPerBucket
      ensures r.Shape() == Shape().Shape(bucketId) && r.Slots() == Tables()[bucketId]
    {
      BucketInside(Shape(), bucketId);
      SlotAtIsProduct(bucketId, nBytesPerBucket);
      SlotAtIsProduct(bucketId, nBytesPerBucketForValid);
      var slots := new Manipulator(data, nBytesPerBucket * bucketId);
      var bits := new Manipulator(valid, nBytesPerBucketForValid * bucketId);
      r := new Bucket(nBitsPerKey, nBitsPerValue, nSlotsPerBucket, slots, bits);
    }
  }

  // ----- The LBA index

  class LbaIndex {
    const memory: BucketMemory
    const counter: MapReferenceCounter
    const separator: nat

    constructor (nBitsPerKey: nat, nBitsPerValue: nat, nSlotsPerBucket: nat, nBuckets: nat,
                 counter: MapReferenceCounter, separator: nat)
      requires nBitsPerKey <= 32 && nBitsPerValue <= 64 && 1 <= separator < nSlotsPerBucket && counter.Valid()
      ensures Valid() && fresh(memory) && fresh(memory.data) && fresh(memory.valid)
      ensures this.counter == counter && this.separator == separator
      ensures memory.nBitsPerKey == nBitsPerKey && memory.nBitsPerValue == nBitsPerValue && memory.nBuckets == nBuckets
      ensures LbaReferences.Unused(memory.Tables())
    {
      this.memory := new BucketMemory(nBitsPerKey, nBitsPerValue, nSlotsPerBucket, nBuckets);
      this.counter, this.separator := counter, separator;
    }

    ghost predicate Valid()
      reads memory.data, memory.valid, counter
    {
      TablesValid() && counter.Valid()
    }

    ghost predicate TablesValid()
      reads memory.data, memory.valid
    {
      memory.Laid() && 1 <= separator < memory.nSlotsPerBucket && LbaReferences.BucketsOk(memory.Tables(), separator)
    }

    /** A manipulator of one bucket. */
    method GetLbaBucket(bucketId: nat) returns (r: LbaBucket)
      requires Valid() && bucketId < memory.nBuckets
      ensures fresh(r) && r.Valid() && r.evicted == None
      ensures r.bucket.data.data == memory.data && r.bucket.valid.data == memory.valid
      ensures r.counter == counter && r.separator == separator
      ensures r.bucket.Shape() == memory.Shape().Shape(bucketId) && r.Slots() == memory.Tables()[bucketId]
    {
      var bucket := memory.GetBucket(bucketId);
      r := new LbaBucket(bucket, counter, separator);
    }

    method Lookup(lbaHash: nat) returns (fpHash: Option<nat>)
      requires Valid() && Shr(lbaHash, memory.nBitsPerKey) < memory.nBuckets
      ensures fpHash == LbaTable.Lookup(memory.Tables()[Shr(lbaHash, memory.nBitsPerKey)],
                                        And(lbaHash, LowMask(memory.nBitsPerKey)))
    {
      var bucketId, signature := Shr(lbaHash, memory.nBitsPerKey), And(lbaHash, LowMask(memory.nBitsPerKey));
      var bucket := GetLbaBucket(bucketId);
      var slotId := bucket.Lookup(signature);
      if slotId.None? { return None; }
      var value := bucket.bucket.GetValue(slotId.value);
      return Some(value);
    }

    method Promote(lbaHash: nat)
      requires Valid() && Shr(lbaHash, memory.nBitsPerKey) < memory.nBuckets
      requires var t := memory.Tables()[Shr(lbaHash, memory.nBitsPerKey)];
               var key := And(lbaHash, LowMask(memory.nBitsPerKey));
               Find(t, key) < |t| &&
               LbaReferences.Replay(counter.outstanding, LbaTable.PromoteEvents(t, Find(t, key), separator)).Some?
      modifies counter, memory.data, memory.valid
      ensures Valid()
      ensures var b, key := Shr(lbaHash, memory.nBitsPerKey), And(lbaHash, LowMask(memory.nBitsPerKey));
              var t := old(memory.Tables())[b];
              && memory.Tables() == old(memory.Tables())[b := LbaTable.Promote(t, Find(t, key))]
              && LbaReferences.Yields(old(counter.outstanding), LbaTable.PromoteEvents(t, Find(t, key), separator),
                                      counter.outstanding)
    {
      PromoteIn(Shr(lbaHash, memory.nBitsPerKey), And(lbaHash, LowMask(memory.nBitsPerKey)));
    }

    method PromoteIn(b: nat, key: nat)
      requires Valid() && b < memory.nBuckets && Find(memory.Tables()[b], key) < memory.nSlotsPerBucket
      requires var t := memory.Tables()[b];
               LbaReferences.Replay(counter.outstanding, LbaTable.PromoteEvents(t, Find(t, key), separator)).Some?
      modifies counter, memory.data, memory.valid
      ensures Valid()
      ensures var t := old(memory.Tables())[b];
              && memory.Tables() == old(memory.Tables())[b := LbaTable.Promote(t, Find(t, key))]
              && LbaReferences.Yields(old(counter.outstanding), LbaTable.PromoteEvents(t, Find(t, key), separator),
                                      counter.outstanding)
    {
      var bucket := GetLbaBucket(b);
      PromoteBucket(bucket, b, key);
    }

    /** The displaced fingerprint hash is returned. */
    method Update(lbaHash: nat, fpHash: nat) returns (evicted: Option<nat>)
      requires Valid() && Shr(lbaHash, memory.nBitsPerKey) < memory.nBuckets && fpHash <= LowMask(memory.nBitsPerValue)
      requires var o := LbaTable.Update(memory.Tables()[Shr(lbaHash, memory.nBitsPerKey)],
                                        And(lbaHash, LowMask(memory.nBitsPerKey)), fpHash, separator);
               LbaReferences.Replay(counter.outstanding, o.events).Some?
      modifies counter, memory.data, memory.valid
      ensures Valid()
      ensures var b, key := Shr(lbaHash, memory.nBitsPerKey), And(lbaHash, LowMask(memory.nBitsPerKey));
              var o := LbaTable.Update(old(memory.Tables())[b], key, fpHash, separator);
              && memory.Tables() == old(memory.Tables())[b := o.table] && evicted == o.displaced
              && LbaReferences.Yields(old(counter.outstanding), o.events, counter.outstanding)
    {
      AndBelow(lbaHash, LowMask(memory.nBitsPerKey));
      evicted := UpdateIn(Shr(lbaHash, memory.nBitsPerKey), And(lbaHash, LowMask(memory.nBitsPerKey)), fpHash);
    }

    method UpdateIn(b: nat, key: nat, fpHash: nat) returns (evicted: Option<nat>)
      requires Valid() && b < memory.nBuckets && key <= LowMask(memory.nBitsPerKey)
               && fpHash <= LowMask(memory.nBitsPerValue)
      requires LbaReferences.Replay(counter.outstanding,
                                    LbaTable.Update(memory.Tables()[b], key, fpHash, separator).events).Some?
      modifies counter, memory.data, memory.valid
      ensures Valid()
      ensures var o := LbaTable.Update(old(memory.Tables())[b], key, fpHash, separator);
              && memory.Tables() == old(memory.Tables())[b := o.table] && evicted == o.displaced
              && LbaReferences.Yields(old(counter.outstanding), o.events, counter.outstanding)
    {
      var bucket := GetLbaBucket(b);
      UpdateBucket(bucket, b, key, fpHash);
      evicted := bucket.evicted;
    }

    ghost predicate Manipulates(r: LbaBucket, b: nat)
      reads r, counter, r.counter, memory.data, memory.valid, r.bucket.data.data, r.bucket.valid.data
    {
      && b < memory.nBuckets && r.bucket.data.data == memory.data && r.bucket.valid.data == memory.valid
      && r.counter == counter && r.separator == separator && r.bucket.Shape() == memory.Shape().Shape(b) && r.Valid()
    }

    method PromoteBucket(r: LbaBucket, b: nat, key: nat)
      requires Valid() && Manipulates(r, b) && Find(r.Slots(), key) < memory.nSlotsPerBucket
      requires LbaReferences.Replay(counter.outstanding,
                                    LbaTable.PromoteEvents(r.Slots(), Find(r.Slots(), key), separator)).Some?
      modifies counter, memory.data, memory.valid
      ensures Valid()
              && memory.Tables()
                 == old(memory.Tables())[b := LbaTable.Promote(old(r.Slots()), Find(old(r.Slots()), key))]
      ensures LbaReferences.Yields(old(counter.outstanding),
                                   LbaTable.PromoteEvents(old(r.Slots()), Find(old(r.Slots()), key), separator),
                                   counter.outstanding)
    {
      hide LbaTable.Promote, LbaTable.PromoteEvents, LbaReferences.BucketsOk, TablesOf;
      r.Promote(key);
      OneTableChanged(memory.Shape(), old(memory.data[..]), memory.data[..], old(memory.valid[..]), memory.valid[..],
                      b);
      ReplacedTable(old(memory.Tables()), b, r.Slots(), separator);
    }

    method UpdateBucket(r: LbaBucket, b: nat, key: nat, fpHash: nat)
      requires Valid() && Manipulates(r, b) && r.evicted == None
      requires key <= LowMask(memory.nBitsPerKey) && fpHash <= LowMask(memory.nBitsPerValue)
      requires LbaReferences.Replay(counter.outstanding,
                                    LbaTable.Update(r.Slots(), key, fpHash, separator).events).Some?
      modifies r, counter, memory.data, memory.valid
      ensures Valid()
      ensures var o := LbaTable.Update(old(r.Slots()), key, fpHash, separator);
              && memory.Tables() == old(memory.Tables())[b := o.table] && r.evicted == o.displaced
              && LbaReferences.Yields(old(counter.outstanding), o.events, counter.outstanding)
    {
      hide LbaTable.Update, LbaReferences.BucketsOk, TablesOf;
      r.Update(key, fpHash);
      OneTableChanged(memory.Shape(), old(memory.data[..]), memory.data[..], old(memory.valid[..]), memory.valid[..],
                      b);
      ReplacedTable(old(memory.Tables()), b, r.Slots(), separator);
    }
  }

  // ----- The fingerprint index

  ghost predicate Runs(ts: seq<Table>) {
    forall b :: 0 <= b < |ts| ==> FpTable.OneRun(ts[b])
  }

  lemma ReplacedRuns(ts: seq<Table>, b: nat, t: Table)
    requires Runs(ts) && b < |ts| && FpTable.OneRun(t)
    ensures Runs(ts[b := t])
  {
  }

  /** A chunk found: its first slot, how many it has, and where its data and its metadata are on the device. */
  datatype Located = Located(slotId: nat, nSubchunks: nat, cachedataLocation: nat, metadataLocation: nat)

  function Locate(g: Geometry, bucketId: nat, run: Option<(nat, nat)>): Option<Located> {
    if run.None? then None
    else
      var (slotId, n) := run.value;
      Some(Located(slotId, n, CachedataLocation(g, bucketId, slotId), MetadataLocation(g, bucketId, slotId)))
  }

  /** The fingerprint hash has slots in the bucket. */
  ghost predicate Cached(t: Table, h: nat, bits: nat) {
    And(h, LowMask(bits)) in FpTable.Signatures(t)
  }

  /** Of the hashes of `h`'s bucket, none that was evicted for `h` has a higher count than one that was kept. */
  ghost predicate EvictsLeast(t: Table, t': Table, h: nat, bits: nat, counts: nat -> nat) {
    forall g: nat, k: nat | g != h && k != h && Shr(g, bits) == Shr(h, bits) == Shr(k, bits) ::
      Cached(t, g, bits) && !Cached(t', g, bits) && Cached(t', k, bits) ==> counts(g) <= counts(k)
  }

  lemma UpdateEvictsLeast(t: Table, t': Table, h: nat, bits: nat, n: nat, counts: nat -> nat, gone: set<nat>, s: nat)
    requires FpTable.OneRun(t)
    requires FpTable.Updates(t, And(h, LowMask(bits)), n, CountsOf(counts, Shr(h, bits), bits), gone, s, t')
    ensures EvictsLeast(t, t', h, bits, counts)
  {
    forall g: nat, k: nat | g != h && k != h && Shr(g, bits) == Shr(h, bits) == Shr(k, bits)
                            && Cached(t, g, bits) && !Cached(t', g, bits) && Cached(t', k, bits)
      ensures counts(g) <= counts(k)
    {
      if And(g, LowMask(bits)) == And(h, LowMask(bits)) { HashIsBucketAndSignature(g, h, bits); }
      if And(k, LowMask(bits)) == And(h, LowMask(bits)) { HashIsBucketAndSignature(k, h, bits); }
      HashOfParts(g, bits);
      HashOfParts(k, bits);
      FpTable.EvictedLess(t, And(h, LowMask(bits)), n, CountsOf(counts, Shr(h, bits), bits), gone, s, t',
                          And(g, LowMask(bits)), And(k, LowMask(bits)));
    }
  }

  class FpIndex {
    const memory: BucketMemory
    const geometry: Geometry
    const counter: ReferenceCounter

    constructor (nBitsPerKey: nat, geometry: Geometry, counter: ReferenceCounter)
      requires nBitsPerKey <= 32 && counter.Valid()
      ensures Valid() && fresh(memory) && fresh(memory.data) && fresh(memory.valid) && this.counter == counter
      ensures memory.nBitsPerKey == nBitsPerKey && this.geometry == geometry
      ensures forall b, i :: 0 <= b < geometry.buckets && 0 <= i < geometry.slots ==> !memory.Tables()[b][i].valid
    {
      this.memory := new BucketMemory(nBitsPerKey, 4, geometry.slots, geometry.buckets);
      this.geometry, this.counter := geometry, counter;
    }

    /** The device has a place for every slot of the index. */
    predicate Placed() {
      geometry.buckets == memory.nBuckets && geometry.slots == memory.nSlotsPerBucket
    }

    ghost predicate Valid()
      reads memory.data, memory.valid, counter.exact, counter.sketch, counter.sketch.sketch.data
    {
      TablesValid() && counter.Valid()
    }

    ghost predicate TablesValid()
      reads memory.data, memory.valid
    {
      && memory.Laid() && Placed() && Runs(memory.Tables())
      && counter.sketch.sketch.data != memory.data && counter.sketch.sketch.data != memory.valid
    }

    ghost predicate Manipulates(r: FpBucket, b: nat)
      reads memory.data, memory.valid, r.bucket.data.data, r.bucket.valid.data
      reads counter.exact, counter.sketch, counter.sketch.sketch.data
      reads r.counter.exact, r.counter.sketch, r.counter.sketch.sketch.data
    {
      && b < memory.nBuckets && r.bucket.data.data == memory.data && r.bucket.valid.data == memory.valid
      && r.counter == counter && r.bucketId == b && r.bucket.Shape() == memory.Shape().Shape(b) && r.Valid()
    }

    /** A manipulator of one bucket. */
    method GetFpBucket(bucketId: nat) returns (r: FpBucket)
      requires Valid() && bucketId < memory.nBuckets
      ensures fresh(r) && Manipulates(r, bucketId) && r.Slots() == memory.Tables()[bucketId]
    {
      var bucket := memory.GetBucket(bucketId);
      r := new FpBucket(bucket, bucketId, counter);
    }

    /** The chunk of a fingerprint hash. */
    method Lookup(fpHash: nat) returns (found: Option<Located>)
      requires Valid() && Shr(fpHash, memory.nBitsPerKey) < memory.nBuckets
      ensures var b, key := Shr(fpHash, memory.nBitsPerKey), And(fpHash, LowMask(memory.nBitsPerKey));
              found == Locate(geometry, b, FpTable.Lookup(memory.Tables()[b], key))
    {
      var bucketId := Shr(fpHash, memory.nBitsPerKey);
      var bucket := GetFpBucket(bucketId);
      var run := bucket.Lookup(And(fpHash, LowMask(memory.nBitsPerKey)));
      if run.None? { return None; }
      var (slotId, n) := run.value;
      found := Some(Located(slotId, n, CachedataLocation(geometry, bucketId, slotId),
                            MetadataLocation(geometry, bucketId, slotId)));
    }

    /** The reference counts of a bucket's signatures. */
    ghost function Counts(b: nat): nat -> nat
      reads counter.exact, counter.sketch, counter.sketch.sketch.data
    {
      CountsOf(counter.Counts(), b, memory.nBitsPerKey)
    }

    /** Give a fingerprint hash a run of slots, and place it on the device. */
    method Update(fpHash: nat, nSubchunks: nat) returns (placed: Located, ghost gone: set<nat>)
      requires Valid() && Shr(fpHash, memory.nBitsPerKey) < memory.nBuckets && nSubchunks <= memory.nSlotsPerBucket
      modifies memory.data, memory.valid
      ensures Valid()
      ensures var b, key := Shr(fpHash, memory.nBitsPerKey), And(fpHash, LowMask(memory.nBitsPerKey));
              && memory.Tables() == old(memory.Tables())[b := memory.Tables()[b]]
              && FpTable.Updates(old(memory.Tables())[b], key, nSubchunks, old(Counts(b)), gone, placed.slotId,
                                 memory.Tables()[b])
              && Some(placed) == Locate(geometry, b, Some((placed.slotId, nSubchunks)))
      ensures var b := Shr(fpHash, memory.nBitsPerKey);
              EvictsLeast(old(memory.Tables())[b], memory.Tables()[b], fpHash, memory.nBitsPerKey,
                          old(counter.Counts()))
    {
      var b, key := Shr(fpHash, memory.nBitsPerKey), And(fpHash, LowMask(memory.nBitsPerKey));
      AndBelow(fpHash, LowMask(memory.nBitsPerKey));
      var bucket := GetFpBucket(b);
      var slotId;
      slotId, gone := UpdateBucket(bucket, b, key, nSubchunks);
      UpdateEvictsLeast(old(memory.Tables())[b], memory.Tables()[b], fpHash, memory.nBitsPerKey, nSubchunks,
                        old(counter.Counts()), gone, slotId);
      placed := Located(slotId, nSubchunks, CachedataLocation(geometry, b, slotId),
                        MetadataLocation(geometry, b, slotId));
    }

    method UpdateBucket(r: FpBucket, b: nat, key: nat, n: nat) returns (slotId: nat, ghost gone: set<nat>)
      requires Valid() && Manipulates(r, b) && n <= memory.nSlotsPerBucket && key <= LowMask(memory.nBitsPerKey)
      modifies memory.data, memory.valid
      ensures Valid() && memory.Tables() == old(memory.Tables())[b := memory.Tables()[b]]
      ensures FpTable.Updates(old(r.Slots()), key, n, old(Counts(b)), gone, slotId, memory.Tables()[b])
    {
      slotId, gone := r.Update(key, n);
      OneTableChanged(memory.Shape(), old(memory.data[..]), memory.data[..], old(memory.valid[..]), memory.valid[..],
                      b);
      ReplacedRuns(old(memory.Tables()), b, r.Slots());
    }
  }
}
