/** Where the AC-DC engine puts chunks and their metadata on the cache device. */
module SsdLayout {
  import opened Common
  import FpTable

  /** The range of a 32-bit unsigned number. */
  const WORD: nat := 0x1_0000_0000

  type Size = n: nat | n >= 1 witness 1

  datatype Geometry = Geometry(buckets: nat, slots: Size, subchunkSize: Size, metadataSize: Size) {
    function Slots(): nat { SlotAt(buckets, slots) }

    /** The metadata of every slot comes first. */
    function MetadataRegion(): nat { SlotAt(Slots(), metadataSize) }

    /** The device is opened with room for the metadata besides the cache itself. */
    function DeviceSize(cacheSize: nat): nat { cacheSize + MetadataRegion() }
  }

  /** The slot's number, in 32-bit arithmetic. */
  function SlotNumber(g: Geometry, bucketId: nat, slotId: nat): nat {
    (bucketId * g.slots + slotId) % WORD
  }

  function CachedataLocation(g: Geometry, bucketId: nat, slotId: nat): nat {
    SlotNumber(g, bucketId, slotId) * g.subchunkSize + g.buckets * g.slots * g.metadataSize
  }

  function MetadataLocation(g: Geometry, bucketId: nat, slotId: nat): nat {
    SlotNumber(g, bucketId, slotId) * g.metadataSize
  }

  function ToMetadataLocation(g: Geometry, cachedataLocation: nat): nat
    requires cachedataLocation >= g.slots * g.metadataSize * g.buckets
  {
    (cachedataLocation - g.slots * g.metadataSize * g.buckets) / g.subchunkSize * g.metadataSize
  }

  predicate InRange(g: Geometry, bucketId: nat, slotId: nat) {
    bucketId < g.buckets && slotId < g.slots
  }

  // ----- Arithmetic

  lemma Region(g: Geometry)
    ensures g.buckets * g.slots == g.Slots() && g.buckets * g.slots * g.metadataSize == g.MetadataRegion()
    ensures g.slots * g.metadataSize * g.buckets == g.MetadataRegion()
  {
    SlotAtIsProduct(g.buckets, g.slots);
    SlotAtIsProduct(g.Slots(), g.metadataSize);
    Commute(g.slots, g.metadataSize, g.buckets);
  }

  lemma Commute(a: nat, b: nat, c: nat)
    ensures a * b * c == c * a * b
  {
    assert a * b * c == (a * b) * c == c * (a * b) == c * a * b;
  }

  lemma {:induction false} SlotAtAdd(j: nat, k: nat, size: nat)
    ensures SlotAt(j + k, size) == SlotAt(j, size) + SlotAt(k, size)
  {
    if k > 0 { SlotAtAdd(j, k - 1, size); }
  }

  /** Without wrap-around the slot numbers count the slots in order. */
  lemma NumberOf(g: Geometry, b: nat, s: nat)
    requires InRange(g, b, s) && g.Slots() <= WORD
    ensures SlotNumber(g, b, s) == SlotAt(b, g.slots) + s < g.Slots()
  {
    SlotAtIsProduct(b, g.slots);
    SlotAtMonotone(b + 1, g.buckets, g.slots);
  }

  /** Runs of slots in different buckets, or apart in one, have their numbers apart. */
  lemma NumbersApart(g: Geometry, b: nat, s: nat, n: nat, b': nat, s': nat)
    requires g.Slots() <= WORD && InRange(g, b, s) && InRange(g, b', s') && s + n <= g.slots
    requires b < b' || (b == b' && s + n <= s')
    ensures SlotNumber(g, b, s) + n <= SlotNumber(g, b', s')
  {
    NumberOf(g, b, s);
    NumberOf(g, b', s');
    if b < b' { SlotAtMonotone(b + 1, b', g.slots); }
  }

  // ----- Where chunks lie

  lemma CachedataAt(g: Geometry, b: nat, s: nat)
    ensures CachedataLocation(g, b, s) == SlotAt(SlotNumber(g, b, s), g.subchunkSize) + g.MetadataRegion()
    ensures MetadataLocation(g, b, s) == SlotAt(SlotNumber(g, b, s), g.metadataSize)
  {
    Region(g);
    SlotAtIsProduct(SlotNumber(g, b, s), g.subchunkSize);
    SlotAtIsProduct(SlotNumber(g, b, s), g.metadataSize);
  }

  /** A chunk's metadata is found from its data's location. */
  lemma MetadataFromCachedata(g: Geometry, b: nat, s: nat)
    ensures CachedataLocation(g, b, s) >= g.slots * g.metadataSize * g.buckets
    ensures ToMetadataLocation(g, CachedataLocation(g, b, s)) == MetadataLocation(g, b, s)
  {
    Region(g);
    var n := SlotNumber(g, b, s);
    Quotient(n, g.subchunkSize);
  }

  lemma Quotient(n: nat, size: nat)
    requires size >= 1
    ensures n * size / size == n
  {
    var k := n * size / size - n;
    assert k * size == 0 - (n * size) % size;
    Multiple(k, size);
  }

  /** Two runs of slots that do not overlap have their data and metadata apart. */
  lemma ExtentsApart(g: Geometry, b: nat, s: nat, n: nat, b': nat, s': nat)
    requires g.Slots() <= WORD && InRange(g, b, s) && InRange(g, b', s') && 1 <= n && s + n <= g.slots
    requires b < b' || (b == b' && s + n <= s')
    ensures CachedataLocation(g, b, s) + n * g.subchunkSize <= CachedataLocation(g, b', s')
    ensures MetadataLocation(g, b, s) + g.metadataSize <= MetadataLocation(g, b', s')
  {
    NumbersApart(g, b, s, n, b', s');
    CachedataAt(g, b, s);
    CachedataAt(g, b', s');
    SlotAtIsProduct(n, g.subchunkSize);
    SlotAtAdd(SlotNumber(g, b, s), n, g.subchunkSize);
    SlotAtMonotone(SlotNumber(g, b, s) + n, SlotNumber(g, b', s'), g.subchunkSize);
    SlotAtMonotone(SlotNumber(g, b, s) + 1, SlotNumber(g, b', s'), g.metadataSize);
  }

  /** A run lies past the metadata and inside the device, if the buckets fit the cache. */
  lemma ExtentInside(g: Geometry, b: nat, s: nat, n: nat, cacheSize: nat)
    requires g.Slots() <= WORD && InRange(g, b, s) && s + n <= g.slots
    requires SlotAt(g.Slots(), g.subchunkSize) <= cacheSize
    ensures g.MetadataRegion() <= CachedataLocation(g, b, s)
    ensures CachedataLocation(g, b, s) + n * g.subchunkSize <= g.DeviceSize(cacheSize)
    ensures MetadataLocation(g, b, s) + g.metadataSize <= g.MetadataRegion()
  {
    NumberOf(g, b, s);
    CachedataAt(g, b, s);
    SlotAtIsProduct(n, g.subchunkSize);
    SlotAtAdd(SlotNumber(g, b, s), n, g.subchunkSize);
    SlotAtMonotone(b + 1, g.buckets, g.slots);
    SlotAtMonotone(SlotNumber(g, b, s) + n, g.Slots(), g.subchunkSize);
    SlotAtMonotone(SlotNumber(g, b, s) + 1, g.Slots(), g.metadataSize);
  }

  /** As many buckets as the configuration computes fit the cache. */
  lemma BucketsFit(g: Geometry, cacheSize: nat)
    requires g.buckets == cacheSize / (g.subchunkSize * g.slots)
    ensures SlotAt(g.Slots(), g.subchunkSize) <= cacheSize
  {
    var size := g.subchunkSize * g.slots;
    assert size >= 1 by { Multiple(g.slots, g.subchunkSize); }
    assert (cacheSize / size) * size <= cacheSize;
    SlotAtIsProduct(g.buckets, g.slots);
    SlotAtIsProduct(g.Slots(), g.subchunkSize);
    Commute(g.buckets, g.slots, g.subchunkSize);
    Commute(g.subchunkSize, g.buckets, g.slots);
    assert g.buckets * size == g.buckets * g.subchunkSize * g.slots;
  }

  /** Slots have locations of their own exactly when 32 bits can number them all. */
  lemma LocationsDistinctIffNumbersFit(g: Geometry)
    ensures g.Slots() <= WORD <==>
            forall b, s, b', s' :: InRange(g, b, s) && InRange(g, b', s') && (b, s) != (b', s') ==>
              CachedataLocation(g, b, s) != CachedataLocation(g, b', s')
  {
    if g.Slots() <= WORD {
      forall b, s, b', s' | InRange(g, b, s) && InRange(g, b', s') && (b, s) != (b', s')
        ensures CachedataLocation(g, b, s) != CachedataLocation(g, b', s')
      {
        if b < b' || (b == b' && s < s') {
          ExtentsApart(g, b, s, 1, b', s');
        } else {
          ExtentsApart(g, b', s', 1, b, s);
        }
      }
    } else {
      WrappedSlot(g);
    }
  }

  /** With more slots, slot 2^32 is placed on slot 0. */
  lemma WrappedSlot(g: Geometry)
    requires g.Slots() > WORD
    ensures var b, s := WORD / g.slots, WORD % g.slots;
            && InRange(g, b, s) && InRange(g, 0, 0) && (b, s) != (0, 0)
            && CachedataLocation(g, b, s) == CachedataLocation(g, 0, 0)
  {
    var b, s := WORD / g.slots, WORD % g.slots;
    SlotAtIsProduct(b, g.slots);
    assert b * g.slots + s == WORD;
    if b >= g.buckets { SlotAtMonotone(g.buckets, b, g.slots); }
  }

  // ----- Live chunks

  /** Any two cached chunks, of one fingerprint bucket or of two, have their data and metadata apart. */
  lemma LiveChunksApart(g: Geometry, ts: seq<Table>, b: nat, k: nat, b': nat, k': nat)
    requires g.Slots() <= WORD && |ts| == g.buckets && b < g.buckets && b' < g.buckets && (b, k) != (b', k')
    requires forall i :: 0 <= i < |ts| ==> |ts[i]| == g.slots && FpTable.OneRun(ts[i])
    requires FpTable.Lookup(ts[b], k).Some? && FpTable.Lookup(ts[b'], k').Some?
    ensures var (s, n), (s', n') := FpTable.Lookup(ts[b], k).value, FpTable.Lookup(ts[b'], k').value;
            var x, x' := CachedataLocation(g, b, s), CachedataLocation(g, b', s');
            var m, m' := MetadataLocation(g, b, s), MetadataLocation(g, b', s');
            && (x + n * g.subchunkSize <= x' || x' + n' * g.subchunkSize <= x)
            && (m + g.metadataSize <= m' || m' + g.metadataSize <= m)
  {
    var (s, n) := FpTable.Lookup(ts[b], k).value;
    var (s', n') := FpTable.Lookup(ts[b'], k').value;
    FpTable.RunInside(ts[b], k);
    FpTable.RunInside(ts[b'], k');
    if b == b' { FpTable.RunsApart(ts[b], k, k'); }
    if b < b' || (b == b' && s + n <= s') {
      ExtentsApart(g, b, s, n, b', s');
    } else {
      ExtentsApart(g, b', s', n', b, s);
    }
  }
}
