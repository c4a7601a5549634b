# AustereCache: a verified model

AustereCache is an SSD cache with deduplication, and optionally compression, in front of a disk. This project
models its three metadata engines and proves what each is for.

* **D-ARC** (`ArcLists`, `ArcOrder`, `DarcModel`, `DarcSystem`, `DarcOrder`, `DarcIndex`): five ARC lists over
  addresses and a reference-counted fingerprint index that evict through each other, the space allocator, the dirty
  list, and the request step. Main results: a write-through cache cannot be told from the disk behind it over any
  run; no dirty block is ever lost in either mode; in write-back a read is right exactly when a checkable condition
  holds, with a three-request run where it fails; over every run the lists are in order of last requests, and where
  each request puts its address, whom it demotes and what it evicts are said in terms of the lists alone.
* **CD-ARC** (`CdarcModel`, `CdarcSystem`, `CdarcOrder`, `CdarcIndex`): write-evict units with reference counts,
  lazy invalidation of stale fingerprints, the open unit's buffer and the map from units to device locations. Main
  results: every fingerprint a lookup accepts reads back exactly its blob, write-through transparency over any run,
  and where and as which bytes new content is placed.
* **AC-DC** (`Bits` and `Bitmap` for bit fields; `Bucket` for packed records; `LbaTable`, `LbaReferences`,
  `LbaHistory`, `LbaBucket`; `FpTable`, `FpBucket`; `ExactCounter`, `Sketch`, `SketchCounter`; `Index`; `AcdcModel`,
  `AcdcHistory`, `AcdcSystem`, `AcdcIndex`; `Locks`; `SsdLayout`): bit-packed buckets of short hashes over a cache
  device of bytes. Main results: over every run an LBA bucket is the LRU list of its requests, hits included, and
  finds a key exactly while fewer other keys than it has slots were requested since; the reference counter never
  falls below the slots it stands for and leaks exactly in one case; the allocator leaves each signature one run of
  slots and evicts least referenced first; a hit is on the current content's fingerprint exactly when the LBA index
  holds its hash, hence always when LBA hashes are distinct; it returns the current content's bytes exactly when the
  chunk was also given the slots the content needs; with distinct LBA hashes a write-through cache answers as the
  plain disk exactly as long as no admission meets a checkable guard, and always without compression; the sketch
  never answers below the exact counter while no cell is full; the locking cannot deadlock; chunks do not overlap on
  the device.
* `Common` and `Storage` hold what the engines share: lists, devices, byte ranges, the codec and the plain disk.

Each engine is written twice: as functions on values, about which the theorems are proved, and as classes that
update their fields and arrays in place as the source does, whose methods are proved to compute those functions.

Assumptions: fingerprints are collision-free functions of content; decompression undoes compression; short hashes
(LBA hash, fingerprint hash, sketch rows) are arbitrary functions; requests are aligned to chunks; capacities are at
least one and LBA buckets have at least two slots. The primary disk is a map from addresses to blocks, and a
location never written reads as the empty block (D-ARC) or as zeros (CD-ARC, AC-DC). The cache device is a map from
locations to blocks (D-ARC) or a sequence of bytes (CD-ARC, AC-DC); AC-DC's metadata region is a map from slots,
whose locations on the device are proved distinct. In AC-DC a chunk is a whole number of subchunks, and, for the
only-if halves about bytes, no proper prefix of data determines the chunk it decompresses to, as the LZ4 block
format's closing literals ensure. What a request's buffers held before is any bytes. Fake I/O is off.

Where the code and the expected behaviour part:

* In write-back D-ARC an entry dropped from B3 is not flushed, so a later read can go to the primary disk while the
  data is still only on the SSD (`DarcSystem.WriteBackCanReadStale`, `DarcSystem.ReadCorrectIffNotStale`).
* In D-ARC and CD-ARC an address requested again is not always promoted to T2: draining a full index for new content
  can move the address itself to B3, from where it goes to T1 (`DarcOrder.DrainSendsToT1`, with the exact condition in
  `DarcOrder.ToT2Iff` and `CdarcOrder.ToT2Iff`).
* In AC-DC the dereference of an evicted entry is skipped when it has the hash being entered, although a reference
  was added: the count stays one too high (`LbaReferences.LeaksIffVictimHasHash`, with a run in
  `LbaReferences.ThreeKeysLeak`).
* In AC-DC old metadata keeps listing an address after its content changed; a collision of LBA hashes then lets a
  read hit that old content (`AcdcModel.CollidingHashesHitStale`).
* In AC-DC reads, compression comes before deduplication, and a fingerprint lookup that finds another content's
  signature overwrites the number of slots just computed. New content can thus be given too few slots, and is then
  served cut short (`AcdcSystem.SmallerNeighbourTruncates`, with the exact condition in `AcdcSystem.ShortIffStarves`
  and `AcdcSystem.ReadBackIff`).
* In AC-DC, content whose compressed form needs all subchunks is stored as it is but keeps its compressed length, and
  a hit decompresses it (`AcdcSystem.TwoSubchunksGarble`); four subchunks or more rule this out.
* The sketch's overflow entries are 16 bits wide and wrap (`Sketch.OverflowUndercounts`, reached in
  `Sketch.RepeatedUndercounts`), and reading its last cell touches the byte after the last, which the model's array
  has as a spare byte.
* Slot numbers are computed in 32 bits and wrap beyond 2^32 slots (`SsdLayout.WrappedSlot`).

## Model

| member | source | states |
|---|---|---|
| ArcLists.ManageKeepsInv | src/metadata/cachededup/darc_lbaindex.cc:202-239 | making room never takes from an empty list, demotes exactly one address of T1 or T2, keeps all keys, and keeps the five lists disjoint, duplicate-free, in agreement with the map and within budget |
| ArcLists.ReplaceKeepsInv | src/metadata/cachededup/darc_lbaindex.cc:226-239 | the replacement step demotes the least recent entry of T1 or of T2, whichever the adaptive factor selects; that list is non-empty, and the lists stay well formed |
| ArcLists.CheckKeepsInv | src/metadata/cachededup/darc_lbaindex.cc:180-192 | after the check there is room for one more entry and the lists are still well formed; only the address reported demoted loses its reference |
| ArcLists.CheckForgetsOne | src/metadata/cachededup/darc_lbaindex.cc:180-192 | the check forgets at most one address, and none when there is room |
| ArcLists.UpdateKeepsBudget | src/metadata/cachededup/darc_lbaindex.cc:104-178 | an update keeps the lists well formed, T1+T2+B3 within capacity+x, B1+B2 within capacity, and the adaptive factor within capacity |
| ArcLists.UpdateRecords | src/metadata/cachededup/darc_lbaindex.cc:104-178 | an update files the address in T1 or T2 with the new fingerprint; every other address that is kept keeps its fingerprint, and its reference unless it is the one demoted |
| ArcLists.UpdateForgetsOne | src/metadata/cachededup/darc_lbaindex.cc:104-178 | an update forgets at most one address, and none when the address is in T1, T2 or B3 or there is room |
| ArcLists.RefsAfterUpdate | src/metadata/cachededup/darc_lbaindex.cc:104-178 | how the set of T1 and T2 addresses carrying given fingerprints changes over an update |
| ArcLists.RefsAfterDemotion | src/metadata/cachededup/darc_lbaindex.cc:47-102 | a demotion takes exactly the demoted address out of the references to its fingerprint |
| ArcLists.MapBudget | src/metadata/cachededup/darc_lbaindex.cc:104-239 | the map never holds more than 2*capacity+x addresses |
| ArcLists.FiledAnywhere | src/metadata/cachededup/darc_lbaindex.cc:104-239 | the map's size is the sum of the five lists' lengths |
| ArcOrder.AdaptiveFactor | src/metadata/cachededup/darc_lbaindex.cc:32-41 | a request for an address of B1 raises the factor by one up to capacity, one for an address of B2 lowers it by one down to zero, and any other leaves it |
| ArcOrder.ReplacementLaw | src/metadata/cachededup/darc_lbaindex.cc:226-239 | with T1 and T2 non-empty, T1 longer than the factor gives its least recent address to the front of B1 and T2 is untouched, T1 shorter leaves it to T2 and B2, and at the factor T1 gives way exactly to an address of B2; with one list empty the other gives way |
| ArcOrder.ManagementLaw | src/metadata/cachededup/darc_lbaindex.cc:202-224 | which list gives an address to the front of B3 before the replacement, or that T1 at capacity retires one through B1 |
| ArcOrder.CheckLaw | src/metadata/cachededup/darc_lbaindex.cc:180-192 | with room nothing happens; else B3 forgets its least recent address, room being made first when B3 is empty |
| Common.EraseAround | src/metadata/cachededup/darc_lbaindex.cc:125-165 | erasing an address from a list keeps the order of the others |
| ArcOrder.UpdatePlaces | src/metadata/cachededup/darc_lbaindex.cc:104-178 | the address goes to the front of T2 if it was on T1, T2, B1 or B2 and the check does not give it up, else to the front of T1; the other addresses keep their places |
| ArcOrder.UpdateKeepsOrder | src/metadata/cachededup/darc_lbaindex.cc:104-178 | T1 followed by B1, and T2 followed by B2, stay in order of each address's last request |
| DarcModel.DrainKeepsInv | src/metadata/cachededup/darc_fpindex.cc:82-86 | the eviction loop ends with a fingerprint that no address references, having kept the lists and every reference count exact |
| DarcModel.ManageKeepsInv | src/metadata/cachededup/darc_fpindex.cc:82-86 | each pass of the eviction loop removes exactly one address from T1 and T2 (its measure) and moves no fingerprint |
| DarcModel.CheckKeepsExact | src/metadata/cachededup/darc_lbaindex.cc:180-192 | reference counts stay exact through the capacity check |
| DarcModel.RecordKeepsExact | src/metadata/cachededup/darc_lbaindex.cc:104-178 | after the LBA update every cached fingerprint's count is the number of T1 and T2 addresses carrying it and the zero list is exactly the unreferenced fingerprints |
| DarcModel.EvictKeepsExact | src/metadata/cachededup/darc_fpindex.cc:88-99 | the fingerprint evicted is cached and unreferenced, and counts stay exact |
| DarcModel.InsertKeepsInv | src/metadata/cachededup/darc_fpindex.cc:73-108 | inserting a fingerprint keeps counts and locations right, evicts at most one fingerprint, and reuses a location only after its fingerprint has left |
| DarcModel.UpdateKeepsInv | src/metadata/metadata_module_darc.cc:44-49 | one request's whole metadata update keeps the invariant (lists, budgets, exact counts, one location for each fingerprint, at most capacity of them) and changes nothing else |
| DarcModel.LocationsAreTheFirstSlots | src/metadata/cachededup/common.cc:11-24 | the live fingerprints' locations are exactly 0, c, ..., (k-1)*c for chunk size c and k fingerprints, and k is within capacity |
| DarcModel.HeldIsCounted | src/metadata/cachededup/darc_fpindex.cc:53-71 | an address of T1 or T2 has its fingerprint cached with a positive count, so the empty-entry exits are not reached |
| DarcModel.NoZeroMeansHeld | src/metadata/cachededup/darc_fpindex.cc:82-86 | when the index is full and no fingerprint is unreferenced, T1 and T2 are not empty |
| DarcOrder.DrainStopsAtOnce | src/metadata/cachededup/darc_fpindex.cc:82-86 | the eviction loop makes room until a fingerprint is unreferenced and not once more |
| DarcOrder.EvictionLaw | src/metadata/cachededup/darc_fpindex.cc:73-108 | a cached fingerprint changes nothing; with room the new one gets its own location and nothing else changes; in a full index it gets that of the fingerprint unreferenced the longest |
| DarcOrder.NewestUnreferenced | src/metadata/cachededup/darc_fpindex.cc:53-71 | a fingerprint that loses its last reference is evicted after all that were unreferenced before it |
| DarcOrder.ReferenceKeepsAge | src/metadata/cachededup/darc_fpindex.cc:35-51 | a reference leaves the order of the other unreferenced fingerprints |
| DarcSystem.RunKeepsData | src/manage/dirtylist_cachededup.cc:21-39 | over every run, in write-through and in write-back, each address is either dirty and named to a live SSD location holding its last written data, or has that data on the primary disk |
| DarcSystem.SettleDurable | src/metadata/cachededup/darc_fpindex.cc:88-107 | evicting a fingerprint flushes the dirty addresses of its location before the location is reused |
| DarcSystem.AdmitSound | src/austere_cache/austere_cache_no_compression.cc:13-24 | admitting content leaves it stored at its fingerprint's location and keeps every other cached fingerprint's content |
| DarcSystem.WriteSound | src/austere_cache/austere_cache_no_compression.cc:27-39 | a write request keeps every cached content right and makes the data durable |
| DarcSystem.ReadCorrectIffNotStale | src/austere_cache/austere_cache_no_compression.cc:6-25 | a read returns the data last written exactly when the address is not stale: absent from the LBA index, dirty, and different on the primary disk |
| DarcSystem.TransparentIffNeverStale | src/austere_cache/austere_cache.cc:43-67 | a run answers as the plain disk does exactly when no read of it is stale |
| DarcSystem.WriteThroughTransparent | src/austere_cache/austere_cache_no_compression.cc:6-39 | from start-up, a write-through D-ARC cache answers every run of reads and writes as the plain disk does |
| DarcSystem.RangeRightIffNeverStale | src/austere_cache/austere_cache.cc:43-54 | reading a range gives the disk's blocks exactly when no read of it is stale; in write-through none is |
| DarcSystem.WriteBackCanReadStale | src/metadata/cachededup/darc_lbaindex.cc:186-190 | in write-back, three requests on a one-entry index return stale data: the entry dropped from B3 is dirty |
| DarcOrder.StepUpdates | src/austere_cache/austere_cache_no_compression.cc:6-39 | every request, hit or miss, updates the metadata with the fingerprint of what was read or written |
| DarcOrder.StepServes | src/manage/manage_module.cc:32-71 | a read whose fingerprint is cached is served from its location, any other from the primary disk |
| DarcOrder.StepPlaces | src/metadata/cachededup/darc_lbaindex.cc:104-178 | after any request, hit or miss, its address is the most recent of T2 if the lists that its update meets have it on T1, T2, B1 or B2 and do not give it up, and else of T1 |
| DarcOrder.StepPlacesDirectly | src/metadata/cachededup/darc_lbaindex.cc:104-178 | unless the request drains the index this is said of the lists before it |
| DarcOrder.ToT2Iff | src/metadata/cachededup/darc_lbaindex.cc:104-178 | an address goes to T2 exactly when it was on T1, T2, B1 or B2 and neither the drain moved it to B3 nor the check gives it up |
| DarcOrder.DrainSendsToT1 | src/metadata/cachededup/darc_fpindex.cc:82-86 | two writes of one address with one-entry indexes: the second finds it in T1 and leaves it in T1, the drain having moved it to B3 |
| DarcOrder.FirstRunOrdered | src/metadata/cachededup/darc_lbaindex.cc:104-239 | from start-up, over every run in both modes, T1 followed by B1 and T2 followed by B2 are in order of last request |
| DarcOrder.StepDevices | src/austere_cache/austere_cache_no_compression.cc:6-39 | at every address and location: a duplicate writes nothing to the cache device and new content only its own location; a write goes to the primary or is marked dirty, as the mode says; only the addresses of an evicted location are flushed |
| DarcIndex.SpaceAllocator.Allocate | src/metadata/cachededup/common.cc:15-24 | allocation takes the next unused location while one is left, then the recycled one |
| DarcIndex.SpaceAllocator.Recycle | src/metadata/cachededup/common.cc:11-13 | recycling keeps the one location to be reused next |
| DarcIndex.DirtyList.FlushOneBlock | src/manage/dirtylist_cachededup.cc:21-39 | every dirty address of the location gets its block on the primary disk and is no longer dirty; the others are untouched |
| DarcIndex.DarcFpIndex.Reference | src/metadata/cachededup/darc_fpindex.cc:35-51 | adds one to the fingerprint's count and takes it off the zero list when it was there |
| DarcIndex.DarcFpIndex.Dereference | src/metadata/cachededup/darc_fpindex.cc:53-71 | takes one from the fingerprint's count and puts it at the front of the zero list when none is left |
| DarcIndex.DarcFpIndex.DrainReferences | src/metadata/cachededup/darc_fpindex.cc:82-86 | the loop that calls back into the LBA index terminates and computes the model's drained state |
| DarcIndex.DarcFpIndex.Update | src/metadata/cachededup/darc_fpindex.cc:73-108 | when full, drains references until a fingerprint has none, evicts the least recent such one and recycles its location, after flushing that location's dirty addresses in write-back; then gives the new fingerprint a location |
| DarcIndex.DarcLbaIndex.MoveFromAToB | src/metadata/cachededup/darc_lbaindex.cc:47-102 | moves the back of one list to the front of another and adjusts the reference count when the entry enters or leaves T1 and T2 |
| DarcIndex.DarcLbaIndex.ManageMetadataCache | src/metadata/cachededup/darc_lbaindex.cc:202-224 | on the five lists in place, demotes the address that ARC chooses and takes back exactly that address's reference in the fingerprint index |
| DarcIndex.DarcLbaIndex.ReplaceInMetadataCache | src/metadata/cachededup/darc_lbaindex.cc:226-239 | demotes the least recent entry of T1 or of T2 to B1 or B2, taking back its reference |
| DarcIndex.DarcLbaIndex.CheckMetadataCache | src/metadata/cachededup/darc_lbaindex.cc:180-192 | when the lists are full, demotes an address if B3 is empty and then forgets the least recent entry of B3; afterwards there is room and every count is exact |
| DarcIndex.DarcLbaIndex.AdjustAdaptiveFactor | src/metadata/cachededup/darc_lbaindex.cc:32-41 | an address in B1 raises and one in B2 lowers the adaptive factor, within its bounds |
| DarcIndex.DarcLbaIndex.Update | src/metadata/cachededup/darc_lbaindex.cc:104-178 | the entry is taken off its list, its old fingerprint dereferenced if it was in T1 or T2, the address put at the front of T1 or T2 and its new fingerprint referenced: the state the exactness theorems are about |
| DarcIndex.AustereCache.UpdateMetadata | src/metadata/metadata_module_darc.cc:44-49 | the two indexes updated in the source's order compute the model's update |
| DarcIndex.AustereCache.InternalRead | src/austere_cache/austere_cache_no_compression.cc:6-25 | returns the disk's block in write-through, and in write-back unless the address is stale; the devices and indexes stay coherent with the disk |
| DarcIndex.AustereCache.InternalWrite | src/austere_cache/austere_cache_no_compression.cc:27-39 | after a write the devices and indexes are coherent with the disk holding the new block |
| DarcIndex.AustereCache.Read | src/austere_cache/austere_cache.cc:43-54 | a range read is the run of its reads; its blocks are the disk's exactly when none of them is stale, as always in write-through |
| DarcIndex.AustereCache.Write | src/austere_cache/austere_cache.cc:56-67 | after a range write each address of the range has its block on the disk the cache stands for, and every other address what it had |
| CdarcModel.LookupFindsLive | src/metadata/cachededup/cdarc_fpindex.cc:25-42 | a lookup answers exactly the fingerprints whose unit was not recycled, and drops a stale one from the map without changing any other answer |
| CdarcModel.DrainKeepsExact | src/metadata/cachededup/cdarc_fpindex.cc:92-97 | the eviction loop terminates with an unreferenced unit and keeps every unit's count exact |
| CdarcModel.ManageKeepsExact | src/metadata/cachededup/cdarc_fpindex.cc:92-97 | each pass removes exactly one address from T1 and T2 and keeps counts exact |
| CdarcModel.EvictKeepsExact | src/metadata/cachededup/cdarc_fpindex.cc:99-108 | only a unit with count zero is recycled |
| CdarcModel.EnterKeepsExtents | src/metadata/cachededup/common.cc:34-47 | the extents placed in a unit are disjoint and inside it |
| CdarcModel.EnterKeepsUnits | src/metadata/cachededup/common.cc:34-47 | opening a unit keeps the open unit counted and unit numbers fresh |
| CdarcModel.InsertKeepsInv | src/metadata/cachededup/cdarc_fpindex.cc:85-123 | inserting keeps counts, units and extents right and evicts at most one unit |
| CdarcModel.UpdateKeepsInv | src/metadata/metadata_module_cdarc.cc:45-50 | one request's whole metadata update keeps the invariant: exact unit counts, disjoint extents, at most capacity units |
| CdarcModel.ReferencesAreLive | src/metadata/cachededup/cdarc_fpindex.cc:44-123 | no address of T1 or T2 has a fingerprint in a recycled unit, and the live units are within capacity |
| CdarcModel.LookupKeepsInv | src/metadata/cachededup/cdarc_fpindex.cc:25-42 | dropping a stale fingerprint keeps the invariant |
| CdarcOrder.DrainStopsAtOnce | src/metadata/cachededup/cdarc_fpindex.cc:92-97 | the eviction loop makes room until a unit is unreferenced and not once more |
| CdarcOrder.PlacementLaw | src/metadata/cachededup/cdarc_fpindex.cc:85-123 | new content goes behind what the open unit holds if it fits, else to the start of the next unit; a unit is recycled only when all are in use and another is needed, and it is the one unreferenced the longest |
| CdarcOrder.NewestUnreferenced | src/metadata/cachededup/cdarc_fpindex.cc:66-83 | a unit that loses its last reference is recycled after all that were unreferenced before it |
| CdarcSystem.SwitchKeepsPlaced | src/manage/manage_module.cc:120-143 | closing the open unit gives it a slot of its own: the recycled unit's, or the next unused one; a recycled open unit needs none |
| CdarcSystem.ClosedUnitsFit | src/manage/manage_module.cc:120-143 | every closed unit's location is a multiple of the unit size, apart from every other, and inside a device of capacity units |
| CdarcSystem.PlaceSound | src/manage/manage_module.cc:105-148 | after a placement every fingerprint a lookup accepts, old or new, reads back exactly its blob from the buffer or the device, even when the open unit was the one evicted |
| CdarcSystem.ReadTransparent | src/austere_cache/austere_cache_compression.cc:9-44 | a read returns the primary disk's chunk, through compression, whichever path serves it |
| CdarcSystem.WriteTransparent | src/austere_cache/austere_cache_compression.cc:46-69 | a write keeps all stored blobs right and updates the primary disk |
| CdarcSystem.RunTransparent | src/austere_cache/austere_cache_compression.cc:9-69 | a run from any sound state answers as the plain disk does |
| CdarcSystem.WriteThroughTransparent | src/austere_cache/austere_cache_compression.cc:9-69 | from start-up, a write-through CD-ARC cache answers every run as the plain disk does |
| CdarcOrder.StepUpdates | src/austere_cache/austere_cache_compression.cc:9-69 | every request, hit or miss, updates the metadata with the fingerprint of what was read or written |
| CdarcOrder.StepServes | src/manage/manage_module.cc:40-53 | a read whose unit was not recycled is served from its extent, in the buffer or on the device, and decompressed unless it is as long as a chunk; any other from the primary disk |
| CdarcOrder.StepPlaces | src/metadata/cachededup/darc_lbaindex.cc:104-178 | after any request its address is the most recent of T2 or of T1, as in D-ARC |
| CdarcOrder.ToT2Iff | src/metadata/cachededup/darc_lbaindex.cc:104-178 | and of T2 exactly when it was on T1, T2, B1 or B2 and neither the drain moved it to B3 nor the check gives it up |
| CdarcOrder.FirstRunOrdered | src/metadata/cachededup/darc_lbaindex.cc:104-239 | from start-up, over every run, T1 followed by B1 and T2 followed by B2 are in order of last request |
| CdarcOrder.AdmissionStores | src/compression/compression_module.cc:22-40 | new content is placed with the length of the codec's output when compression is on and that is shorter than the chunk, and else as a whole chunk; the bytes at its extent are that output, or the chunk |
| CdarcOrder.DuplicateWritesNothing | src/austere_cache/austere_cache_compression.cc:24-69 | a duplicate or a served read writes neither the device nor the buffer |
| CdarcIndex.WeuAllocator.Allocate | src/metadata/cachededup/common.cc:34-47 | places an extent in the open unit, or opens the next one when it does not fit |
| CdarcIndex.CdarcFpIndex.Lookup | src/metadata/cachededup/cdarc_fpindex.cc:25-42 | the extent of a fingerprint in a unit that was not recycled; a stale entry is erased |
| CdarcIndex.CdarcFpIndex.DrainReferences | src/metadata/cachededup/cdarc_fpindex.cc:92-97 | the loop over the LBA index terminates and computes the model's drained state |
| CdarcIndex.CdarcFpIndex.Update | src/metadata/cachededup/cdarc_fpindex.cc:85-123 | when the index is full and a unit must be opened, drains references until a unit has none and recycles that one; then places the blob in the open unit |
| CdarcIndex.ManageModule.ReadCached | src/manage/manage_module.cc:40-53 | reads an extent from the open unit's buffer or from its unit's location |
| CdarcIndex.ManageModule.WriteCached | src/manage/manage_module.cc:120-143 | switches the open unit when the extent is in another one, writing the full buffer to the recycled unit's location or the next unused one, and puts the blob in the buffer |
| CdarcIndex.AustereCache.InternalRead | src/austere_cache/austere_cache_compression.cc:9-44 | looks up, reads and decompresses the blob or else reads the primary disk, then admits what it read: the step the transparency theorem is about |
| CdarcIndex.AustereCache.InternalWrite | src/austere_cache/austere_cache_compression.cc:46-69 | writes the primary disk and admits the compressed block: the step the transparency theorem is about |
| CdarcIndex.AustereCache.Read | src/austere_cache/austere_cache.cc:43-54 | a range read returns the primary disk's chunks in turn and leaves the engine coherent |
| CdarcIndex.AustereCache.Write | src/austere_cache/austere_cache.cc:56-67 | a range write gives each address of the range its block, changes no other, and leaves the engine coherent |
| Bitmap.Manipulator.StoreBits | src/metadata/bitmap.h:28-51 | bits [b, e) become the value's and every other bit of the array keeps its value |
| Bitmap.Manipulator.GetBits | src/metadata/bitmap.h:53-75 | returns the number whose bits are bits [b, e) |
| Bitmap.Manipulator.Get | src/metadata/bitmap.h:13-16 | returns the bit |
| Bitmap.Manipulator.Set | src/metadata/bitmap.h:18-21 | sets that bit only |
| Bitmap.Manipulator.Clear | src/metadata/bitmap.h:23-26 | clears that bit only |
| Bitmap.StoredField | src/metadata/bitmap.h:28-75 | a value stored in a field is read back from it |
| Bitmap.StoredElsewhere | src/metadata/bitmap.h:28-75 | a field apart from the one stored reads as before |
| Bitmap.FieldUnique | src/metadata/bitmap.h:53-75 | a number with the field's bits is the field |
| Bucket.KeyStored | src/metadata/bucket.h:44-49 | storing a key changes one component of one record of the packed bucket |
| Bucket.ValueStored | src/metadata/bucket.h:70-82 | storing a value changes one component of one record |
| Bucket.ValidStored | src/metadata/bucket.h:92-96 | setting a valid bit changes one component of one record |
| Bucket.StoredInTwo | src/metadata/bucket.h:75-79 | a value of more than 32 bits stored in two parts is stored whole |
| Bucket.JoinTwo | src/metadata/bucket.h:61-64 | and read whole |
| Bucket.OtherBucket | src/metadata/index.cc:33-34 | a bucket elsewhere in the shared memory keeps its records |
| Bucket.RecordBits | src/metadata/bucket.h:38-69 | where each bit of a record is: keys and values alternate from the bucket's first byte on, without gaps |
| Bucket.Bucket.GetKey | src/metadata/bucket.h:38-43 | the record's key |
| Bucket.Bucket.SetKey | src/metadata/bucket.h:44-49 | sets the record's key, and nothing outside the bucket changes |
| Bucket.Bucket.GetValue | src/metadata/bucket.h:55-69 | the record's value, of up to 64 bits |
| Bucket.Bucket.SetValue | src/metadata/bucket.h:70-82 | sets the record's value, and nothing outside the bucket changes |
| Bucket.Bucket.SetValid | src/metadata/bucket.h:92-96 | marks the record valid, and nothing outside the bucket changes |
| LbaTable.UpdateRefinesLru | src/metadata/bucket.cc:54-83 | an update of the slot table, holes or not, is a bounded LRU list's: remove the key, drop the head only if the table is full and the key new, append; and it returns exactly the displaced value |
| LbaTable.PromoteRefinesLru | src/metadata/cache_policies/bucket_aware_lru.cc:14-44 | a promotion moves the key's entry to the recent end of the list |
| LbaTable.UpdateKeepsWf | src/metadata/bucket.cc:54-83 | keys stay unique and the table keeps its size |
| LbaTable.UpdateLookup | src/metadata/bucket.cc:33-83 | after an update a lookup finds the new value for the key, and for any other key what it found before unless it was evicted |
| LbaTable.PromoteLookup | src/metadata/cache_policies/bucket_aware_lru.cc:14-44 | a promotion changes no lookup |
| LbaReferences.PromoteEventsExact | src/metadata/cache_policies/bucket_aware_lru.cc:20-29 | promoting into the core zone counts the entry once more and the one pushed out once less |
| LbaReferences.UpdateEventsExact | src/metadata/bucket.cc:60-82 | the bucket's own calls keep the core zone's share of the counter exact |
| LbaReferences.TouchKeepsExact | src/metadata/metadata_module.cc:104-150 | no request's dereference finds a zero count, and the counter stays exact up to the leak of the guard that skips a dereference |
| LbaReferences.RunKeepsExact | src/metadata/metadata_module.cc:104-150 | the same over any run over any number of buckets |
| LbaReferences.CountsNeverTooLow | src/metadata/metadata_module.cc:104-150 | from the empty index each hash's count is its slots, plus its core slots, plus what leaked, after any run |
| LbaReferences.LeaksIffVictimHasHash | src/metadata/metadata_module.cc:146-150 | a request leaks exactly when its key is new, its bucket full, and the evicted entry has the hash entered |
| LbaReferences.ThreeKeysLeak | src/metadata/metadata_module.cc:146-150 | three keys with one hash in an empty bucket of two slots: the counter ends with four references where three are due |
| LbaHistory.TouchRefinesLru | src/metadata/metadata_module.cc:104-123 | every request, hits included, is the LRU list's update of its bucket and leaves the other buckets alone |
| LbaHistory.TouchShifts | src/metadata/cache_policies/bucket_aware_lru.cc:14-44 | slot by slot: which slot is taken, that the slots above it move down and the pair is last, and that the key's old entry goes out of use |
| LbaHistory.RunRefinesLru | src/metadata/metadata_module.cc:104-150 | over any run each bucket is the LRU list of the requests made to it |
| LbaHistory.FoundIff | src/metadata/bucket.cc:33-83 | from the empty index a key is found, with the hash last recorded for it, exactly when fewer other keys than its bucket has slots were requested there since |
| LbaBucket.LbaBucket.Lookup | src/metadata/bucket.cc:33-43 | finds the valid slot with the signature, or none |
| LbaBucket.LbaBucket.PromoteSlot | src/metadata/cache_policies/bucket_aware_lru.cc:14-44 | the slot-by-slot shift on packed bytes is the table's promotion, with its counter calls |
| LbaBucket.LbaBucket.Allocate | src/metadata/cache_policies/bucket_aware_lru.cc:67-103 | the first free slot, or slot 0 after evicting its entry |
| LbaBucket.LbaBucket.Update | src/metadata/bucket.cc:54-83 | on packed bytes and with the counter's calls in order, computes the table's update and the displaced value |
| FpTable.UpdateMeaning | src/metadata/bucket.cc:128-158 | an update leaves the signature exactly n adjacent slots where the lookup finds them, and of every other signature all its slots or none |
| FpTable.LookupFindsAll | src/metadata/bucket.cc:99-118 | the lookup finds every slot of the signature |
| FpTable.UpdateOthers | src/metadata/bucket.cc:128-158 | any other signature is found where it was, apart from the new run, unless it was evicted |
| FpTable.UpdateStopsAtOnce | src/metadata/cache_policies/least_reference_count.cc:51-88 | the gap taken is the first that the evictions make, and without the last one evicted, which has as many references as any of them, there was none |
| FpTable.EvictedLess | src/metadata/cache_policies/least_reference_count.cc:43-87 | of two other signatures one that was evicted has no more references than one that stays |
| FpTable.ReachableOneRun | src/metadata/bucket.cc:128-158 | in every reachable bucket each signature's slots are adjacent, whatever the counts and ties were |
| FpTable.RunsListSignatures | src/metadata/cache_policies/least_reference_count.cc:22-41 | the allocator's list names each signature's run once |
| FpBucket.EvictNext | src/metadata/cache_policies/least_reference_count.cc:67-87 | evicting in the sorted order evicts only signatures with counts no greater than those that stay, each only because no gap was long enough |
| FpBucket.NextKey | src/metadata/cache_policies/least_reference_count.cc:51-88 | while there is no gap there is a signature left to evict, so the loop ends |
| FpBucket.HashOfParts | src/metadata/cache_policies/least_reference_count.cc:31-33 | the hash whose count is read for a signature of a bucket is the fingerprint hash that the index splits into that bucket number and signature |
| FpBucket.Sort | src/metadata/cache_policies/least_reference_count.cc:43-49 | a permutation in ascending order of counts, ties in any order |
| FpBucket.FpBucket.FindGap | src/metadata/cache_policies/least_reference_count.cc:54-65 | the first gap of n free slots, or none |
| FpBucket.FpBucket.ListRuns | src/metadata/cache_policies/least_reference_count.cc:19-41 | lists the runs with their reference counts |
| FpBucket.FpBucket.EvictRun | src/metadata/cache_policies/least_reference_count.cc:67-75 | puts one signature's slots out of use and no others |
| FpBucket.FpBucket.Allocate | src/metadata/cache_policies/least_reference_count.cc:15-91 | evicts least referenced signatures until the first long enough gap, and returns the first such gap |
| FpBucket.FpBucket.Lookup | src/metadata/bucket.cc:99-118 | the signature's first slot and how many slots it has |
| FpBucket.FpBucket.Update | src/metadata/bucket.cc:128-158 | drops the old run, allocates and takes the new one, on packed bytes |
| ExactCounter.MapReferenceCounter.Reference | src/metadata/reference_counter.cc:24-29 | adds one outstanding reference |
| ExactCounter.MapReferenceCounter.Dereference | src/metadata/reference_counter.cc:31-37 | takes one outstanding reference away |
| ExactCounter.MapReferenceCounter.Query | src/metadata/reference_counter.cc:16-22 | the number of outstanding references |
| Sketch.ReferenceExactIffRoom | src/metadata/reference_counter.cc:64-82 | a reference keeps every cell's count plus overflow equal to its load exactly when none of its four cells is at 65550 |
| Sketch.DereferenceExact | src/metadata/reference_counter.cc:84-102 | taking back an outstanding reference keeps the cells exact and never underflows one |
| Sketch.QueryAtLeastCount | src/metadata/reference_counter.cc:48-62 | an exact sketch never answers less than the exact count |
| Sketch.QueryIsLeastLoad | src/metadata/reference_counter.cc:48-62 | it answers the least load of the key's cells |
| Sketch.QueryIsLeastColliding | src/metadata/reference_counter.cc:48-62 | it answers the least number, over the four rows, of outstanding references whose row hash shares the key's column |
| Sketch.OverflowUndercounts | src/metadata/reference_counter.cc:72-77 | one reference more than a cell holds wraps the 16-bit overflow, from any exact sketch, and the sketch answers 15 |
| Sketch.RepeatedUndercounts | src/metadata/reference_counter.cc:64-82 | a run where that happens: 65551 references of one key from the cleared sketch are answered as 15 |
| Sketch.SketchNeverBelowCounter | src/metadata/reference_counter.cc:16-102 | over any balanced run within the cells' limit the sketch answers at least what the exact counter does |
| Sketch.RoomyNeverBelowCounter | src/metadata/reference_counter.cc:16-102 | the same for any calls the exact counter can make, while no reference meets a full cell |
| SketchCounter.SketchReferenceCounter.Query | src/metadata/reference_counter.cc:48-62 | on packed 4-bit cells and the overflow map, computes the sketch's answer |
| SketchCounter.SketchReferenceCounter.Reference | src/metadata/reference_counter.cc:64-82 | raises the key's four cells |
| SketchCounter.SketchReferenceCounter.Dereference | src/metadata/reference_counter.cc:84-102 | lowers the key's four cells |
| Index.OneTableChanged | src/metadata/index.cc:24-34 | a change inside one bucket's memory changes that bucket's table only |
| Index.HashIsBucketAndSignature | src/metadata/index.cc:119-123 | a hash is determined by its bucket number and its signature |
| Index.BucketMemory.GetBucket | src/metadata/index.h:79-85 | a bucket over its own part of the shared memory, which reads as that bucket's table |
| Index.LbaIndex.Lookup | src/metadata/index.cc:47-52 | the fingerprint hash recorded for an address hash |
| Index.LbaIndex.Promote | src/metadata/index.cc:54-59 | promotes in one bucket of the shared memory |
| Index.LbaIndex.Update | src/metadata/index.cc:62-70 | updates one bucket of the shared memory and returns the displaced hash |
| Index.FpIndex.Lookup | src/metadata/index.cc:119-132 | the run of a fingerprint hash, and where its data and metadata are on the device |
| Index.FpIndex.Update | src/metadata/index.cc:141-150 | updates one bucket of the shared memory, evicting no full hash with a higher count in the counter than one it keeps, and returns where the new run's data and metadata are on the device |
| Index.UpdateEvictsLeast | src/metadata/cache_policies/least_reference_count.cc:15-91 | of the full hashes cached in the bucket before, none evicted has a higher count in the counter than one kept |
| AcdcModel.NextKeepsInv | src/metadata/metadata_module.cc:53-150 | every request keeps: of the addresses a cached chunk lists, those whose current content has the chunk's hash have its fingerprint |
| AcdcModel.HitSafeIffHashCurrent | src/metadata/metadata_module.cc:81-102 | a hit is on a chunk with the fingerprint of the address's current content exactly when the LBA index holds that content's hash |
| AcdcModel.DistinctRunsHitCurrent | src/metadata/metadata_module.cc:53-150 | in runs over addresses with distinct LBA hashes no hit is on another content's chunk, whatever fingerprint hashes collide and whatever is evicted |
| AcdcModel.FirstRunsHitCurrent | src/metadata/metadata_module.cc:53-150 | the same from empty indexes and any disk |
| AcdcModel.CollidingHashesHitStale | src/metadata/metadata_module.cc:81-102 | two addresses with one LBA hash: three writes after which a read hits content that is not the address's |
| AcdcModel.RunCountsExact | src/metadata/metadata_module.cc:104-150 | the reference counter is exact up to the leak along every run of reads and writes of the whole engine |
| AcdcModel.EvictsLeastReferenced | src/metadata/metadata_module.cc:113-150 | new content evicts only chunks of its own bucket, and none to whose hash the LBA index has more references, with core slots, what leaked and what is about to be released, than to a hash it keeps |
| AcdcModel.SketchCoversSlots | src/metadata/metadata_module.cc:104-150 | along every run of the engine whose references meet no full cell, the sketch answers at least a hash's slots plus its core slots |
| AcdcModel.CacheKeepsEntry | src/metadata/meta_verification.cc:47-83 | deduplicating content keeps every cached chunk's metadata right, the new chunk's too |
| AcdcModel.AddLbaOk | src/metadata/meta_verification.cc:54-70 | listing one more address in the ring of 60 keeps the metadata right |
| AcdcModel.NextKeepsFresh | src/metadata/metadata_module.cc:104-120 | with distinct LBA hashes the LBA index holds the hash of every known address's current content |
| AcdcHistory.StepIsMostRecent | src/metadata/metadata_module.cc:104-123 | after any request, hit or miss, its address's entry is the most recent of its bucket, with the hash written, read or hit, and the bucket is the LRU list's update |
| AcdcHistory.RunRefinesLru | src/metadata/metadata_module.cc:104-150 | over any run of reads and writes each LBA bucket is the LRU list of what was recorded in it |
| AcdcHistory.KnownIff | src/metadata/index.cc:47-70 | from empty indexes an address is known exactly when fewer other signatures than its bucket has slots were requested there since, and then with the hash last recorded |
| AcdcHistory.HitIff | src/metadata/metadata_module.cc:81-102 | a read is a hit exactly when a slot of its LBA bucket names a hash whose first slot's metadata lists the address |
| AcdcHistory.AddKeepsRing | src/metadata/meta_verification.cc:54-70 | a chunk's metadata lists the last sixty of the addresses added to it, the next one over the oldest |
| AcdcHistory.RingLists | src/metadata/meta_verification.cc:8-45 | an address is listed exactly when it is among the last sixty added |
| AcdcHistory.CacheKeepsRing | src/metadata/meta_verification.cc:47-83 | deduplicated content adds its address to its chunk's list unless it is listed; new content starts a list of its own |
| AcdcSystem.NextKeepsSound | src/austere_cache/austere_cache_compression.cc:9-69 | every request keeps each cached chunk's slots on the device holding as much of what is stored for its content as fits them |
| AcdcSystem.AdmittedElsewhere | src/manage/manage_module.cc:105-117 | writing new content to the device changes no other cached chunk's metadata, slots or bytes |
| AcdcSystem.AdmissionStores | src/compression/compression_module.cc:26-53 | new content has the codec's output length if that is used, the slots of the chunk a read met or else the fewest that hold the output or all of them, and as bytes the output or the content itself |
| AcdcSystem.CachedIsNotRewritten | src/metadata/metadata_module.cc:66-78 | content that is cached already changes neither the device, the fingerprint buckets nor any chunk's fingerprint or length |
| AcdcSystem.WholeAnswer | src/manage/manage_module.cc:56-64 | reading all the slots that content needs gives the same block whatever the buffers held |
| AcdcSystem.HitServesIff | src/austere_cache/austere_cache_compression.cc:9-22 | a hit returns the address's current content, whatever the buffers held, exactly when the chunk's content has all its slots and decodes to it; for content told from compressed data, exactly when the LBA index holds the current hash and the chunk has the slots the content needs |
| AcdcSystem.ShortIffStarves | src/austere_cache/austere_cache_compression.cc:24-38 | new content gets fewer slots than it needs exactly when a read misses, its hash has a chunk of another content, and that chunk has fewer slots |
| AcdcSystem.NextKeepsWholeIff | src/austere_cache/austere_cache_compression.cc:9-69 | a request keeps every cached chunk whole exactly when it does not meet that guard and its content is told from compressed data |
| AcdcSystem.ReadBackIff | src/austere_cache/austere_cache_compression.cc:24-38 | after a miss or a write, reading the address again is a hit, and returns the content whatever the buffers held exactly when the request did not meet the guard |
| AcdcSystem.NeverSpoilsTransparent | src/austere_cache/austere_cache.cc:43-67 | over addresses with distinct LBA hashes a write-through run that never meets the guard is answered as the plain disk answers it |
| AcdcSystem.TransparentIffNeverSpoils | src/austere_cache/austere_cache.cc:43-67 | a run never meets the guard exactly when each part of it followed by any one request is answered as by the plain disk, whatever the buffers held |
| AcdcSystem.WriteThroughTransparent | src/austere_cache/austere_cache.cc:43-67 | from empty indexes, any disk and any bytes on the device |
| AcdcSystem.UncompressedTransparent | src/compression/compression_module.cc:32-49 | with compression off no request meets the guard, so every such run is answered as by the plain disk |
| AcdcSystem.FourSubchunksDecode | src/compression/compression_module.cc:42-52 | with four subchunks or more, or compression off, all content is told from compressed data |
| AcdcSystem.TwoSubchunksGarble | src/compression/compression_module.cc:50-52 | with two subchunks, content compressed to more than one is stored as it is and then decompressed into another block |
| AcdcSystem.SmallerNeighbourTruncates | src/metadata/index.cc:119-132 | distinct LBA hashes and empty indexes: write smaller content with the same fingerprint hash elsewhere, read, and read again; the second read is a hit on the right fingerprint with too few slots, and wrong for some buffers |
| AcdcSystem.TruncatedAnswer | src/manage/manage_module.cc:56-64 | such a hit on uncompressed content returns the content's first slots and then what the buffer held |
| AcdcIndex.MetaVerification.Verify | src/metadata/meta_verification.cc:8-45 | reads the metadata and compares its address list and fingerprint with the chunk's |
| AcdcIndex.MetaVerification.Update | src/metadata/meta_verification.cc:47-83 | appends to the ring, or writes new metadata with the compressed length |
| AcdcIndex.MetadataModule.Lookup | src/metadata/metadata_module.cc:81-102 | computes the model's hit on the packed indexes, with its slots, location and compressed length |
| AcdcIndex.MetadataModule.Dedup | src/metadata/metadata_module.cc:53-79 | finds whether the content is a duplicate |
| AcdcIndex.MetadataModule.UpdateMiss | src/metadata/metadata_module.cc:113-150 | computes the model's step, keeping the counter exact and evicting by the counts it holds once the LBA index is updated, and returns where new content goes |
| AcdcIndex.MetadataModule.UpdateHit | src/metadata/metadata_module.cc:109-111 | promotes the address, keeping the counter exact |
| AcdcIndex.AustereCache.Compress | src/compression/compression_module.cc:26-53 | the compressed length, the slots needed and the buffer to be written from; content that needs all subchunks stays as it is |
| AcdcIndex.AustereCache.ReadCached | src/manage/manage_module.cc:56-64 | reads as many slots as the chunk has, over what the buffer held, and decompresses if there is a compressed length |
| AcdcIndex.AustereCache.WriteCached | src/manage/manage_module.cc:110-114 | writes as many slots as the chunk was given from the buffer it was compressed into |
| AcdcIndex.AustereCache.InternalRead | src/austere_cache/austere_cache_compression.cc:9-44 | one read on the packed indexes and the device's bytes is a step of the model, its eviction following the counter, keeps its invariant and returns the model's block; from a clean state that is the disk's chunk |
| AcdcIndex.AustereCache.InternalWrite | src/austere_cache/austere_cache_compression.cc:46-69 | one write-through write, with the compressed content written to the device, is a step of the model, its eviction following the counter, and keeps its invariant |
| AcdcIndex.NewCache | src/metadata/metadata_module.cc:18-25 | the engine starts with empty indexes over any disk and any bytes of the device, and with the invariant |
| Locks.NextKeepsInv | src/metadata/metadata_module.cc:53-102 | a bucket's lock is held by exactly the thread that uses the bucket |
| Locks.BucketsUsedAlone | src/metadata/index.cc:152-185 | no two threads use one bucket, and a fingerprint bucket is used only under an LBA bucket's lock |
| Locks.SomeThreadRuns | src/metadata/metadata_module.cc:53-102 | whatever lookups and verifications answer, some unfinished thread can step: no deadlock |
| Locks.SchedulesAreShort | src/austere_cache/austere_cache.cc:43-67 | every interleaving is finite, at most six steps for each chunk |
| Locks.StoppedIsFinished | src/austere_cache/austere_cache.cc:43-67 | an interleaving that cannot go on has processed every chunk and holds no lock |
| Locks.ChunkUsesOwnBucket | src/metadata/metadata_module.cc:53-102 | a thread leaves a chunk only after it updated the fingerprint bucket of the chunk's content under its lock, unless the chunk is a read whose verification succeeded |
| SsdLayout.MetadataFromCachedata | src/metadata/index.cc:94-117 | a chunk's metadata location is recovered from its data location, for every bucket and slot |
| SsdLayout.ExtentsApart | src/metadata/index.cc:94-107 | two runs of slots that do not overlap have disjoint data extents and metadata |
| SsdLayout.ExtentInside | src/metadata/index.cc:94-107 | a run's data lies past the metadata region and inside the device |
| SsdLayout.BucketsFit | src/common/config.h:81-83 | the number of buckets the configuration computes fits the cache |
| SsdLayout.LocationsDistinctIffNumbersFit | src/metadata/index.cc:94-101 | slots have locations of their own exactly when 32 bits number them all |
| SsdLayout.WrappedSlot | src/metadata/index.cc:94-101 | with more slots, slot 2^32 is placed on slot 0 |
| SsdLayout.LiveChunksApart | src/metadata/index.cc:94-107 | any two cached chunks of any fingerprint buckets have their data and metadata apart |

## Left out

- CdarcIndex.CdarcLbaIndex: holds the five lists as one value rather than as five fields updated one by one; the fields are modelled for D-ARC in DarcIndex, and the code is the same file.
- AcdcIndex.MetadataModule: passes the chunk from method to method as a value instead of updating one shared record, and does not model the chunk's lock objects; Locks models those.
- AcdcModel.HitSafeIffHashCurrent: says which fingerprint a hit is on; which bytes it returns is said by AcdcSystem.HitServesIff.
- AcdcIndex.MetaVerification.Update: writes metadata to a map from slots, not to 512 bytes of the device.
- SketchCounter.ReferenceCounter: only its query is used by the fingerprint buckets, with either counter; the LBA buckets and the metadata module are proved with the exact counter, and AcdcModel.SketchCoversSlots carries what they keep over to the sketch. Which slots are evicted is left open in the hit theorems, so they hold with either counter.
- FpBucket.Sort: stands for the library's sort, of which only order and permutation are used.
- FpBucket.FpBucket.Update: requires the requested slots to be no more than the bucket has; beyond that the source reads an empty list.
- LbaBucket.LbaBucket.Update: does not model the global configuration that could switch core-zone counting off, because the AC-DC default has it on.
- Widths of identifiers other than slot numbers, cells, overflow entries and bit fields: unit numbers, offsets and counts are unbounded naturals.
- Multi-slot use of the LRU policy, the compact-policy-off mode, obsolete-entry clearing and the debug checks.
- The D-LRU engines, which are plain LRU twins of D-ARC.
- Write-back in AC-DC and CD-ARC, the background flush thread and shutdown.
- Device I/O, journalling, LZ4, hashing, statistics, timers, configuration parsing and trace replay.
- Exits and asserts on impossible entries are preconditions here, proved to hold wherever the engine calls.
