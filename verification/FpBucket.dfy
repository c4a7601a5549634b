/** The fingerprint bucket on its packed slots, with the allocator that evicts by reference count. */
module FpBucket {
  import opened Common
  import opened Bits
  import opened Bitmap
  import opened Bucket
  import opened FpTable
  import opened SketchCounter

  /** The fingerprint hash of a signature in a bucket. */
  function HashOf(bucketId: nat, bits: nat, key: nat): nat {
    Or(Shl(bucketId, bits), key)
  }

  /** That is the hash that the index splits into the bucket's number and the signature. */
  lemma HashOfParts(h: nat, bits: nat)
    ensures HashOf(Shr(h, bits), bits, And(h, LowMask(bits))) == h
  {
    var r := HashOf(Shr(h, bits), bits, And(h, LowMask(bits)));
    forall i: nat ensures Bit(r, i) <==> Bit(h, i) {
      OrBit(Shl(Shr(h, bits), bits), And(h, LowMask(bits)), i);
      ShlBit(Shr(h, bits), bits, i);
      AndBit(h, LowMask(bits), i);
      LowMaskBit(bits, i);
      if i >= bits { ShrBit(h, bits, i - bits); }
    }
    SameBits(r, h);
  }

  /** The counts of a bucket's signatures. */
  function CountsOf(counts: nat -> nat, bucketId: nat, bits: nat): nat -> nat {
    (key: nat) => counts(HashOf(bucketId, bits, key))
  }

  // ----- Sorting

  ghost predicate Ascending(runs: seq<Run>) {
    forall i, j :: 0 <= i < j < |runs| ==> runs[i].count <= runs[j].count
  }

  /** The library's sort: a permutation in ascending order of counts, ties in any order. */
  method Sort(runs: seq<Run>) returns (r: seq<Run>)
    ensures multiset(r) == multiset(runs) && Ascending(r)
  {
    if runs == [] {
      r := [];
    } else {
      assert runs == [runs[0]] + runs[1..];
      var rest := Sort(runs[1..]);
      r := Insert(runs[0], rest);
    }
  }

  lemma Inserted(runs: seq<Run>, i: nat, x: Run, r: seq<Run>)
    requires Ascending(runs) && i <= |runs| && r == runs[..i] + [x] + runs[i..]
    requires forall j :: 0 <= j < |runs| ==> if j < i then runs[j].count <= x.count else x.count <= runs[j].count
    ensures Ascending(r)
  {
    forall j, k | 0 <= j < k < |r| ensures r[j].count <= r[k].count {
      assert r[j] == if j < i then runs[j] else if j == i then x else runs[j - 1];
      assert r[k] == if k < i then runs[k] else if k == i then x else runs[k - 1];
    }
  }

  lemma InsertedMultiset(runs: seq<Run>, i: nat, x: Run)
    requires i <= |runs|
    ensures multiset(runs[..i] + [x] + runs[i..]) == multiset{x} + multiset(runs)
  {
    assert runs == runs[..i] + runs[i..];
  }

  method Insert(x: Run, runs: seq<Run>) returns (r: seq<Run>)
    requires Ascending(runs)
    ensures multiset(r) == multiset{x} + multiset(runs) && Ascending(r)
  {
    var i := 0;
    while i < |runs| && runs[i].count < x.count
      invariant i <= |runs| && forall j :: 0 <= j < i ==> runs[j].count < x.count
    {
      i := i + 1;
    }
    r := runs[..i] + [x] + runs[i..];
    Inserted(runs, i, x, r);
    InsertedMultiset(runs, i, x);
  }

  // ----- Listing survives sorting

  lemma {:induction false} Occurs(runs: seq<Run>, i: nat, j: nat)
    requires i < j < |runs| && runs[i] == runs[j]
    ensures multiset(runs)[runs[i]] >= 2
  {
    assert runs == runs[..j] + [runs[j]] + runs[j + 1..];
    assert runs[..j][i] in multiset(runs[..j]);
  }

  lemma {:induction false} OccursOnce(t: Table, count: nat -> nat, runs: seq<Run>, x: Run)
    requires Lists(t, count, runs)
    ensures multiset(runs)[x] <= 1
  {
    if runs != [] {
      assert runs == [runs[0]] + runs[1..];
      forall i, j | 0 <= i < j < |runs[1..]| ensures t[runs[1..][i].start].key != t[runs[1..][j].start].key {
        assert runs[1..][i] == runs[i + 1] && runs[1..][j] == runs[j + 1];
      }
      OccursOnce(t, count, runs[1..], x);
    }
  }

  lemma SameMembers(runs: seq<Run>, r: seq<Run>)
    requires multiset(r) == multiset(runs)
    ensures forall x :: x in r <==> x in runs
  {
    forall x ensures x in r <==> x in runs {
      assert x in multiset(r) <==> x in r;
      assert x in multiset(runs) <==> x in runs;
    }
  }

  lemma SortedLists(t: Table, count: nat -> nat, runs: seq<Run>, r: seq<Run>)
    requires Lists(t, count, runs) && multiset(r) == multiset(runs)
    ensures Lists(t, count, r) && Listed(t, r) == Listed(t, runs)
  {
    SameMembers(runs, r);
    forall i, j | 0 <= i < j < |r| ensures t[r[i].start].key != t[r[j].start].key {
      assert r[i] in runs && r[j] in runs;
      if r[i] == r[j] {
        Occurs(r, i, j);
        OccursOnce(t, count, runs, r[i]);
        assert false;
      }
      var k, l :| 0 <= k < |runs| && 0 <= l < |runs| && runs[k] == r[i] && runs[l] == r[j];
      assert k != l;
    }
  }

  // ----- Evicting in order

  /** Between evictions: the signatures not yet gone are listed in ascending order of their counts. */
  ghost predicate Evicting(t: Table, n: nat, count: nat -> nat, gone: set<nat>, rest: seq<Run>) {
    && gone <= Signatures(t)
    && Lists(t, count, rest) && Ascending(rest) && Listed(t, rest) == Signatures(t) - gone
    && (forall k, stays :: k in gone && stays in Signatures(t) - gone ==> count(k) <= count(stays))
    && (gone != {} ==> exists last :: LastEvicted(t, n, count, gone, last))
  }

  lemma TailLists(t: Table, count: nat -> nat, runs: seq<Run>)
    requires Lists(t, count, runs) && Ascending(runs) && runs != []
    ensures Lists(t, count, runs[1..]) && Ascending(runs[1..])
    ensures Listed(t, runs[1..]) == Listed(t, runs) - {t[runs[0].start].key}
    ensures forall k :: k in Listed(t, runs) ==> runs[0].count <= count(k)
  {
    var rest := runs[1..];
    assert forall i :: 0 <= i < |rest| ==> rest[i] == runs[i + 1];
    TailListed(t, count, runs, rest);
    forall k | k in Listed(t, runs) ensures runs[0].count <= count(k) {
      var i :| 0 <= i < |runs| && t[runs[i].start].key == k;
      assert runs[i] in runs;
    }
  }

  lemma TailListed(t: Table, count: nat -> nat, runs: seq<Run>, rest: seq<Run>)
    requires Lists(t, count, runs) && |runs| == |rest| + 1 && forall i :: 0 <= i < |rest| ==> rest[i] == runs[i + 1]
    ensures forall r :: r in rest ==> r in runs
    ensures Listed(t, rest) == Listed(t, runs) - {t[runs[0].start].key}
  {
    var key := t[runs[0].start].key;
    forall r | r in rest ensures r in runs {
      var i :| 0 <= i < |rest| && rest[i] == r;
      assert runs[i + 1] == r;
    }
    forall k | k in Listed(t, runs) && k != key ensures k in Listed(t, rest) {
      var i :| 0 <= i < |runs| && t[runs[i].start].key == k;
      assert rest[i - 1] == runs[i] && rest[i - 1] in rest;
    }
    forall k | k in Listed(t, rest) ensures k in Listed(t, runs) && k != key {
      var i :| 0 <= i < |rest| && t[rest[i].start].key == k;
      assert rest[i] == runs[i + 1] && runs[i + 1] in runs;
    }
  }

  /** One more eviction, made because there is no gap yet. */
  lemma EvictNext(t: Table, n: nat, count: nat -> nat, gone: set<nat>, rest: seq<Run>)
    requires Evicting(t, n, count, gone, rest) && rest != [] && NoGap(Dropped(t, gone), n)
    ensures Evicting(t, n, count, gone + {t[rest[0].start].key}, rest[1..])
  {
    var key := t[rest[0].start].key;
    assert rest[0] in rest && key in Listed(t, rest);
    TailLists(t, count, rest);
    assert gone + {key} - {key} == gone;
    assert LastEvicted(t, n, count, gone + {key}, key);
  }

  /** With every signature gone the whole bucket is one gap. */
  lemma AllGone(t: Table, n: nat, keys: set<nat>)
    requires n <= |t| && Signatures(t) <= keys
    ensures FreeAt(Dropped(t, keys), 0, n)
  {
    forall i | 0 <= i < |t| ensures !Dropped(t, keys)[i].valid {
      if t[i].valid { assert t[i].key in Signatures(t); }
    }
  }

  /** Slots [s, e) out of use. */
  function Cleared(t: Table, s: nat, e: nat): (r: Table)
    requires s <= e <= |t|
    ensures |r| == |t| && forall i :: 0 <= i < |t| ==> r[i] == if s <= i < e then t[i].(valid := false) else t[i]
    decreases e
  {
    if e == s then t
    else
      var r := Cleared(t, s, e - 1);
      r[e - 1 := r[e - 1].(valid := false)]
  }

  /** In a bucket of runs, clearing a signature's run drops the signature. */
  lemma ClearedIsDropped(t: Table, key: nat)
    requires OneRun(t) && Find(t, key) < |t|
    ensures var s := Find(t, key); Cleared(t, s, RunEnd(t, s, key)) == Dropped(t, {key})
  {
    LookupFindsAll(t, key);
    var s := Find(t, key);
    forall i: nat | i < |t| ensures Has(t, i, key) <==> s <= i < RunEnd(t, s, key) {}
    var c, d := Cleared(t, s, RunEnd(t, s, key)), Dropped(t, {key});
    forall i | 0 <= i < |t| ensures c[i] == d[i] {
      assert Has(t, i, key) <==> s <= i < RunEnd(t, s, key);
    }
  }

  lemma Regroup(a: seq<Run>, x: Run, b: seq<Run>)
    ensures a + ([x] + b) == (a + [x]) + b
  {
  }

  // ----- The bucket

  class FpBucket {
    const bucket: Bucket
    const bucketId: nat
    const counter: ReferenceCounter

    constructor (bucket: Bucket, bucketId: nat, counter: ReferenceCounter)
      ensures this.bucket == bucket && this.bucketId == bucketId && this.counter == counter
    {
      this.bucket, this.bucketId, this.counter := bucket, bucketId, counter;
    }

    ghost predicate Valid()
      reads counter.exact, counter.sketch, counter.sketch.sketch.data, bucket.data.data, bucket.valid.data
    {
      && bucket.Valid() && counter.Valid() && OneRun(Slots())
      && counter.sketch.sketch.data != bucket.data.data && counter.sketch.sketch.data != bucket.valid.data
    }

    ghost function Slots(): Table
      requires bucket.Valid()
      reads bucket.data.data, bucket.valid.data
    {
      bucket.Slots()
    }

    /** The reference counts of the bucket's signatures. */
    ghost function Counts(): nat -> nat
      reads counter.exact, counter.sketch, counter.sketch.sketch.data
    {
      CountsOf(counter.Counts(), bucketId, bucket.nBitsPerKey)
    }

    method HasKey(i: nat, key: nat) returns (r: bool)
      requires bucket.Valid() && i < bucket.nSlots
      ensures r == Has(Slots(), i, key)
    {
      r := bucket.IsValid(i);
      if r {
        var k := bucket.GetKey(i);
        r := k == key;
      }
    }

    method Lookup(fpSignature: nat) returns (run: Option<(nat, nat)>)
      requires bucket.Valid()
      ensures run == FpTable.Lookup(Slots(), fpSignature)
    {
      ghost var t := Slots();
      var i := FirstSlot(fpSignature);
      var end := EndOfRun(i, fpSignature);
      LookupIs(t, fpSignature, i, end);
      run := if i == bucket.nSlots then None else Some((i, end - i));
    }

    method FirstSlot(key: nat) returns (i: nat)
      requires bucket.Valid()
      ensures i == Find(Slots(), key)
    {
      ghost var t := Slots();
      i := 0;
      while i < bucket.nSlots
        invariant i <= bucket.nSlots
        invariant forall j :: 0 <= j < i ==> !(t[j].valid && t[j].key == key)
      {
        var found := HasKey(i, key);
        if found { break; }
        i := i + 1;
      }
    }

    /** Walk along a run. */
    method EndOfRun(i: nat, key: nat) returns (end: nat)
      requires bucket.Valid() && i <= bucket.nSlots
      ensures end == RunEnd(Slots(), i, key)
    {
      ghost var t := Slots();
      end := i;
      while end < bucket.nSlots
        invariant i <= end <= bucket.nSlots && RunEnd(t, end, key) == RunEnd(t, i, key)
      {
        var more := HasKey(end, key);
        if !more { break; }
        end := end + 1;
      }
    }

    /** The list's entry for the run that begins at `i`. */
    method ListRun(i: nat) returns (run: Run, end: nat)
      requires Valid() && i < bucket.nSlots && Slots()[i].valid
      ensures i < end <= bucket.nSlots
      ensures RunsFrom(Slots(), Counts(), i) == [run] + RunsFrom(Slots(), Counts(), end)
    {
      var key := bucket.GetKey(i);
      var n := counter.Query(HashOf(bucketId, bucket.nBitsPerKey, key));
      assert Has(Slots(), i, key);
      end := EndOfRun(i, key);
      run := Run(i, n, end - i);
    }

    /** Pass a free slot, or list the run that begins there. */
    method ListNext(runs: seq<Run>, i: nat) returns (r: seq<Run>, next: nat)
      requires Valid() && i < bucket.nSlots
      ensures i < next <= bucket.nSlots
      ensures r + RunsFrom(Slots(), Counts(), next) == runs + RunsFrom(Slots(), Counts(), i)
    {
      var valid := bucket.IsValid(i);
      if !valid {
        r, next := runs, i + 1;
      } else {
        var run, end := ListRun(i);
        Regroup(runs, run, RunsFrom(Slots(), Counts(), end));
        r, next := runs + [run], end;
      }
    }

    /** List the runs with their reference counts. */
    method ListRuns() returns (runs: seq<Run>)
      requires Valid()
      ensures runs == RunsFrom(Slots(), Counts(), 0)
    {
      runs := [];
      var i := 0;
      while i < bucket.nSlots
        invariant i <= bucket.nSlots && runs + RunsFrom(Slots(), Counts(), i) == RunsFrom(Slots(), Counts(), 0)
      {
        runs, i := ListNext(runs, i);
      }
    }

    /** Look for `n` adjacent free slots from slot 0 on. */
    method FindGap(n: nat) returns (slotId: nat, available: nat)
      requires bucket.Valid()
      ensures available >= n ==> available <= slotId && FirstGap(Slots(), slotId - available, n)
      ensures available < n ==> NoGap(Slots(), n)
    {
      ghost var t := Slots();
      slotId, available := 0, 0;
      while slotId < bucket.nSlots && available < n
        invariant available <= slotId <= bucket.nSlots && available <= n
        invariant forall i :: slotId - available <= i < slotId ==> !t[i].valid
        invariant forall s: nat :: s < slotId - available ==> !FreeAt(t, s, n)
      {
        var valid := bucket.IsValid(slotId);
        if valid {
          forall s: nat | s <= slotId ensures !FreeAt(t, s, n) {
            if s >= slotId - available { assert t[slotId].valid; }
          }
        }
        available := if valid then 0 else available + 1;
        slotId := slotId + 1;
      }
    }

    /** Put slots [s, e) out of use. */
    method Clear(s: nat, e: nat)
      requires bucket.Valid() && s <= e <= bucket.nSlots
      modifies bucket.valid.data
      ensures Slots() == Cleared(old(Slots()), s, e) && bucket.Others() == old(bucket.Others())
    {
      ghost var t := Slots();
      var i := s;
      while i < e
        invariant s <= i <= e && Slots() == Cleared(t, s, i) && bucket.Others() == old(bucket.Others())
      {
        bucket.SetInvalid(i);
        i := i + 1;
      }
    }

    /** Evict the run that begins at `start`. */
    method EvictRun(start: nat)
      requires bucket.Valid() && OneRun(Slots()) && start < bucket.nSlots && Slots()[start].valid
      requires start == Find(Slots(), Slots()[start].key)
      modifies bucket.valid.data
      ensures Slots() == Dropped(old(Slots()), {old(Slots())[start].key}) && bucket.Others() == old(bucket.Others())
    {
      ghost var t := Slots();
      var key := bucket.GetKey(start);
      ClearedIsDropped(t, key);
      var end := EndOfRun(start, key);
      Clear(start, end);
    }

    /** Evict the least referenced runs until there are `n` adjacent free slots; the first such gap is returned. */
    method Allocate(n: nat) returns (slotId: nat, ghost gone: set<nat>)
      requires Valid() && n <= bucket.nSlots
      modifies bucket.valid.data
      ensures bucket.Valid() && bucket.Others() == old(bucket.Others())
      ensures Slots() == Dropped(old(Slots()), gone) && Allocates(old(Slots()), n, old(Counts()), gone, slotId)
    {
      ghost var t, count := Slots(), Counts();
      var runs := ListRuns();
      RunsListSignatures(t, count);
      var order := Sort(runs);
      SortedLists(t, count, runs, order);
      gone := {};
      assert Dropped(t, gone) == t;
      var available;
      slotId, available := FindGap(n);
      while available < n
        invariant Slots() == Dropped(t, gone) && bucket.Others() == old(bucket.Others())
        invariant Evicting(t, n, count, gone, order)
        invariant available >= n ==> available <= slotId && FirstGap(Slots(), slotId - available, n)
        invariant available < n ==> NoGap(Slots(), n)
        decreases |order|
      {
        ghost var key := NextKey(t, n, count, gone, order);
        EvictRun(order[0].start);
        DropTwice(t, gone, {key});
        gone := gone + {key};
        order := order[1..];
        slotId, available := FindGap(n);
      }
      slotId := slotId - available;
    }

    /** The signature's old run is dropped, `gone` are evicted, and it takes `n` slots from the one returned. */
    method Update(fpSignature: nat, nSlotsToOccupy: nat) returns (slotId: nat, ghost gone: set<nat>)
      requires Valid() && nSlotsToOccupy <= bucket.nSlots && fpSignature <= LowMask(bucket.nBitsPerKey)
      modifies bucket.data.data, bucket.valid.data
      ensures Valid() && bucket.Others() == old(bucket.Others())
      ensures Updates(old(Slots()), fpSignature, nSlotsToOccupy, old(Counts()), gone, slotId, Slots())
    {
      ghost var t, count := Slots(), Counts();
      DroppedOneRun(t, {fpSignature});
      DropOld(fpSignature);
      slotId, gone := Allocate(nSlotsToOccupy);
      Take(slotId, nSlotsToOccupy, fpSignature);
      UpdateMeaning(t, fpSignature, nSlotsToOccupy, count, gone, slotId, Slots());
    }

    /** Put the slots of the signature out of use. */
    method DropOld(fpSignature: nat)
      requires bucket.Valid() && OneRun(Slots())
      modifies bucket.valid.data
      ensures Slots() == Dropped(old(Slots()), {fpSignature}) && bucket.Others() == old(bucket.Others())
    {
      ghost var t := Slots();
      var run := Lookup(fpSignature);
      LookupToDrop(t, fpSignature);
      if run.Some? {
        Clear(run.value.0, run.value.0 + run.value.1);
      }
    }

    method Take(s: nat, n: nat, key: nat)
      requires bucket.Valid() && s + n <= bucket.nSlots && key <= LowMask(bucket.nBitsPerKey)
      modifies bucket.data.data, bucket.valid.data
      ensures Slots() == Taken(old(Slots()), s, n, key) && bucket.Others() == old(bucket.Others())
    {
      ghost var t := Slots();
      var i := s;
      while i < s + n
        invariant s <= i <= s + n && Slots() == Taken(t, s, i - s, key) && bucket.Others() == old(bucket.Others())
      {
        bucket.SetKey(i, key);
        bucket.SetValid(i);
        i := i + 1;
      }
    }
  }

  lemma LookupIs(t: Table, key: nat, i: nat, end: nat)
    requires i == Find(t, key) && end == RunEnd(t, i, key)
    ensures FpTable.Lookup(t, key) == if i == |t| then None else Some((i, end - i))
  {
  }

  /** Clearing what the lookup finds drops the signature. */
  lemma LookupToDrop(t: Table, key: nat)
    requires OneRun(t)
    ensures var l := FpTable.Lookup(t, key);
            if l.None? then Dropped(t, {key}) == t
            else l.value.0 + l.value.1 <= |t| && Cleared(t, l.value.0, l.value.0 + l.value.1) == Dropped(t, {key})
  {
    LookupFindsAll(t, key);
    if FpTable.Lookup(t, key).None? { NothingToDrop(t, key); } else { ClearedIsDropped(t, key); }
  }

  lemma NothingToDrop(t: Table, key: nat)
    requires key !in Signatures(t)
    ensures Dropped(t, {key}) == t
  {
    forall i | 0 <= i < |t| ensures Dropped(t, {key})[i] == t[i] {
      assert t[i].valid ==> t[i].key in Signatures(t);
    }
  }

  /** Without a gap there is a run left to evict, still whole. */
  lemma NextKey(t: Table, n: nat, count: nat -> nat, gone: set<nat>, rest: seq<Run>) returns (key: nat)
    requires OneRun(t) && n <= |t| && Evicting(t, n, count, gone, rest) && NoGap(Dropped(t, gone), n)
    ensures rest != [] && rest[0].start < |t| && key == t[rest[0].start].key
    ensures var d := Dropped(t, gone);
            OneRun(d) && d[rest[0].start].valid && d[rest[0].start].key == key && rest[0].start == Find(d, key)
    ensures Evicting(t, n, count, gone + {key}, rest[1..])
  {
    if rest == [] {
      assert Listed(t, rest) == {};
      forall k | k in Signatures(t) ensures k in gone { assert k !in Signatures(t) - gone; }
      AllGone(t, n, gone);
    }
    key := t[rest[0].start].key;
    assert rest[0] in rest && key in Listed(t, rest);
    DroppedOneRun(t, gone);
    EvictNext(t, n, count, gone, rest);
  }
}
