/**
 One fingerprint bucket of the AC-DC engine on values: each signature takes a run of adjacent slots, and room is
 made by evicting whole signatures, least referenced first, until the first gap that is long enough appears.
 */
module FpTable {
  import opened Common

  predicate Has(t: Table, i: nat, key: nat) {
    i < |t| && t[i].valid && t[i].key == key
  }

  /** The signatures in the bucket. */
  function Signatures(t: Table): set<nat> {
    set i | 0 <= i < |t| && t[i].valid :: t[i].key
  }

  /** Each signature's slots are adjacent. */
  ghost predicate OneRun(t: Table) {
    forall i: nat, j: nat, k: nat :: i <= j <= k && i < |t| && Has(t, k, t[i].key) && t[i].valid ==> Has(t, j, t[i].key)
  }

  /** The end of the run of `key` that begins at `i`. */
  function RunEnd(t: Table, i: nat, key: nat): (e: nat)
    requires i <= |t|
    ensures i <= e <= |t|
    ensures forall j: nat :: i <= j < e ==> Has(t, j, key)
    ensures !Has(t, e, key)
    decreases |t| - i
  {
    if Has(t, i, key) then RunEnd(t, i + 1, key) else i
  }

  // ----- Gaps

  ghost predicate FreeAt(t: Table, s: nat, n: nat) {
    s + n <= |t| && forall i :: s <= i < s + n ==> !t[i].valid
  }

  ghost predicate NoGap(t: Table, n: nat) {
    forall s: nat :: !FreeAt(t, s, n)
  }

  ghost predicate FirstGap(t: Table, s: nat, n: nat) {
    FreeAt(t, s, n) && forall r: nat :: r < s ==> !FreeAt(t, r, n)
  }

  // ----- Eviction

  /** The bucket without some signatures: their slots are no longer valid. */
  function Dropped(t: Table, keys: set<nat>): (r: Table)
    ensures |r| == |t|
    ensures forall i :: 0 <= i < |t| ==> r[i] == if t[i].key in keys then t[i].(valid := false) else t[i]
  {
    seq(|t|, i requires 0 <= i < |t| => if t[i].key in keys then t[i].(valid := false) else t[i])
  }

  /** The slots from `s` taken by `key`. */
  function Taken(t: Table, s: nat, n: nat, key: nat): (r: Table)
    requires s + n <= |t|
    ensures |r| == |t|
    ensures forall i :: 0 <= i < |t| ==> r[i] == if s <= i < s + n then t[i].(valid := true, key := key) else t[i]
    decreases n
  {
    if n == 0 then t
    else
      var r := Taken(t, s, n - 1, key);
      r[s + n - 1 := r[s + n - 1].(valid := true, key := key)]
  }

  /**
   Evicting `gone` from `t` is what allocating `n` slots does: the gone are signatures of the bucket with counts no
   greater than any that stay, the gap at `s` is the first there is, and before the last eviction there was none.
   */
  ghost predicate Allocates(t: Table, n: nat, count: nat -> nat, gone: set<nat>, s: nat) {
    && gone <= Signatures(t)
    && (forall k, stays :: k in gone && stays in Signatures(t) - gone ==> count(k) <= count(stays))
    && FirstGap(Dropped(t, gone), s, n)
    && (gone != {} ==> exists last :: LastEvicted(t, n, count, gone, last))
  }

  ghost predicate LastEvicted(t: Table, n: nat, count: nat -> nat, gone: set<nat>, last: nat) {
    last in gone && NoGap(Dropped(t, gone - {last}), n) && forall k :: k in gone ==> count(k) <= count(last)
  }

  /** An update of `key` to `n` slots drops its old run, evicts `gone`, and takes the gap. */
  ghost predicate Updates(t: Table, key: nat, n: nat, count: nat -> nat, gone: set<nat>, s: nat, r: Table) {
    && Allocates(Dropped(t, {key}), n, count, gone, s)
    && r == Taken(Dropped(Dropped(t, {key}), gone), s, n, key)
  }

  lemma DropTwice(t: Table, a: set<nat>, b: set<nat>)
    ensures Dropped(Dropped(t, a), b) == Dropped(t, a + b)
  {
  }

  lemma DroppedSignatures(t: Table, keys: set<nat>)
    ensures Signatures(Dropped(t, keys)) == Signatures(t) - keys
  {
    var r := Dropped(t, keys);
    forall k | k in Signatures(t) - keys ensures k in Signatures(r) {
      var i :| 0 <= i < |t| && t[i].valid && t[i].key == k;
      assert r[i].valid;
    }
  }

  lemma DroppedHas(t: Table, keys: set<nat>, i: nat, key: nat)
    ensures Has(Dropped(t, keys), i, key) <==> Has(t, i, key) && key !in keys
  {
  }

  lemma DroppedOneRun(t: Table, keys: set<nat>)
    requires OneRun(t)
    ensures OneRun(Dropped(t, keys))
  {
    var r := Dropped(t, keys);
    forall i: nat, j: nat, k: nat | i <= j <= k && i < |r| && Has(r, k, r[i].key) && r[i].valid
      ensures Has(r, j, r[i].key)
    {
      DroppedHas(t, keys, k, r[i].key);
      assert Has(t, j, t[i].key);
      DroppedHas(t, keys, j, r[i].key);
    }
  }

  lemma TakenHas(t: Table, s: nat, n: nat, key: nat, i: nat, k: nat)
    requires FreeAt(t, s, n)
    ensures Has(Taken(t, s, n, key), i, k) <==> if s <= i < s + n then k == key else Has(t, i, k)
  {
  }

  /** Taking a gap for a signature not in the bucket gives it one run, and leaves the others theirs. */
  lemma TakenOneRun(t: Table, s: nat, n: nat, key: nat)
    requires OneRun(t) && FreeAt(t, s, n) && key !in Signatures(t)
    ensures OneRun(Taken(t, s, n, key))
  {
    var r := Taken(t, s, n, key);
    forall i: nat, j: nat, k: nat | i <= j <= k && i < |r| && Has(r, k, r[i].key) && r[i].valid
      ensures Has(r, j, r[i].key)
    {
      TakenHas(t, s, n, key, j, r[i].key);
      TakenHas(t, s, n, key, k, r[i].key);
      if s <= i < s + n {
        assert !Has(t, k, key);
      } else {
        assert Has(t, i, r[i].key) && !Has(t, i, key);
        assert Has(t, j, t[i].key);
      }
    }
  }

  /** Where the code's lookup finds a signature, and over how many slots. */
  function Lookup(t: Table, key: nat): Option<(nat, nat)> {
    var i := Find(t, key);
    if i == |t| then None else Some((i, RunEnd(t, i, key) - i))
  }

  lemma OneRunMiddle(t: Table, i: nat, j: nat, k: nat)
    requires OneRun(t) && i <= j <= k && i < |t| && t[i].valid
    ensures Has(t, k, t[i].key) ==> Has(t, j, t[i].key)
  {
  }

  /** In a bucket of runs, the lookup finds every slot of the signature. */
  lemma LookupFindsAll(t: Table, key: nat)
    requires OneRun(t)
    ensures Lookup(t, key).None? <==> key !in Signatures(t)
    ensures Lookup(t, key).Some? ==>
              var (s, n) := Lookup(t, key).value; n > 0 && forall i: nat :: Has(t, i, key) <==> s <= i < s + n
  {
    var s := Find(t, key);
    if s < |t| {
      var e := RunEnd(t, s, key);
      assert Has(t, s, key);
      forall i: nat ensures Has(t, i, key) <==> s <= i < e {
        if i >= e { OneRunMiddle(t, s, e, i); }
      }
      assert t[s].key in Signatures(t);
    }
  }

  /**
   An update leaves the signature exactly `n` slots from `s`, and of every other signature all its slots or none,
   evicting none with more references than one that stays.
   */
  lemma UpdateMeaning(t: Table, key: nat, n: nat, count: nat -> nat, gone: set<nat>, s: nat, r: Table)
    requires OneRun(t) && Updates(t, key, n, count, gone, s, r)
    ensures OneRun(r) && |r| == |t|
    ensures n > 0 ==> Lookup(r, key) == Some((s, n))
    ensures key !in gone
    ensures forall i: nat, k: nat :: k != key ==> (Has(r, i, k) <==> Has(t, i, k) && k !in gone)
  {
    var t1 := Dropped(t, {key});
    var t2 := Dropped(t1, gone);
    DroppedOneRun(t, {key});
    DroppedOneRun(t1, gone);
    DroppedSignatures(t, {key});
    DroppedSignatures(t1, gone);
    TakenOneRun(t2, s, n, key);
    forall i: nat, k: nat
      ensures Has(r, i, k) <==> if s <= i < s + n then k == key else Has(t, i, k) && k != key && k !in gone
    {
      TakenHas(t2, s, n, key, i, k);
      DroppedHas(t1, gone, i, k);
      DroppedHas(t, {key}, i, k);
    }
    forall i: nat, k: nat | k != key ensures Has(r, i, k) <==> Has(t, i, k) && k !in gone {
      if s <= i < s + n {
        assert !t2[i].valid;
        DroppedHas(t1, gone, i, k);
        DroppedHas(t, {key}, i, k);
        assert !Has(t2, i, k);
      }
    }
    if n > 0 { LookupOfRun(r, key, s, n); }
  }

  /** In the new table slot `i` is off the end or held by another signature. */
  ghost predicate Held(r: Table, key: nat, i: nat) {
    i >= |r| || exists k: nat :: k != key && Has(r, i, k)
  }

  /** One of the `n` slots from `from` on is. */
  ghost predicate Blocked(r: Table, key: nat, from: nat, n: nat) {
    exists i: nat :: from <= i < from + n && Held(r, key, i)
  }

  /** In the old table it is, by another signature that stays or by `last`. */
  ghost predicate HeldBefore(t: Table, key: nat, gone: set<nat>, last: nat, i: nat) {
    i >= |t| || exists k: nat :: k != key && Has(t, i, k) && (k !in gone || k == last)
  }

  ghost predicate BlockedBefore(t: Table, key: nat, gone: set<nat>, last: nat, from: nat, n: nat) {
    exists i: nat :: from <= i < from + n && HeldBefore(t, key, gone, last, i)
  }

  /**
   An update takes the first gap that what it evicted makes, and evicts no more than it must: without the last one of
   those evicted, which has as many references as any of them, there was no gap.
   */
  lemma UpdateStopsAtOnce(t: Table, key: nat, n: nat, count: nat -> nat, gone: set<nat>, s: nat, r: Table)
    requires OneRun(t) && Updates(t, key, n, count, gone, s, r)
    ensures forall from: nat :: from < s ==> Blocked(r, key, from, n)
    ensures gone != {} ==> exists last :: StoppedBy(t, key, n, count, gone, last)
  {
    UpdateMeaning(t, key, n, count, gone, s, r);
    var t1 := Dropped(t, {key});
    var t2 := Dropped(t1, gone);
    forall from: nat | from < s ensures Blocked(r, key, from, n) {
      assert !FreeAt(t2, from, n);
      var i: nat :| from <= i < from + n && t2[i].valid;
      HeldSlot(t, key, gone, i, t2);
      assert Has(r, i, t[i].key);
      assert Held(r, key, i);
    }
    if gone != {} {
      var last :| LastEvicted(t1, n, count, gone, last);
      forall from: nat ensures BlockedBefore(t, key, gone, last, from, n) {
        GapNeedsLast(t, key, n, gone, last, from);
      }
      assert StoppedBy(t, key, n, count, gone, last);
    }
  }

  ghost predicate StoppedBy(t: Table, key: nat, n: nat, count: nat -> nat, gone: set<nat>, last: nat) {
    && last in gone && (forall k :: k in gone ==> count(k) <= count(last))
    && forall from: nat :: BlockedBefore(t, key, gone, last, from, n)
  }

  lemma HeldSlot(t: Table, key: nat, gone: set<nat>, i: nat, t2: Table)
    requires t2 == Dropped(Dropped(t, {key}), gone) && i < |t| && t2[i].valid
    ensures t[i].key != key && t[i].key !in gone && Has(t, i, t[i].key)
  {
  }

  lemma GapNeedsLast(t: Table, key: nat, n: nat, gone: set<nat>, last: nat, from: nat)
    requires NoGap(Dropped(Dropped(t, {key}), gone - {last}), n)
    ensures BlockedBefore(t, key, gone, last, from, n)
  {
    var t2 := Dropped(Dropped(t, {key}), gone - {last});
    assert n > 0 by { assert !FreeAt(t2, 0, n); }
    assert !FreeAt(t2, from, n);
    if from + n <= |t2| {
      var i: nat :| from <= i < from + n && t2[i].valid;
      HeldSlot(t, key, gone - {last}, i, t2);
      assert HeldBefore(t, key, gone, last, i);
    } else {
      assert HeldBefore(t, key, gone, last, if from < |t2| then |t2| else from);
    }
  }

  /** Of two other signatures, one that was evicted has no more references than one that stays. */
  lemma EvictedLess(t: Table, key: nat, n: nat, count: nat -> nat, gone: set<nat>, s: nat, r: Table, out: nat,
                    stays: nat)
    requires OneRun(t) && Updates(t, key, n, count, gone, s, r) && out != key && stays != key
    requires out in Signatures(t) && out !in Signatures(r) && stays in Signatures(r)
    ensures count(out) <= count(stays)
  {
    UpdateMeaning(t, key, n, count, gone, s, r);
    SignatureHas(t, out);
    SignatureHas(r, out);
    SignatureHas(r, stays);
    SignatureHas(t, stays);
    DroppedSignatures(t, {key});
  }

  lemma SignatureHas(t: Table, k: nat)
    ensures k in Signatures(t) <==> exists i: nat :: Has(t, i, k)
  {
    if k in Signatures(t) {
      var i :| 0 <= i < |t| && t[i].valid && t[i].key == k;
      assert Has(t, i, k);
    }
  }

  /** Two signatures' runs do not overlap. */
  lemma RunsApart(t: Table, k: nat, k': nat)
    requires OneRun(t) && k != k' && Lookup(t, k).Some? && Lookup(t, k').Some?
    ensures var (s, n), (s', n') := Lookup(t, k).value, Lookup(t, k').value;
            s + n <= |t| && n > 0 && (s + n <= s' || s' + n' <= s)
  {
    LookupFindsAll(t, k);
    LookupFindsAll(t, k');
    var (s, n) := Lookup(t, k).value;
    var s' := Lookup(t, k').value.0;
    assert Has(t, s, k) && Has(t, s + n - 1, k) && Has(t, s', k');
    assert !Has(t, s, k') && !Has(t, s', k);
  }

  lemma RunInside(t: Table, k: nat)
    requires OneRun(t) && Lookup(t, k).Some?
    ensures var (s, n) := Lookup(t, k).value; n > 0 && s + n <= |t|
  {
    LookupFindsAll(t, k);
    var (s, n) := Lookup(t, k).value;
    assert Has(t, s + n - 1, k);
  }

  /** Any other signature is found where it was, apart from the new run, or no more if it was evicted. */
  lemma UpdateOthers(t: Table, key: nat, n: nat, count: nat -> nat, gone: set<nat>, s: nat, r: Table, k: nat)
    requires OneRun(t) && Updates(t, key, n, count, gone, s, r) && k != key
    ensures Lookup(r, k) == if k in gone then None else Lookup(t, k)
    ensures n > 0 && Lookup(r, k).Some? ==> Lookup(r, k).value.0 != s
  {
    UpdateMeaning(t, key, n, count, gone, s, r);
    LookupFindsAll(t, k);
    LookupFindsAll(r, k);
    LookupFindsAll(r, key);
    if Lookup(r, k).Some? {
      var (i, m) := Lookup(r, k).value;
      assert Has(r, i, k);
      assert Has(t, i, k);
      LookupOfRun(t, k, i, m);
    }
    assert n > 0 ==> Has(r, s, key);
  }

  lemma LookupOfRun(r: Table, key: nat, s: nat, n: nat)
    requires n > 0 && s + n <= |r| && forall i: nat :: Has(r, i, key) <==> s <= i < s + n
    ensures Lookup(r, key) == Some((s, n))
  {
    var i := Find(r, key);
    assert Has(r, s, key);
    assert Has(r, i, key);
    RunEndIs(r, s, s + n, key);
  }

  lemma {:induction false} RunEndIs(t: Table, i: nat, e: nat, key: nat)
    requires i <= e <= |t| && !Has(t, e, key) && forall j: nat :: i <= j < e ==> Has(t, j, key)
    ensures RunEnd(t, i, key) == e
    decreases e - i
  {
    if i < e { RunEndIs(t, i + 1, e, key); }
  }

  // ----- The code's list of runs

  /** A signature's run as the allocator lists it: where it begins and its reference count. */
  datatype Run = Run(start: nat, count: nat, n: nat)

  function RunsFrom(t: Table, count: nat -> nat, i: nat): seq<Run>
    requires i <= |t|
    decreases |t| - i
  {
    if i == |t| then []
    else if !t[i].valid then RunsFrom(t, count, i + 1)
    else
      var e := RunEnd(t, i, t[i].key);
      assert Has(t, i, t[i].key);
      [Run(i, count(t[i].key), e - i)] + RunsFrom(t, count, e)
  }

  /** The list names runs of the bucket, each signature once. */
  ghost predicate Lists(t: Table, count: nat -> nat, runs: seq<Run>) {
    && (forall r :: r in runs ==> r.start < |t| && t[r.start].valid && r.count == count(t[r.start].key)
                                  && r.start == Find(t, t[r.start].key))
    && (forall i, j :: 0 <= i < j < |runs| ==> t[runs[i].start].key != t[runs[j].start].key)
  }

  function Listed(t: Table, runs: seq<Run>): set<nat>
    requires forall r :: r in runs ==> r.start < |t|
  {
    set r | r in runs :: t[r.start].key
  }

  lemma ListsCons(t: Table, count: nat -> nat, r: Run, rest: seq<Run>)
    requires Lists(t, count, rest) && r.start < |t| && t[r.start].valid && r.count == count(t[r.start].key)
    requires r.start == Find(t, t[r.start].key) && t[r.start].key !in Listed(t, rest)
    ensures Lists(t, count, [r] + rest) && Listed(t, [r] + rest) == {t[r.start].key} + Listed(t, rest)
  {
    hide Find;
    ListedCons(t, r, rest);
    DistinctCons(t, r, rest);
    assert forall x :: x in [r] + rest <==> x == r || x in rest;
  }

  lemma ListedCons(t: Table, r: Run, rest: seq<Run>)
    requires r.start < |t| && forall x :: x in rest ==> x.start < |t|
    ensures Listed(t, [r] + rest) == {t[r.start].key} + Listed(t, rest)
  {
    assert forall x :: x in [r] + rest <==> x == r || x in rest;
  }

  lemma DistinctCons(t: Table, r: Run, rest: seq<Run>)
    requires r.start < |t| && forall x :: x in rest ==> x.start < |t|
    requires t[r.start].key !in Listed(t, rest)
    requires forall i, j :: 0 <= i < j < |rest| ==> t[rest[i].start].key != t[rest[j].start].key
    ensures var runs := [r] + rest;
            && (forall x :: x in runs ==> x.start < |t|)
            && forall i, j :: 0 <= i < j < |runs| ==> t[runs[i].start].key != t[runs[j].start].key
  {
    var runs := [r] + rest;
    forall i, j | 0 <= i < j < |runs| ensures t[runs[i].start].key != t[runs[j].start].key {
      assert runs[j] == rest[j - 1] && rest[j - 1] in rest;
      if i > 0 { assert runs[i] == rest[i - 1]; }
    }
  }

  /** No signature has slots both before and from `i` on. */
  ghost predicate Apart(t: Table, i: nat) {
    forall j: nat, k: nat :: j < i <= k < |t| && t[j].valid && t[k].valid ==> t[j].key != t[k].key
  }

  /** Nor does one have slots both before and after the end of a run. */
  lemma ApartAfterRun(t: Table, i: nat, e: nat)
    requires OneRun(t) && i < |t| && t[i].valid && Apart(t, i) && e == RunEnd(t, i, t[i].key)
    ensures i < e && Apart(t, e) && Find(t, t[i].key) == i
  {
    assert Has(t, i, t[i].key);
    forall j: nat, k: nat | j < e <= k < |t| && t[j].valid && t[k].valid ensures t[j].key != t[k].key {
      OneRunMiddle(t, i, e, k);
      if j >= i { assert Has(t, j, t[i].key); }
    }
  }

  lemma {:induction false} RunsFromLists(t: Table, count: nat -> nat, i: nat)
    requires OneRun(t) && i <= |t| && Apart(t, i)
    ensures var runs := RunsFrom(t, count, i);
            && Lists(t, count, runs)
            && (forall r :: r in runs ==> i <= r.start)
            && forall k: nat :: i <= k < |t| && t[k].valid ==> t[k].key in Listed(t, runs)
    decreases |t| - i
  {
    if i < |t| {
      if !t[i].valid {
        RunsFromLists(t, count, i + 1);
      } else {
        var key := t[i].key;
        var e := RunEnd(t, i, key);
        ApartAfterRun(t, i, e);
        RunsFromLists(t, count, e);
        ListsCons(t, count, Run(i, count(key), e - i), RunsFrom(t, count, e));
        forall k: nat | i <= k < e ensures t[k].key == key { assert Has(t, k, key); }
      }
    }
  }

  /** The allocator's list holds each signature of the bucket once. */
  lemma RunsListSignatures(t: Table, count: nat -> nat)
    requires OneRun(t)
    ensures Lists(t, count, RunsFrom(t, count, 0)) && Listed(t, RunsFrom(t, count, 0)) == Signatures(t)
  {
    RunsFromLists(t, count, 0);
  }

  // ----- Whole runs

  datatype Request = Request(key: nat, n: nat, count: nat -> nat)

  ghost predicate Step(t: Table, r: Request, t': Table) {
    exists gone, s :: Updates(t, r.key, r.n, r.count, gone, s, t')
  }

  /** Requests lead from one bucket to another, whatever each of them evicts. */
  ghost predicate Reaches(t: Table, rs: seq<Request>, t': Table)
    decreases |rs|
  {
    if rs == [] then t' == t else exists t1 :: Step(t, rs[0], t1) && Reaches(t1, rs[1..], t')
  }

  /** In every reachable bucket each signature has one run of adjacent slots. */
  lemma {:induction false} ReachableOneRun(t: Table, rs: seq<Request>, t': Table)
    requires Reaches(t, rs, t') && OneRun(t)
    ensures OneRun(t') && |t'| == |t|
    decreases |rs|
  {
    if rs != [] {
      var t1 :| Step(t, rs[0], t1) && Reaches(t1, rs[1..], t');
      var gone, s :| Updates(t, rs[0].key, rs[0].n, rs[0].count, gone, s, t1);
      UpdateMeaning(t, rs[0].key, rs[0].n, rs[0].count, gone, s, t1);
      ReachableOneRun(t1, rs[1..], t');
    }
  }
}
