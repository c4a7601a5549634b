/**
 Reference counting in the AC-DC engine: the exact counter holds every LBA slot's fingerprint hash once,
 the core zone's once more, and whatever leaked when an update evicted an entry with the hash it was
 entering.  No dereference ever finds a zero count.
 */
module LbaReferences {
  import opened Common
  import opened LbaTable

  // ----- The exact counter

  /** One call of the counter, on the multiset of outstanding references; a dereference of a zero count has no
      result. */
  function Count(c: multiset<nat>, e: Event): Option<multiset<nat>> {
    if e.Reference? then Some(c + multiset{e.hash})
    else if e.hash in c then Some(c - multiset{e.hash})
    else None
  }

  function Replay(c: multiset<nat>, es: seq<Event>): Option<multiset<nat>>
    decreases |es|
  {
    if es == [] then Some(c)
    else
      var r := Count(c, es[0]);
      if r.None? then None else Replay(r.value, es[1..])
  }

  /** Replaying `es` from `c` finds no zero count and ends in `c'`. */
  ghost predicate Yields(c: multiset<nat>, es: seq<Event>, c': multiset<nat>) {
    Replay(c, es).Some? && Replay(c, es).value == c'
  }

  lemma YieldsStep(c: multiset<nat>, e: Event, c1: multiset<nat>, es: seq<Event>, c2: multiset<nat>)
    requires if e.Reference? then c1 == c + multiset{e.hash} else e.hash in c && c1 == c - multiset{e.hash}
    requires Yields(c1, es, c2)
    ensures Yields(c, [e] + es, c2)
  {
    assert ([e] + es)[0] == e && ([e] + es)[1..] == es;
  }

  /** Moving from `z` to `z'` by adding `gain` and taking `loss` away, in the presence of others. */
  lemma Exchange(z: multiset<nat>, z': multiset<nat>, gain: multiset<nat>, loss: multiset<nat>, rest: multiset<nat>)
    requires z' + loss == z + gain
    ensures z + rest + gain == z' + rest + loss
    ensures z + rest + gain - loss == z' + rest && loss <= z + rest + gain
  {
    assert z + rest + gain == (z + gain) + rest;
    assert z' + rest + loss == (z' + loss) + rest;
  }

  // ----- References held by slots

  function RefOf(s: Slot): multiset<nat> {
    if s.valid then multiset{s.value} else multiset{}
  }

  /** The values of the valid slots. */
  function Refs(t: Table): multiset<nat> {
    if t == [] then multiset{} else RefOf(t[0]) + Refs(t[1..])
  }

  /** The values of the valid slots of the core zone. */
  function Zone(t: Table, sep: nat): multiset<nat> {
    if sep <= |t| then Refs(t[sep..]) else multiset{}
  }

  lemma {:induction false} RefsConcat(a: Table, b: Table)
    ensures Refs(a + b) == Refs(a) + Refs(b)
  {
    if a == [] {
      assert a + b == b;
    } else {
      assert (a + b)[1..] == a[1..] + b;
      RefsConcat(a[1..], b);
    }
  }

  lemma RefsOne(x: Slot)
    ensures Refs([x]) == RefOf(x)
  {
    assert [x][1..] == [];
  }

  lemma RefsMiddle(a: Table, x: Slot, b: Table)
    ensures Refs(a + [x] + b) == Refs(a) + RefOf(x) + Refs(b)
  {
    RefsConcat(a + [x], b);
    RefsConcat(a, [x]);
    RefsOne(x);
  }

  lemma RefsAround(t: Table, i: nat)
    requires i < |t|
    ensures Refs(t) == Refs(t[..i]) + RefOf(t[i]) + Refs(t[i + 1..])
  {
    SplitAt(t, i, t[..i], t[i + 1..]);
    RefsMiddle(t[..i], t[i], t[i + 1..]);
  }

  lemma RefsReplace(t: Table, i: nat, x: Slot)
    requires i < |t|
    ensures Refs(t[i := x]) + RefOf(t[i]) == Refs(t) + RefOf(x)
  {
    RefsAround(t, i);
    RefsAround(t[i := x], i);
    UpdateAround(t, i, x, t[..i], t[i + 1..]);
  }

  lemma ZoneReplace(t: Table, i: nat, x: Slot, sep: nat)
    requires i < |t| && sep < |t|
    ensures i < sep ==> Zone(t[i := x], sep) == Zone(t, sep)
    ensures i >= sep ==> Zone(t[i := x], sep) + RefOf(t[i]) == Zone(t, sep) + RefOf(x)
  {
    if i < sep {
      assert t[i := x][sep..] == t[sep..];
    } else {
      assert t[i := x][sep..] == t[sep..][i - sep := x];
      RefsReplace(t[sep..], i - sep, x);
    }
  }

  lemma PromoteRefs(t: Table, i: nat)
    requires i < |t| && t[i].valid
    ensures Refs(Promote(t, i)) == Refs(t)
  {
    var last := Slot(true, t[i].key, t[i].value);
    RefsConcat(t[..i] + t[i + 1..], [last]);
    RefsConcat(t[..i], t[i + 1..]);
    RefsOne(last);
    RefsAround(t, i);
  }

  /** Below the zone, promoting adds the promoted value to it and removes that of the zone's lowest slot. */
  lemma PromoteIntoZone(t: Table, i: nat, sep: nat)
    requires i < sep < |t| && t[i].valid
    ensures Zone(Promote(t, i), sep) + RefOf(t[sep]) == Zone(t, sep) + multiset{t[i].value}
  {
    var r, last := Promote(t, i), Slot(true, t[i].key, t[i].value);
    assert r[sep..] == t[sep + 1..] + [last];
    RefsConcat(t[sep + 1..], [last]);
    RefsOne(last);
    assert t[sep..][1..] == t[sep + 1..];
  }

  lemma PromoteWithinZone(t: Table, i: nat, sep: nat)
    requires sep <= i < |t| && t[i].valid
    ensures Zone(Promote(t, i), sep) == Zone(t, sep)
  {
    assert Promote(t, i)[sep..] == Promote(t[sep..], i - sep);
    PromoteRefs(t[sep..], i - sep);
  }

  /** Promoting keeps the zone's share of the counter exact. */
  lemma PromoteEventsExact(t: Table, i: nat, sep: nat, rest: multiset<nat>)
    requires i < |t| && t[i].valid && sep < |t|
    ensures Yields(Zone(t, sep) + rest, PromoteEvents(t, i, sep), Zone(Promote(t, i), sep) + rest)
  {
    var c, c' := Zone(t, sep) + rest, Zone(Promote(t, i), sep) + rest;
    if i >= sep {
      PromoteWithinZone(t, i, sep);
    } else {
      PromoteIntoZone(t, i, sep);
      Exchange(Zone(t, sep), Zone(Promote(t, i), sep), multiset{t[i].value}, RefOf(t[sep]), rest);
      var mid := c + multiset{t[i].value};
      if t[sep].valid {
        var es := [Dereference(t[sep].value)];
        YieldsStep(mid, Dereference(t[sep].value), c', [], c');
        assert es + [] == es;
        YieldsStep(c, Reference(t[i].value), mid, es, c');
      } else {
        assert mid == c';
        YieldsStep(c, Reference(t[i].value), c', [], c');
      }
    }
  }

  lemma EnterRefs(t: Table, i: nat, key: nat, value: nat, sep: nat)
    requires i < |t| && sep < |t| && !t[i].valid
    ensures Refs(Enter(t, i, key, value, sep).table) == Refs(t) + multiset{value}
  {
    var x := Slot(true, key, value);
    RefsReplace(t, i, x);
    PromoteRefs(t[i := x], i);
  }

  lemma EnterEventsExact(t: Table, i: nat, key: nat, value: nat, sep: nat, rest: multiset<nat>)
    requires i < |t| && sep < |t| && !t[i].valid
    ensures var o := Enter(t, i, key, value, sep);
            Yields(Zone(t, sep) + rest, o.events, Zone(o.table, sep) + rest)
  {
    var x := Slot(true, key, value);
    var t1 := t[i := x];
    ZoneReplace(t, i, x, sep);
    PromoteEventsExact(t1, i, sep, rest);
    if i >= sep {
      Exchange(Zone(t, sep), Zone(t1, sep), multiset{value}, multiset{}, rest);
      YieldsStep(Zone(t, sep) + rest, Reference(value), Zone(t1, sep) + rest, PromoteEvents(t1, i, sep),
                 Zone(Promote(t1, i), sep) + rest);
    } else {
      assert [] + PromoteEvents(t1, i, sep) == PromoteEvents(t1, i, sep);
    }
  }

  function Displaced(o: Outcome): multiset<nat> {
    if o.displaced.Some? then multiset{o.displaced.value} else multiset{}
  }

  /** The slots lose just what the update reports displaced. */
  lemma UpdateRefs(t: Table, key: nat, value: nat, sep: nat)
    requires 1 <= sep < |t| && Lookup(t, key) != Some(value)
    ensures var o := Update(t, key, value, sep); Refs(o.table) + Displaced(o) == Refs(t) + multiset{value}
  {
    var i := Find(t, key);
    if i < |t| {
      ReplaceRefs(t, i, key, value, sep);
    } else if FirstFree(t) < |t| {
      EnterRefs(t, FirstFree(t), key, value, sep);
    } else {
      RefsReplace(t, 0, Slot(false, 0, 0));
      EnterRefs(t[0 := Slot(false, 0, 0)], 0, key, value, sep);
      Exchange(Refs(t[0 := Slot(false, 0, 0)]), Refs(t), multiset{t[0].value}, multiset{}, multiset{value});
    }
  }

  lemma ReplaceRefs(t: Table, i: nat, key: nat, value: nat, sep: nat)
    requires i < |t| && t[i].valid && sep < |t|
    ensures var t1 := t[i := t[i].(valid := false)];
            && FirstFree(t1) < |t1|
            && Refs(Enter(t1, FirstFree(t1), key, value, sep).table) + multiset{t[i].value} == Refs(t) + multiset{value}
  {
    var t1 := t[i := t[i].(valid := false)];
    assert !t1[i].valid;
    RefsReplace(t, i, t[i].(valid := false));
    EnterRefs(t1, FirstFree(t1), key, value, sep);
    Exchange(Refs(t1), Refs(t), multiset{t[i].value}, multiset{}, multiset{value});
  }

  /** Replacing a key's value first drops its old value from the zone. */
  lemma ReplaceEventsExact(t: Table, i: nat, key: nat, value: nat, sep: nat, rest: multiset<nat>)
    requires i < |t| && t[i].valid && sep < |t|
    ensures var t1 := t[i := t[i].(valid := false)];
            && FirstFree(t1) < |t1|
            && var o := Enter(t1, FirstFree(t1), key, value, sep);
            Yields(Zone(t, sep) + rest, (if i >= sep then [Dereference(t[i].value)] else []) + o.events,
                   Zone(o.table, sep) + rest)
  {
    var t1 := t[i := t[i].(valid := false)];
    assert !t1[i].valid;
    var o := Enter(t1, FirstFree(t1), key, value, sep);
    ZoneReplace(t, i, t[i].(valid := false), sep);
    EnterEventsExact(t1, FirstFree(t1), key, value, sep, rest);
    if i >= sep {
      Exchange(Zone(t, sep), Zone(t1, sep), multiset{}, multiset{t[i].value}, rest);
      YieldsStep(Zone(t, sep) + rest, Dereference(t[i].value), Zone(t1, sep) + rest, o.events,
                 Zone(o.table, sep) + rest);
    } else {
      assert [] + o.events == o.events;
    }
  }

  /** The bucket's own events keep the zone's share of the counter exact. */
  lemma UpdateEventsExact(t: Table, key: nat, value: nat, sep: nat, rest: multiset<nat>)
    requires 1 <= sep < |t|
    ensures var o := Update(t, key, value, sep);
            Yields(Zone(t, sep) + rest, o.events, Zone(o.table, sep) + rest)
  {
    var i := Find(t, key);
    if i < |t| && t[i].value == value {
      PromoteEventsExact(t, i, sep, rest);
    } else if i < |t| {
      ReplaceEventsExact(t, i, key, value, sep, rest);
    } else if FirstFree(t) < |t| {
      EnterEventsExact(t, FirstFree(t), key, value, sep, rest);
    } else {
      ZoneReplace(t, 0, Slot(false, 0, 0), sep);
      EnterEventsExact(t[0 := Slot(false, 0, 0)], 0, key, value, sep, rest);
    }
  }

  // ----- The whole LBA index

  type Buckets = seq<Table>

  function AllRefs(bs: Buckets): multiset<nat> {
    if bs == [] then multiset{} else Refs(bs[0]) + AllRefs(bs[1..])
  }

  function AllZones(bs: Buckets, sep: nat): multiset<nat> {
    if bs == [] then multiset{} else Zone(bs[0], sep) + AllZones(bs[1..], sep)
  }

  /** All slots but bucket `b`'s. */
  function OtherRefs(bs: Buckets, b: nat): multiset<nat>
    requires b < |bs|
  {
    AllRefs(bs[b := []])
  }

  lemma {:induction false} RefsSplit(bs: Buckets, b: nat, t: Table)
    requires b < |bs|
    ensures AllRefs(bs[b := t]) == Refs(t) + OtherRefs(bs, b)
  {
    if b == 0 {
      assert bs[b := t][1..] == bs[1..] && bs[b := []][1..] == bs[1..];
    } else {
      assert bs[b := t][1..] == bs[1..][b - 1 := t] && bs[b := []][1..] == bs[1..][b - 1 := []];
      RefsSplit(bs[1..], b - 1, t);
    }
  }

  /** All zones but bucket `b`'s. */
  function OtherZones(bs: Buckets, b: nat, sep: nat): multiset<nat>
    requires b < |bs|
  {
    AllZones(bs[b := []], sep)
  }

  lemma {:induction false} ZonesSplit(bs: Buckets, b: nat, t: Table, sep: nat)
    requires b < |bs|
    ensures AllZones(bs[b := t], sep) == Zone(t, sep) + OtherZones(bs, b, sep)
  {
    if b == 0 {
      assert bs[b := t][1..] == bs[1..] && bs[b := []][1..] == bs[1..];
    } else {
      assert bs[b := t][1..] == bs[1..][b - 1 := t] && bs[b := []][1..] == bs[1..][b - 1 := []];
      ZonesSplit(bs[1..], b - 1, t, sep);
    }
  }

  ghost predicate BucketsOk(bs: Buckets, sep: nat) {
    forall b :: 0 <= b < |bs| ==> Wf(bs[b]) && 1 <= sep < |bs[b]|
  }

  /** The counter holds each slot's hash once, each core slot's once more, and what leaked. */
  ghost predicate Exact(c: multiset<nat>, bs: Buckets, sep: nat, leak: multiset<nat>) {
    c == AllRefs(bs) + AllZones(bs, sep) + leak
  }

  /** The index after a request on `key` of bucket `b` with fingerprint hash `hash`, and the counter's calls. */
  function Touch(bs: Buckets, b: nat, key: nat, hash: nat, sep: nat): (Buckets, seq<Event>)
    requires b < |bs| && 1 <= sep < |bs[b]|
  {
    var t := bs[b];
    if Lookup(t, key) == Some(hash) then
      (bs[b := Promote(t, Find(t, key))], PromoteEvents(t, Find(t, key), sep))
    else
      var o := Update(t, key, hash, sep);
      (bs[b := o.table], o.events + ([Reference(hash)] + Release(o.displaced, hash)))
  }

  /** The displaced hash is dereferenced unless it is the one just entered. */
  function Release(displaced: Option<nat>, hash: nat): seq<Event> {
    if displaced.Some? && displaced.value != hash then [Dereference(displaced.value)] else []
  }

  /** What a request leaks: the entered hash, when the evicted entry carried it too. */
  function Leaked(t: Table, key: nat, hash: nat, sep: nat): multiset<nat>
    requires 1 <= sep < |t|
  {
    if Lookup(t, key) != Some(hash) && Update(t, key, hash, sep).displaced == Some(hash) then multiset{hash}
    else multiset{}
  }

  lemma {:induction false} YieldsConcat(c: multiset<nat>, es: seq<Event>, c1: multiset<nat>, fs: seq<Event>,
                                        c2: multiset<nat>)
    requires Yields(c, es, c1) && Yields(c1, fs, c2)
    ensures Yields(c, es + fs, c2)
    decreases |es|
  {
    if es == [] {
      assert es + fs == fs;
    } else {
      assert (es + fs)[1..] == es[1..] + fs;
      YieldsConcat(Count(c, es[0]).value, es[1..], c1, fs, c2);
    }
  }

  lemma ReleaseExact(c: multiset<nat>, hash: nat, displaced: Option<nat>, c2: multiset<nat>)
    requires c2 + (if displaced.Some? && displaced.value != hash then multiset{displaced.value} else multiset{})
             == c + multiset{hash}
    ensures Yields(c, [Reference(hash)] + Release(displaced, hash), c2)
  {
    var mid := c + multiset{hash};
    if displaced.Some? && displaced.value != hash {
      assert displaced.value in mid && c2 == mid - multiset{displaced.value};
      YieldsStep(mid, Dereference(displaced.value), c2, [], c2);
      assert [Dereference(displaced.value)] + [] == Release(displaced, hash);
      YieldsStep(c, Reference(hash), mid, Release(displaced, hash), c2);
    } else {
      assert mid == c2;
      YieldsStep(c, Reference(hash), c2, [], c2);
    }
  }

  lemma TouchKeepsWf(bs: Buckets, b: nat, key: nat, hash: nat, sep: nat)
    requires b < |bs| && BucketsOk(bs, sep) && 1 <= sep < |bs[b]|
    ensures var bs' := Touch(bs, b, key, hash, sep).0;
            BucketsOk(bs', sep) && |bs'| == |bs| && |bs'[b]| == |bs[b]|
  {
    if Lookup(bs[b], key) == Some(hash) { PromoteKeepsWf(bs[b], Find(bs[b], key)); }
    else { UpdateKeepsWf(bs[b], key, hash, sep); }
  }

  /** What an update displaces is released unless it leaks. */
  function Released(displaced: Option<nat>, hash: nat): multiset<nat> {
    if displaced.Some? && displaced.value != hash then multiset{displaced.value} else multiset{}
  }

  /** The slots gain the entered hash and lose the displaced one, which is released or leaks. */
  lemma Balance(r: multiset<nat>, r': multiset<nat>, z': multiset<nat>, leaked: multiset<nat>, released: multiset<nat>,
                hash: nat, others: multiset<nat>)
    requires r' + (leaked + released) == r + multiset{hash}
    ensures (r' + z' + leaked + others) + released == (z' + (r + others)) + multiset{hash}
  {
    var rest := z' + others;
    assert (r' + z' + leaked + others) + released == (r' + (leaked + released)) + rest;
    assert (z' + (r + others)) + multiset{hash} == (r + multiset{hash}) + rest;
  }

  /** Entering a new pair: the bucket's events, the reference to the entered hash, and the release. */
  lemma EnterPairExact(t: Table, key: nat, hash: nat, sep: nat, others: multiset<nat>)
    requires 1 <= sep < |t| && Lookup(t, key) != Some(hash)
    ensures var o := Update(t, key, hash, sep);
            Yields(Zone(t, sep) + (Refs(t) + others), o.events + ([Reference(hash)] + Release(o.displaced, hash)),
                   Refs(o.table) + Zone(o.table, sep) + Leaked(t, key, hash, sep) + others)
  {
    var o, leaked := Update(t, key, hash, sep), Leaked(t, key, hash, sep);
    var mid := Zone(o.table, sep) + (Refs(t) + others);
    var c2 := Refs(o.table) + Zone(o.table, sep) + leaked + others;
    UpdateEventsExact(t, key, hash, sep, Refs(t) + others);
    UpdateRefs(t, key, hash, sep);
    assert leaked + Released(o.displaced, hash) == Displaced(o);
    Balance(Refs(t), Refs(o.table), Zone(o.table, sep), leaked, Released(o.displaced, hash), hash, others);
    ReleaseExact(mid, hash, o.displaced, c2);
    YieldsConcat(Zone(t, sep) + (Refs(t) + others), o.events, mid, [Reference(hash)] + Release(o.displaced, hash), c2);
  }

  /** The counter seen from bucket `b`. */
  lemma CounterSplit(bs: Buckets, b: nat, t: Table, sep: nat, leak: multiset<nat>, leaked: multiset<nat>)
    requires b < |bs|
    ensures AllRefs(bs[b := t]) + AllZones(bs[b := t], sep) + (leak + leaked)
            == Refs(t) + Zone(t, sep) + leaked + (OtherRefs(bs, b) + OtherZones(bs, b, sep) + leak)
    ensures AllRefs(bs[b := t]) + AllZones(bs[b := t], sep) + leak
            == Zone(t, sep) + (Refs(t) + (OtherRefs(bs, b) + OtherZones(bs, b, sep) + leak))
  {
    RefsSplit(bs, b, t);
    ZonesSplit(bs, b, t, sep);
  }

  /** No request ever finds a zero count, and the counter stays exact up to what leaks. */
  lemma TouchKeepsExact(c: multiset<nat>, bs: Buckets, b: nat, key: nat, hash: nat, sep: nat, leak: multiset<nat>)
    requires b < |bs| && BucketsOk(bs, sep) && Exact(c, bs, sep, leak)
    ensures var (bs', es) := Touch(bs, b, key, hash, sep);
            && Replay(c, es).Some?
            && Exact(Replay(c, es).value, bs', sep, leak + Leaked(bs[b], key, hash, sep))
  {
    var t, t', leaked := bs[b], Touch(bs, b, key, hash, sep).0[b], Leaked(bs[b], key, hash, sep);
    var rest := OtherRefs(bs, b) + OtherZones(bs, b, sep) + leak;
    assert bs[b := t] == bs;
    CounterSplit(bs, b, t, sep, leak, multiset{});
    CounterSplit(bs, b, t', sep, leak, leaked);
    if Lookup(t, key) == Some(hash) {
      PromoteRefs(t, Find(t, key));
      PromoteEventsExact(t, Find(t, key), sep, Refs(t) + rest);
      assert Zone(t', sep) + (Refs(t) + rest) == Refs(t') + Zone(t', sep) + leaked + rest;
    } else {
      EnterPairExact(t, key, hash, sep, rest);
    }
  }

  // ----- Whole runs

  datatype Access = Access(bucket: nat, key: nat, hash: nat)

  /** The index, the counter's calls, and what leaked, after a run. */
  function Run(bs: Buckets, rs: seq<Access>, sep: nat): (Buckets, seq<Event>, multiset<nat>)
    decreases |rs|
  {
    if rs == [] || !(rs[0].bucket < |bs| && 1 <= sep < |bs[rs[0].bucket]|) then (bs, [], multiset{})
    else
      var r := rs[0];
      var (bs1, es) := Touch(bs, r.bucket, r.key, r.hash, sep);
      var (bs2, fs, leak) := Run(bs1, rs[1..], sep);
      (bs2, es + fs, Leaked(bs[r.bucket], r.key, r.hash, sep) + leak)
  }

  /** Over any run no dereference finds a zero count, and each hash's count is exactly its slots, plus its core
      slots, plus what leaked when an evicted entry carried the hash being entered. */
  lemma {:induction false} RunKeepsExact(c: multiset<nat>, bs: Buckets, rs: seq<Access>, sep: nat, leak: multiset<nat>)
    requires BucketsOk(bs, sep) && Exact(c, bs, sep, leak)
    requires forall i :: 0 <= i < |rs| ==> rs[i].bucket < |bs|
    ensures var (bs', es, leaked) := Run(bs, rs, sep);
            && Replay(c, es).Some?
            && BucketsOk(bs', sep) && Exact(Replay(c, es).value, bs', sep, leak + leaked)
    decreases |rs|
  {
    if rs == [] {
      assert leak + multiset{} == leak;
    } else {
      var r := rs[0];
      var (bs1, es) := Touch(bs, r.bucket, r.key, r.hash, sep);
      var l1 := Leaked(bs[r.bucket], r.key, r.hash, sep);
      TouchKeepsExact(c, bs, r.bucket, r.key, r.hash, sep, leak);
      TouchKeepsWf(bs, r.bucket, r.key, r.hash, sep);
      RunKeepsExact(Replay(c, es).value, bs1, rs[1..], sep, leak + l1);
      var (bs2, fs, l2) := Run(bs1, rs[1..], sep);
      YieldsConcat(c, es, Replay(c, es).value, fs, Replay(Replay(c, es).value, fs).value);
      assert leak + l1 + l2 == leak + (l1 + l2);
    }
  }

  // ----- From the empty index

  ghost predicate Unused(bs: Buckets) {
    forall b, i :: 0 <= b < |bs| && 0 <= i < |bs[b]| ==> !bs[b][i].valid
  }

  lemma {:induction false} UnusedTable(t: Table)
    requires forall i :: 0 <= i < |t| ==> !t[i].valid
    ensures Refs(t) == multiset{}
  {
    if t != [] { UnusedTable(t[1..]); }
  }

  lemma {:induction false} UnusedExact(bs: Buckets, sep: nat)
    requires Unused(bs)
    ensures Exact(multiset{}, bs, sep, multiset{})
  {
    if bs != [] {
      UnusedTable(bs[0]);
      if sep <= |bs[0]| { UnusedTable(bs[0][sep..]); }
      assert forall b, i :: 0 <= b < |bs[1..]| && 0 <= i < |bs[1..][b]| ==> bs[1..][b][i] == bs[b + 1][i];
      UnusedExact(bs[1..], sep);
    }
  }

  /** Every run from the empty index: no dereference of a zero count, and no count below the slots it stands for. */
  lemma CountsNeverTooLow(bs: Buckets, rs: seq<Access>, sep: nat, hash: nat)
    requires BucketsOk(bs, sep) && Unused(bs)
    requires forall i :: 0 <= i < |rs| ==> rs[i].bucket < |bs|
    ensures var (bs', es, leaked) := Run(bs, rs, sep);
            && Replay(multiset{}, es).Some?
            && Replay(multiset{}, es).value[hash] == AllRefs(bs')[hash] + AllZones(bs', sep)[hash] + leaked[hash]
  {
    UnusedExact(bs, sep);
    RunKeepsExact(multiset{}, bs, rs, sep, multiset{});
  }

  /** A request leaks its hash exactly when its key is new, the bucket full, and the least recent hash the same. */
  lemma LeaksIffVictimHasHash(t: Table, key: nat, hash: nat, sep: nat)
    requires Wf(t) && 1 <= sep < |t|
    ensures var q := Entries(t);
            && Leaked(t, key, hash, sep) in {multiset{}, multiset{hash}}
            && (Leaked(t, key, hash, sep) == multiset{hash}
                <==> key !in Keys(q) && |q| == |t| && q[0].value == hash)
  {
    UpdateRefinesLru(t, key, hash, sep);
    EntriesKeys(t);
    if Find(t, key) < |t| { FindKey(t, Find(t, key)); }
    assert hash in multiset{hash};
  }

  // ----- A run that leaks

  /** An update of a full bucket of two entries, for a new key. */
  lemma FullUpdate(t: Table, key: nat, hash: nat)
    requires |t| == 2 && t[0].valid && t[1].valid && t[0].key != key && t[1].key != key
    ensures Lookup(t, key) == None
    ensures Update(t, key, hash, 1).table == [Slot(true, t[1].key, t[1].value), Slot(true, key, hash)]
    ensures Update(t, key, hash, 1).displaced == Some(t[0].value)
  {
    var i := Find(t, key);
    assert FirstFree(t) == 2;
  }

  lemma FirstUpdates(k1: nat, k2: nat, hash: nat)
    requires k1 != k2
    ensures var t0 := [Slot(false, 0, 0), Slot(false, 0, 0)];
            var o1 := Update(t0, k1, hash, 1);
            var o2 := Update(o1.table, k2, hash, 1);
            && Lookup(t0, k1) == None && o1.displaced == None && Lookup(o1.table, k2) == None && o2.displaced == None
            && |o1.table| == 2 && o2.table == [Slot(true, k1, hash), Slot(true, k2, hash)]
  {
    var t0, t1 := [Slot(false, 0, 0), Slot(false, 0, 0)], [Slot(false, 0, 0), Slot(true, k1, hash)];
    assert FirstFree(t0) == 0 && Find(t0, k1) == 2;
    assert Update(t0, k1, hash, 1).table == t1;
    assert FirstFree(t1) == 0 && Find(t1, k2) == 2;
  }

  lemma RunOfThree(bs: Buckets, r1: Access, r2: Access, r3: Access, sep: nat)
    requires |bs| == 1 && 1 <= sep < |bs[0]| && r1.bucket == r2.bucket == r3.bucket == 0
    requires Lookup(bs[0], r1.key) == None
    requires var t1 := Update(bs[0], r1.key, r1.hash, sep).table;
             && |t1| == |bs[0]| && Lookup(t1, r2.key) == None
             && var t2 := Update(t1, r2.key, r2.hash, sep).table;
             && |t2| == |bs[0]| && Lookup(t2, r3.key) == None
    ensures var t1 := Update(bs[0], r1.key, r1.hash, sep).table;
            var t2 := Update(t1, r2.key, r2.hash, sep).table;
            var (bs', es, leaked) := Run(bs, [r1, r2, r3], sep);
            && bs' == [Update(t2, r3.key, r3.hash, sep).table]
            && leaked == Leaked(bs[0], r1.key, r1.hash, sep) + Leaked(t1, r2.key, r2.hash, sep)
                         + Leaked(t2, r3.key, r3.hash, sep)
  {
    hide Update, Lookup;
    var t1 := Update(bs[0], r1.key, r1.hash, sep).table;
    var t2 := Update(t1, r2.key, r2.hash, sep).table;
    assert bs[0 := t1] == [t1] && [t1][0 := t2] == [t2];
    var q2, q3, none: seq<Access> := [r2, r3], [r3], [];
    assert [r1, r2, r3][1..] == q2 && q2[1..] == q3 && q3[1..] == none;
    var t3 := Update(t2, r3.key, r3.hash, sep).table;
    assert [t2][0 := t3] == [t3];
    assert Run([t3], none, sep) == ([t3], [], multiset{});
    assert Run([t2], q3, sep).0 == [t3] && Run([t2], q3, sep).2 == Leaked(t2, r3.key, r3.hash, sep);
    assert Run([t1], q2, sep).0 == [t3];
  }

  /**
   Three keys with one hash in a bucket of two slots: the third entry evicts one with the hash it enters, and the
   counter ends with four references to the hash where three are due.
   */
  lemma ThreeKeysLeak(k1: nat, k2: nat, k3: nat, hash: nat)
    requires k1 != k2 && k1 != k3 && k2 != k3
    ensures var bs := [[Slot(false, 0, 0), Slot(false, 0, 0)]];
            var (bs', es, leaked) := Run(bs, [Access(0, k1, hash), Access(0, k2, hash), Access(0, k3, hash)], 1);
            && leaked == multiset{hash}
            && Replay(multiset{}, es).Some? && Replay(multiset{}, es).value[hash] == 4
            && AllRefs(bs')[hash] + AllZones(bs', 1)[hash] == 3
  {
    var t0 := [Slot(false, 0, 0), Slot(false, 0, 0)];
    var t2, t3 := [Slot(true, k1, hash), Slot(true, k2, hash)], [Slot(true, k2, hash), Slot(true, k3, hash)];
    var rs := [Access(0, k1, hash), Access(0, k2, hash), Access(0, k3, hash)];
    FirstUpdates(k1, k2, hash);
    FullUpdate(t2, k3, hash);
    RunOfThree([t0], rs[0], rs[1], rs[2], 1);
    CountsNeverTooLow([t0], rs, 1, hash);
    assert t3[1..] == [t3[1]];
    RefsOne(t3[1]);
    assert Refs(t3) == RefOf(t3[0]) + Refs(t3[1..]);
    assert [t3][1..] == [];
    assert AllRefs([t3]) == Refs(t3) && AllZones([t3], 1) == Refs(t3[1..]);
  }
}
