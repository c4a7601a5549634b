/**
 What an LBA index holds after a run of requests: each bucket is the bounded LRU list of the requests made to it, hits
 included, and so holds an entry exactly as long as fewer other keys than it has slots were requested since.
 */
module LbaHistory {
  import opened Common
  import opened LbaTable
  import opened LbaReferences

  // ----- One request

  /** Every request, hit or miss, is the LRU list's update of its bucket, and leaves the other buckets alone. */
  lemma TouchRefinesLru(bs: Buckets, b: nat, key: nat, hash: nat, sep: nat)
    requires b < |bs| && BucketsOk(bs, sep) && 1 <= sep < |bs[b]|
    ensures var r := Touch(bs, b, key, hash, sep).0;
            && |r| == |bs| && |r[b]| == |bs[b]| && (forall c :: 0 <= c < |bs| && c != b ==> r[c] == bs[c])
            && Entries(r[b]) == LruUpdate(Entries(bs[b]), |bs[b]|, key, hash)
  {
    var t := bs[b];
    TouchKeepsWf(bs, b, key, hash, sep);
    if Lookup(t, key) == Some(hash) { PromoteRefinesLru(t, key); } else { UpdateRefinesLru(t, key, hash, sep); }
  }

  /** The slot is free or holds the key. */
  predicate Takes(s: Slot, key: nat) {
    !s.valid || s.key == key
  }

  /** The slot taken: that of the entry repeated, else the first that is free or holds the key, else the first. */
  predicate TakenSlot(t: Table, key: nat, hash: nat, j: nat) {
    && j < |t|
    && (if Lookup(t, key) == Some(hash) then t[j] == Slot(true, key, hash)
        else if exists i :: 0 <= i < |t| && Takes(t[i], key) then
          Takes(t[j], key) && forall i :: 0 <= i < j ==> !Takes(t[i], key)
        else j == 0)
  }

  /** The slots above the one taken move down by one, the pair is last, and the key's old entry is out of use. */
  predicate Shifted(t: Table, key: nat, hash: nat, j: nat, r: Table) {
    && |r| == |t| > 0 && r[|t| - 1] == Slot(true, key, hash)
    && forall k :: 0 <= k < |t| - 1 ==>
         var was := t[if k < j then k else k + 1];
         r[k] == if was.valid && was.key == key then was.(valid := false) else was
  }

  /** Slot by slot, holes included, which is what the core zone's counts depend on. */
  lemma TouchShifts(bs: Buckets, b: nat, key: nat, hash: nat, sep: nat) returns (j: nat)
    requires b < |bs| && BucketsOk(bs, sep) && 1 <= sep < |bs[b]|
    ensures TakenSlot(bs[b], key, hash, j)
    ensures Shifted(bs[b], key, hash, j, Touch(bs, b, key, hash, sep).0[b])
  {
    var t := bs[b];
    if Lookup(t, key) == Some(hash) {
      j := Find(t, key);
      HitShifts(t, key, hash);
    } else {
      hide Takes, Promote;
      j := UpdateShifts(t, key, hash, sep);
    }
  }

  lemma HitShifts(t: Table, key: nat, hash: nat)
    requires Wf(t) && Lookup(t, key) == Some(hash)
    ensures Shifted(t, key, hash, Find(t, key), Promote(t, Find(t, key)))
  {
  }

  /** Entering a pair at a free slot `j` of `t1`, which is `t` without the key's entry. */
  lemma EnterShifts(t: Table, t1: Table, key: nat, hash: nat, j: nat, sep: nat)
    requires |t1| == |t| && j < |t| && sep < |t|
    requires forall k :: 0 <= k < |t| && k != j ==>
               t1[k] == if t[k].valid && t[k].key == key then t[k].(valid := false) else t[k]
    ensures Shifted(t, key, hash, j, Enter(t1, j, key, hash, sep).table)
  {
  }

  lemma UpdateShifts(t: Table, key: nat, hash: nat, sep: nat) returns (j: nat)
    requires Wf(t) && 1 <= sep < |t| && Lookup(t, key) != Some(hash)
    ensures TakenSlot(t, key, hash, j) && Shifted(t, key, hash, j, Update(t, key, hash, sep).table)
  {
    var i := Find(t, key);
    if i < |t| {
      var t1 := t[i := t[i].(valid := false)];
      assert !t1[i].valid && Takes(t[i], key);
      j := FirstFree(t1);
      assert forall k :: 0 <= k < j ==> t1[k].valid && k != i && t1[k] == t[k];
      EnterShifts(t, t1, key, hash, j, sep);
    } else if FirstFree(t) < |t| {
      j := FirstFree(t);
      assert Takes(t[j], key);
      EnterShifts(t, t, key, hash, j, sep);
    } else {
      j := 0;
      assert forall k :: 0 <= k < |t| ==> !Takes(t[k], key);
      EnterShifts(t, t[0 := Slot(false, 0, 0)], key, hash, 0, sep);
    }
  }

  // ----- Runs

  /** The requests to bucket `b`, made on a list of at most `n` pairs. */
  function LruRun(q: seq<Pair>, n: nat, rs: seq<Access>, b: nat): seq<Pair>
    decreases |rs|
  {
    if rs == [] then q
    else LruRun(if rs[0].bucket == b then LruUpdate(q, n, rs[0].key, rs[0].hash) else q, n, rs[1..], b)
  }

  /** Over any run each bucket is the LRU list of the requests made to it. */
  lemma {:induction false} RunRefinesLru(bs: Buckets, rs: seq<Access>, sep: nat, b: nat)
    requires BucketsOk(bs, sep) && b < |bs| && forall i :: 0 <= i < |rs| ==> rs[i].bucket < |bs|
    ensures var r := Run(bs, rs, sep).0;
            && BucketsOk(r, sep) && |r| == |bs| && |r[b]| == |bs[b]|
            && Entries(r[b]) == LruRun(Entries(bs[b]), |bs[b]|, rs, b)
    decreases |rs|
  {
    if rs != [] {
      var q := rs[0];
      TouchRefinesLru(bs, q.bucket, q.key, q.hash, sep);
      TouchKeepsWf(bs, q.bucket, q.key, q.hash, sep);
      RunRefinesLru(Touch(bs, q.bucket, q.key, q.hash, sep).0, rs[1..], sep, b);
    }
  }

  lemma {:induction false} LruRunSnoc(q: seq<Pair>, n: nat, rs: seq<Access>, r: Access, b: nat)
    ensures var l := LruRun(q, n, rs, b);
            LruRun(q, n, rs + [r], b) == if r.bucket == b then LruUpdate(l, n, r.key, r.hash) else l
    decreases |rs|
  {
    if rs == [] {
      assert [] + [r] == [r] && [r][1..] == [];
    } else {
      assert (rs + [r])[1..] == rs[1..] + [r];
      LruRunSnoc(if rs[0].bucket == b then LruUpdate(q, n, rs[0].key, rs[0].hash) else q, n, rs[1..], r, b);
    }
  }

  // ----- What an LRU list holds

  /** The hash last requested for the key in bucket `b`, if any. */
  function LastHash(rs: seq<Access>, b: nat, key: nat): Option<nat> {
    if rs == [] then None
    else
      var r := rs[|rs| - 1];
      if r.bucket == b && r.key == key then Some(r.hash) else LastHash(rs[..|rs| - 1], b, key)
  }

  /** The keys requested in bucket `b` since the key was. */
  function Since(rs: seq<Access>, b: nat, key: nat): set<nat> {
    if rs == [] then {}
    else
      var r := rs[|rs| - 1];
      if r.bucket != b then Since(rs[..|rs| - 1], b, key)
      else if r.key == key then {}
      else Since(rs[..|rs| - 1], b, key) + {r.key}
  }

  /** The list's entries are the keys with fewer than `n` others requested since, each with its last hash, in order. */
  ghost predicate Holds(q: seq<Pair>, n: nat, rs: seq<Access>, b: nat) {
    && |q| <= n
    && (forall i, j :: 0 <= i < j < |q| ==> q[i].key != q[j].key)
    && (forall i :: 0 <= i < |q| ==>
          LastHash(rs, b, q[i].key) == Some(q[i].value) && Since(rs, b, q[i].key) == Keys(q[i + 1..]))
    && (forall k :: LastHash(rs, b, k).Some? && |Since(rs, b, k)| < n ==> k in Keys(q))
  }

  lemma {:induction false} KeysSize(q: seq<Pair>)
    requires forall i, j :: 0 <= i < j < |q| ==> q[i].key != q[j].key
    ensures |Keys(q)| == |q|
  {
    if q != [] {
      var rest := q[1..];
      assert forall i, j :: 0 <= i < j < |rest| ==> rest[i].key != rest[j].key;
      KeysSize(rest);
      KeysSplit([q[0]], rest);
      assert q == [q[0]] + rest;
      assert Keys([q[0]]) == {[q[0]][0].key};
      assert q[0].key !in Keys(rest);
    }
  }

  lemma KeysSplit(q: seq<Pair>, r: seq<Pair>)
    ensures Keys(q + r) == Keys(q) + Keys(r)
  {
    forall k | k in Keys(q + r) ensures k in Keys(q) + Keys(r) {
      var i :| 0 <= i < |q + r| && (q + r)[i].key == k;
      if i < |q| { assert q[i].key == k; } else { assert r[i - |q|].key == k; }
    }
    forall k | k in Keys(q) + Keys(r) ensures k in Keys(q + r) {
      if i :| 0 <= i < |q| && q[i].key == k { assert (q + r)[i].key == k; }
      if i :| 0 <= i < |r| && r[i].key == k { assert (q + r)[|q| + i].key == k; }
    }
  }

  lemma KeysOne(p: Pair)
    ensures Keys([p]) == {p.key}
  {
    assert [p][0] == p;
  }

  /** What a request for `key` does to the history of another key. */
  lemma SinceSnoc(rs: seq<Access>, r: Access, b: nat, key: nat)
    ensures LastHash(rs + [r], b, key) == if r.bucket == b && r.key == key then Some(r.hash) else LastHash(rs, b, key)
    ensures Since(rs + [r], b, key) == if r.bucket != b then Since(rs, b, key)
                                       else if r.key == key then {} else Since(rs, b, key) + {r.key}
  {
    assert (rs + [r])[..|rs|] == rs;
  }

  /** An update removes `w`, which is the key's own entry, or the head of a full list, or nothing. */
  ghost predicate Removes(q: seq<Pair>, n: nat, key: nat, u: seq<Pair>, w: seq<Pair>, v: seq<Pair>) {
    && q == u + w + v && key !in Keys(u) + Keys(v) && |u| + |v| < n
    && (w == [] || Keys(w) == {key} || (u == [] && |w| == 1 && |v| + 1 == n))
  }

  lemma UpdateRemoves(q: seq<Pair>, n: nat, key: nat, hash: nat) returns (u: seq<Pair>, w: seq<Pair>, v: seq<Pair>)
    requires |q| <= n && n >= 1 && forall i, j :: 0 <= i < j < |q| ==> q[i].key != q[j].key
    ensures Removes(q, n, key, u, w, v) && LruUpdate(q, n, key, hash) == u + v + [Pair(key, hash)]
  {
    if key in Keys(q) {
      var i :| 0 <= i < |q| && q[i].key == key;
      u, w, v := q[..i], [q[i]], q[i + 1..];
      OwnEntry(q, i);
    } else {
      u, w, v := [], if |q| == n then q[..1] else [], if |q| == n then q[1..] else q;
      KeysNone();
      assert u + v == v && u + w + v == q;
    }
  }

  /** The list around its entry for a key. */
  lemma OwnEntry(q: seq<Pair>, i: nat)
    requires i < |q| && forall i, j :: 0 <= i < j < |q| ==> q[i].key != q[j].key
    ensures var u, v, key := q[..i], q[i + 1..], q[i].key;
            && u + [q[i]] + v == q && key !in Keys(u) && key !in Keys(v) && Keys([q[i]]) == {key}
            && Without(q, key) == u + v
  {
    var u, v := q[..i], q[i + 1..];
    SplitAt(q, i, u, v);
    KeysOne(q[i]);
    assert forall k :: 0 <= k < |u| ==> u[k].key != q[i].key;
    assert forall k :: 0 <= k < |v| ==> v[k] == q[i + 1 + k];
    hide Keys, Without;
    NoKey(u, q[i].key);
    NoKey(v, q[i].key);
    WithoutConcat(u, q[i], v);
  }

  lemma NoKey(q: seq<Pair>, key: nat)
    requires forall k :: 0 <= k < |q| ==> q[k].key != key
    ensures key !in Keys(q)
  {
  }

  lemma KeysThree(u: seq<Pair>, w: seq<Pair>, v: seq<Pair>)
    ensures Keys(u + w + v) == Keys(u) + Keys(w) + Keys(v)
  {
    KeysSplit(u + w, v);
    KeysSplit(u, w);
  }

  /** The keys after position `i` of `u`, in the old list and in the new one. */
  lemma KeysAfterLeft(u: seq<Pair>, w: seq<Pair>, v: seq<Pair>, p: Pair, i: nat)
    requires i < |u|
    ensures Keys((u + w + v)[i + 1..]) == Keys(u[i + 1..]) + Keys(w) + Keys(v)
    ensures Keys((u + v + [p])[i + 1..]) == Keys(u[i + 1..]) + Keys(v) + {p.key}
  {
    var x := u[i + 1..];
    assert (u + w + v)[i + 1..] == x + w + v && (u + v + [p])[i + 1..] == x + v + [p];
    KeysThree(x, w, v);
    KeysThree(x, v, [p]);
    KeysOne(p);
  }

  lemma KeysAfterRight(u: seq<Pair>, w: seq<Pair>, v: seq<Pair>, p: Pair, i: nat)
    requires i < |v|
    ensures Keys((u + w + v)[|u| + |w| + i + 1..]) == Keys(v[i + 1..])
    ensures Keys((u + v + [p])[|u| + i + 1..]) == Keys(v[i + 1..]) + {p.key}
  {
    var x := v[i + 1..];
    assert (u + w + v)[|u| + |w| + i + 1..] == x && (u + v + [p])[|u| + i + 1..] == x + [p];
    KeysSplit(x, [p]);
    KeysOne(p);
  }

  lemma OtherKeys(u: seq<Pair>, v: seq<Pair>, key: nat, i: nat)
    requires key !in Keys(u) + Keys(v) && i < |u| + |v|
    ensures (u + v)[i].key != key
  {
    KeysSplit(u, v);
    assert (u + v)[i].key in Keys(u + v);
  }

  /** The entry at `i` of the new list, and the keys after it. */
  lemma EntryAfter(q: seq<Pair>, n: nat, rs: seq<Access>, r: Access, b: nat, u: seq<Pair>, w: seq<Pair>, v: seq<Pair>,
                   i: nat)
    requires Holds(q, n, rs, b) && r.bucket == b && Removes(q, n, r.key, u, w, v) && i < |u| + |v|
    ensures var l := u + v + [Pair(r.key, r.hash)];
            && LastHash(rs + [r], b, l[i].key) == Some(l[i].value)
            && Since(rs + [r], b, l[i].key) == Keys(l[i + 1..])
  {
    hide Keys, LastHash, Since;
    var p, j := Pair(r.key, r.hash), if i < |u| then i else i + |w|;
    NewEntry(u, w, v, p, i);
    OtherKeys(u, v, r.key, i);
    SinceSnoc(rs, r, b, q[j].key);
    KeysNone();
    if i < |u| { KeysAfterLeft(u, w, v, p, i); } else { KeysAfterRight(u, w, v, p, i - |u|); }
  }

  lemma NewEntry(u: seq<Pair>, w: seq<Pair>, v: seq<Pair>, p: Pair, i: nat)
    requires i < |u| + |v|
    ensures (u + v + [p])[i] == (u + v)[i] == (u + w + v)[if i < |u| then i else i + |w|]
  {
  }

  lemma KeysNone()
    ensures Keys([]) == {}
  {
  }

  lemma StillHeld(q: seq<Pair>, n: nat, rs: seq<Access>, r: Access, b: nat, u: seq<Pair>, w: seq<Pair>, v: seq<Pair>,
                  k: nat)
    requires Holds(q, n, rs, b) && r.bucket == b && Removes(q, n, r.key, u, w, v)
    requires LastHash(rs + [r], b, k).Some? && |Since(rs + [r], b, k)| < n
    ensures k in Keys(u + v + [Pair(r.key, r.hash)])
  {
    var p := Pair(r.key, r.hash);
    SinceSnoc(rs, r, b, k);
    KeysThree(u, v, [p]);
    KeysThree(u, w, v);
    KeysOne(p);
    if k != r.key {
      Smaller(Since(rs, b, k), Since(rs + [r], b, k));
      assert k in Keys(q);
      if k in Keys(w) { HeadOutlived(q, n, rs, r, b, u, w, v, k); }
    }
  }

  /** The head of a full list has all other slots' keys requested since, and now one more. */
  lemma HeadOutlived(q: seq<Pair>, n: nat, rs: seq<Access>, r: Access, b: nat, u: seq<Pair>, w: seq<Pair>, v: seq<Pair>,
                     k: nat)
    requires Holds(q, n, rs, b) && r.bucket == b && Removes(q, n, r.key, u, w, v) && k in Keys(w) && k != r.key
    ensures |Since(rs, b, k) + {r.key}| == n
  {
    hide LastHash, Since;
    KeysNone();
    assert |w| == 1 && w[0].key == k;
    HeadOf(q, u, w, v);
    KeysSize(v);
    hide Keys;
    assert Since(rs, b, q[0].key) == Keys(q[1..]);
  }

  /** The head of the list and what follows it. */
  lemma HeadOf(q: seq<Pair>, u: seq<Pair>, w: seq<Pair>, v: seq<Pair>)
    requires q == u + w + v && u == [] && |w| == 1 && forall i, j :: 0 <= i < j < |q| ==> q[i].key != q[j].key
    ensures q[0] == w[0] && q[1..] == v && forall i, j :: 0 <= i < j < |v| ==> v[i].key != v[j].key
  {
    assert forall i :: 0 <= i < |v| ==> v[i] == q[i + 1];
  }

  lemma Smaller(a: set<nat>, b: set<nat>)
    requires a <= b
    ensures |a| <= |b|
  {
    assert b == a + (b - a);
  }

  lemma UpdateHolds(q: seq<Pair>, n: nat, rs: seq<Access>, r: Access, b: nat)
    requires n >= 1 && Holds(q, n, rs, b) && r.bucket == b
    ensures Holds(LruUpdate(q, n, r.key, r.hash), n, rs + [r], b)
  {
    var u, w, v := UpdateRemoves(q, n, r.key, r.hash);
    var p := Pair(r.key, r.hash);
    var l := u + v + [p];
    forall i | 0 <= i < |l|
      ensures LastHash(rs + [r], b, l[i].key) == Some(l[i].value) && Since(rs + [r], b, l[i].key) == Keys(l[i + 1..])
    {
      if i < |u| + |v| {
        EntryAfter(q, n, rs, r, b, u, w, v, i);
      } else {
        SinceSnoc(rs, r, b, r.key);
        assert l[i] == p && l[i + 1..] == [];
      }
    }
    DistinctAfter(q, n, r, u, w, v);
    forall k | LastHash(rs + [r], b, k).Some? && |Since(rs + [r], b, k)| < n ensures k in Keys(l) {
      StillHeld(q, n, rs, r, b, u, w, v, k);
    }
  }

  lemma DistinctAfter(q: seq<Pair>, n: nat, r: Access, u: seq<Pair>, w: seq<Pair>, v: seq<Pair>)
    requires Removes(q, n, r.key, u, w, v) && forall i, j :: 0 <= i < j < |q| ==> q[i].key != q[j].key
    ensures var l := u + v + [Pair(r.key, r.hash)];
            forall i, j :: 0 <= i < j < |l| ==> l[i].key != l[j].key
  {
    var l := u + v + [Pair(r.key, r.hash)];
    KeysSplit(u, v);
    forall i, j | 0 <= i < j < |l| ensures l[i].key != l[j].key {
      var i' := if i < |u| then i else i + |w|;
      assert l[i] == q[i'] && l[i] == (u + v)[i] && (u + v)[i].key in Keys(u + v);
      if j < |l| - 1 {
        var j' := if j < |u| then j else j + |w|;
        assert l[j] == q[j'];
      }
    }
  }

  lemma {:induction false} LruRunHolds(n: nat, rs: seq<Access>, b: nat)
    requires n >= 1
    ensures Holds(LruRun([], n, rs, b), n, rs, b)
    decreases |rs|
  {
    if rs != [] {
      var r, front := rs[|rs| - 1], rs[..|rs| - 1];
      assert rs == front + [r];
      LruRunHolds(n, front, b);
      LruRunSnoc([], n, front, r, b);
      if r.bucket == b {
        UpdateHolds(LruRun([], n, front, b), n, front, r, b);
      } else {
        OtherBucketHolds(LruRun([], n, front, b), n, front, r, b);
      }
    }
  }

  lemma OtherBucketHolds(q: seq<Pair>, n: nat, rs: seq<Access>, r: Access, b: nat)
    requires Holds(q, n, rs, b) && r.bucket != b
    ensures Holds(q, n, rs + [r], b)
  {
    forall k ensures LastHash(rs + [r], b, k) == LastHash(rs, b, k) && Since(rs + [r], b, k) == Since(rs, b, k) {
      SinceSnoc(rs, r, b, k);
    }
  }

  // ----- What the index answers

  lemma LookupIsEntry(t: Table, key: nat, v: nat)
    requires Wf(t)
    ensures Lookup(t, key) == Some(v) <==> Pair(key, v) in Entries(t)
  {
    var q, i := Entries(t), Find(t, key);
    if Pair(key, v) in q { EntryIsSlot(t, key, v); }
    if i < |t| {
      FindKey(t, i);
      assert q[IndexOf(q, key)] == Pair(key, t[i].value);
      if Pair(key, v) in q { OneEntry(t, key, v, t[i].value); }
    }
  }

  /** A table with unique keys has one entry for a key. */
  lemma {:induction false} OneEntry(t: Table, key: nat, v: nat, v': nat)
    requires Wf(t) && Pair(key, v) in Entries(t) && Pair(key, v') in Entries(t)
    ensures v == v'
  {
    var rest := t[1..];
    assert forall i :: 0 <= i < |rest| ==> rest[i] == t[i + 1];
    if Pair(key, v) in Entries(rest) && Pair(key, v') in Entries(rest) {
      OneEntry(rest, key, v, v');
    } else if Pair(key, v) in Entries(rest) {
      EntryIsSlot(rest, key, v);
    } else if Pair(key, v') in Entries(rest) {
      EntryIsSlot(rest, key, v');
    }
  }

  lemma EntryIsSlot(t: Table, key: nat, v: nat)
    requires Pair(key, v) in Entries(t)
    ensures exists i :: 0 <= i < |t| && t[i].valid && t[i].key == key
  {
    EntriesKeys(t);
    var q := Entries(t);
    var j :| 0 <= j < |q| && q[j] == Pair(key, v);
    assert key in Keys(q);
  }

  /**
   After any run from the empty index, a key of a bucket is found, with the hash last requested for it, exactly when
   fewer other keys than the bucket has slots were requested there since.
   */
  lemma FoundIff(bs: Buckets, rs: seq<Access>, sep: nat, b: nat, key: nat, v: nat)
    requires BucketsOk(bs, sep) && Unused(bs) && b < |bs| && forall i :: 0 <= i < |rs| ==> rs[i].bucket < |bs|
    ensures var r := Run(bs, rs, sep).0;
            && |r| == |bs|
            && (Lookup(r[b], key) == Some(v) <==> LastHash(rs, b, key) == Some(v) && |Since(rs, b, key)| < |bs[b]|)
  {
    RunRefinesLru(bs, rs, sep, b);
    UnusedEntries(bs[b]);
    LruRunHolds(|bs[b]|, rs, b);
    LookupIsEntry(Run(bs, rs, sep).0[b], key, v);
    HeldIff(LruRun([], |bs[b]|, rs, b), |bs[b]|, rs, b, key, v);
  }

  lemma {:induction false} UnusedEntries(t: Table)
    requires forall i :: 0 <= i < |t| ==> !t[i].valid
    ensures Entries(t) == []
  {
    if t != [] { UnusedEntries(t[1..]); }
  }

  lemma HeldIff(q: seq<Pair>, n: nat, rs: seq<Access>, b: nat, key: nat, v: nat)
    requires Holds(q, n, rs, b)
    ensures Pair(key, v) in q <==> LastHash(rs, b, key) == Some(v) && |Since(rs, b, key)| < n
  {
    hide LastHash, Since;
    if Pair(key, v) in q {
      var i :| 0 <= i < |q| && q[i] == Pair(key, v);
      AfterSize(q, i);
      hide Keys;
      assert Since(rs, b, q[i].key) == Keys(q[i + 1..]);
    }
    if LastHash(rs, b, key) == Some(v) && |Since(rs, b, key)| < n {
      assert key in Keys(q);
      var i :| 0 <= i < |q| && q[i].key == key;
      assert q[i] == Pair(key, v);
    }
  }

  lemma AfterSize(q: seq<Pair>, i: nat)
    requires i < |q| && forall j, k :: 0 <= j < k < |q| ==> q[j].key != q[k].key
    ensures |Keys(q[i + 1..])| < |q|
  {
    var rest := q[i + 1..];
    assert forall j :: 0 <= j < |rest| ==> rest[j] == q[i + 1 + j];
    KeysSize(rest);
  }
}
