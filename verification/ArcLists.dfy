/**
 The address side of the CacheDedup engines: the five ARC lists T1, T2, B1, B2 and B3 with the
 map from address to fingerprint.  D-ARC and CD-ARC use the same lists and differ only in what a
 lost or gained reference does to their fingerprint index, so an operation here reports the
 address that left T1 and T2.
 */
module ArcLists {
  import opened Common

  datatype ListId = T1 | T2 | B1 | B2 | B3

  datatype Entry = Entry(fp: Fp, list: ListId)

  /** Index 0 of a list is its front (most recent), the last index its back. */
  datatype Lists = Lists(
    t1: seq<Addr>, t2: seq<Addr>, b1: seq<Addr>, b2: seq<Addr>, b3: seq<Addr>,
    mp: map<Addr, Entry>, p: nat, x: nat, capacity: nat)

  /** The new lists, and the address that stopped holding a reference, if any. */
  datatype Outcome = Outcome(lists: Lists, demoted: Option<Addr>)

  function Empty(capacity: nat, p: nat, x: nat): Lists {
    Lists([], [], [], [], [], map[], p, x, capacity)
  }

  function Of(s: Lists, id: ListId): seq<Addr> {
    match id
    case T1 => s.t1
    case T2 => s.t2
    case B1 => s.b1
    case B2 => s.b2
    case B3 => s.b3
  }

  function Put(s: Lists, id: ListId, q: seq<Addr>): Lists {
    match id
    case T1 => s.(t1 := q)
    case T2 => s.(t2 := q)
    case B1 => s.(b1 := q)
    case B2 => s.(b2 := q)
    case B3 => s.(b3 := q)
  }

  /** The number of addresses that hold a reference to their fingerprint. */
  function HeldSize(s: Lists): nat { |s.t1| + |s.t2| }

  predicate InT(s: Lists, a: Addr) {
    a in s.mp && (s.mp[a].list == T1 || s.mp[a].list == T2)
  }

  // ----- Operations

  function AdjustAdaptiveFactor(s: Lists, a: Addr): Lists {
    if a !in s.mp then s
    else if s.mp[a].list == B1 then (if s.p < s.capacity then s.(p := s.p + 1) else s)
    else if s.mp[a].list == B2 then (if s.p > 0 then s.(p := s.p - 1) else s)
    else s
  }

  /** Move the back of list `from` to the front of list `to`. */
  function MoveBack(s: Lists, from: ListId, to: ListId): Lists {
    var q := Of(s, from);
    if q == [] || q[|q| - 1] !in s.mp then s
    else
      var a := q[|q| - 1];
      var s1 := Put(s, from, q[..|q| - 1]);
      Put(s1, to, [a] + Of(s1, to)).(mp := s.mp[a := s.mp[a].(list := to)])
  }

  predicate ReplacesT1(s: Lists, a: Addr) {
    s.t1 != [] && (|s.t1| > s.p
                   || (|s.t1| == s.p && a in s.mp && s.mp[a].list == B2)
                   || s.t2 == [])
  }

  function ReplaceInMetadataCache(s: Lists, a: Addr): Outcome {
    var id := if ReplacesT1(s, a) then T1 else T2;
    if Of(s, id) == [] then Outcome(s, None)
    else
      Outcome(MoveBack(s, id, if id == T1 then B1 else B2), Some(Of(s, id)[|Of(s, id)| - 1]))
  }

  function ManageMetadataCache(s: Lists, a: Addr): Outcome {
    if |s.t1| + |s.b1| >= s.capacity then
      if |s.t1| >= s.capacity then
        if s.t1 == [] then Outcome(s, None)
        else Outcome(MoveBack(MoveBack(s, T1, B1), B1, B3), Some(s.t1[|s.t1| - 1]))
      else ReplaceInMetadataCache(MoveBack(s, B1, B3), a)
    else if |s.b1| + |s.b2| >= s.capacity then ReplaceInMetadataCache(MoveBack(s, B2, B3), a)
    else ReplaceInMetadataCache(s, a)
  }

  predicate Full(s: Lists) {
    |s.t1| + |s.t2| + |s.b3| == s.capacity + s.x
  }

  function DropB3(s: Lists): Lists {
    if s.b3 == [] then s
    else s.(b3 := s.b3[..|s.b3| - 1], mp := s.mp - {s.b3[|s.b3| - 1]})
  }

  function CheckMetadataCache(s: Lists, a: Addr): Outcome {
    if !Full(s) then Outcome(s, None)
    else
      var o := if s.b3 == [] then ManageMetadataCache(s, a) else Outcome(s, None);
      o.(lists := DropB3(o.lists))
  }

  function PushFront(s: Lists, a: Addr, fp: Fp, id: ListId): Lists {
    Put(s, id, [a] + Of(s, id)).(mp := s.mp[a := Entry(fp, id)])
  }

  /** Take `a` out of the list it is on and push it to T1 (from B3) or T2, with its new fingerprint. */
  function Promote(s: Lists, a: Addr, fp: Fp): Lists
    requires a in s.mp
  {
    var id := s.mp[a].list;
    PushFront(Put(s, id, Erase(Of(s, id), a)), a, fp, if id == B3 then T1 else T2)
  }

  /** Record that address `a` now holds fingerprint `fp`. */
  function Update(s: Lists, a: Addr, fp: Fp): Outcome {
    if InT(s, a) then Outcome(Promote(s, a, fp), Some(a))
    else if a in s.mp && s.mp[a].list == B3 then Outcome(Promote(s, a, fp), None)
    else
      var o := CheckMetadataCache(s, a);
      if a in o.lists.mp then o.(lists := Promote(o.lists, a, fp))
      else if a in s.mp then o.(lists := PushFront(CheckMetadataCache(o.lists, a).lists, a, fp, T1))
      else o.(lists := PushFront(o.lists, a, fp, T1))
  }

  // ----- What every operation keeps

  /** List `q` is duplicate-free and holds exactly the addresses the map files under `id`. */
  ghost predicate Listed(q: seq<Addr>, mp: map<Addr, Entry>, id: ListId) {
    && NoDup(q)
    && (forall a :: a in q <==> a in mp && mp[a].list == id)
  }

  /** The lists are duplicate-free, disjoint, cover exactly the map's keys and agree with the list ids. */
  ghost predicate Wf(s: Lists) {
    forall id :: Listed(Of(s, id), s.mp, id)
  }

  predicate Budget(s: Lists) {
    && s.capacity >= 1
    && |s.t1| + |s.t2| + |s.b3| <= s.capacity + s.x
    && |s.b1| + |s.b2| <= s.capacity
    && s.p <= s.capacity
  }

  ghost predicate Inv(s: Lists) { Wf(s) && Budget(s) }

  /** The addresses that hold a reference to one of the fingerprints `fs`. */
  function RefsIn(s: Lists, fs: set<Fp>): set<Addr> {
    set a | a in s.mp && InT(s, a) && s.mp[a].fp in fs
  }

  /** The addresses that hold a reference to fingerprint `f`. */
  function Refs(s: Lists, f: Fp): set<Addr> {
    RefsIn(s, {f})
  }

  /** From `s0` to `s1` only the address `d` (if any) lost its reference, no address gained one, and no
      fingerprint changed. */
  ghost predicate Loses(s0: Lists, s1: Lists, d: Option<Addr>) {
    && (d.Some? ==> InT(s0, d.value))
    && s1.mp.Keys <= s0.mp.Keys
    && (forall b :: b in s1.mp ==> s1.mp[b].fp == s0.mp[b].fp)
    && (forall b: Addr :: InT(s1, b) <==> InT(s0, b) && d != Some(b))
  }

  /** Exactly the address `a` of T1 or T2 was demoted. */
  ghost predicate Demotes(s0: Lists, s1: Lists, a: Addr) {
    Loses(s0, s1, Some(a)) && HeldSize(s1) == HeldSize(s0) - 1
  }

  lemma ListedPop(q: seq<Addr>, mp: map<Addr, Entry>, id: ListId)
    requires Listed(q, mp, id) && q != []
    ensures var a := q[|q| - 1];
            && a in mp && mp[a].list == id
            && (forall e: Entry :: e.list != id ==> Listed(q[..|q| - 1], mp[a := e], id))
            && Listed(q[..|q| - 1], mp - {a}, id)
  {
    var a := q[|q| - 1];
    assert a in q && q == q[..|q| - 1] + [a];
    assert forall b :: b in q[..|q| - 1] <==> b in q && b != a;
  }

  lemma ListedPush(q: seq<Addr>, mp: map<Addr, Entry>, id: ListId, a: Addr, e: Entry)
    requires Listed(q, mp, id) && a !in q && e.list == id
    ensures Listed([a] + q, mp[a := e], id)
  {
    NoDupCons(a, q);
  }

  lemma ListedOther(q: seq<Addr>, mp: map<Addr, Entry>, id: ListId, a: Addr, e: Entry)
    requires Listed(q, mp, id) && a in mp && mp[a].list != id && e.list != id
    ensures Listed(q, mp[a := e], id)
  {
  }

  lemma MoveBackKeepsWf(s: Lists, from: ListId, to: ListId)
    requires Wf(s) && from != to && Of(s, from) != []
    ensures Wf(MoveBack(s, from, to))
    ensures var a := Of(s, from)[|Of(s, from)| - 1];
            && a in s.mp && s.mp[a].list == from
  {
    ListedPop(Of(s, from), s.mp, from);
    var a := Of(s, from)[|Of(s, from)| - 1];
    var r := MoveBack(s, from, to);
    var e := s.mp[a].(list := to);
    assert Listed(Of(s, to), s.mp, to);
    ListedPush(Of(s, to), s.mp, to, a, e);
    forall id ensures Listed(Of(r, id), r.mp, id) {
      assert Listed(Of(s, id), s.mp, id);
      if id != from && id != to {
        assert Of(r, id) == Of(s, id);
        ListedOther(Of(s, id), s.mp, id, a, e);
      }
    }
  }

  lemma ReplaceKeepsInv(s: Lists, a: Addr)
    requires Wf(s) && HeldSize(s) > 0
    ensures var o := ReplaceInMetadataCache(s, a);
            && Wf(o.lists) && o.demoted.Some? && Demotes(s, o.lists, o.demoted.value)
            && o.lists.b3 == s.b3 && o.lists.mp.Keys == s.mp.Keys
            && |o.lists.b1| + |o.lists.b2| == |s.b1| + |s.b2| + 1
            && o.lists.p == s.p && o.lists.x == s.x && o.lists.capacity == s.capacity
    ensures var q := if ReplacesT1(s, a) then s.t1 else s.t2;
            q != [] && ReplaceInMetadataCache(s, a).demoted == Some(q[|q| - 1])
  {
    if ReplacesT1(s, a) { MoveBackKeepsWf(s, T1, B1); } else { MoveBackKeepsWf(s, T2, B2); }
  }

  ghost predicate SameParameters(s0: Lists, s1: Lists) {
    s1.p == s0.p && s1.x == s0.x && s1.capacity == s0.capacity
  }

  lemma ShiftToB3KeepsWf(s: Lists, from: ListId)
    requires Wf(s) && (from == B1 || from == B2) && Of(s, from) != []
    ensures var r := MoveBack(s, from, B3);
            && Wf(r) && r.t1 == s.t1 && r.t2 == s.t2 && |r.b3| == |s.b3| + 1
            && |r.b1| + |r.b2| == |s.b1| + |s.b2| - 1
            && r.mp.Keys == s.mp.Keys && SameParameters(s, r)
            && Loses(s, r, None)
  {
    MoveBackKeepsWf(s, from, B3);
  }

  lemma RetireT1KeepsWf(s: Lists)
    requires Wf(s) && s.t1 != []
    ensures var a, r := s.t1[|s.t1| - 1], MoveBack(s, T1, B1);
            && Wf(r) && Demotes(s, r, a) && r.b1 != [] && r.b3 == s.b3
            && |r.b1| + |r.b2| == |s.b1| + |s.b2| + 1
            && r.mp.Keys == s.mp.Keys && SameParameters(s, r)
  {
    MoveBackKeepsWf(s, T1, B1);
  }

  /** One call takes exactly one address out of T1 and T2, and no list it takes from is empty. */
  lemma ManageKeepsInv(s: Lists, a: Addr)
    requires Inv(s) && HeldSize(s) > 0
    ensures var o := ManageMetadataCache(s, a);
            && Inv(o.lists) && o.demoted.Some? && Demotes(s, o.lists, o.demoted.value)
            && o.lists.mp.Keys == s.mp.Keys && SameParameters(s, o.lists)
            && |s.b3| <= |o.lists.b3| <= |s.b3| + 1
  {
    if |s.t1| + |s.b1| >= s.capacity {
      if |s.t1| >= s.capacity {
        RetireT1KeepsWf(s);
        ShiftToB3KeepsWf(MoveBack(s, T1, B1), B1);
      } else {
        ShiftToB3KeepsWf(s, B1);
        ReplaceKeepsInv(MoveBack(s, B1, B3), a);
      }
    } else if |s.b1| + |s.b2| >= s.capacity {
      ShiftToB3KeepsWf(s, B2);
      ReplaceKeepsInv(MoveBack(s, B2, B3), a);
    } else {
      ReplaceKeepsInv(s, a);
    }
  }

  lemma DropB3KeepsWf(s: Lists)
    requires Wf(s)
    ensures Wf(DropB3(s))
    ensures forall b :: InT(DropB3(s), b) <==> InT(s, b)
  {
    if s.b3 != [] {
      assert Listed(Of(s, B3), s.mp, B3);
      ListedPop(s.b3, s.mp, B3);
      forall id ensures Listed(Of(DropB3(s), id), DropB3(s).mp, id) {
        assert Listed(Of(s, id), s.mp, id);
      }
    }
  }

  lemma CheckKeepsInv(s: Lists, a: Addr)
    requires Inv(s)
    ensures var o := CheckMetadataCache(s, a);
            && Inv(o.lists) && !Full(o.lists)
            && o.lists.x == s.x && o.lists.capacity == s.capacity
            && Loses(s, o.lists, o.demoted)
  {
    if Full(s) {
      if s.b3 == [] {
        ManageKeepsInv(s, a);
        DropB3KeepsWf(ManageMetadataCache(s, a).lists);
      } else {
        DropB3KeepsWf(s);
      }
    }
  }

  /** From `s` to `r` at most one address is forgotten. */
  ghost predicate ForgetsAtMostOne(s: Lists, r: Lists) {
    forall b, c :: b in s.mp && b !in r.mp && c in s.mp && c !in r.mp ==> b == c
  }

  lemma CheckForgetsOne(s: Lists, a: Addr)
    requires Inv(s)
    ensures var r := CheckMetadataCache(s, a).lists;
            ForgetsAtMostOne(s, r) && r.mp.Keys <= s.mp.Keys && (!Full(s) ==> r == s)
  {
    if Full(s) && s.b3 == [] { ManageKeepsInv(s, a); }
  }

  lemma PushFrontKeepsWf(s: Lists, a: Addr, fp: Fp, to: ListId)
    requires Wf(s) && a !in s.mp
    ensures Wf(PushFront(s, a, fp, to))
  {
    var r := PushFront(s, a, fp, to);
    forall id ensures Listed(Of(r, id), r.mp, id) {
      assert Listed(Of(s, id), s.mp, id);
      if id == to { ListedPush(Of(s, id), s.mp, id, a, Entry(fp, to)); }
    }
  }

  lemma ListedErase(q: seq<Addr>, mp: map<Addr, Entry>, a: Addr, e: Entry)
    requires a in mp && Listed(q, mp, mp[a].list)
    ensures a in q
    ensures e.list != mp[a].list ==> Listed(Erase(q, a), mp[a := e], mp[a].list)
    ensures e.list == mp[a].list ==> Listed([a] + Erase(q, a), mp[a := e], mp[a].list)
  {
    NoDupCons(a, Erase(q, a));
  }

  lemma PromoteKeepsWf(s: Lists, a: Addr, fp: Fp)
    requires Wf(s) && a in s.mp
    ensures var r, from := Promote(s, a, fp), s.mp[a].list;
            && Wf(r) && r.mp == s.mp[a := Entry(fp, if from == B3 then T1 else T2)] && SameParameters(s, r)
            && (if from == B1 || from == B2 then
                  && |r.b1| + |r.b2| == |s.b1| + |s.b2| - 1
                  && HeldSize(r) + |r.b3| == HeldSize(s) + |s.b3| + 1
                else
                  && |r.b1| + |r.b2| == |s.b1| + |s.b2|
                  && HeldSize(r) + |r.b3| == HeldSize(s) + |s.b3|)
  {
    var from := s.mp[a].list;
    var to := if from == B3 then T1 else T2;
    var r, e := Promote(s, a, fp), Entry(fp, to);
    assert Listed(Of(s, from), s.mp, from);
    ListedErase(Of(s, from), s.mp, a, e);
    forall id ensures Listed(Of(r, id), r.mp, id) {
      assert Listed(Of(s, id), s.mp, id);
      if id != from {
        if id == to { ListedPush(Of(s, id), s.mp, id, a, e); }
        else { ListedOther(Of(s, id), s.mp, id, a, e); }
      }
    }
  }

  /** `o` is `s` after address `a` took fingerprint `fp`: `a` holds a reference to `fp`, at most one address
      (`a` itself when it held one before) lost its reference, and no other fingerprint changed. */
  ghost predicate Records(s: Lists, o: Outcome, a: Addr, fp: Fp) {
    && InT(o.lists, a) && o.lists.mp[a].fp == fp
    && o.lists.mp.Keys <= s.mp.Keys + {a}
    && (forall b :: b in o.lists.mp && b != a ==> o.lists.mp[b].fp == s.mp[b].fp)
    && (InT(s, a) ==> o.demoted == Some(a))
    && (o.demoted.Some? ==> InT(s, o.demoted.value))
    && (forall b: Addr :: b != a ==> (InT(o.lists, b) <==> InT(s, b) && o.demoted != Some(b)))
  }

  lemma UpdateKeepsBudget(s: Lists, a: Addr, fp: Fp)
    requires Inv(s)
    ensures Inv(Update(s, a, fp).lists)
  {
    if InT(s, a) || (a in s.mp && s.mp[a].list == B3) {
      PromoteKeepsWf(s, a, fp);
    } else {
      CheckKeepsInv(s, a);
      var m := CheckMetadataCache(s, a).lists;
      if a in m.mp { PromoteKeepsWf(m, a, fp); } else { PushFrontKeepsWf(m, a, fp, T1); }
    }
  }

  /** `Update` spelled out by the list the address is on when the request arrives. */
  lemma UpdateByCase(s: Lists, a: Addr, fp: Fp)
    requires Inv(s)
    ensures var o, c := Update(s, a, fp), CheckMetadataCache(s, a);
            if InT(s, a) then o == Outcome(Promote(s, a, fp), Some(a))
            else if a in s.mp && s.mp[a].list == B3 then o == Outcome(Promote(s, a, fp), None)
            else if a in c.lists.mp then !InT(c.lists, a) && a in s.mp && o == c.(lists := Promote(c.lists, a, fp))
            else o == c.(lists := PushFront(c.lists, a, fp, T1))
  {
    CheckKeepsInv(s, a);
  }

  lemma RecordsCompose(s: Lists, m: Lists, d: Option<Addr>, r: Lists, a: Addr, e: Entry)
    requires Loses(s, m, d) && (InT(s, a) ==> d == Some(a))
    requires r.mp == m.mp[a := e] && (e.list == T1 || e.list == T2)
    ensures Records(s, Outcome(r, d), a, e.fp)
  {
    forall b: Addr | b != a ensures InT(r, b) <==> InT(s, b) && d != Some(b) {
      assert InT(m, b) <==> InT(s, b) && d != Some(b);
    }
  }

  lemma UpdateForgetsOne(s: Lists, a: Addr, fp: Fp)
    requires Inv(s)
    ensures ForgetsAtMostOne(s, Update(s, a, fp).lists)
    ensures InT(s, a) || (a in s.mp && s.mp[a].list == B3) || !Full(s) ==> s.mp.Keys <= Update(s, a, fp).lists.mp.Keys
  {
    UpdateByCase(s, a, fp);
    CheckForgetsOne(s, a);
    hide CheckMetadataCache, Update, Inv, Erase;
  }

  lemma UpdateRecords(s: Lists, a: Addr, fp: Fp)
    requires Inv(s)
    ensures Records(s, Update(s, a, fp), a, fp)
  {
    if InT(s, a) || (a in s.mp && s.mp[a].list == B3) {
      PromoteKeepsWf(s, a, fp);
    } else {
      CheckKeepsInv(s, a);
      var o := CheckMetadataCache(s, a);
      if a in o.lists.mp {
        PromoteKeepsWf(o.lists, a, fp);
        RecordsCompose(s, o.lists, o.demoted, Promote(o.lists, a, fp), a, Promote(o.lists, a, fp).mp[a]);
      } else {
        RecordsCompose(s, o.lists, o.demoted, PushFront(o.lists, a, fp, T1), a, Entry(fp, T1));
      }
    }
  }

  // ----- Reference sets

  lemma RefsAfterDemotion(s0: Lists, s1: Lists, a: Addr, fs: set<Fp>)
    requires Loses(s0, s1, Some(a))
    ensures |RefsIn(s1, fs)| == |RefsIn(s0, fs)| - (if s0.mp[a].fp in fs then 1 else 0)
  {
    assert RefsIn(s1, fs) == RefsIn(s0, fs) - {a};
  }

  lemma RefsMembers(s: Lists, o: Outcome, a: Addr, fp: Fp, fs: set<Fp>, b: Addr)
    requires Records(s, o, a, fp)
    ensures b in RefsIn(o.lists, fs) <==>
            if b == a then fp in fs else b in RefsIn(s, fs) && o.demoted != Some(b)
  {
    assert b != a ==> (InT(o.lists, b) <==> InT(s, b) && o.demoted != Some(b));
  }

  lemma RefsAfterUpdate(s: Lists, o: Outcome, a: Addr, fp: Fp, fs: set<Fp>)
    requires Records(s, o, a, fp)
    ensures |RefsIn(o.lists, fs)| == |RefsIn(s, fs)|
                                     - (if o.demoted.Some? && s.mp[o.demoted.value].fp in fs then 1 else 0)
                                     + (if fp in fs then 1 else 0)
  {
    forall b ensures b in RefsIn(o.lists, fs) <==>
                     if b == a then fp in fs else b in RefsIn(s, fs) && o.demoted != Some(b) {
      RefsMembers(s, o, a, fp, fs, b);
    }
    assert a in RefsIn(s, fs) ==> o.demoted == Some(a);
    assert o.demoted.Some? ==> (o.demoted.value in RefsIn(s, fs) <==> s.mp[o.demoted.value].fp in fs);
    SwapSize(RefsIn(s, fs), RefsIn(o.lists, fs), o.demoted, a, fp in fs);
  }

  lemma SwapSize(before: set<Addr>, after: set<Addr>, out: Option<Addr>, a: Addr, gain: bool)
    requires forall b :: b in after <==> if b == a then gain else b in before && out != Some(b)
    requires a in before ==> out == Some(a)
    ensures |after| == |before| - (if out.Some? && out.value in before then 1 else 0) + (if gain then 1 else 0)
  {
    var kept := if out.Some? then before - {out.value} else before;
    assert a !in kept;
    assert after == if gain then kept + {a} else kept;
  }

  // ----- The size of the map

  function FiledIn(mp: map<Addr, Entry>, ids: set<ListId>): set<Addr> {
    set a | a in mp && mp[a].list in ids
  }

  lemma FiledInSize(s: Lists, ids: set<ListId>, id: ListId)
    requires Wf(s) && id !in ids
    ensures |FiledIn(s.mp, ids + {id})| == |FiledIn(s.mp, ids)| + |Of(s, id)|
  {
    var q := Of(s, id);
    assert Listed(q, s.mp, id);
    NoDupCardinality(q);
    assert FiledIn(s.mp, ids + {id}) == FiledIn(s.mp, ids) + Elements(q);
    assert FiledIn(s.mp, ids) !! Elements(q);
  }

  lemma FiledAnywhere(s: Lists)
    requires Wf(s)
    ensures |s.mp| == HeldSize(s) + |s.b1| + |s.b2| + |s.b3|
  {
    assert FiledIn(s.mp, {}) == {};
    FiledInSize(s, {}, T1);
    FiledInSize(s, {} + {T1}, T2);
    FiledInSize(s, {} + {T1} + {T2}, B1);
    FiledInSize(s, {} + {T1} + {T2} + {B1}, B2);
    FiledInSize(s, {} + {T1} + {T2} + {B1} + {B2}, B3);
    assert s.mp.Keys == FiledIn(s.mp, {} + {T1} + {T2} + {B1} + {B2} + {B3});
  }

  /** The map never outgrows the lists' budget. */
  lemma MapBudget(s: Lists)
    requires Inv(s)
    ensures |s.mp| <= 2 * s.capacity + s.x
  {
    FiledAnywhere(s);
  }
}
