/**
 The order of the five ARC lists: which list an operation takes from, at which end, and that T1 followed by B1 and T2
 followed by B2 are always in order of each address's last request.
 */
module ArcOrder {
  import opened Common
  import opened ArcLists

  // ----- The adaptive factor

  /** A request for an address of B1 moves the factor towards T1, one for an address of B2 towards T2. */
  lemma AdaptiveFactor(s: Lists, a: Addr)
    requires Inv(s)
    ensures var p := AdjustAdaptiveFactor(s, a).p;
            && (a in s.b1 ==> p == if s.p + 1 > s.capacity then s.capacity else s.p + 1)
            && (a in s.b2 ==> p == if s.p == 0 then 0 else s.p - 1)
            && (a !in s.b1 + s.b2 ==> p == s.p)
    ensures AdjustAdaptiveFactor(s, a) == s.(p := AdjustAdaptiveFactor(s, a).p)
  {
    FiledWhere(s, a);
  }

  /** Which list an address is on is what the map says. */
  lemma FiledWhere(s: Lists, a: Addr)
    requires Wf(s)
    ensures a in s.t1 <==> a in s.mp && s.mp[a].list == T1
    ensures a in s.t2 <==> a in s.mp && s.mp[a].list == T2
    ensures a in s.b1 <==> a in s.mp && s.mp[a].list == B1
    ensures a in s.b2 <==> a in s.mp && s.mp[a].list == B2
    ensures a in s.b3 <==> a in s.mp && s.mp[a].list == B3
  {
    assert Listed(Of(s, T1), s.mp, T1) && Listed(Of(s, T2), s.mp, T2) && Listed(Of(s, B1), s.mp, B1);
    assert Listed(Of(s, B2), s.mp, B2) && Listed(Of(s, B3), s.mp, B3);
  }

  // ----- Making room

  function Last(q: seq<Addr>): Addr
    requires q != []
  {
    q[|q| - 1]
  }

  function Init(q: seq<Addr>): seq<Addr>
    requires q != []
  {
    q[..|q| - 1]
  }

  /** T1's least recent address went to the front of B1, and no other list changed. */
  predicate FromT1(s: Lists, r: Lists) {
    s.t1 != [] && r.t1 == Init(s.t1) && r.b1 == [Last(s.t1)] + s.b1 && r.t2 == s.t2 && r.b2 == s.b2 && r.b3 == s.b3
  }

  /** T2's least recent address went to the front of B2. */
  predicate FromT2(s: Lists, r: Lists) {
    s.t2 != [] && r.t2 == Init(s.t2) && r.b2 == [Last(s.t2)] + s.b2 && r.t1 == s.t1 && r.b1 == s.b1 && r.b3 == s.b3
  }

  /**
   A replacement for a request on `a`: T1 gives way when it is longer than the factor, T2 when it is shorter; at the
   factor T1 gives way exactly to an address of B2; an empty list never does.
   */
  predicate Replaced(s: Lists, a: Addr, r: Lists) {
    && (s.t1 != [] && s.t2 != [] && |s.t1| > s.p ==> FromT1(s, r))
    && (s.t1 != [] && s.t2 != [] && |s.t1| < s.p ==> FromT2(s, r))
    && (s.t1 != [] && s.t2 != [] && |s.t1| == s.p && a in s.b2 ==> FromT1(s, r))
    && (s.t1 != [] && s.t2 != [] && |s.t1| == s.p && a !in s.b2 ==> FromT2(s, r))
    && (s.t2 == [] ==> FromT1(s, r))
    && (s.t1 == [] ==> FromT2(s, r))
  }

  lemma ReplacementLaw(s: Lists, a: Addr)
    requires Wf(s) && HeldSize(s) > 0
    ensures Replaced(s, a, ReplaceInMetadataCache(s, a).lists)
  {
    FiledWhere(s, a);
    if s.t1 != [] { BackFiled(s, T1); }
    if s.t2 != [] { BackFiled(s, T2); }
  }

  lemma BackFiled(s: Lists, id: ListId)
    requires Wf(s) && Of(s, id) != []
    ensures Last(Of(s, id)) in s.mp && s.mp[Last(Of(s, id))].list == id
  {
    assert Listed(Of(s, id), s.mp, id);
    assert Last(Of(s, id)) in Of(s, id);
  }

  /** B1 gave its least recent address to B3. */
  function ShiftedB1(s: Lists): Lists
    requires s.b1 != []
  {
    s.(b1 := Init(s.b1), b3 := [Last(s.b1)] + s.b3)
  }

  function ShiftedB2(s: Lists): Lists
    requires s.b2 != []
  {
    s.(b2 := Init(s.b2), b3 := [Last(s.b2)] + s.b3)
  }

  /** T1's least recent address went to B1, and then B1's to B3. */
  predicate Retired(s: Lists, r: Lists) {
    && s.t1 != [] && r.t1 == Init(s.t1) && r.t2 == s.t2 && r.b2 == s.b2
    && var b1 := [Last(s.t1)] + s.b1;
    r.b1 == Init(b1) && r.b3 == [Last(b1)] + s.b3
  }

  /**
   Making room for a request on `a`: with T1 and B1 at capacity T1 alone at capacity retires an address, else B1 gives
   one to B3 before the replacement; otherwise B2 does when B1 and B2 are at capacity.
   */
  predicate MadeRoom(s: Lists, a: Addr, r: Lists) {
    if |s.t1| >= s.capacity then Retired(s, r)
    else if |s.t1| + |s.b1| >= s.capacity then s.b1 != [] && Replaced(ShiftedB1(s), a, r)
    else if |s.b1| + |s.b2| >= s.capacity then s.b2 != [] && Replaced(ShiftedB2(s), a, r)
    else Replaced(s, a, r)
  }

  lemma RetirementLaw(s: Lists)
    requires Wf(s) && s.t1 != []
    ensures Retired(s, MoveBack(MoveBack(s, T1, B1), B1, B3))
  {
    BackFiled(s, T1);
    MoveBackKeepsWf(s, T1, B1);
    BackFiled(MoveBack(s, T1, B1), B1);
  }

  lemma ManagementLaw(s: Lists, a: Addr)
    requires Inv(s) && HeldSize(s) > 0
    ensures MadeRoom(s, a, ManageMetadataCache(s, a).lists)
  {
    hide ReplaceInMetadataCache, MoveBack, Wf, Replaced, Retired;
    if |s.t1| >= s.capacity {
      RetirementLaw(s);
    } else if |s.t1| + |s.b1| >= s.capacity {
      ShiftThenReplace(s, a, B1);
    } else if |s.b1| + |s.b2| >= s.capacity {
      ShiftThenReplace(s, a, B2);
    } else {
      ReplacementLaw(s, a);
    }
  }

  lemma ShiftThenReplace(s: Lists, a: Addr, id: ListId)
    requires Wf(s) && HeldSize(s) > 0 && (id == B1 || id == B2) && Of(s, id) != []
    ensures Replaced(if id == B1 then ShiftedB1(s) else ShiftedB2(s), a,
                     ReplaceInMetadataCache(MoveBack(s, id, B3), a).lists)
  {
    BackFiled(s, id);
    MoveBackKeepsWf(s, id, B3);
    var m := MoveBack(s, id, B3);
    ReplacementLaw(m, a);
    SameLists(m, if id == B1 then ShiftedB1(s) else ShiftedB2(s), a, ReplaceInMetadataCache(m, a).lists);
  }

  /** The law speaks of the lists and the factor only. */
  lemma SameLists(s: Lists, s': Lists, a: Addr, r: Lists)
    requires Replaced(s, a, r) && s' == s.(mp := s'.mp)
    ensures Replaced(s', a, r)
  {
  }

  /** The lists of `r` are those of `s` without the least recent address of B3, if there is one. */
  predicate DroppedB3(s: Lists, r: Lists) {
    && r.t1 == s.t1 && r.t2 == s.t2 && r.b1 == s.b1 && r.b2 == s.b2
    && (if s.b3 == [] then r.b3 == [] && r.mp.Keys == s.mp.Keys
        else r.b3 == Init(s.b3) && r.mp.Keys == s.mp.Keys - {Last(s.b3)})
  }

  /** When the lists are full, room is made unless B3 has an address to forget, and then B3's least recent goes. */
  lemma CheckLaw(s: Lists, a: Addr)
    requires Inv(s)
    ensures var r := CheckMetadataCache(s, a).lists;
            if |s.t1| + |s.t2| + |s.b3| < s.capacity + s.x then r == s
            else if s.b3 != [] then DroppedB3(s, r)
            else exists m :: MadeRoom(s, a, m) && m.mp.Keys == s.mp.Keys && DroppedB3(m, r)
  {
    if Full(s) && s.b3 == [] {
      ManageKeepsInv(s, a);
      ManagementLaw(s, a);
      assert DroppedB3(ManageMetadataCache(s, a).lists, CheckMetadataCache(s, a).lists);
    }
  }

  // ----- Where a request puts its address

  /** The address is the most recent of T1 or of T2. */
  predicate First(s: Lists, a: Addr) {
    (s.t1 != [] && s.t1[0] == a) || (s.t2 != [] && s.t2[0] == a)
  }

  /** The check before `a` is filed would forget `a` itself: B1 or B2 gives it up for want of room. */
  predicate GivenUp(s: Lists, a: Addr) {
    && |s.t1| + |s.t2| == s.capacity + s.x && s.b3 == []
    && (if |s.t1| + |s.b1| >= s.capacity then s.b1 != [] && a == Last(s.b1)
        else |s.b1| + |s.b2| >= s.capacity && s.b2 != [] && a == Last(s.b2))
  }

  /** The address is on none of T1, T2, B1 and B2, or about to be forgotten. */
  predicate SeenOnce(s: Lists, a: Addr) {
    a !in s.t1 + s.t2 + s.b1 + s.b2 || (a in s.b1 + s.b2 && GivenUp(s, a))
  }

  lemma InitMembers(q: seq<Addr>, x: Addr)
    requires q != [] && NoDup(q)
    ensures x in Init(q) <==> x in q && x != Last(q)
  {
    if x in q && x != Last(q) {
      var i :| 0 <= i < |q| && q[i] == x;
      assert Init(q)[i] == x;
    }
    if x in Init(q) { var i :| 0 <= i < |q| - 1 && q[i] == x; }
  }

  /** With B3 empty, making room for `a` puts it on B3 exactly when it is given up, and leaves it otherwise. */
  lemma RoomForOthers(s: Lists, a: Addr, m: Lists)
    requires MadeRoom(s, a, m) && s.b3 == [] && |s.t1| + |s.t2| == s.capacity + s.x
    requires a !in s.t1 + s.t2 && NoDup(s.b1) && NoDup(s.b2) && (a in s.b1 ==> a !in s.b2)
    ensures |m.b3| <= 1 && (a in m.b3 <==> a in s.b1 + s.b2 && GivenUp(s, a))
    ensures a !in m.t1 + m.t2
  {
    if s.b1 != [] { InitMembers(s.b1, a); }
    if s.b2 != [] { InitMembers(s.b2, a); }
  }

  lemma CheckDrops(s: Lists, a: Addr)
    requires Inv(s) && Full(s) && s.b3 == [] && !InT(s, a)
    ensures var m, r := ManageMetadataCache(s, a).lists, CheckMetadataCache(s, a).lists;
            && MadeRoom(s, a, m) && Wf(m) && m.mp.Keys == s.mp.Keys
            && r.mp == (if m.b3 == [] then m.mp else m.mp - {Last(m.b3)})
  {
    ManageKeepsInv(s, a);
    ManagementLaw(s, a);
  }

  /** An address moves only if it is the back of the list taken from. */
  lemma MoveBackMoves(s: Lists, from: ListId, to: ListId, b: Addr)
    requires Wf(s) && from != to && Of(s, from) != [] && b in s.mp
    ensures var r := MoveBack(s, from, to);
            b in r.mp && r.mp[b].list == (if b == Last(Of(s, from)) then to else s.mp[b].list)
            && (b == Last(Of(s, from)) ==> s.mp[b].list == from)
  {
    BackFiled(s, from);
  }

  lemma ReplaceMoves(s: Lists, a: Addr, b: Addr)
    requires Wf(s) && b in s.mp && !InT(s, b)
    ensures var r := ReplaceInMetadataCache(s, a).lists; b in r.mp && r.mp[b].list == s.mp[b].list
  {
    if s.t1 != [] { MoveBackMoves(s, T1, B1, b); }
    if s.t2 != [] { MoveBackMoves(s, T2, B2, b); }
  }

  lemma ShiftMoves(s: Lists, id: ListId, a: Addr, b: Addr)
    requires Wf(s) && (id == B1 || id == B2) && Of(s, id) != [] && b in s.mp && !InT(s, b)
    ensures var r := ReplaceInMetadataCache(MoveBack(s, id, B3), a).lists;
            b in r.mp && (r.mp[b].list == s.mp[b].list || r.mp[b].list == B3)
  {
    MoveBackKeepsWf(s, id, B3);
    MoveBackMoves(s, id, B3, b);
    ReplaceMoves(MoveBack(s, id, B3), a, b);
  }

  /** Making room leaves every other address where it was, or moves it to B3. */
  lemma RoomMoves(s: Lists, a: Addr, b: Addr)
    requires Inv(s) && HeldSize(s) > 0 && b in s.mp && !InT(s, b)
    ensures var m := ManageMetadataCache(s, a).lists; b in m.mp && (m.mp[b].list == s.mp[b].list || m.mp[b].list == B3)
  {
    hide ReplaceInMetadataCache;
    if |s.t1| + |s.b1| >= s.capacity {
      if |s.t1| >= s.capacity {
        RetireMoves(s, b);
      } else {
        ShiftMoves(s, B1, a, b);
      }
    } else if |s.b1| + |s.b2| >= s.capacity {
      ShiftMoves(s, B2, a, b);
    } else {
      ReplaceMoves(s, a, b);
    }
  }

  lemma RetireMoves(s: Lists, b: Addr)
    requires Wf(s) && s.t1 != [] && b in s.mp && !InT(s, b)
    ensures var r := MoveBack(MoveBack(s, T1, B1), B1, B3);
            b in r.mp && (r.mp[b].list == s.mp[b].list || r.mp[b].list == B3)
  {
    RetireT1KeepsWf(s);
    MoveBackMoves(s, T1, B1, b);
    MoveBackMoves(MoveBack(s, T1, B1), B1, B3, b);
  }

  /** The check of full lists with an empty B3. */
  lemma CheckGivesUp(s: Lists, a: Addr)
    requires Inv(s) && Full(s) && s.b3 == [] && a in s.mp && !InT(s, a)
    ensures var r := CheckMetadataCache(s, a).lists;
            && (a in r.mp ==> r.mp[a].list == s.mp[a].list)
            && (a !in r.mp <==> a in s.b1 + s.b2 && GivenUp(s, a))
  {
    var m := ManageMetadataCache(s, a).lists;
    FiledWhere(s, a);
    CheckDrops(s, a);
    assert Listed(Of(s, B1), s.mp, B1) && Listed(Of(s, B2), s.mp, B2);
    RoomForOthers(s, a, m);
    RoomMoves(s, a, a);
    hide CheckMetadataCache, ManageMetadataCache, MadeRoom, Inv, GivenUp;
    FiledWhere(m, a);
    assert |m.b3| <= 1 && (m.b3 != [] ==> m.b3 == [Last(m.b3)]);
  }

  /** The check leaves an address that is not in T1 or T2 on its list, or forgets it when it is given up. */
  lemma CheckMoves(s: Lists, a: Addr)
    requires Inv(s) && !InT(s, a)
    ensures var m := CheckMetadataCache(s, a).lists;
            && Inv(m) && (a in m.mp ==> a in s.mp && m.mp[a].list == s.mp[a].list)
            && (a in s.b1 + s.b2 ==> (a !in m.mp <==> GivenUp(s, a)))
  {
    CheckKeepsInv(s, a);
    FiledWhere(s, a);
    if Full(s) && s.b3 == [] {
      CheckForgetsOne(s, a);
      if a in s.mp { CheckGivesUp(s, a); }
      hide CheckMetadataCache;
    } else if Full(s) {
      BackFiled(s, B3);
    }
  }

  /** `r` is `m` with `a` taken out of its list and put at the front of T1 or of T2, and nothing else moved. */
  predicate Filed(m: Lists, a: Addr, toT1: bool, r: Lists) {
    && r.t1 == (if toT1 then [a] else []) + Erase(m.t1, a)
    && r.t2 == (if toT1 then [] else [a]) + Erase(m.t2, a)
    && r.b1 == Erase(m.b1, a) && r.b2 == Erase(m.b2, a) && r.b3 == Erase(m.b3, a)
  }

  /** The lists a request finds when it files its address: those it met, or those the check left. */
  function Checked(s: Lists, a: Addr): Lists {
    if a in s.t1 + s.t2 + s.b3 then s else CheckMetadataCache(s, a).lists
  }

  /** An address of T1, T2, B1 or B2 goes to the front of T2, any other to the front of T1. */
  lemma UpdatePlaces(s: Lists, a: Addr, fp: Fp)
    requires Inv(s)
    ensures Filed(Checked(s, a), a, SeenOnce(s, a), Update(s, a, fp).lists)
    ensures First(Update(s, a, fp).lists, a)
  {
    UpdateByCase(s, a, fp);
    FiledWhere(s, a);
    if !InT(s, a) { CheckMoves(s, a); }
    FiledWhere(Checked(s, a), a);
  }

  // ----- The order of last requests

  /** From front to back the addresses were last requested earlier and earlier. */
  ghost predicate Recent(q: seq<Addr>, last: Addr -> nat) {
    forall i, j :: 0 <= i < j < |q| ==> last(q[i]) > last(q[j])
  }

  /** T1 and then B1, and T2 and then B2, are in order of last request. */
  ghost predicate Ordered(s: Lists, last: Addr -> nat) {
    Recent(s.t1 + s.b1, last) && Recent(s.t2 + s.b2, last)
  }

  lemma PrefixRecent(q: seq<Addr>, r: seq<Addr>, last: Addr -> nat)
    requires Recent(q, last) && r <= q
    ensures Recent(r, last)
  {
  }

  lemma InitPrefix(q: seq<Addr>, r: seq<Addr>)
    requires r != []
    ensures q + Init(r) <= q + r && Init(q + r) == q + Init(r)
  {
  }

  lemma MoveOver(q: seq<Addr>, r: seq<Addr>)
    requires q != []
    ensures Init(q) + ([Last(q)] + r) == q + r
  {
  }

  /** Of a list in order, only the end is lost. */
  ghost predicate Shortens(s: Lists, r: Lists) {
    r.t1 + r.b1 <= s.t1 + s.b1 && r.t2 + r.b2 <= s.t2 + s.b2
  }

  lemma ReplacementShortens(s: Lists, a: Addr, r: Lists)
    requires Replaced(s, a, r) && s.t1 + s.t2 != []
    ensures Shortens(s, r)
  {
    if s.t1 != [] { MoveOver(s.t1, s.b1); }
    if s.t2 != [] { MoveOver(s.t2, s.b2); }
  }

  lemma RetirementShortens(s: Lists, r: Lists)
    requires Retired(s, r)
    ensures Shortens(s, r)
  {
    MoveOver(s.t1, s.b1);
    InitPrefix(Init(s.t1), [Last(s.t1)] + s.b1);
  }

  lemma RoomShortens(s: Lists, a: Addr, r: Lists)
    requires MadeRoom(s, a, r) && s.t1 + s.t2 != []
    ensures Shortens(s, r)
  {
    hide Replaced, Retired;
    if |s.t1| >= s.capacity {
      RetirementShortens(s, r);
    } else if |s.t1| + |s.b1| >= s.capacity {
      ReplacementShortens(ShiftedB1(s), a, r);
      InitPrefix(s.t1, s.b1);
    } else if |s.b1| + |s.b2| >= s.capacity {
      ReplacementShortens(ShiftedB2(s), a, r);
      InitPrefix(s.t2, s.b2);
    } else {
      ReplacementShortens(s, a, r);
    }
  }

  lemma ManageShortens(s: Lists, a: Addr)
    requires Inv(s) && HeldSize(s) > 0
    ensures Shortens(s, ManageMetadataCache(s, a).lists)
  {
    ManagementLaw(s, a);
    RoomShortens(s, a, ManageMetadataCache(s, a).lists);
  }

  lemma CheckShortens(s: Lists, a: Addr)
    requires Inv(s)
    ensures Shortens(s, CheckMetadataCache(s, a).lists)
  {
    if Full(s) && s.b3 == [] { ManageShortens(s, a); }
  }

  lemma ShortensOrdered(s: Lists, r: Lists, last: Addr -> nat)
    requires Ordered(s, last) && Shortens(s, r)
    ensures Ordered(r, last)
  {
    PrefixRecent(s.t1 + s.b1, r.t1 + r.b1, last);
    PrefixRecent(s.t2 + s.b2, r.t2 + r.b2, last);
  }

  /** The times of last requests once `a` is requested at `now`. */
  function Requested(last: Addr -> nat, a: Addr, now: nat): Addr -> nat {
    (b: Addr) => if b == a then now else last(b)
  }

  lemma {:induction false} ErasedFromTwo(q: seq<Addr>, r: seq<Addr>, a: Addr)
    requires a !in q || a !in r
    ensures Erase(q, a) + Erase(r, a) == Erase(q + r, a)
  {
    if q == [] {
      assert q + r == r;
    } else {
      assert (q + r)[1..] == q[1..] + r;
      if q[0] != a {
        ErasedFromTwo(q[1..], r, a);
        assert [q[0]] + (Erase(q[1..], a) + Erase(r, a)) == ([q[0]] + Erase(q[1..], a)) + Erase(r, a);
      }
    }
  }

  /** An order survives the erasure of an address. */
  lemma {:induction false} ErasedRecent(q: seq<Addr>, a: Addr, last: Addr -> nat)
    requires Recent(q, last)
    ensures Recent(Erase(q, a), last)
  {
    if q != [] && q[0] != a {
      ErasedRecent(q[1..], a, last);
      var r := Erase(q[1..], a);
      forall j | 0 <= j < |r| ensures last(q[0]) > last(r[j]) {
        assert r[j] in q[1..];
        var k :| 0 <= k < |q[1..]| && q[1..][k] == r[j];
        assert q[k + 1] == r[j];
      }
    }
  }

  /** Without `a`, or with `a` at its front, a list in order stays in order when `a` is requested. */
  lemma RequestedRecent(q: seq<Addr>, a: Addr, last: Addr -> nat, now: nat)
    requires Recent(q, last) && NoDup(q) && forall b :: b in q ==> last(b) < now
    ensures Recent(Erase(q, a), Requested(last, a, now)) && Recent([a] + Erase(q, a), Requested(last, a, now))
  {
    ErasedRecent(q, a, last);
    FrontRecent(Erase(q, a), a, last, now);
  }

  lemma FrontRecent(r: seq<Addr>, a: Addr, last: Addr -> nat, now: nat)
    requires Recent(r, last) && a !in r && forall b :: b in r ==> last(b) < now
    ensures Recent(r, Requested(last, a, now)) && Recent([a] + r, Requested(last, a, now))
  {
    var to, q := Requested(last, a, now), [a] + r;
    assert forall i :: 0 <= i < |r| ==> r[i] in r && to(r[i]) == last(r[i]) < now;
    assert to(a) == now && q[0] == a && forall i :: 1 <= i < |q| ==> q[i] == r[i - 1];
    hide Requested;
  }

  /** The same for a list in two parts, the address being put at the front or not. */
  lemma PairRecent(t: seq<Addr>, b: seq<Addr>, a: Addr, front: bool, t': seq<Addr>, last: Addr -> nat, now: nat)
    requires Recent(t + b, last) && NoDup(t + b) && (forall x :: x in t + b ==> last(x) < now) && (a !in t || a !in b)
    requires t' == (if front then [a] else []) + Erase(t, a)
    ensures Recent(t' + Erase(b, a), Requested(last, a, now))
  {
    hide Recent, Requested;
    ErasedFromTwo(t, b, a);
    RequestedRecent(t + b, a, last, now);
    InFront(if front then [a] else [], Erase(t, a), Erase(b, a));
    assert [] + Erase(t + b, a) == Erase(t + b, a);
  }

  lemma InFront(x: seq<Addr>, q: seq<Addr>, r: seq<Addr>)
    ensures (x + q) + r == x + (q + r)
  {
  }

  lemma FiledOrdered(m: Lists, a: Addr, toT1: bool, r: Lists, last: Addr -> nat, now: nat)
    requires Wf(m) && Ordered(m, last) && Filed(m, a, toT1, r) && forall b :: b in m.mp ==> last(b) < now
    ensures Ordered(r, Requested(last, a, now))
  {
    BothListed(m, T1, B1);
    BothListed(m, T2, B2);
    hide Wf, Recent;
    PairRecent(m.t1, m.b1, a, toT1, r.t1, last, now);
    PairRecent(m.t2, m.b2, a, !toT1, r.t2, last, now);
  }

  lemma BothListed(m: Lists, id: ListId, id': ListId)
    requires Wf(m) && id != id'
    ensures NoDup(Of(m, id) + Of(m, id')) && forall b :: b in Of(m, id) + Of(m, id') ==> b in m.mp
    ensures forall b :: b !in Of(m, id) || b !in Of(m, id')
  {
    assert Listed(Of(m, id), m.mp, id) && Listed(Of(m, id'), m.mp, id');
    var q, r := Of(m, id), Of(m, id');
    forall i, j | 0 <= i < j < |q + r| ensures (q + r)[i] != (q + r)[j] {
      if i < |q| <= j { assert q[i] in q && r[j - |q|] in r; }
    }
  }

  lemma CheckedShortens(s: Lists, a: Addr)
    requires Inv(s)
    ensures var m := Checked(s, a); Wf(m) && m.mp.Keys <= s.mp.Keys && Shortens(s, m)
  {
    CheckShortens(s, a);
    CheckKeepsInv(s, a);
    CheckForgetsOne(s, a);
    hide CheckMetadataCache;
  }

  /** A request keeps the lists in order of last requests, its own address now being the last requested. */
  lemma UpdateKeepsOrder(s: Lists, a: Addr, fp: Fp, last: Addr -> nat, now: nat)
    requires Inv(s) && Ordered(s, last) && forall b :: b in s.mp ==> last(b) < now
    ensures Ordered(Update(s, a, fp).lists, Requested(last, a, now))
  {
    hide Checked, Update, Filed, Ordered, SeenOnce, Shortens, Requested, Wf;
    CheckedShortens(s, a);
    UpdatePlaces(s, a, fp);
    ShortensOrdered(s, Checked(s, a), last);
    FiledOrdered(Checked(s, a), a, SeenOnce(s, a), Update(s, a, fp).lists, last, now);
  }

  lemma FactorOnly(s: Lists, m: Lists, a: Addr)
    requires m == s.(p := m.p)
    ensures SeenOnce(m, a) == SeenOnce(s, a)
  {
  }

  /** When each address was last requested, with the run's requests at `now`, `now + 1` and so on. */
  function LastRequests(last: Addr -> nat, now: nat, rs: seq<Request>): Addr -> nat
    decreases |rs|
  {
    if rs == [] then last else LastRequests(Requested(last, rs[0].addr, now), now + 1, rs[1..])
  }

  lemma {:induction false} LastRequestIs(last: Addr -> nat, now: nat, rs: seq<Request>, i: nat)
    requires i < |rs| && forall j :: i < j < |rs| ==> rs[j].addr != rs[i].addr
    ensures LastRequests(last, now, rs)(rs[i].addr) == now + i
    decreases |rs|
  {
    if i == 0 {
      NotRequested(Requested(last, rs[0].addr, now), now + 1, rs[1..], rs[0].addr);
    } else {
      LastRequestIs(Requested(last, rs[0].addr, now), now + 1, rs[1..], i - 1);
    }
  }

  lemma {:induction false} NotRequested(last: Addr -> nat, now: nat, rs: seq<Request>, a: Addr)
    requires forall j :: 0 <= j < |rs| ==> rs[j].addr != a
    ensures LastRequests(last, now, rs)(a) == last(a)
    decreases |rs|
  {
    if rs != [] { NotRequested(Requested(last, rs[0].addr, now), now + 1, rs[1..], a); }
  }

  // ----- Which of T1 and T2

  /** The four lists that show that an address was requested before. */
  predicate Known(s: Lists, a: Addr) {
    a in s.t1 + s.t2 + s.b1 + s.b2
  }

  lemma ShortensKnown(s: Lists, m: Lists, a: Addr)
    requires Shortens(s, m) && Known(m, a)
    ensures Known(s, a)
  {
    var q, r := m.t1 + m.b1, m.t2 + m.b2;
    if a in q { assert a in s.t1 + s.b1; } else { assert a in r && a in s.t2 + s.b2; }
  }

  lemma FiledSide(m: Lists, a: Addr, toT1: bool, r: Lists)
    requires Filed(m, a, toT1, r) && NoDup(m.t1) && NoDup(m.t2)
    ensures (a in r.t1 <==> toT1) && (a in r.t2 <==> !toT1)
  {
  }

  lemma CheckedListed(m: Lists, a: Addr)
    requires Inv(m)
    ensures NoDup(Checked(m, a).t1) && NoDup(Checked(m, a).t2)
  {
    var c := Checked(m, a);
    CheckKeepsInv(m, a);
    assert Listed(Of(c, T1), c.mp, T1) && Listed(Of(c, T2), c.mp, T2);
  }

  lemma SeenOnceIff(s: Lists, m: Lists, a: Addr)
    requires Inv(s) && Inv(m) && m.mp.Keys == s.mp.Keys && Shortens(s, m)
    ensures SeenOnce(m, a) <==> !(Known(s, a) && a !in m.b3 && !(a in m.b1 + m.b2 && GivenUp(m, a)))
  {
    hide GivenUp;
    FiledWhere(s, a);
    FiledWhere(m, a);
    if Known(m, a) { ShortensKnown(s, m, a); }
    hide Shortens, Inv;
  }
}
