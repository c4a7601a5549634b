/**
 One LBA bucket of the AC-DC engine on values: a table of slots kept in LRU order by shifting, the
 highest slot being the most recent.  Slots from the separator on form the core zone; an entry there
 counts once more in the reference counts, so every operation also yields the reference-count events
 it causes, in order.
 */
module LbaTable {
  import opened Common

  /** A call of the reference counter. */
  datatype Event = Reference(hash: nat) | Dereference(hash: nat)

  datatype Outcome = Outcome(table: Table, events: seq<Event>, displaced: Option<nat>)

  // ----- Operations

  function Lookup(t: Table, key: nat): Option<nat> {
    if Find(t, key) < |t| then Some(t[Find(t, key)].value) else None
  }

  /** The first slot that is not in use, or the table's length. */
  function FirstFree(t: Table): (i: nat)
    ensures i <= |t|
    ensures i < |t| ==> !t[i].valid
    ensures forall j :: 0 <= j < i ==> t[j].valid
  {
    if t == [] then 0 else if !t[0].valid then 0 else 1 + FirstFree(t[1..])
  }

  /** Promoting a slot from below the core zone pushes the zone's lowest entry out of it. */
  function PromoteEvents(t: Table, i: nat, sep: nat): seq<Event>
    requires i < |t| && sep < |t|
  {
    if i >= sep then []
    else [Reference(t[i].value)] + (if t[sep].valid then [Dereference(t[sep].value)] else [])
  }

  /** Shift every later slot down by one and put slot `i` last. */
  function Promote(t: Table, i: nat): Table
    requires i < |t|
  {
    t[..i] + t[i + 1..] + [Slot(true, t[i].key, t[i].value)]
  }

  /** Enter a pair at a free slot, as `update` does after allocating it. */
  function Enter(t: Table, i: nat, key: nat, value: nat, sep: nat): Outcome
    requires i < |t| && sep < |t|
  {
    var t1 := t[i := Slot(true, key, value)];
    Outcome(Promote(t1, i), (if i >= sep then [Reference(value)] else []) + PromoteEvents(t1, i, sep), None)
  }

  /** Record `value` for `key`, displacing its old value or, in a full table, the least recent entry. */
  function Update(t: Table, key: nat, value: nat, sep: nat): Outcome
    requires 1 <= sep < |t|
  {
    var i := Find(t, key);
    if i < |t| && t[i].value == value then Outcome(Promote(t, i), PromoteEvents(t, i, sep), None)
    else if i < |t| then
      var t1 := t[i := t[i].(valid := false)];
      assert !t1[i].valid;
      var o := Enter(t1, FirstFree(t1), key, value, sep);
      o.(events := (if i >= sep then [Dereference(t[i].value)] else []) + o.events, displaced := Some(t[i].value))
    else if FirstFree(t) < |t| then Enter(t, FirstFree(t), key, value, sep)
    else Enter(t[0 := Slot(false, 0, 0)], 0, key, value, sep).(displaced := Some(t[0].value))
  }

  // ----- The table is a bounded LRU list

  datatype Pair = Pair(key: nat, value: nat)

  function EntryOf(s: Slot): seq<Pair> {
    if s.valid then [Pair(s.key, s.value)] else []
  }

  /** The entries from the least to the most recent. */
  function Entries(t: Table): seq<Pair> {
    if t == [] then [] else EntryOf(t[0]) + Entries(t[1..])
  }

  /** No two entries have the same key. */
  ghost predicate Wf(t: Table) {
    forall i, j :: 0 <= i < j < |t| && t[i].valid && t[j].valid ==> t[i].key != t[j].key
  }

  function Keys(q: seq<Pair>): set<nat> {
    set i | 0 <= i < |q| :: q[i].key
  }

  function Without(q: seq<Pair>, key: nat): seq<Pair> {
    if q == [] then [] else if q[0].key == key then q[1..] else [q[0]] + Without(q[1..], key)
  }

  /** What a list of at most `n` pairs becomes: the key is removed, the head dropped only if the list is full and
      the key new, and the pair appended. */
  function LruUpdate(q: seq<Pair>, n: nat, key: nat, value: nat): seq<Pair> {
    (if key in Keys(q) then Without(q, key) else if |q| == n && n > 0 then q[1..] else q) + [Pair(key, value)]
  }

  /** The value an update displaces: the key's old value if it changes, else that of the dropped head. */
  function LruDisplaced(q: seq<Pair>, n: nat, key: nat, value: nat): Option<nat> {
    if key in Keys(q) then
      (var w := q[IndexOf(q, key)].value; if w == value then None else Some(w))
    else if |q| == n && n > 0 then Some(q[0].value) else None
  }

  function IndexOf(q: seq<Pair>, key: nat): (i: nat)
    requires key in Keys(q)
    ensures i < |q| && q[i].key == key
  {
    if q[0].key == key then 0
    else
      assert exists j :: 0 <= j < |q| && q[j].key == key;
      assert forall j :: 0 < j < |q| ==> q[j].key == q[1..][j - 1].key;
      1 + IndexOf(q[1..], key)
  }

  lemma {:induction false} EntriesConcat(a: Table, b: Table)
    ensures Entries(a + b) == Entries(a) + Entries(b)
  {
    if a == [] {
      assert a + b == b;
    } else {
      assert (a + b)[1..] == a[1..] + b;
      EntriesConcat(a[1..], b);
    }
  }

  lemma {:induction false} EntriesKeys(t: Table)
    ensures |Entries(t)| <= |t|
    ensures forall k :: k in Keys(Entries(t)) <==> exists i :: 0 <= i < |t| && t[i].valid && t[i].key == k
    ensures |Entries(t)| == |t| <==> forall i :: 0 <= i < |t| ==> t[i].valid
  {
    if t != [] {
      EntriesKeys(t[1..]);
      var q, r := Entries(t), Entries(t[1..]);
      assert q == EntryOf(t[0]) + r;
      forall k ensures k in Keys(q) <==> exists i :: 0 <= i < |t| && t[i].valid && t[i].key == k {
        if k in Keys(q) {
          var j :| 0 <= j < |q| && q[j].key == k;
          if t[0].valid && j == 0 { assert t[0].key == k; }
          else {
            var j' := if t[0].valid then j - 1 else j;
            assert r[j'].key == k && k in Keys(r);
            var i :| 0 <= i < |t[1..]| && t[1..][i].valid && t[1..][i].key == k;
            assert t[i + 1].key == k && t[i + 1].valid;
          }
        }
        if i :| 0 <= i < |t| && t[i].valid && t[i].key == k {
          if i == 0 { assert q[0].key == k; }
          else {
            assert t[1..][i - 1].valid && t[1..][i - 1].key == k;
            assert k in Keys(r);
            var j :| 0 <= j < |r| && r[j].key == k;
            assert q[if t[0].valid then j + 1 else j].key == k;
          }
        }
      }
      assert forall i :: 0 < i < |t| ==> t[i] == t[1..][i - 1];
      assert (forall i :: 0 <= i < |t[1..]| ==> t[1..][i].valid) <==> (forall i :: 0 < i < |t| ==> t[i].valid);
    }
  }

  lemma {:induction false} WithoutConcat(a: seq<Pair>, p: Pair, b: seq<Pair>)
    requires p.key !in Keys(a)
    ensures Without(a + [p] + b, p.key) == a + b
    ensures p.key in Keys(a + [p] + b) && IndexOf(a + [p] + b, p.key) == |a|
  {
    var q := a + [p] + b;
    assert q[|a|].key == p.key;
    if a != [] {
      assert q[1..] == a[1..] + [p] + b;
      assert a[0].key in Keys(a);
      forall k | k in Keys(a[1..]) ensures k in Keys(a) {
        var i :| 0 <= i < |a[1..]| && a[1..][i].key == k;
        assert a[i + 1].key == k;
      }
      WithoutConcat(a[1..], p, b);
    }
  }

  lemma EntriesOne(x: Slot)
    ensures Entries([x]) == EntryOf(x)
  {
    assert [x][1..] == [];
  }

  lemma EntriesMiddle(a: Table, x: Slot, b: Table)
    ensures Entries(a + [x] + b) == Entries(a) + EntryOf(x) + Entries(b)
  {
    EntriesConcat(a + [x], b);
    EntriesConcat(a, [x]);
    EntriesOne(x);
  }

  /** The entries around slot `i`. */
  lemma EntriesAround(t: Table, i: nat)
    requires i < |t|
    ensures Entries(t) == Entries(t[..i]) + EntryOf(t[i]) + Entries(t[i + 1..])
  {
    SplitAt(t, i, t[..i], t[i + 1..]);
    EntriesMiddle(t[..i], t[i], t[i + 1..]);
  }

  lemma PromoteEntries(t: Table, i: nat)
    requires i < |t|
    ensures Entries(Promote(t, i)) == Entries(t[..i]) + Entries(t[i + 1..]) + [Pair(t[i].key, t[i].value)]
  {
    var last := Slot(true, t[i].key, t[i].value);
    EntriesConcat(t[..i] + t[i + 1..], [last]);
    EntriesConcat(t[..i], t[i + 1..]);
    EntriesOne(last);
  }

  /** Overwriting slot `i` changes only its own entry. */
  lemma EntriesReplace(t: Table, i: nat, x: Slot)
    requires i < |t|
    ensures Entries(t[i := x]) == Entries(t[..i]) + EntryOf(x) + Entries(t[i + 1..])
  {
    EntriesAround(t[i := x], i);
    UpdateAround(t, i, x, t[..i], t[i + 1..]);
  }

  /** Entering at a free slot appends to the list. */
  lemma EnterEntries(t: Table, i: nat, key: nat, value: nat, sep: nat)
    requires i < |t| && sep < |t| && !t[i].valid
    ensures Entries(Enter(t, i, key, value, sep).table) == Entries(t) + [Pair(key, value)]
  {
    hide Entries, Promote;
    var t1, a, b := t[i := Slot(true, key, value)], t[..i], t[i + 1..];
    UpdateAround(t, i, Slot(true, key, value), a, b);
    PromoteEntries(t1, i);
    EntriesAround(t, i);
    var p, q := Entries(a), Entries(b);
    assert p + [] + q == p + q;
  }

  lemma FindKey(t: Table, i: nat)
    requires Wf(t) && i < |t| && t[i].valid
    ensures t[i].key !in Keys(Entries(t[..i]))
    ensures var q, k := Entries(t), t[i].key;
            && k in Keys(q) && q[IndexOf(q, k)].value == t[i].value
            && Without(q, k) == Entries(t[..i]) + Entries(t[i + 1..])
  {
    EntriesKeys(t[..i]);
    EntriesAround(t, i);
    WithoutConcat(Entries(t[..i]), Pair(t[i].key, t[i].value), Entries(t[i + 1..]));
  }

  /** Replacing a key's entry by an invalid slot removes the key. */
  lemma InvalidateEntries(t: Table, i: nat, x: Slot)
    requires Wf(t) && i < |t| && t[i].valid && !x.valid
    ensures Entries(t[i := x]) == Without(Entries(t), t[i].key)
  {
    FindKey(t, i);
    EntriesReplace(t, i, x);
  }

  /** `update` is the bounded LRU list's update, returning exactly the displaced value, holes or not. */
  lemma UpdateRefinesLru(t: Table, key: nat, value: nat, sep: nat)
    requires Wf(t) && 1 <= sep < |t|
    ensures var o := Update(t, key, value, sep);
            && Entries(o.table) == LruUpdate(Entries(t), |t|, key, value)
            && o.displaced == LruDisplaced(Entries(t), |t|, key, value)
  {
    var i := Find(t, key);
    EntriesKeys(t);
    if i < |t| {
      FindKey(t, i);
      if t[i].value == value {
        PromoteEntries(t, i);
      } else {
        var t1 := t[i := t[i].(valid := false)];
        assert !t1[i].valid;
        InvalidateEntries(t, i, t[i].(valid := false));
        EnterEntries(t1, FirstFree(t1), key, value, sep);
      }
    } else if FirstFree(t) < |t| {
      EnterEntries(t, FirstFree(t), key, value, sep);
    } else {
      EnterEntries(t[0 := Slot(false, 0, 0)], 0, key, value, sep);
      FullHead(t);
    }
  }

  /** Evicting slot 0 of a full table drops the list's head. */
  lemma FullHead(t: Table)
    requires t != [] && t[0].valid
    ensures Entries(t) != [] && Entries(t)[0] == Pair(t[0].key, t[0].value)
    ensures Entries(t[0 := Slot(false, 0, 0)]) == Entries(t)[1..]
  {
    assert t[0 := Slot(false, 0, 0)][1..] == t[1..];
  }

  lemma PromoteRefinesLru(t: Table, key: nat)
    requires Wf(t) && Find(t, key) < |t|
    ensures var i := Find(t, key);
            Entries(Promote(t, i)) == LruUpdate(Entries(t), |t|, key, t[i].value)
  {
    FindKey(t, Find(t, key));
    PromoteEntries(t, Find(t, key));
  }

  lemma PromoteKeepsWf(t: Table, i: nat)
    requires Wf(t) && i < |t| && t[i].valid
    ensures Wf(Promote(t, i)) && |Promote(t, i)| == |t|
  {
    var r := Promote(t, i);
    forall j | 0 <= j < |t| - 1 ensures r[j] == t[if j < i then j else j + 1] {}
  }

  lemma EnterKeepsWf(t: Table, i: nat, key: nat, value: nat, sep: nat)
    requires Wf(t) && i < |t| && sep < |t| && !t[i].valid && Find(t, key) == |t|
    ensures Wf(Enter(t, i, key, value, sep).table) && |Enter(t, i, key, value, sep).table| == |t|
  {
    PromoteKeepsWf(t[i := Slot(true, key, value)], i);
  }

  lemma UpdateKeepsWf(t: Table, key: nat, value: nat, sep: nat)
    requires Wf(t) && 1 <= sep < |t|
    ensures var o := Update(t, key, value, sep); Wf(o.table) && |o.table| == |t|
  {
    var i := Find(t, key);
    if i < |t| && t[i].value == value {
      PromoteKeepsWf(t, i);
    } else if i < |t| {
      var t1 := t[i := t[i].(valid := false)];
      assert !t1[i].valid;
      assert Find(t1, key) == |t1|;
      EnterKeepsWf(t1, FirstFree(t1), key, value, sep);
    } else if FirstFree(t) < |t| {
      EnterKeepsWf(t, FirstFree(t), key, value, sep);
    } else {
      var t1 := t[0 := Slot(false, 0, 0)];
      assert Find(t1, key) == |t1|;
      EnterKeepsWf(t1, 0, key, value, sep);
    }
  }

  // ----- What a later lookup finds

  lemma LookupAt(t: Table, i: nat)
    requires Wf(t) && i < |t| && t[i].valid
    ensures Lookup(t, t[i].key) == Some(t[i].value)
  {
  }

  /** The slot `j` of a promoted table comes from, and the slot `j` goes to. */
  lemma PromoteMoves(t: Table, i: nat, j: nat)
    requires i < |t| && j < |t| && t[i].valid
    ensures Promote(t, i)[j] == t[if j == |t| - 1 then i else if j < i then j else j + 1]
    ensures Promote(t, i)[if j == i then |t| - 1 else if j < i then j else j - 1] == t[j]
  {
  }

  lemma PromoteLookup(t: Table, i: nat, key: nat)
    requires Wf(t) && i < |t| && t[i].valid
    ensures Lookup(Promote(t, i), key) == Lookup(t, key)
  {
    var r := Promote(t, i);
    PromoteKeepsWf(t, i);
    var j, j' := Find(t, key), Find(r, key);
    if j < |t| {
      PromoteMoves(t, i, j);
      LookupAt(r, if j == i then |t| - 1 else if j < i then j else j - 1);
    } else if j' < |r| {
      PromoteMoves(t, i, j');
    }
  }

  lemma ReplaceLookup(t: Table, i: nat, x: Slot, key: nat)
    requires i < |t| && Wf(t) && Wf(t[i := x])
    ensures (t[i].valid && t[i].key == key) || (x.valid && x.key == key) || Lookup(t[i := x], key) == Lookup(t, key)
    ensures x.valid && x.key == key ==> Lookup(t[i := x], key) == Some(x.value)
    ensures t[i].valid && t[i].key == key && !x.valid ==> Lookup(t[i := x], key) == None
  {
    var r := t[i := x];
    var j, j' := Find(t, key), Find(r, key);
    if x.valid { LookupAt(r, i); }
    if j < |t| && j != i { LookupAt(r, j); }
    if j' < |t| && j' != i { LookupAt(t, j'); }
  }

  lemma EnterLookup(t: Table, i: nat, key: nat, value: nat, sep: nat, k: nat)
    requires Wf(t) && i < |t| && sep < |t| && !t[i].valid && Find(t, key) == |t|
    ensures Lookup(Enter(t, i, key, value, sep).table, k) == if k == key then Some(value) else Lookup(t, k)
  {
    var x := Slot(true, key, value);
    ReplaceLookup(t, i, x, k);
    PromoteLookup(t[i := x], i, k);
  }

  /** After an update the key has its value, and any other key what it had, unless it was evicted. */
  lemma UpdateLookup(t: Table, key: nat, value: nat, sep: nat, k: nat)
    requires Wf(t) && 1 <= sep < |t|
    ensures var r := Update(t, key, value, sep).table;
            if k == key then Lookup(r, k) == Some(value) else Lookup(r, k) in {None, Lookup(t, k)}
  {
    var i := Find(t, key);
    if i < |t| && t[i].value == value {
      PromoteLookup(t, i, k);
    } else if i < |t| {
      var x := t[i].(valid := false);
      var t1 := t[i := x];
      assert !t1[i].valid && Find(t1, key) == |t1|;
      ReplaceLookup(t, i, x, k);
      EnterLookup(t1, FirstFree(t1), key, value, sep, k);
    } else if FirstFree(t) < |t| {
      EnterLookup(t, FirstFree(t), key, value, sep, k);
    } else {
      var t1 := t[0 := Slot(false, 0, 0)];
      assert Find(t1, key) == |t1|;
      ReplaceLookup(t, 0, Slot(false, 0, 0), k);
      EnterLookup(t1, 0, key, value, sep, k);
    }
  }
}
