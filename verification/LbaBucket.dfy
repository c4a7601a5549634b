/** The LBA bucket on its packed slots: every method does to the records what LbaTable says. */
module LbaBucket {
  import opened Common
  import opened Bits
  import opened Bitmap
  import opened Bucket
  import opened LbaTable
  import opened LbaReferences
  import opened ExactCounter

  /** Replaying a sequence of calls is replaying its parts. */
  lemma {:induction false} ReplaySplit(c: multiset<nat>, es: seq<Event>, fs: seq<Event>)
    requires Replay(c, es + fs).Some?
    ensures Replay(c, es).Some? && Replay(Replay(c, es).value, fs) == Replay(c, es + fs)
    decreases |es|
  {
    if es == [] {
      assert es + fs == fs;
    } else {
      assert (es + fs)[1..] == es[1..] + fs;
      ReplaySplit(Count(c, es[0]).value, es[1..], fs);
    }
  }

  lemma ReplayOne(c: multiset<nat>, e: Event)
    ensures Replay(c, [e]) == Count(c, e)
  {
    assert [e][1..] == [];
  }

  lemma RecordsFit(l: Layout, bytes: seq<Byte>, bits: seq<Byte>, i: nat)
    requires i < l.slots
    ensures var s := Records(l, bytes, bits)[i]; s.key <= LowMask(l.keyBits) && s.value <= LowMask(l.valueBits)
  {
    FieldFits(bytes, l.Key(i), l.Value(i));
    FieldFits(bytes, l.Value(i), l.Next(i));
  }

  /** The slots after `slot` up to `i` moved down by one, one after the other. */
  function Shifted(t: Table, slot: nat, i: nat): (r: Table)
    requires slot <= i < |t|
    ensures |r| == |t|
    decreases i
  {
    if i == slot then t else (var s := Shifted(t, slot, i - 1); s[i - 1 := s[i]])
  }

  lemma {:induction false} ShiftedSlot(t: Table, slot: nat, i: nat, j: nat)
    requires slot <= i < |t| && j < |t|
    ensures Shifted(t, slot, i)[j] == t[if slot <= j < i then j + 1 else j]
    decreases i
  {
    if i > slot {
      ShiftedSlot(t, slot, i - 1, j);
      ShiftedSlot(t, slot, i - 1, i);
    }
  }

  lemma ShiftPromotes(t: Table, slot: nat)
    requires slot < |t|
    ensures Shifted(t, slot, |t| - 1)[|t| - 1 := Slot(true, t[slot].key, t[slot].value)] == LbaTable.Promote(t, slot)
  {
    var n, last := |t| - 1, Slot(true, t[slot].key, t[slot].value);
    var r, p := Shifted(t, slot, n)[n := last], LbaTable.Promote(t, slot);
    forall j: nat | j < |t| ensures r[j] == p[j] {
      ShiftedSlot(t, slot, n, j);
      PromotedSlot(t, slot, j);
    }
  }

  lemma PromotedSlot(t: Table, i: nat, j: nat)
    requires i < |t| && j < |t|
    ensures LbaTable.Promote(t, i)[j] ==
            if j == |t| - 1 then Slot(true, t[i].key, t[i].value) else t[if i <= j then j + 1 else j]
  {
  }

  /** The calls made when an entry's value is replaced. */
  function RetireEvents(t: Table, slot: nat, separator: nat): seq<Event>
    requires slot < |t|
  {
    if slot >= separator then [Dereference(t[slot].value)] else []
  }

  /** Updating a key that has another value retires the old entry and enters the pair. */
  lemma UpdateOfKey(t: Table, key: nat, value: nat, separator: nat)
    requires 1 <= separator < |t| && Wf(t)
    requires Find(t, key) < |t| && t[Find(t, key)].value != value
    ensures var i := Find(t, key);
            var t1 := t[i := t[i].(valid := false)];
            && FirstFree(t1) < |t1| && Wf(t1) && Find(t1, key) == |t1|
            && var o := LbaTable.Update(t, key, value, separator);
            var e := LbaTable.Enter(t1, FirstFree(t1), key, value, separator);
            && o.table == e.table && o.events == RetireEvents(t, i, separator) + e.events
            && o.displaced == Some(t[i].value)
  {
    var i := Find(t, key);
    assert !t[i := t[i].(valid := false)][i].valid;
  }

  /** Updating a new key enters the pair in the free slot or in slot 0, emptied. */
  lemma UpdateOfNewKey(t: Table, key: nat, value: nat, separator: nat)
    requires 1 <= separator < |t| && Wf(t) && Find(t, key) == |t|
    ensures var full := FirstFree(t) == |t|;
            var t1 := if full then t[0 := Slot(false, 0, 0)] else t;
            var i := if full then 0 else FirstFree(t);
            && Wf(t1) && Find(t1, key) == |t1|
            && var o, e := LbaTable.Update(t, key, value, separator), LbaTable.Enter(t1, i, key, value, separator);
            && o.table == e.table && o.events == e.events
            && o.displaced == if full then Some(t[0].value) else None
  {
  }

  class LbaBucket {
    const bucket: Bucket
    const counter: MapReferenceCounter
    const separator: nat
    var evicted: Option<nat>

    constructor (bucket: Bucket, counter: MapReferenceCounter, separator: nat)
      ensures this.bucket == bucket && this.counter == counter && this.separator == separator && evicted == None
    {
      this.bucket, this.counter, this.separator, evicted := bucket, counter, separator, None;
    }

    ghost predicate Valid()
      reads this, counter, bucket.data.data, bucket.valid.data
    {
      && bucket.Valid() && counter.Valid() && 1 <= separator < bucket.nSlots && Wf(Slots())
    }

    ghost function Slots(): Table
      requires bucket.Valid()
      reads bucket.data.data, bucket.valid.data
    {
      bucket.Slots()
    }

    method Lookup(lbaSignature: nat) returns (slotId: Option<nat>)
      requires Valid()
      ensures slotId == if Find(Slots(), lbaSignature) < |Slots()| then Some(Find(Slots(), lbaSignature)) else None
    {
      ghost var t := Slots();
      for i := 0 to bucket.nSlots
        invariant forall j :: 0 <= j < i ==> !(t[j].valid && t[j].key == lbaSignature)
      {
        var valid := bucket.IsValid(i);
        if !valid { continue; }
        var key := bucket.GetKey(i);
        if key == lbaSignature { return Some(i); }
      }
      return None;
    }

    /** Copy slot `i + 1` into slot `i`. */
    method MoveDown(i: nat)
      requires bucket.Valid() && i + 1 < bucket.nSlots
      modifies bucket.data.data, bucket.valid.data
      ensures Slots() == old(Slots())[i := old(Slots())[i + 1]] && bucket.Others() == old(bucket.Others())
    {
      RecordsFit(bucket.Shape(), bucket.data.data[..], bucket.valid.data[..], i + 1);
      bucket.SetInvalid(i);
      var key := bucket.GetKey(i + 1);
      bucket.SetKey(i, key);
      var value := bucket.GetValue(i + 1);
      bucket.SetValue(i, value);
      var valid := bucket.IsValid(i + 1);
      if valid { bucket.SetValid(i); }
    }

    method Store(i: nat, key: nat, value: nat)
      requires bucket.Valid() && i < bucket.nSlots && key <= LowMask(bucket.nBitsPerKey)
               && value <= LowMask(bucket.nBitsPerValue)
      modifies bucket.data.data, bucket.valid.data
      ensures Slots() == old(Slots())[i := Slot(true, key, value)] && bucket.Others() == old(bucket.Others())
    {
      bucket.SetKey(i, key);
      bucket.SetValue(i, value);
      bucket.SetValid(i);
    }

    /** Counting the entry that enters the core zone and the one pushed out of it. */
    method Recount(slot: nat, value: nat)
      requires Valid() && slot < bucket.nSlots && value == Slots()[slot].value
      requires Replay(counter.outstanding, PromoteEvents(Slots(), slot, separator)).Some?
      modifies counter
      ensures counter.Valid()
      ensures Yields(old(counter.outstanding), PromoteEvents(Slots(), slot, separator), counter.outstanding)
    {
      if slot < separator {
        ghost var c := counter.outstanding;
        var pushed := bucket.IsValid(separator);
        ReplaySplit(c, [Reference(value)], if pushed then [Dereference(Slots()[separator].value)] else []);
        ReplayOne(c, Reference(value));
        counter.Reference(value);
        if pushed {
          var last := bucket.GetValue(separator);
          ReplayOne(counter.outstanding, Dereference(last));
          counter.Dereference(last);
        }
      }
    }

    /** One step of the shift of table `t`. */
    method MoveNext(ghost t: Table, ghost slot: nat, i: nat)
      requires bucket.Valid() && slot <= i < bucket.nSlots - 1 && |t| == bucket.nSlots && Slots() == Shifted(t, slot, i)
      modifies bucket.data.data, bucket.valid.data
      ensures Slots() == Shifted(t, slot, i + 1) && bucket.Others() == old(bucket.Others())
    {
      MoveDown(i);
    }

    /** Move every slot after `slot` down by one. */
    method ShiftDown(slot: nat)
      requires bucket.Valid() && slot < bucket.nSlots
      modifies bucket.data.data, bucket.valid.data
      ensures bucket.Others() == old(bucket.Others())
      ensures Slots() == Shifted(old(Slots()), slot, bucket.nSlots - 1)
    {
      ghost var t := Slots();
      var i := slot;
      while i < bucket.nSlots - 1
        invariant slot <= i < bucket.nSlots && bucket.Others() == old(bucket.Others())
        invariant Slots() == Shifted(t, slot, i)
      {
        MoveNext(t, slot, i);
        i := i + 1;
      }
    }

    /** The policy's promotion of an occupied slot. */
    method PromoteSlot(slot: nat)
      requires Valid() && slot < bucket.nSlots && Slots()[slot].valid
      requires Replay(counter.outstanding, PromoteEvents(Slots(), slot, separator)).Some?
      modifies counter, bucket.data.data, bucket.valid.data
      ensures Valid() && bucket.Others() == old(bucket.Others())
      ensures Slots() == LbaTable.Promote(old(Slots()), slot)
      ensures Yields(old(counter.outstanding), PromoteEvents(old(Slots()), slot, separator), counter.outstanding)
    {
      PromoteKeepsWf(Slots(), slot);
      var value := bucket.GetValue(slot);
      Recount(slot, value);
      Rotate(slot);
    }

    /** Put `slot` last and everything after it one slot down. */
    method Rotate(slot: nat)
      requires bucket.Valid() && slot < bucket.nSlots
      modifies bucket.data.data, bucket.valid.data
      ensures Slots() == LbaTable.Promote(old(Slots()), slot) && bucket.Others() == old(bucket.Others())
    {
      RecordsFit(bucket.Shape(), bucket.data.data[..], bucket.valid.data[..], slot);
      ShiftPromotes(Slots(), slot);
      var key := bucket.GetKey(slot);
      var value := bucket.GetValue(slot);
      ShiftDown(slot);
      Store(bucket.nSlots - 1, key, value);
    }

    method Promote(lbaSignature: nat)
      requires Valid() && Find(Slots(), lbaSignature) < |Slots()|
      requires Replay(counter.outstanding, PromoteEvents(Slots(), Find(Slots(), lbaSignature), separator)).Some?
      modifies counter, bucket.data.data, bucket.valid.data
      ensures Valid() && bucket.Others() == old(bucket.Others())
      ensures Slots() == LbaTable.Promote(old(Slots()), Find(old(Slots()), lbaSignature))
      ensures Yields(old(counter.outstanding), PromoteEvents(old(Slots()), Find(old(Slots()), lbaSignature), separator),
                     counter.outstanding)
    {
      var slot := Lookup(lbaSignature);
      PromoteSlot(slot.value);
    }

    /** The policy's allocation of one slot: the first free one, or slot 0 after evicting what it holds. */
    method Allocate() returns (slot: nat)
      requires Valid()
      modifies `evicted, bucket.data.data, bucket.valid.data
      ensures bucket.Valid() && bucket.Others() == old(bucket.Others()) && slot < bucket.nSlots
      ensures var t := old(Slots());
              if FirstFree(t) < |t| then slot == FirstFree(t) && Slots() == t && evicted == old(evicted)
              else slot == 0 && Slots() == t[0 := Slot(false, 0, 0)] && evicted == Some(t[0].value)
    {
      var available;
      slot, available := Scan();
      if available < 1 {
        EvictHead();
        slot := 1;
      }
      slot := slot - 1;
    }

    /** Scan for a free slot, stopping just past it. */
    method Scan() returns (slot: nat, available: nat)
      requires Valid()
      ensures available <= 1
      ensures available == 1 ==> 0 < slot <= bucket.nSlots && slot - 1 == FirstFree(Slots())
      ensures available == 0 ==> FirstFree(Slots()) == |Slots()|
    {
      ghost var t := Slots();
      slot, available := 0, 0;
      while slot < bucket.nSlots && available != 1
        invariant slot <= bucket.nSlots && available <= 1 && available <= slot
        invariant forall j :: 0 <= j < slot - available ==> t[j].valid
        invariant available == 1 ==> !t[slot - 1].valid
      {
        var valid := bucket.IsValid(slot);
        available := if valid then 0 else available + 1;
        slot := slot + 1;
      }
    }

    /** Evict the entry of slot 0 of a full bucket: the slots from 0 on that carry its key. */
    method EvictHead()
      requires Valid() && forall j :: 0 <= j < |Slots()| ==> Slots()[j].valid
      modifies `evicted, bucket.data.data, bucket.valid.data
      ensures bucket.Valid() && bucket.Others() == old(bucket.Others())
      ensures Slots() == old(Slots())[0 := Slot(false, 0, 0)] && evicted == Some(old(Slots())[0].value)
    {
      ghost var t := Slots();
      var key := bucket.GetKey(0);
      var value := bucket.GetValue(0);
      evicted := Some(value);
      var i := 0;
      var next := key;
      while i < bucket.nSlots && next == key
        invariant i <= 1 && bucket.Others() == old(bucket.Others()) && evicted == Some(value)
        invariant i == 0 ==> Slots() == t && next == key
        invariant i == 1 ==> Slots() == t[0 := Slot(false, 0, 0)] && next == t[1].key
      {
        assert t[0].key != t[1].key;
        Wipe(i);
        i := i + 1;
        if i < bucket.nSlots { next := bucket.GetKey(i); }
      }
    }

    method Wipe(i: nat)
      requires bucket.Valid() && i < bucket.nSlots
      modifies bucket.data.data, bucket.valid.data
      ensures Slots() == old(Slots())[i := Slot(false, 0, 0)] && bucket.Others() == old(bucket.Others())
    {
      bucket.SetInvalid(i);
      bucket.SetKey(i, 0);
      bucket.SetValue(i, 0);
    }

    /** Record the pair in the slot allocated for it and promote it. */
    method Enter(slot: nat, lbaSignature: nat, fingerprintHash: nat)
      requires bucket.Valid() && counter.Valid() && 1 <= separator < bucket.nSlots
      requires slot < bucket.nSlots && !Slots()[slot].valid && Wf(Slots()) && Find(Slots(), lbaSignature) == |Slots()|
      requires lbaSignature <= LowMask(bucket.nBitsPerKey) && fingerprintHash <= LowMask(bucket.nBitsPerValue)
      requires Replay(counter.outstanding,
                      LbaTable.Enter(Slots(), slot, lbaSignature, fingerprintHash, separator).events).Some?
      modifies counter, bucket.data.data, bucket.valid.data
      ensures Valid() && bucket.Others() == old(bucket.Others())
      ensures var o := LbaTable.Enter(old(Slots()), slot, lbaSignature, fingerprintHash, separator);
              Slots() == o.table && Yields(old(counter.outstanding), o.events, counter.outstanding)
    {
      ghost var t, c := Slots(), counter.outstanding;
      ghost var t1 := t[slot := Slot(true, lbaSignature, fingerprintHash)];
      ReplaySplit(c, if slot >= separator then [Reference(fingerprintHash)] else [],
                  PromoteEvents(t1, slot, separator));
      Store(slot, lbaSignature, fingerprintHash);
      if slot >= separator {
        ReplayOne(c, Reference(fingerprintHash));
        counter.Reference(fingerprintHash);
      }
      PromoteSlot(slot);
    }

    /** The old value of the key, or of the entry evicted to make room, is left in `evicted`. */
    method Update(lbaSignature: nat, fingerprintHash: nat)
      requires Valid() && lbaSignature <= LowMask(bucket.nBitsPerKey)
               && fingerprintHash <= LowMask(bucket.nBitsPerValue)
      requires evicted == None
      requires Replay(counter.outstanding,
                      LbaTable.Update(Slots(), lbaSignature, fingerprintHash, separator).events).Some?
      modifies `evicted, counter, bucket.data.data, bucket.valid.data
      ensures Valid() && bucket.Others() == old(bucket.Others())
      ensures var o := LbaTable.Update(old(Slots()), lbaSignature, fingerprintHash, separator);
              && Slots() == o.table && evicted == o.displaced
              && Yields(old(counter.outstanding), o.events, counter.outstanding)
    {
      var found := Lookup(lbaSignature);
      if found.Some? {
        var value := bucket.GetValue(found.value);
        if value == fingerprintHash {
          PromoteSlot(found.value);
          return;
        }
        UpdateOfKey(Slots(), lbaSignature, fingerprintHash, separator);
        Replace(found.value, value, lbaSignature, fingerprintHash);
      } else {
        UpdateOfNewKey(Slots(), lbaSignature, fingerprintHash, separator);
        var slot := Allocate();
        Enter(slot, lbaSignature, fingerprintHash);
      }
    }

    /** Retire entry `former`, whose value is returned to the caller, before allocating a slot for the new pair. */
    method Replace(former: nat, value: nat, lbaSignature: nat, fingerprintHash: nat)
      requires Valid() && lbaSignature <= LowMask(bucket.nBitsPerKey)
               && fingerprintHash <= LowMask(bucket.nBitsPerValue)
      requires former < bucket.nSlots && Slots()[former].valid && value == Slots()[former].value
      requires Slots()[former].key == lbaSignature
      requires var t1 := Slots()[former := Slots()[former].(valid := false)];
               && FirstFree(t1) < |t1| && Wf(t1) && Find(t1, lbaSignature) == |t1|
               && Replay(counter.outstanding,
                         RetireEvents(Slots(), former, separator) +
                         LbaTable.Enter(t1, FirstFree(t1), lbaSignature, fingerprintHash, separator).events).Some?
      modifies `evicted, counter, bucket.data.data, bucket.valid.data
      ensures Valid() && bucket.Others() == old(bucket.Others()) && evicted == Some(value)
      ensures var t1 := old(Slots())[former := old(Slots())[former].(valid := false)];
              var o := LbaTable.Enter(t1, FirstFree(t1), lbaSignature, fingerprintHash, separator);
              && Slots() == o.table
              && Yields(old(counter.outstanding), RetireEvents(old(Slots()), former, separator) + o.events,
                        counter.outstanding)
    {
      ghost var t, c := Slots(), counter.outstanding;
      ghost var t1 := t[former := t[former].(valid := false)];
      ReplaySplit(c, RetireEvents(t, former, separator),
                  LbaTable.Enter(t1, FirstFree(t1), lbaSignature, fingerprintHash, separator).events);
      evicted := Some(value);
      if former >= separator {
        ReplayOne(c, Dereference(value));
        counter.Dereference(value);
      }
      bucket.SetInvalid(former);
      var slot := Allocate();
      Enter(slot, lbaSignature, fingerprintHash);
    }
  }
}
