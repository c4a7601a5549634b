/** A bucket of packed (key, value) slots with valid bits, as an array of independent records. */
module Bucket {
  import opened Common
  import opened Bits
  import opened Bitmap

  /** Where a bucket lies in its index's memory: its first byte among the slots and among the valid bits. */
  datatype Layout = Layout(data: nat, valid: nat, keyBits: nat, valueBits: nat, slots: nat) {
    function SlotBits(): nat { keyBits + valueBits }

    function Key(i: nat): nat { 8 * data + SlotAt(i, SlotBits()) }

    function Value(i: nat): nat { Key(i) + keyBits }

    function Next(i: nat): nat { Value(i) + valueBits }

    function End(): nat { 8 * data + SlotAt(slots, SlotBits()) }
  }

  /** Record `i` of the bucket. */
  function RecordAt(l: Layout, bytes: seq<Byte>, bits: seq<Byte>, i: nat): Slot {
    Slot(BitAt(bits, 8 * l.valid + i), Field(bytes, l.Key(i), l.Value(i)), Field(bytes, l.Value(i), l.Next(i)))
  }

  function Records(l: Layout, bytes: seq<Byte>, bits: seq<Byte>): Table {
    seq(l.slots, i requires 0 <= i => RecordAt(l, bytes, bits, i))
  }

  /** Nothing outside bits [lo, hi) changes. */
  ghost predicate KeepsOutside(before: seq<Byte>, after: seq<Byte>, lo: nat, hi: nat) {
    |after| == |before| && forall k: nat :: k < lo || hi <= k ==> (BitAt(after, k) <==> BitAt(before, k))
  }

  /** All of the data but bits [lo, hi), as two numbers. */
  datatype Rest = Rest(size: nat, below: nat, above: nat)

  function Outside(data: seq<Byte>, lo: nat, hi: nat): Rest {
    Rest(|data|, Field(data, 0, lo), Field(data, hi, 8 * |data|))
  }

  lemma StoredOutside(before: seq<Byte>, after: seq<Byte>, b: nat, e: nat, v: nat, lo: nat, hi: nat)
    requires Stored(before, after, b, e, v) && lo <= b && e <= hi
    ensures Outside(after, lo, hi) == Outside(before, lo, hi)
  {
    StoredElsewhere(before, after, b, e, v, 0, lo);
    StoredElsewhere(before, after, b, e, v, hi, 8 * |before|);
  }

  /** The two numbers have all the bits outside. */
  lemma SameOutside(before: seq<Byte>, after: seq<Byte>, lo: nat, hi: nat)
    requires Outside(after, lo, hi) == Outside(before, lo, hi)
    ensures KeepsOutside(before, after, lo, hi)
  {
    forall k: nat | k < lo || hi <= k ensures BitAt(after, k) <==> BitAt(before, k) {
      if k < lo {
        FieldBit(before, 0, lo, k);
        FieldBit(after, 0, lo, k);
      } else {
        FieldBit(before, hi, 8 * |before|, k - hi);
        FieldBit(after, hi, 8 * |before|, k - hi);
      }
    }
  }

  // ----- Layout

  /** Where each bit of a record is: the keys and values alternate from the bucket's first byte on, without gaps. */
  lemma RecordBits(l: Layout, bytes: seq<Byte>, bits: seq<Byte>, i: nat, j: nat)
    ensures var r, first := RecordAt(l, bytes, bits, i), 8 * l.data + SlotAt(i, l.keyBits + l.valueBits);
            && r.valid == BitAt(bits, 8 * l.valid + i)
            && (Bit(r.key, j) <==> j < l.keyBits && BitAt(bytes, first + j))
            && (Bit(r.value, j) <==> j < l.valueBits && BitAt(bytes, first + l.keyBits + j))
  {
    FieldBit(bytes, l.Key(i), l.Value(i), j);
    FieldBit(bytes, l.Value(i), l.Next(i), j);
  }

  /** Records follow one another. */
  lemma RecordsApart(l: Layout, i: nat, j: nat)
    requires i < j
    ensures l.Next(i) <= l.Key(j)
  {
    SlotAtMonotone(i + 1, j, l.SlotBits());
  }

  lemma RecordInside(l: Layout, i: nat)
    requires i < l.slots
    ensures 8 * l.data <= l.Key(i) && l.Next(i) <= l.End()
  {
    SlotAtMonotone(i + 1, l.slots, l.SlotBits());
  }

  // ----- Storing one component changes that component only

  lemma KeyStored(l: Layout, bytes: seq<Byte>, bytes': seq<Byte>, bits: seq<Byte>, i: nat, key: nat)
    requires i < l.slots && key <= LowMask(l.keyBits)
    requires Stored(bytes, bytes', l.Key(i), l.Value(i), key)
    ensures var t := Records(l, bytes, bits); Records(l, bytes', bits) == t[i := t[i].(key := key)]
  {
    StoredField(bytes, bytes', l.Key(i), l.Value(i), key);
    forall j: nat | j < l.slots
      ensures j != i ==> Field(bytes', l.Key(j), l.Value(j)) == Field(bytes, l.Key(j), l.Value(j))
      ensures Field(bytes', l.Value(j), l.Next(j)) == Field(bytes, l.Value(j), l.Next(j))
    {
      if j != i { RecordsApart(l, if j < i then j else i, if j < i then i else j); }
      if j != i { StoredElsewhere(bytes, bytes', l.Key(i), l.Value(i), key, l.Key(j), l.Value(j)); }
      StoredElsewhere(bytes, bytes', l.Key(i), l.Value(i), key, l.Value(j), l.Next(j));
    }
  }

  lemma ValueStored(l: Layout, bytes: seq<Byte>, bytes': seq<Byte>, bits: seq<Byte>, i: nat, value: nat)
    requires i < l.slots && value <= LowMask(l.valueBits)
    requires Stored(bytes, bytes', l.Value(i), l.Next(i), value)
    ensures var t := Records(l, bytes, bits); Records(l, bytes', bits) == t[i := t[i].(value := value)]
  {
    StoredField(bytes, bytes', l.Value(i), l.Next(i), value);
    forall j: nat | j < l.slots
      ensures Field(bytes', l.Key(j), l.Value(j)) == Field(bytes, l.Key(j), l.Value(j))
      ensures j != i ==> Field(bytes', l.Value(j), l.Next(j)) == Field(bytes, l.Value(j), l.Next(j))
    {
      if j != i { RecordsApart(l, if j < i then j else i, if j < i then i else j); }
      StoredElsewhere(bytes, bytes', l.Value(i), l.Next(i), value, l.Key(j), l.Value(j));
      if j != i { StoredElsewhere(bytes, bytes', l.Value(i), l.Next(i), value, l.Value(j), l.Next(j)); }
    }
  }

  lemma ValidStored(l: Layout, bytes: seq<Byte>, bits: seq<Byte>, bits': seq<Byte>, i: nat, valid: bool)
    requires i < l.slots
    requires Stored(bits, bits', 8 * l.valid + i, 8 * l.valid + i + 1, OfBit(valid))
    ensures var t := Records(l, bytes, bits); Records(l, bytes, bits') == t[i := t[i].(valid := valid)]
  {
    forall j: nat | j < l.slots
      ensures RecordAt(l, bytes, bits', j) == RecordAt(l, bytes, bits, j).(valid := RecordAt(l, bytes, bits', j).valid)
      ensures RecordAt(l, bytes, bits', j).valid == if j == i then valid else RecordAt(l, bytes, bits, j).valid
    {
      var k := 8 * l.valid + j;
      assert BitAt(bits', k)
             <==> if 8 * l.valid + i <= k < 8 * l.valid + i + 1 then Bit(OfBit(valid), k - (8 * l.valid + i))
                                  else BitAt(bits, k);
    }
  }

  /** A value stored in two parts is stored whole. */
  lemma StoredInTwo(a: seq<Byte>, b: seq<Byte>, c: seq<Byte>, lo: nat, m: nat, hi: nat, v: nat)
    requires lo <= m <= hi
    requires Stored(a, b, lo, m, And(v, LowMask(m - lo))) && Stored(b, c, m, hi, Shr(v, m - lo))
    ensures Stored(a, c, lo, hi, v)
  {
    forall k: nat ensures BitAt(c, k) <==> if lo <= k < hi then Bit(v, k - lo) else BitAt(a, k) {
      assert BitAt(b, k) <==> if lo <= k < m then Bit(And(v, LowMask(m - lo)), k - lo) else BitAt(a, k);
      assert BitAt(c, k) <==> if m <= k < hi then Bit(Shr(v, m - lo), k - m) else BitAt(b, k);
      if lo <= k < m {
        AndBit(v, LowMask(m - lo), k - lo);
        LowMaskBit(m - lo, k - lo);
      } else if m <= k < hi {
        ShrBit(v, m - lo, k - m);
      }
    }
  }

  /** A field read in two parts. */
  lemma JoinTwo(data: seq<Byte>, b: nat, e: nat, low: nat, high: nat)
    requires b + 32 <= e && low == Field(data, b, b + 32) && high == Field(data, b + 32, e)
    ensures Or(low, Shl(high, 32)) == Field(data, b, e)
  {
    FieldSplit(data, b, b + 32, e);
  }

  /** A bucket elsewhere in the same memory is untouched. */
  lemma OtherBucket(l: Layout, bytes: seq<Byte>, bytes': seq<Byte>, bits: seq<Byte>, bits': seq<Byte>, m: Layout)
    requires Outside(bytes', 8 * l.data, l.End()) == Outside(bytes, 8 * l.data, l.End())
    requires Outside(bits', 8 * l.valid, 8 * l.valid + l.slots) == Outside(bits, 8 * l.valid, 8 * l.valid + l.slots)
    requires m.End() <= 8 * l.data || l.End() <= 8 * m.data
    requires 8 * m.valid + m.slots <= 8 * l.valid || 8 * l.valid + l.slots <= 8 * m.valid
    ensures Records(m, bytes', bits') == Records(m, bytes, bits)
  {
    SameOutside(bytes, bytes', 8 * l.data, l.End());
    SameOutside(bits, bits', 8 * l.valid, 8 * l.valid + l.slots);
    forall i: nat | i < m.slots ensures RecordAt(m, bytes', bits', i) == RecordAt(m, bytes, bits, i) {
      RecordInside(m, i);
      SameField(bytes, bytes', 8 * l.data, l.End(), m.Key(i), m.Value(i));
      SameField(bytes, bytes', 8 * l.data, l.End(), m.Value(i), m.Next(i));
    }
  }

  lemma {:induction false} SameField(bytes: seq<Byte>, bytes': seq<Byte>, lo: nat, hi: nat, b: nat, e: nat)
    requires KeepsOutside(bytes, bytes', lo, hi) && (e <= lo || hi <= b)
    ensures Field(bytes', b, e) == Field(bytes, b, e)
    decreases e - b
  {
    if b < e { SameField(bytes, bytes', lo, hi, b + 1, e); }
  }

  // ----- The bucket

  class Bucket {
    const data: Manipulator
    const valid: Manipulator
    const nBitsPerKey: nat
    const nBitsPerValue: nat
    const nBitsPerSlot: nat
    const nSlots: nat

    constructor (nBitsPerKey: nat, nBitsPerValue: nat, nSlots: nat, data: Manipulator, valid: Manipulator)
      ensures this.data == data && this.valid == valid
      ensures this.nBitsPerKey == nBitsPerKey && this.nBitsPerValue == nBitsPerValue && this.nSlots == nSlots
      ensures nBitsPerSlot == nBitsPerKey + nBitsPerValue
    {
      this.data, this.valid, this.nSlots := data, valid, nSlots;
      this.nBitsPerKey, this.nBitsPerValue := nBitsPerKey, nBitsPerValue;
      this.nBitsPerSlot := nBitsPerKey + nBitsPerValue;
    }

    function Shape(): Layout {
      Layout(data.start, valid.start, nBitsPerKey, nBitsPerValue, nSlots)
    }

    /** The memory reaches one byte past the bucket's last slot. */
    ghost predicate Valid() {
      && nBitsPerSlot == nBitsPerKey + nBitsPerValue && nBitsPerKey <= 32 && nBitsPerValue <= 64
      && data.data != valid.data
      && Shape().End() < 8 * data.data.Length
      && 8 * valid.start + nSlots <= 8 * valid.data.Length
    }

    /** The bucket as an array of records. */
    ghost function Slots(): (t: Table)
      requires Valid()
      reads data.data, valid.data
      ensures |t| == nSlots
    {
      Records(Shape(), data.data[..], valid.data[..])
    }

    /** All the memory outside the bucket. */
    ghost function Others(): (Rest, Rest)
      requires Valid()
      reads data.data, valid.data
    {
      (Outside(data.data[..], 8 * data.start, Shape().End()),
       Outside(valid.data[..], 8 * valid.start, 8 * valid.start + nSlots))
    }

    method GetKey(index: nat) returns (key: nat)
      requires Valid() && index < nSlots
      ensures key == Slots()[index].key
    {
      RecordInside(Shape(), index);
      SlotAtIsProduct(index, nBitsPerSlot);
      var b := index * nBitsPerSlot;
      key := data.GetBits(b, b + nBitsPerKey);
    }

    method SetKey(index: nat, key: nat)
      requires Valid() && index < nSlots && key <= LowMask(nBitsPerKey)
      modifies data.data
      ensures Slots() == old(Slots())[index := old(Slots())[index].(key := key)] && Others() == old(Others())
    {
      RecordInside(Shape(), index);
      SlotAtIsProduct(index, nBitsPerSlot);
      var b := index * nBitsPerSlot;
      data.StoreBits(b, b + nBitsPerKey, key);
      StoredOutside(old(data.data[..]), data.data[..], Shape().Key(index), Shape().Value(index), key, 8 * data.start,
                    Shape().End());
      KeyStored(Shape(), old(data.data[..]), data.data[..], valid.data[..], index, key);
    }

    method GetValue(index: nat) returns (value: nat)
      requires Valid() && index < nSlots
      ensures value == Slots()[index].value
    {
      RecordInside(Shape(), index);
      SlotAtIsProduct(index, nBitsPerSlot);
      var b := index * nBitsPerSlot + nBitsPerKey;
      var e := b + nBitsPerValue;
      if e - b > 32 {
        value := GetWide(b, e);
      } else {
        value := data.GetBits(b, e);
      }
    }

    /** A value of more than 32 bits is read in two parts. */
    method GetWide(b: nat, e: nat) returns (value: nat)
      requires b + 32 < e <= b + 64 && data.start + e / 8 < data.data.Length
      ensures value == Field(data.data[..], 8 * data.start + b, 8 * data.start + e)
    {
      value := data.GetBits(b, b + 32);
      var high := data.GetBits(b + 32, e);
      JoinTwo(data.data[..], 8 * data.start + b, 8 * data.start + e, value, high);
      value := Or(value, Shl(high, 32));
    }

    method SetValue(index: nat, value: nat)
      requires Valid() && index < nSlots && value <= LowMask(nBitsPerValue)
      modifies data.data
      ensures Slots() == old(Slots())[index := old(Slots())[index].(value := value)] && Others() == old(Others())
    {
      RecordInside(Shape(), index);
      SlotAtIsProduct(index, nBitsPerSlot);
      var b := index * nBitsPerSlot + nBitsPerKey;
      var e := b + nBitsPerValue;
      if e - b > 32 {
        SetWide(b, e, value);
      } else {
        data.StoreBits(b, e, value);
      }
      StoredOutside(old(data.data[..]), data.data[..], Shape().Value(index), Shape().Next(index), value, 8 * data.start,
                    Shape().End());
      ValueStored(Shape(), old(data.data[..]), data.data[..], valid.data[..], index, value);
    }

    /** And it is stored in two parts. */
    method SetWide(b: nat, e: nat, value: nat)
      requires b + 32 < e <= b + 64 && data.start + e / 8 < data.data.Length && value <= LowMask(e - b)
      modifies data.data
      ensures Stored(old(data.data[..]), data.data[..], 8 * data.start + b, 8 * data.start + e, value)
    {
      hide Stored;
      AndBelow(value, LowMask(32));
      ShrBelow(value, e - b - 32, 32);
      data.StoreBits(b, b + 32, And(value, LowMask(32)));
      ghost var middle := data.data[..];
      data.StoreBits(b + 32, e, Shr(value, 32));
      StoredInTwo(old(data.data[..]), middle, data.data[..], 8 * data.start + b, 8 * data.start + b + 32,
                  8 * data.start + e, value);
    }

    method IsValid(index: nat) returns (r: bool)
      requires Valid() && index < nSlots
      ensures r == Slots()[index].valid
    {
      r := valid.Get(index);
    }

    method SetValid(index: nat)
      requires Valid() && index < nSlots
      modifies valid.data
      ensures Slots() == old(Slots())[index := old(Slots())[index].(valid := true)] && Others() == old(Others())
    {
      valid.Set(index);
      StoredOutside(old(valid.data[..]), valid.data[..], 8 * valid.start + index, 8 * valid.start + index + 1, 1,
                    8 * valid.start, 8 * valid.start + nSlots);
      ValidStored(Shape(), data.data[..], old(valid.data[..]), valid.data[..], index, true);
    }

    method SetInvalid(index: nat)
      requires Valid() && index < nSlots
      modifies valid.data
      ensures Slots() == old(Slots())[index := old(Slots())[index].(valid := false)] && Others() == old(Others())
    {
      valid.Clear(index);
      StoredOutside(old(valid.data[..]), valid.data[..], 8 * valid.start + index, 8 * valid.start + index + 1, 0,
                    8 * valid.start, 8 * valid.start + nSlots);
      ValidStored(Shape(), data.data[..], old(valid.data[..]), valid.data[..], index, false);
    }
  }
}
