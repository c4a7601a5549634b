/** Unaligned bit fields over an array of bytes, several manipulators of which may share one array. */
module Bitmap {
  import opened Common
  import opened Bits

  predicate BitAt(data: seq<Byte>, k: nat) {
    k / 8 < |data| && Bit(data[k / 8], k % 8)
  }

  /** The number whose bits are bits [b, e) of the data, least significant first. */
  function Field(data: seq<Byte>, b: nat, e: nat): nat
    decreases e - b
  {
    if b >= e then 0 else OfBit(BitAt(data, b)) + 2 * Field(data, b + 1, e)
  }

  /** `after` holds `v` in bits [b, e) and every other bit of `before`. */
  ghost predicate Stored(before: seq<Byte>, after: seq<Byte>, b: nat, e: nat, v: nat) {
    && |after| == |before|
    && forall k: nat :: BitAt(after, k) <==> if b <= k < e then Bit(v, k - b) else BitAt(before, k)
  }

  /** `v` consists of bits [b, e) of the data. */
  ghost predicate Reads(v: nat, data: seq<Byte>, b: nat, e: nat) {
    forall i: nat :: Bit(v, i) <==> b + i < e && BitAt(data, b + i)
  }

  // ----- Fields

  lemma {:induction false} FieldBit(data: seq<Byte>, b: nat, e: nat, i: nat)
    ensures Bit(Field(data, b, e), i) <==> b + i < e && BitAt(data, b + i)
    decreases i
  {
    if b >= e {
      ZeroBit(i);
    } else {
      assert Field(data, b, e) / 2 == Field(data, b + 1, e);
      if i > 0 { FieldBit(data, b + 1, e, i - 1); }
    }
  }

  /** A number with the field's bits is the field. */
  lemma FieldUnique(data: seq<Byte>, b: nat, e: nat, v: nat)
    requires Reads(v, data, b, e)
    ensures v == Field(data, b, e)
  {
    forall i: nat ensures Bit(v, i) <==> Bit(Field(data, b, e), i) { FieldBit(data, b, e, i); }
    SameBits(v, Field(data, b, e));
  }

  lemma FieldFits(data: seq<Byte>, b: nat, e: nat)
    requires b <= e
    ensures Field(data, b, e) <= LowMask(e - b)
  {
    forall i: nat | i >= e - b ensures !Bit(Field(data, b, e), i) { FieldBit(data, b, e, i); }
    BelowPower(Field(data, b, e), e - b);
  }

  /** Storing a value and reading it back. */
  lemma StoredField(before: seq<Byte>, after: seq<Byte>, b: nat, e: nat, v: nat)
    requires b <= e && Stored(before, after, b, e, v) && v <= LowMask(e - b)
    ensures Field(after, b, e) == v
  {
    forall i: nat ensures Bit(v, i) <==> b + i < e && BitAt(after, b + i) {
      if i >= e - b { NoBitAbove(v, e - b, i); }
      assert BitAt(after, b + i) <==> if b <= b + i < e then Bit(v, b + i - b) else BitAt(before, b + i);
    }
    FieldUnique(after, b, e, v);
  }

  /** A field apart from the one stored keeps its value. */
  lemma {:induction false} StoredElsewhere(before: seq<Byte>, after: seq<Byte>, b: nat, e: nat, v: nat, b': nat,
                                           e': nat)
    requires Stored(before, after, b, e, v) && (e' <= b || e <= b')
    ensures Field(after, b', e') == Field(before, b', e')
    decreases e' - b'
  {
    if b' < e' {
      StoredElsewhere(before, after, b, e, v, b' + 1, e');
      assert BitAt(after, b') <==> BitAt(before, b');
    }
  }

  /** Two adjacent fields read as one. */
  lemma {:induction false} FieldSplit(data: seq<Byte>, b: nat, m: nat, e: nat)
    requires b <= m <= e
    ensures Field(data, b, e) == Or(Field(data, b, m), Shl(Field(data, m, e), m - b))
  {
    var low, high := Field(data, b, m), Field(data, m, e);
    var v := Or(low, Shl(high, m - b));
    forall i: nat ensures Bit(v, i) <==> b + i < e && BitAt(data, b + i) {
      OrBit(low, Shl(high, m - b), i);
      FieldBit(data, b, m, i);
      ShlBit(high, m - b, i);
      if i >= m - b { FieldBit(data, m, e, i - (m - b)); }
    }
    FieldUnique(data, b, e, v);
  }

  // ----- One byte of a store

  /** `x` is `y` with bits [lo, hi) taken from `v`, whose bit `d` would fall on bit 0. */
  ghost predicate TakesBits(x: nat, y: nat, lo: nat, hi: nat, v: nat, d: int)
    requires lo + d >= 0
  {
    forall j: nat :: j < 8 ==> (Bit(x, j) <==> if lo <= j < hi then Bit(v, j + d) else Bit(y, j))
  }

  lemma StoreByte(before: seq<Byte>, cur: seq<Byte>, base: nat, x: Byte, b: nat, lo: nat, hi: nat, v: nat)
    requires b <= 8 * base + lo && lo <= hi <= 8 && base < |cur|
    requires Stored(before, cur, b, 8 * base + lo, v)
    requires TakesBits(x, cur[base], lo, hi, v, 8 * base - b)
    ensures Stored(before, cur[base := x], b, 8 * base + hi, v)
  {
    var after := cur[base := x];
    forall k: nat ensures BitAt(after, k) <==> if b <= k < 8 * base + hi then Bit(v, k - b) else BitAt(before, k) {
      assert BitAt(cur, k) <==> if b <= k < 8 * base + lo then Bit(v, k - b) else BitAt(before, k);
      if k / 8 == base { assert k == 8 * base + k % 8; }
    }
  }

  /** The bits kept around [s, t). */
  function Around(s: nat, t: nat): nat {
    Or(LowMask(s), Not(LowMask(t), 32))
  }

  lemma AroundBit(s: nat, t: nat, j: nat)
    ensures Bit(Around(s, t), j) <==> j < s || t <= j < 32
  {
    OrBit(LowMask(s), Not(LowMask(t), 32), j);
    LowMaskBit(s, j);
    NotBit(LowMask(t), 32, j);
    LowMaskBit(t, j);
  }

  lemma MaskedByte(y: Byte, mask: nat)
    ensures And(y, mask) <= LowMask(8)
  {
    AndBelow(y, mask);
  }

  lemma LowByte(x: nat, j: nat)
    ensures And(x, 255) <= LowMask(8)
    ensures j < 8 ==> (Bit(And(x, 255), j) <==> Bit(x, j))
  {
    AndBelow(x, 255);
    AndBit(x, LowMask(8), j);
    LowMaskBit(8, j);
  }

  lemma WithinByte(y: Byte, s: nat, t: nat, v: nat, x: nat)
    requires s <= t < 8 && v <= LowMask(t - s) && x == Or(And(y, Around(s, t)), Shl(v, s))
    ensures x < 256 && TakesBits(x, y, s, t, v, 0 - s)
  {
    var kept, put := And(y, Around(s, t)), Shl(v, s);
    MaskedByte(y, Around(s, t));
    ShlBelow(v, t - s, s);
    LowMaskGrows(t, 8);
    OrBelow(kept, put, 8);
    forall j: nat | j < 8 ensures Bit(x, j) <==> if s <= j < t then Bit(v, j - s) else Bit(y, j) {
      OrBit(kept, put, j);
      WithinBit(y, s, t, v, j);
    }
  }

  lemma WithinBit(y: Byte, s: nat, t: nat, v: nat, j: nat)
    requires s <= t < 8 && v <= LowMask(t - s) && j < 8
    ensures Bit(And(y, Around(s, t)), j) <==> Bit(y, j) && !(s <= j < t)
    ensures Bit(Shl(v, s), j) <==> s <= j < t && Bit(v, j - s)
  {
    AndBit(y, Around(s, t), j);
    AroundBit(s, t, j);
    ShlBit(v, s, j);
    if j >= t { NoBitAbove(v, t - s, j - s); }
  }

  lemma FirstByte(y: Byte, s: nat, v: nat, x: nat)
    requires s < 8 && x == Or(And(y, LowMask(s)), And(Shl(v, s), 255))
    ensures x < 256 && TakesBits(x, y, s, 8, v, 0 - s)
  {
    MaskedByte(y, LowMask(s));
    LowByte(Shl(v, s), 0);
    OrBelow(And(y, LowMask(s)), And(Shl(v, s), 255), 8);
    forall j: nat | j < 8 ensures Bit(x, j) <==> if s <= j then Bit(v, j - s) else Bit(y, j) {
      OrBit(And(y, LowMask(s)), And(Shl(v, s), 255), j);
      AndBit(y, LowMask(s), j);
      LowMaskBit(s, j);
      LowByte(Shl(v, s), j);
      ShlBit(v, s, j);
    }
  }

  lemma MiddleByte(y: Byte, v: nat, d: nat, x: nat)
    requires x == And(Shr(v, d), 255)
    ensures x < 256 && TakesBits(x, y, 0, 8, v, d)
  {
    LowByte(Shr(v, d), 0);
    forall j: nat | j < 8 ensures Bit(x, j) <==> Bit(v, j + d) {
      LowByte(Shr(v, d), j);
      ShrBit(v, d, j);
    }
  }

  lemma LastByte(y: Byte, t: nat, v: nat, d: nat, x: nat)
    requires t < 8 && v <= LowMask(t + d) && x == Or(And(y, Not(LowMask(t), 32)), Shr(v, d))
    ensures x < 256 && TakesBits(x, y, 0, t, v, d)
  {
    var kept, put := And(y, Not(LowMask(t), 32)), Shr(v, d);
    MaskedByte(y, Not(LowMask(t), 32));
    ShrBelow(v, t, d);
    LowMaskGrows(t, 8);
    OrBelow(kept, put, 8);
    forall j: nat | j < 8 ensures Bit(x, j) <==> if j < t then Bit(v, j + d) else Bit(y, j) {
      OrBit(kept, put, j);
      LastBit(y, t, v, d, j);
    }
  }

  lemma LastBit(y: Byte, t: nat, v: nat, d: nat, j: nat)
    requires t < 8 && v <= LowMask(t + d) && j < 8
    ensures Bit(And(y, Not(LowMask(t), 32)), j) <==> Bit(y, j) && t <= j
    ensures Bit(Shr(v, d), j) <==> j < t && Bit(v, j + d)
  {
    AbovePart(y, t, j);
    ShrBit(v, d, j);
    if j >= t { NoBitAbove(v, t + d, j + d); }
  }

  lemma AbovePart(y: Byte, t: nat, j: nat)
    requires j < 8
    ensures Bit(And(y, Not(LowMask(t), 32)), j) <==> Bit(y, j) && t <= j
  {
    AndBit(y, Not(LowMask(t), 32), j);
    NotBit(LowMask(t), 32, j);
    LowMaskBit(t, j);
  }

  lemma ShrTwice(v: nat, s: nat, t: nat)
    ensures Shr(Shr(v, s), t) == Shr(v, s + t)
    decreases s
  {
    if s > 0 { ShrTwice(v / 2, s - 1, t); }
  }

  lemma StoreWithin(before: seq<Byte>, base: nat, b: nat, s: nat, t: nat, v: nat, x: nat)
    requires base < |before| && b == 8 * base + s && s <= t < 8 && v <= LowMask(t - s)
    requires x == Or(And(before[base], Around(s, t)), Shl(v, s))
    ensures x < 256 && Stored(before, before[base := x], b, 8 * base + t, v)
  {
    WithinByte(before[base], s, t, v, x);
    StoreByte(before, before, base, x, b, s, t, v);
  }

  lemma StoreFirst(before: seq<Byte>, base: nat, b: nat, s: nat, v: nat, x: nat)
    requires base < |before| && b == 8 * base + s && s < 8
    requires x == Or(And(before[base], LowMask(s)), And(Shl(v, s), 255))
    ensures x < 256 && Stored(before, before[base := x], b, 8 * (base + 1), v)
  {
    FirstByte(before[base], s, v, x);
    StoreByte(before, before, base, x, b, s, 8, v);
  }

  lemma StoreMiddle(before: seq<Byte>, cur: seq<Byte>, base: nat, b: nat, v: nat, x: nat)
    requires base < |cur| && b <= 8 * base && Stored(before, cur, b, 8 * base, v)
    requires x == And(Shr(v, 8 * base - b), 255)
    ensures x < 256 && Stored(before, cur[base := x], b, 8 * (base + 1), v)
  {
    MiddleByte(cur[base], v, 8 * base - b, x);
    StoreByte(before, cur, base, x, b, 0, 8, v);
  }

  lemma StoreLast(before: seq<Byte>, cur: seq<Byte>, base: nat, b: nat, t: nat, v: nat, x: nat)
    requires base < |cur| && b <= 8 * base && t < 8 && Stored(before, cur, b, 8 * base, v)
    requires v <= LowMask(8 * base + t - b) && x == Or(And(cur[base], Not(LowMask(t), 32)), Shr(v, 8 * base - b))
    ensures x < 256 && Stored(before, cur[base := x], b, 8 * base + t, v)
  {
    LastByte(cur[base], t, v, 8 * base - b, x);
    StoreByte(before, cur, base, x, b, 0, t, v);
  }

  // ----- One byte of a read

  /** Joining the low `c' - c` bits of the byte at bit `c` to the bits read so far. */
  lemma ReadByte(data: seq<Byte>, base: nat, y: nat, b: nat, c: nat, c': nat, v: nat, r: nat)
    requires base < |data| && b <= 8 * base == c && c <= c' <= 8 * base + 8
    requires forall j: nat :: Bit(y, j) <==> j < c' - c && Bit(data[base], j)
    requires Reads(v, data, b, c) && r == Or(v, Shl(y, c - b))
    ensures Reads(r, data, b, c')
  {
    forall i: nat ensures Bit(r, i) <==> b + i < c' && BitAt(data, b + i) {
      OrBit(v, Shl(y, c - b), i);
      ShlBit(y, c - b, i);
      if c <= b + i < c' {
        assert (b + i) / 8 == base && (b + i) % 8 == i - (c - b);
      }
    }
  }

  lemma WholeByte(y: Byte)
    ensures forall j: nat :: Bit(y, j) <==> j < 8 && Bit(y, j)
  {
    forall j: nat | j >= 8 ensures !Bit(y, j) { NoBitAbove(y, 8, j); }
  }

  lemma LowBits(y: nat, t: nat)
    ensures forall j: nat :: Bit(And(y, LowMask(t)), j) <==> j < t && Bit(y, j)
  {
    forall j: nat ensures Bit(And(y, LowMask(t)), j) <==> j < t && Bit(y, j) {
      AndBit(y, LowMask(t), j);
      LowMaskBit(t, j);
    }
  }

  /** The bits of a field that begins inside its first byte. */
  lemma ReadFirst(data: seq<Byte>, base: nat, b: nat, r: nat)
    requires base < |data| && 8 * base <= b < 8 * base + 8 && r == Shr(data[base], b - 8 * base)
    ensures Reads(r, data, b, 8 * base + 8)
  {
    forall i: nat ensures Bit(r, i) <==> b + i < 8 * base + 8 && BitAt(data, b + i) {
      ShrBit(data[base], b - 8 * base, i);
      if b + i < 8 * base + 8 {
        assert (b + i) / 8 == base && (b + i) % 8 == b - 8 * base + i;
      } else {
        NoBitAbove(data[base], 8, b - 8 * base + i);
      }
    }
  }

  /** The bits of a field inside one byte. */
  lemma ReadWithin(data: seq<Byte>, base: nat, s: nat, t: nat, v: nat)
    requires base < |data| && s <= t < 8 && v == Shr(And(data[base], Not(Around(s, t), 32)), s)
    ensures v == Field(data, 8 * base + s, 8 * base + t)
  {
    var b, e := 8 * base + s, 8 * base + t;
    forall i: nat ensures Bit(v, i) <==> b + i < e && BitAt(data, b + i) {
      ShrBit(And(data[base], Not(Around(s, t), 32)), s, i);
      AndBit(data[base], Not(Around(s, t), 32), i + s);
      NotBit(Around(s, t), 32, i + s);
      AroundBit(s, t, i + s);
      if b + i < e { assert (b + i) / 8 == base && (b + i) % 8 == i + s; }
    }
    FieldUnique(data, b, e, v);
  }

  // ----- The manipulator

  /** A pointer to byte `start` of an array. */
  class Manipulator {
    const data: array<Byte>
    const start: nat

    constructor (data: array<Byte>, start: nat)
      ensures this.data == data && this.start == start
    {
      this.data, this.start := data, start;
    }

    method Get(index: nat) returns (r: bool)
      requires start + index / 8 < data.Length
      ensures r == BitAt(data[..], 8 * start + index)
    {
      AndOne(data[start + index / 8], index % 8);
      Position(start, index);
      r := And(data[start + index / 8], Shl(1, index % 8)) != 0;
    }

    method Set(index: nat)
      requires start + index / 8 < data.Length
      modifies data
      ensures Stored(old(data[..]), data[..], 8 * start + index, 8 * start + index + 1, 1)
    {
      var k, i := start + index / 8, index % 8;
      SetByte(data[k], i);
      StoreByte(data[..], data[..], k, Or(data[k], Shl(1, i)), 8 * k + i, i, i + 1, 1);
      data[k] := Or(data[k], Shl(1, i));
    }

    method Clear(index: nat)
      requires start + index / 8 < data.Length
      modifies data
      ensures Stored(old(data[..]), data[..], 8 * start + index, 8 * start + index + 1, 0)
    {
      var k, i := start + index / 8, index % 8;
      ClearByte(data[k], i);
      StoreByte(data[..], data[..], k, And(data[k], Not(Shl(1, i), 32)), 8 * k + i, i, i + 1, 0);
      data[k] := And(data[k], Not(Shl(1, i), 32));
    }

    /** Bits [b, e) become `v`; every other bit of the array is as before. */
    method StoreBits(b: nat, e: nat, v: nat)
      requires b <= e <= b + 32 && 8 * start + e <= 8 * data.Length && start + b / 8 < data.Length
      requires v <= LowMask(e - b)
      modifies data
      ensures Stored(old(data[..]), data[..], 8 * start + b, 8 * start + e, v)
    {
      var base, last := start + b / 8, start + e / 8;
      var s, t := b % 8, e % 8;
      if base == last {
        StoreWithin(data[..], base, 8 * base + s, s, t, v, Or(And(data[base], Around(s, t)), Shl(v, s)));
        data[base] := Or(And(data[base], Around(s, t)), Shl(v, s));
        assert data[..] == old(data[..])[base := data[base]];
      } else {
        StoreAcross(base, s, last, t, v);
      }
    }

    /** The case of several bytes: from bit `s` of byte `first` to bit `t` of byte `last`. */
    method StoreAcross(first: nat, s: nat, last: nat, t: nat, v: nat)
      requires s < 8 && t < 8 && first < last && (if t == 0 then last else last + 1) <= data.Length
      requires v <= LowMask(8 * last + t - (8 * first + s))
      modifies data
      ensures Stored(old(data[..]), data[..], 8 * first + s, 8 * last + t, v)
    {
      if s == 0 {
        StoreFrom(first, last, t, v, data[..], 8 * first, v);
      } else {
        var x := Or(And(data[first], LowMask(s)), And(Shl(v, s), 255));
        StoreFirst(data[..], first, 8 * first + s, s, v, x);
        data[first] := x;
        StoreFrom(first + 1, last, t, Shr(v, 8 - s), old(data[..]), 8 * first + s, v);
      }
    }

    /** Whole bytes from `first`, then `t` bits of byte `last`; `rest` is what is left of `v`, stored from bit `b`. */
    method StoreFrom(first: nat, last: nat, t: nat, rest: nat, ghost before: seq<Byte>, ghost b: nat, ghost v: nat)
      requires t < 8 && b <= 8 * first <= 8 * last && (if t == 0 then last else last + 1) <= data.Length
      requires v <= LowMask(8 * last + t - b) && rest == Shr(v, 8 * first - b)
      requires Stored(before, data[..], b, 8 * first, v)
      modifies data
      ensures Stored(before, data[..], b, 8 * last + t, v)
    {
      var base, w := first, rest;
      while base < last
        invariant b <= 8 * base <= 8 * last
        invariant w == Shr(v, 8 * base - b)
        invariant Stored(before, data[..], b, 8 * base, v)
      {
        StoreMiddle(before, data[..], base, b, v, And(w, 255));
        ShrTwice(v, 8 * base - b, 8);
        data[base] := And(w, 255);
        w := Shr(w, 8);
        base := base + 1;
      }
      if t != 0 {
        StoreLast(before, data[..], base, b, t, v, Or(And(data[base], Not(LowMask(t), 32)), w));
        data[base] := Or(And(data[base], Not(LowMask(t), 32)), w);
      }
    }

    /** The number held in bits [b, e); the byte of bit `e` is touched even when no bit of it is wanted. */
    method GetBits(b: nat, e: nat) returns (v: nat)
      requires b <= e <= b + 32 && start + e / 8 < data.Length
      ensures v == Field(data[..], 8 * start + b, 8 * start + e)
    {
      var base, last := start + b / 8, start + e / 8;
      var s, t := b % 8, e % 8;
      ghost var b', e' := 8 * start + b, 8 * start + e;
      assert b' == 8 * base + s && e' == 8 * last + t;
      if base == last {
        v := And(data[base], Not(Around(s, t), 32));
        v := Shr(v, s);
        ReadWithin(data[..], base, s, t, v);
      } else {
        v := 0;
        var shift := 0;
        forall i: nat ensures !Bit(0, i) { ZeroBit(i); }
        if s != 0 {
          ReadFirst(data[..], base, b', Shr(data[base], s));
          OrZero(Shr(data[base], s));
          v := Or(v, Shr(data[base], s));
          shift := shift + (8 - s);
          base := base + 1;
        }
        while base < last
          invariant b' <= 8 * base <= 8 * last
          invariant shift == 8 * base - b'
          invariant Reads(v, data[..], b', 8 * base)
        {
          WholeByte(data[base]);
          ReadByte(data[..], base, data[base], b', 8 * base, 8 * base + 8, v, Or(v, Shl(data[base], shift)));
          v := Or(v, Shl(data[base], shift));
          shift := shift + 8;
          base := base + 1;
        }
        LowBits(data[base], t);
        ReadByte(data[..], base, And(data[base], LowMask(t)), b', 8 * base, e', v,
                 Or(v, Shl(And(data[base], LowMask(t)), shift)));
        v := Or(v, Shl(And(data[base], LowMask(t)), shift));
        FieldUnique(data[..], b', e', v);
      }
    }
  }

  lemma Position(start: nat, index: nat)
    ensures 8 * start + index == 8 * (start + index / 8) + index % 8
    ensures (8 * start + index) / 8 == start + index / 8 && (8 * start + index) % 8 == index % 8
  {
  }

  lemma OrZero(x: nat)
    ensures Or(0, x) == x
  {
    forall i: nat ensures Bit(Or(0, x), i) <==> Bit(x, i) {
      OrBit(0, x, i);
      ZeroBit(i);
    }
    SameBits(Or(0, x), x);
  }

  lemma SetByte(y: Byte, i: nat)
    requires i < 8
    ensures Or(y, Shl(1, i)) < 256
    ensures forall j: nat :: j < 8 ==> (Bit(Or(y, Shl(1, i)), j) <==> if j == i then Bit(1, 0) else Bit(y, j))
  {
    forall j: nat ensures Bit(Or(y, Shl(1, i)), j) <==> j == i || Bit(y, j) {
      OrBit(y, Shl(1, i), j);
      OneBit(i, j);
    }
    forall j: nat | j >= 8 ensures !Bit(Or(y, Shl(1, i)), j) { NoBitAbove(y, 8, j); }
    BelowPower(Or(y, Shl(1, i)), 8);
  }

  lemma ClearByte(y: Byte, i: nat)
    requires i < 8
    ensures And(y, Not(Shl(1, i), 32)) < 256
    ensures forall j: nat :: j < 8 ==> (Bit(And(y, Not(Shl(1, i), 32)), j) <==> if j == i then Bit(0, 0) else Bit(y, j))
  {
    AndBelow(y, Not(Shl(1, i), 32));
    forall j: nat | j < 8 ensures Bit(And(y, Not(Shl(1, i), 32)), j) <==> j != i && Bit(y, j) {
      AndBit(y, Not(Shl(1, i), 32), j);
      NotBit(Shl(1, i), 32, j);
      OneBit(i, j);
    }
  }
}
