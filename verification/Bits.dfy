/** Bitwise operations on naturals, one bit at a time, with what each does to every bit. */
module Bits {

  function Bit(n: nat, i: nat): bool
    decreases i
  {
    if i == 0 then n % 2 == 1 else Bit(n / 2, i - 1)
  }

  function OfBit(b: bool): nat { if b then 1 else 0 }

  function And(x: nat, y: nat): nat
    decreases x
  {
    if x == 0 then 0 else OfBit(x % 2 == 1 && y % 2 == 1) + 2 * And(x / 2, y / 2)
  }

  function Or(x: nat, y: nat): nat
    decreases x + y
  {
    if x + y == 0 then 0 else OfBit(x % 2 == 1 || y % 2 == 1) + 2 * Or(x / 2, y / 2)
  }

  function Shl(n: nat, s: nat): nat
    decreases s, n
  {
    if s == 0 then n else 2 * Shl(n, s - 1)
  }

  function Shr(n: nat, s: nat): nat
    decreases s, n
  {
    if s == 0 then n else Shr(n / 2, s - 1)
  }

  /** `(1 << s) - 1` */
  function LowMask(s: nat): nat {
    if s == 0 then 0 else 2 * LowMask(s - 1) + 1
  }

  /** `~x` in a word of `w` bits */
  function Not(x: nat, w: nat): nat
    decreases w, x
  {
    if w == 0 then 0 else OfBit(x % 2 == 0) + 2 * Not(x / 2, w - 1)
  }

  lemma {:induction false} ZeroBit(i: nat)
    ensures !Bit(0, i)
    decreases i
  {
    if i > 0 { ZeroBit(i - 1); }
  }

  lemma {:induction false} AndBit(x: nat, y: nat, i: nat)
    ensures Bit(And(x, y), i) <==> Bit(x, i) && Bit(y, i)
    decreases i
  {
    if x == 0 {
      ZeroBit(i);
    } else {
      var r := And(x, y);
      assert r / 2 == And(x / 2, y / 2);
      if i > 0 { AndBit(x / 2, y / 2, i - 1); }
    }
  }

  lemma {:induction false} OrBit(x: nat, y: nat, i: nat)
    ensures Bit(Or(x, y), i) <==> Bit(x, i) || Bit(y, i)
    decreases i
  {
    if x + y == 0 {
      ZeroBit(i);
    } else {
      var r := Or(x, y);
      assert r / 2 == Or(x / 2, y / 2);
      if i > 0 { OrBit(x / 2, y / 2, i - 1); }
    }
  }

  lemma {:induction false} ShlBit(n: nat, s: nat, i: nat)
    ensures Bit(Shl(n, s), i) <==> i >= s && Bit(n, i - s)
    decreases s
  {
    if s > 0 {
      assert Shl(n, s) / 2 == Shl(n, s - 1) && Shl(n, s) % 2 == 0;
      if i > 0 { ShlBit(n, s - 1, i - 1); }
    }
  }

  lemma {:induction false} ShrBit(n: nat, s: nat, i: nat)
    ensures Bit(Shr(n, s), i) <==> Bit(n, i + s)
    decreases s
  {
    if s > 0 { ShrBit(n / 2, s - 1, i); }
  }

  lemma {:induction false} LowMaskBit(s: nat, i: nat)
    ensures Bit(LowMask(s), i) <==> i < s
    decreases s
  {
    if s == 0 {
      ZeroBit(i);
    } else {
      assert LowMask(s) / 2 == LowMask(s - 1);
      if i > 0 { LowMaskBit(s - 1, i - 1); }
    }
  }

  lemma {:induction false} NotBit(x: nat, w: nat, i: nat)
    ensures Bit(Not(x, w), i) <==> i < w && !Bit(x, i)
    decreases w
  {
    if w == 0 {
      ZeroBit(i);
    } else {
      assert Not(x, w) / 2 == Not(x / 2, w - 1);
      if i > 0 { NotBit(x / 2, w - 1, i - 1); }
    }
  }

  lemma {:induction false} AndBelow(x: nat, y: nat)
    ensures And(x, y) <= x && And(x, y) <= y
    decreases x
  {
    if x > 0 { AndBelow(x / 2, y / 2); }
  }

  lemma {:induction false} OrBelow(x: nat, y: nat, w: nat)
    requires x <= LowMask(w) && y <= LowMask(w)
    ensures Or(x, y) <= LowMask(w)
    decreases w
  {
    if x + y > 0 { OrBelow(x / 2, y / 2, w - 1); }
  }

  lemma {:induction false} LowMaskGrows(s: nat, t: nat)
    requires s <= t
    ensures LowMask(s) <= LowMask(t)
    decreases t
  {
    if s < t { LowMaskGrows(s, t - 1); }
  }

  lemma {:induction false} ShlBelow(x: nat, w: nat, s: nat)
    requires x <= LowMask(w)
    ensures Shl(x, s) <= LowMask(w + s)
    decreases s
  {
    if s > 0 { ShlBelow(x, w, s - 1); }
  }

  lemma {:induction false} ShrBelow(x: nat, w: nat, s: nat)
    requires x <= LowMask(w + s)
    ensures Shr(x, s) <= LowMask(w)
    decreases s
  {
    if s > 0 { ShrBelow(x / 2, w, s - 1); }
  }

  /** Testing one bit of `x` against a mask. */
  lemma AndOne(x: nat, i: nat)
    ensures And(x, Shl(1, i)) != 0 <==> Bit(x, i)
  {
    forall j: nat ensures Bit(And(x, Shl(1, i)), j) <==> j == i && Bit(x, i) {
      AndBit(x, Shl(1, i), j);
      OneBit(i, j);
    }
    if Bit(x, i) {
      ZeroBit(i);
      assert Bit(And(x, Shl(1, i)), i);
    } else {
      NoBits(And(x, Shl(1, i)));
    }
  }

  lemma OneBit(i: nat, j: nat)
    ensures Bit(Shl(1, i), j) <==> j == i
  {
    ShlBit(1, i, j);
    if j > i { ZeroBit(j - i - 1); }
  }

  /** A number is its bits. */
  lemma {:induction false} SameBits(x: nat, y: nat)
    requires forall i: nat :: Bit(x, i) <==> Bit(y, i)
    ensures x == y
    decreases x
  {
    assert Bit(x, 0) <==> Bit(y, 0);
    if x > 0 || y > 0 {
      forall i: nat ensures Bit(x / 2, i) <==> Bit(y / 2, i) {
        assert Bit(x, i + 1) <==> Bit(y, i + 1);
      }
      if x == 0 {
        forall i: nat ensures !Bit(y, i) { ZeroBit(i); assert Bit(x, i) <==> Bit(y, i); }
        NoBits(y);
      } else {
        SameBits(x / 2, y / 2);
      }
    }
  }

  lemma {:induction false} NoBits(y: nat)
    requires forall i: nat :: !Bit(y, i)
    ensures y == 0
    decreases y
  {
    if y > 0 {
      assert !Bit(y, 0);
      forall i: nat ensures !Bit(y / 2, i) { assert !Bit(y, i + 1); }
      NoBits(y / 2);
    }
  }

  /** A number below 2^w has no bit from `w` on. */
  lemma {:induction false} NoBitAbove(n: nat, w: nat, i: nat)
    requires n <= LowMask(w) && w <= i
    ensures !Bit(n, i)
    decreases i
  {
    if n == 0 { ZeroBit(i); } else { NoBitAbove(n / 2, w - 1, i - 1); }
  }

  /** Only a number below 2^w has no bit from `w` on. */
  lemma {:induction false} BelowPower(n: nat, w: nat)
    requires forall i: nat :: i >= w ==> !Bit(n, i)
    ensures n <= LowMask(w)
    decreases w
  {
    if w == 0 {
      NoBits(n);
    } else {
      forall i: nat | i >= w - 1 ensures !Bit(n / 2, i) { assert Bit(n / 2, i) <==> Bit(n, i + 1); }
      BelowPower(n / 2, w - 1);
    }
  }
}
