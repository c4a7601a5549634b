/** Vocabulary shared by the cache engines: options, list helpers, and the two block devices. */
module Common {

  datatype Option<+T> = None | Some(value: T)

  /** A logical block address on the primary disk, in units of one chunk. */
  type Addr = nat

  /** A content fingerprint (the source's 20-byte digest). */
  type Fp = nat

  type Byte = x: nat | x < 256

  type Block = seq<Byte>

  /** Fingerprints are taken to be collision-free. */
  ghost predicate CollisionFree(h: Block -> Fp) {
    forall x, y :: h(x) == h(y) ==> x == y
  }

  predicate NoDup<T(==)>(q: seq<T>) {
    forall i, j :: 0 <= i < j < |q| ==> q[i] != q[j]
  }

  lemma NoDupCons<T>(x: T, q: seq<T>)
    ensures NoDup([x] + q) <==> x !in q && NoDup(q)
  {
    var r := [x] + q;
    if NoDup(r) {
      forall i, j | 0 <= i < j < |q| ensures q[i] != q[j] { assert r[i + 1] != r[j + 1]; }
      forall i | 0 <= i < |q| ensures q[i] != x { assert r[0] != r[i + 1]; }
    }
  }

  /** A sequence around its element `i`. */
  lemma SplitAt<T>(q: seq<T>, i: nat, a: seq<T>, b: seq<T>)
    requires i < |q| && a == q[..i] && b == q[i + 1..]
    ensures a + [q[i]] + b == q
  {
  }

  lemma UpdateAround<T>(q: seq<T>, i: nat, x: T, a: seq<T>, b: seq<T>)
    requires i < |q| && a == q[..i] && b == q[i + 1..]
    ensures q[i := x][..i] == a && q[i := x][i + 1..] == b
  {
  }

  /** `std::list::erase` of the node that holds `x`. */
  function Erase<T(==)>(q: seq<T>, x: T): (r: seq<T>)
    ensures x !in q ==> r == q
    ensures x in q ==> |r| == |q| - 1
    ensures forall y :: y in r ==> y in q
    ensures forall y :: y in q && y != x ==> y in r
    ensures NoDup(q) ==> NoDup(r) && x !in r
  {
    if q == [] then []
    else if q[0] == x then
      assert q == [q[0]] + q[1..];
      NoDupCons(q[0], q[1..]);
      q[1..]
    else
      assert q == [q[0]] + q[1..];
      NoDupCons(q[0], q[1..]);
      NoDupCons(q[0], Erase(q[1..], x));
      [q[0]] + Erase(q[1..], x)
  }

  /** What is erased is the first occurrence, and the rest keeps its order. */
  lemma {:induction false} EraseAround<T>(a: seq<T>, x: T, b: seq<T>)
    requires x !in a
    ensures Erase(a + [x] + b, x) == a + b
  {
    var q := a + [x] + b;
    if a == [] {
      assert q[0] == x && q[1..] == b && a + b == b;
    } else {
      EraseAround(a[1..], x, b);
      FirstOf(a, [x] + b);
      FirstOf(a, b);
      assert q == a + ([x] + b) && a[1..] + ([x] + b) == a[1..] + [x] + b;
    }
  }

  lemma FirstOf<T>(a: seq<T>, b: seq<T>)
    requires a != []
    ensures (a + b)[0] == a[0] && (a + b)[1..] == a[1..] + b && a + b == [a[0]] + (a[1..] + b)
  {
  }

  /** `x` is further from the front than `y`: it was pushed there before. */
  ghost predicate Older(q: seq<nat>, x: nat, y: nat) {
    exists i, j :: 0 <= i < j < |q| && q[i] == y && q[j] == x
  }

  lemma OlderPushed(q: seq<nat>, n: nat)
    ensures forall x :: x in q ==> Older([n] + q, x, n)
    ensures forall x, y :: Older(q, x, y) ==> Older([n] + q, x, y)
  {
    var r := [n] + q;
    forall x | x in q ensures Older(r, x, n) {
      var j :| 0 <= j < |q| && q[j] == x;
      assert r[0] == n && r[j + 1] == x;
    }
    forall x, y | Older(q, x, y) ensures Older(r, x, y) {
      var i, j :| 0 <= i < j < |q| && q[i] == y && q[j] == x;
      assert r[i + 1] == y && r[j + 1] == x;
    }
  }

  lemma {:induction false} OlderErased(q: seq<nat>, n: nat, x: nat, y: nat)
    requires Older(q, x, y) && x != n && y != n
    ensures Older(Erase(q, n), x, y)
  {
    var i, j :| 0 <= i < j < |q| && q[i] == y && q[j] == x;
    if q[0] == n {
      assert q[1..][i - 1] == y && q[1..][j - 1] == x;
    } else if i == 0 {
      assert q[1..][j - 1] == x;
      var r := Erase(q[1..], n);
      assert x in r;
      var k :| 0 <= k < |r| && r[k] == x;
      assert ([q[0]] + r)[0] == y && ([q[0]] + r)[k + 1] == x;
    } else {
      assert q[1..][i - 1] == y && q[1..][j - 1] == x;
      OlderErased(q[1..], n, x, y);
      OlderPushed(Erase(q[1..], n), q[0]);
    }
  }

  lemma OlderBack(q: seq<nat>, rest: seq<nat>, back: nat)
    requires q == rest + [back]
    ensures forall x :: x in rest ==> Older(q, back, x)
  {
    forall x | x in rest ensures Older(q, back, x) {
      var i :| 0 <= i < |rest| && rest[i] == x;
      assert q[i] == x && q[|rest|] == back;
    }
  }

  function Elements<T>(q: seq<T>): set<T> {
    set x | x in q
  }

  lemma {:induction false} NoDupCardinality<T>(q: seq<T>)
    requires NoDup(q)
    ensures |Elements(q)| == |q|
  {
    if q != [] {
      NoDupCardinality(q[1..]);
      assert Elements(q) == {q[0]} + Elements(q[1..]);
    }
  }

  /** A device as a map from address to block; an address never written reads as the empty block. */
  type Device = map<nat, Block>

  function BlockAt(d: Device, a: nat): Block {
    if a in d then d[a] else []
  }

  /** A device whose blocks all have `chunk` bytes; an address never written reads as zeros. */
  function ChunkAt(d: Device, a: nat, chunk: nat): Block {
    if a in d then d[a] else seq(chunk, _ => 0)
  }

  /** `disk` with the first `n` of `blocks` stored from address `a` on. */
  function Overwritten(disk: Device, a: Addr, blocks: seq<Block>, n: nat): Device
    requires n <= |blocks|
  {
    if n == 0 then disk else Overwritten(disk, a, blocks, n - 1)[a + n - 1 := blocks[n - 1]]
  }

  lemma {:induction false} OverwrittenBlock(disk: Device, a: Addr, blocks: seq<Block>, n: nat, b: Addr)
    requires n <= |blocks|
    ensures var r := Overwritten(disk, a, blocks, n);
            if a <= b < a + n then b in r && r[b] == blocks[b - a]
            else (b in r <==> b in disk) && (b in disk ==> r[b] == disk[b])
  {
    if n > 0 { OverwrittenBlock(disk, a, blocks, n - 1, b); }
  }

  /** A client's request. */
  datatype Request = Read(addr: Addr) | Write(addr: Addr, data: Block)

  // ----- Equal slots of a device

  /** The location of the `k`-th slot of size `size`, and the set of the slots before it. */
  function SlotAt(k: nat, size: nat): nat {
    if k == 0 then 0 else SlotAt(k - 1, size) + size
  }

  function SlotSet(k: nat, size: nat): set<nat> {
    if k == 0 then {} else SlotSet(k - 1, size) + {SlotAt(k - 1, size)}
  }

  lemma {:induction false} SlotAtIsProduct(k: nat, size: nat)
    ensures SlotAt(k, size) == k * size
  {
    if k > 0 { SlotAtIsProduct(k - 1, size); }
  }

  lemma {:induction false} SlotSetBelow(k: nat, size: nat)
    requires size >= 1
    ensures forall x :: x in SlotSet(k, size) ==> x < SlotAt(k, size)
  {
    if k > 0 { SlotSetBelow(k - 1, size); }
  }

  lemma {:induction false} SlotAtIncreases(j: nat, k: nat, size: nat)
    requires j < k && size >= 1
    ensures SlotAt(j, size) < SlotAt(k, size)
  {
    if j < k - 1 { SlotAtIncreases(j, k - 1, size); }
  }

  lemma {:induction false} SlotAtMonotone(j: nat, k: nat, size: nat)
    requires j <= k
    ensures SlotAt(j, size) <= SlotAt(k, size)
    decreases k
  {
    if j < k { SlotAtMonotone(j, k - 1, size); }
  }

  lemma {:induction false} SlotSetSize(k: nat, size: nat)
    requires size >= 1
    ensures |SlotSet(k, size)| == k
  {
    if k > 0 {
      SlotSetSize(k - 1, size);
      SlotSetBelow(k - 1, size);
    }
  }

  lemma {:induction false} SlotSetIndex(k: nat, size: nat, x: nat) returns (i: nat)
    ensures x in SlotSet(k, size) ==> i < k && x == i * size
    ensures forall j: nat :: j < k && x == j * size ==> x in SlotSet(k, size)
  {
    if k == 0 {
      i := 0;
    } else {
      i := SlotSetIndex(k - 1, size, x);
      SlotAtIsProduct(k - 1, size);
      if x == (k - 1) * size { i := k - 1; }
    }
  }

  lemma SubsetOfEqualSize<T>(a: set<T>, b: set<T>)
    requires a <= b && |a| == |b|
    ensures a == b
  {
    assert |b - a| == |b| - |a|;
    assert b == a + (b - a);
  }

  lemma Multiple(k: int, width: nat)
    ensures k >= 1 ==> k * width >= width
    ensures k <= -1 ==> k * width <= 0 - width
  {
  }

  lemma QuotientBounds(a: nat, size: nat)
    requires size >= 1
    ensures (a / size) * size <= a < (a / size) * size + size
  {
  }

  // ----- Slot tables

  /** A slot of a bucket; a slot out of use still has a key and a value. */
  datatype Slot = Slot(valid: bool, key: nat, value: nat)

  type Table = seq<Slot>

  /** The slot that holds `key`, or the table's length. */
  function Find(t: Table, key: nat): (i: nat)
    ensures i <= |t|
    ensures i < |t| ==> t[i].valid && t[i].key == key
    ensures forall j :: 0 <= j < i ==> !(t[j].valid && t[j].key == key)
  {
    if t == [] then 0 else if t[0].valid && t[0].key == key then 0 else 1 + Find(t[1..], key)
  }
}
