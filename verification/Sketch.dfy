/**
 The count-min sketch of reference counts: four rows of four-bit cells, a cell at 15 continuing in a 16-bit
 overflow entry.  Row hashes are arbitrary functions.
 */
module Sketch {
  import opened Common
  import opened LbaTable
  import opened LbaReferences

  const ROWS: nat := 4
  const CELL_MAX: nat := 15
  const OVERFLOW: nat := 65536

  /** The largest number of references one cell can hold. */
  const LIMIT: nat := CELL_MAX + OVERFLOW - 1

  datatype Cell = Cell(count: nat, extra: Option<nat>)

  type Hash = (nat, nat) -> nat

  // ----- One cell

  function Raise(c: Cell): Cell {
    if c.count == CELL_MAX then c.(extra := Some(if c.extra.None? then 1 else (c.extra.value + 1) % OVERFLOW))
    else c.(count := c.count + 1)
  }

  predicate CanLower(c: Cell) {
    c.extra.Some? || c.count > 0
  }

  function Lower(c: Cell): Cell
    requires CanLower(c)
  {
    if c.extra.Some? then
      var n := (c.extra.value + OVERFLOW - 1) % OVERFLOW;
      c.(extra := if n == 0 then None else Some(n))
    else c.(count := c.count - 1)
  }

  function Total(c: Cell): nat {
    c.count + if c.extra.Some? then c.extra.value else 0
  }

  /** The cell stands for `load` references; it overflows only past 15. */
  predicate Holds(c: Cell, load: nat) {
    load <= LIMIT && c == if load <= CELL_MAX then Cell(load, None) else Cell(CELL_MAX, Some(load - CELL_MAX))
  }

  lemma RaiseHolds(c: Cell, load: nat)
    requires Holds(c, load)
    ensures Holds(Raise(c), load + 1) <==> load < LIMIT
    ensures load == LIMIT ==> Total(Raise(c)) == CELL_MAX
  {
  }

  lemma LowerHolds(c: Cell, load: nat)
    requires Holds(c, load) && load > 0
    ensures CanLower(c) && Holds(Lower(c), load - 1)
  {
  }

  // ----- The sketch

  /** The cell of `key` in a row. */
  function Place(h: Hash, width: nat, row: nat, key: nat): nat
    requires width > 0
  {
    SlotAt(row, width) + h(row, key) % width
  }

  predicate Hits(h: Hash, width: nat, key: nat, cell: nat)
    requires width > 0
  {
    h(cell / width, key) % width == cell % width
  }

  /** How many of the keys hash to `cell` in its row. */
  function Load(h: Hash, width: nat, q: seq<nat>, cell: nat): nat
    requires width > 0
  {
    if q == [] then 0 else (if Hits(h, width, q[0], cell) then 1 else 0) + Load(h, width, q[1..], cell)
  }

  function RaiseRows(h: Hash, width: nat, cells: seq<Cell>, key: nat, row: nat): (r: seq<Cell>)
    requires width > 0 && row <= ROWS && |cells| == SlotAt(ROWS, width)
    ensures |r| == |cells|
    decreases ROWS - row, key
  {
    if row == ROWS then cells
    else
      PlaceInside(h, width, row, key);
      var p := Place(h, width, row, key);
      RaiseRows(h, width, cells[p := Raise(cells[p])], key, row + 1)
  }

  function Reference(h: Hash, width: nat, cells: seq<Cell>, key: nat): seq<Cell>
    requires width > 0 && |cells| == SlotAt(ROWS, width)
  {
    RaiseRows(h, width, cells, key, 0)
  }

  /** Lowering a cell that holds nothing is left undefined. */
  predicate CanLowerFrom(h: Hash, width: nat, cells: seq<Cell>, key: nat, row: nat) {
    width > 0 && |cells| == SlotAt(ROWS, width)
    && forall p :: SlotAt(row, width) <= p < |cells| && Hits(h, width, key, p) ==> CanLower(cells[p])
  }

  predicate CanLowerRows(h: Hash, width: nat, cells: seq<Cell>, key: nat) {
    CanLowerFrom(h, width, cells, key, 0)
  }

  function LowerRows(h: Hash, width: nat, cells: seq<Cell>, key: nat, row: nat): (r: seq<Cell>)
    requires row <= ROWS && CanLowerFrom(h, width, cells, key, row)
    ensures |r| == |cells|
    decreases ROWS - row, key
  {
    if row == ROWS then cells
    else
      PlaceInside(h, width, row, key);
      var p := Place(h, width, row, key);
      LowerRows(h, width, cells[p := Lower(cells[p])], key, row + 1)
  }

  function Dereference(h: Hash, width: nat, cells: seq<Cell>, key: nat): seq<Cell>
    requires CanLowerRows(h, width, cells, key)
  {
    LowerRows(h, width, cells, key, 0)
  }

  /** The least of the key's cells from a row on. */
  function QueryRows(h: Hash, width: nat, cells: seq<Cell>, key: nat, row: nat): nat
    requires width > 0 && row < ROWS && |cells| == SlotAt(ROWS, width)
    decreases ROWS - row, key
  {
    PlaceInside(h, width, row, key);
    var n := Total(cells[Place(h, width, row, key)]);
    if row == ROWS - 1 then n
    else
      var m := QueryRows(h, width, cells, key, row + 1);
      if n < m then n else m
  }

  function Query(h: Hash, width: nat, cells: seq<Cell>, key: nat): nat
    requires width > 0 && |cells| == SlotAt(ROWS, width)
  {
    QueryRows(h, width, cells, key, 0)
  }

  lemma LowerStep(h: Hash, width: nat, cells: seq<Cell>, key: nat, row: nat, at: nat, cells': seq<Cell>)
    requires row < ROWS && CanLowerFrom(h, width, cells, key, row) && at == Place(h, width, row, key)
    ensures at < |cells| && CanLower(cells[at])
    ensures cells' == cells[at := Lower(cells[at])] ==>
              CanLowerFrom(h, width, cells', key, row + 1)
              && LowerRows(h, width, cells, key, row) == LowerRows(h, width, cells', key, row + 1)
  {
    PlaceInside(h, width, row, key);
  }

  /** The least of `n` and the key's cells from a row on. */
  function LeastFrom(h: Hash, width: nat, cells: seq<Cell>, key: nat, row: nat, n: nat): nat
    requires width > 0 && row <= ROWS && |cells| == SlotAt(ROWS, width)
  {
    if row == ROWS then n else (var m := QueryRows(h, width, cells, key, row); if n < m then n else m)
  }

  lemma LeastStep(h: Hash, width: nat, cells: seq<Cell>, key: nat, row: nat, n: nat)
    requires width > 0 && row < ROWS && |cells| == SlotAt(ROWS, width)
    ensures var at := Place(h, width, row, key);
            && at < |cells|
            && var m := Total(cells[at]);
            LeastFrom(h, width, cells, key, row, n) == LeastFrom(h, width, cells, key, row + 1, if m < n then m else n)
  {
    PlaceInside(h, width, row, key);
  }

  // ----- Rows do not meet

  lemma DivideRow(row: nat, width: nat, col: nat)
    requires col < width
    ensures (row * width + col) / width == row && (row * width + col) % width == col
  {
    var x := row * width + col;
    var k := x / width - row;
    assert k * width == col - x % width;
    Multiple(k, width);
  }

  lemma PlaceInside(h: Hash, width: nat, row: nat, key: nat)
    requires width > 0 && row < ROWS
    ensures SlotAt(row, width) <= Place(h, width, row, key) < SlotAt(row + 1, width) <= SlotAt(ROWS, width)
    ensures Place(h, width, row, key) / width == row && Hits(h, width, key, Place(h, width, row, key))
  {
    SlotAtIsProduct(row, width);
    DivideRow(row, width, h(row, key) % width);
    if row + 1 < ROWS { SlotAtIncreases(row + 1, ROWS, width); }
  }

  /** A key hits one cell of each row. */
  lemma HitIsPlace(h: Hash, width: nat, key: nat, cell: nat)
    requires width > 0 && Hits(h, width, key, cell)
    ensures cell == Place(h, width, cell / width, key)
  {
    SlotAtIsProduct(cell / width, width);
    assert cell == (cell / width) * width + cell % width;
  }

  lemma RowOf(width: nat, row: nat, cell: nat)
    requires width > 0
    ensures cell < SlotAt(row, width) <==> cell / width < row
  {
    var q := cell / width;
    QuotientBounds(cell, width);
    SlotAtIsProduct(q, width);
    if q < row { SlotAtMonotone(q + 1, row, width); } else { SlotAtMonotone(row, q, width); }
  }

  lemma HitInRow(h: Hash, width: nat, key: nat, row: nat, cell: nat)
    requires width > 0
    ensures Hits(h, width, key, cell) && SlotAt(row, width) <= cell < SlotAt(row + 1, width) ==>
              cell == Place(h, width, row, key)
  {
    RowOf(width, row, cell);
    RowOf(width, row + 1, cell);
    if Hits(h, width, key, cell) { HitIsPlace(h, width, key, cell); }
  }

  /** Raising the rows from `row` on raises just the cells the key hits there. */
  lemma {:induction false} RaisedCell(h: Hash, width: nat, cells: seq<Cell>, key: nat, row: nat, p: nat)
    requires width > 0 && row <= ROWS && p < |cells| == SlotAt(ROWS, width)
    ensures RaiseRows(h, width, cells, key, row)[p]
            == if Hits(h, width, key, p) && SlotAt(row, width) <= p then Raise(cells[p]) else cells[p]
    decreases ROWS - row
  {
    if row < ROWS {
      PlaceInside(h, width, row, key);
      var at := Place(h, width, row, key);
      RaisedCell(h, width, cells[at := Raise(cells[at])], key, row + 1, p);
      HitInRow(h, width, key, row, p);
    }
  }

  lemma {:induction false} LoweredCell(h: Hash, width: nat, cells: seq<Cell>, key: nat, row: nat, p: nat)
    requires row <= ROWS && CanLowerFrom(h, width, cells, key, row) && p < |cells|
    ensures Hits(h, width, key, p) && SlotAt(row, width) <= p ==> CanLower(cells[p])
    ensures LowerRows(h, width, cells, key, row)[p]
            == if Hits(h, width, key, p) && SlotAt(row, width) <= p then Lower(cells[p]) else cells[p]
    decreases ROWS - row
  {
    if row < ROWS {
      PlaceInside(h, width, row, key);
      var at := Place(h, width, row, key);
      LoweredCell(h, width, cells[at := Lower(cells[at])], key, row + 1, p);
      HitInRow(h, width, key, row, p);
    }
  }

  // ----- Exactness

  /** Every cell holds the number of outstanding references that hash to it. */
  ghost predicate SketchExact(h: Hash, width: nat, cells: seq<Cell>, q: seq<nat>) {
    && width > 0 && |cells| == SlotAt(ROWS, width)
    && forall p :: 0 <= p < |cells| ==> Holds(cells[p], Load(h, width, q, p))
  }

  /** No cell the key hits is full. */
  ghost predicate HasRoom(h: Hash, width: nat, q: seq<nat>, key: nat)
    requires width > 0
  {
    forall p :: 0 <= p < SlotAt(ROWS, width) && Hits(h, width, key, p) ==> Load(h, width, q, p) < LIMIT
  }

  lemma ReferenceCell(h: Hash, width: nat, cells: seq<Cell>, q: seq<nat>, key: nat, p: nat)
    requires width > 0 && p < |cells| == SlotAt(ROWS, width) && Holds(cells[p], Load(h, width, q, p))
    ensures Holds(Reference(h, width, cells, key)[p], Load(h, width, [key] + q, p))
            <==> !Hits(h, width, key, p) || Load(h, width, q, p) < LIMIT
  {
    assert ([key] + q)[1..] == q;
    ReferencedCell(h, width, cells, key, p);
    RaiseHolds(cells[p], Load(h, width, q, p));
  }

  /** A reference keeps the sketch exact just when none of its four cells is full. */
  lemma ReferenceExactIffRoom(h: Hash, width: nat, cells: seq<Cell>, q: seq<nat>, key: nat)
    requires SketchExact(h, width, cells, q)
    ensures SketchExact(h, width, Reference(h, width, cells, key), [key] + q) <==> HasRoom(h, width, q, key)
  {
    var r, q' := Reference(h, width, cells, key), [key] + q;
    forall p | 0 <= p < |cells|
      ensures Holds(r[p], Load(h, width, q', p)) <==> !Hits(h, width, key, p) || Load(h, width, q, p) < LIMIT
    {
      ReferenceCell(h, width, cells, q, key, p);
    }
  }

  lemma {:induction false} LoadErase(h: Hash, width: nat, q: seq<nat>, key: nat, cell: nat)
    requires width > 0 && key in q
    ensures Load(h, width, q, cell)
            == (if Hits(h, width, key, cell) then 1 else 0) + Load(h, width, Erase(q, key), cell)
  {
    if q[0] != key {
      LoadErase(h, width, q[1..], key, cell);
      assert Erase(q, key)[1..] == Erase(q[1..], key);
    }
  }

  lemma DereferencedCell(h: Hash, width: nat, cells: seq<Cell>, key: nat, p: nat)
    requires CanLowerRows(h, width, cells, key) && p < |cells|
    ensures Hits(h, width, key, p) ==> CanLower(cells[p]) && Dereference(h, width, cells, key)[p] == Lower(cells[p])
    ensures !Hits(h, width, key, p) ==> Dereference(h, width, cells, key)[p] == cells[p]
  {
    LoweredCell(h, width, cells, key, 0, p);
  }

  lemma ReferencedCell(h: Hash, width: nat, cells: seq<Cell>, key: nat, p: nat)
    requires width > 0 && p < |cells| == SlotAt(ROWS, width)
    ensures Reference(h, width, cells, key)[p] == if Hits(h, width, key, p) then Raise(cells[p]) else cells[p]
  {
    RaisedCell(h, width, cells, key, 0, p);
  }

  lemma DereferenceCell(h: Hash, width: nat, cells: seq<Cell>, q: seq<nat>, key: nat, p: nat)
    requires CanLowerRows(h, width, cells, key) && key in q
    requires p < |cells| && Holds(cells[p], Load(h, width, q, p))
    ensures Holds(Dereference(h, width, cells, key)[p], Load(h, width, Erase(q, key), p))
  {
    LoadErase(h, width, q, key, p);
    DereferencedCell(h, width, cells, key, p);
    if Hits(h, width, key, p) { LowerHolds(cells[p], Load(h, width, q, p)); }
  }

  lemma OutstandingCanLower(h: Hash, width: nat, cells: seq<Cell>, q: seq<nat>, key: nat)
    requires SketchExact(h, width, cells, q) && key in q
    ensures CanLowerRows(h, width, cells, key)
  {
    forall p | 0 <= p < |cells| && Hits(h, width, key, p) ensures CanLower(cells[p]) {
      LoadErase(h, width, q, key, p);
      LowerHolds(cells[p], Load(h, width, q, p));
    }
  }

  /** Taking back an outstanding reference always keeps the sketch exact. */
  lemma DereferenceExact(h: Hash, width: nat, cells: seq<Cell>, q: seq<nat>, key: nat)
    requires SketchExact(h, width, cells, q) && key in q
    ensures CanLowerRows(h, width, cells, key)
    ensures SketchExact(h, width, Dereference(h, width, cells, key), Erase(q, key))
  {
    OutstandingCanLower(h, width, cells, q, key);
    var r, q' := Dereference(h, width, cells, key), Erase(q, key);
    forall p | 0 <= p < |cells| ensures Holds(r[p], Load(h, width, q', p)) {
      DereferenceCell(h, width, cells, q, key, p);
    }
  }

  lemma {:induction false} LoadAtLeastCount(h: Hash, width: nat, q: seq<nat>, key: nat, cell: nat)
    requires width > 0 && Hits(h, width, key, cell)
    ensures Load(h, width, q, cell) >= multiset(q)[key]
  {
    if q != [] {
      assert q == [q[0]] + q[1..];
      LoadAtLeastCount(h, width, q[1..], key, cell);
    }
  }

  /** An exact sketch answers the least load of the key's cells. */
  lemma {:induction false} QueryIsLeastLoad(h: Hash, width: nat, cells: seq<Cell>, q: seq<nat>, key: nat, row: nat)
    returns (at: nat)
    requires SketchExact(h, width, cells, q) && row < ROWS
    ensures row <= at < ROWS
    ensures QueryRows(h, width, cells, key, row) == Load(h, width, q, Place(h, width, at, key))
    ensures forall r: nat :: row <= r < ROWS ==>
              QueryRows(h, width, cells, key, row) <= Load(h, width, q, Place(h, width, r, key))
    decreases ROWS - row
  {
    PlaceInside(h, width, row, key);
    var p := Place(h, width, row, key);
    assert Holds(cells[p], Load(h, width, q, p));
    if row == ROWS - 1 {
      at := row;
    } else {
      at := QueryIsLeastLoad(h, width, cells, q, key, row + 1);
      if Total(cells[p]) < QueryRows(h, width, cells, key, row + 1) { at := row; }
    }
  }

  /** The sketch never answers less than the exact count. */
  lemma QueryAtLeastCount(h: Hash, width: nat, cells: seq<Cell>, q: seq<nat>, key: nat)
    requires SketchExact(h, width, cells, q)
    ensures Query(h, width, cells, key) >= multiset(q)[key]
  {
    var at := QueryIsLeastLoad(h, width, cells, q, key, 0);
    PlaceInside(h, width, at, key);
    LoadAtLeastCount(h, width, q, key, Place(h, width, at, key));
  }

  lemma {:induction false} QueryOfEqualCells(h: Hash, width: nat, cells: seq<Cell>, key: nat, row: nat, n: nat)
    requires width > 0 && row < ROWS && |cells| == SlotAt(ROWS, width)
    requires forall p :: 0 <= p < |cells| && Hits(h, width, key, p) ==> Total(cells[p]) == n
    ensures QueryRows(h, width, cells, key, row) == n
    decreases ROWS - row
  {
    PlaceInside(h, width, row, key);
    if row < ROWS - 1 { QueryOfEqualCells(h, width, cells, key, row + 1, n); }
  }

  /** One reference more than a cell holds wraps its overflow entry: the sketch answers 15 for 65551 references. */
  lemma OverflowUndercounts(h: Hash, width: nat, cells: seq<Cell>, q: seq<nat>, key: nat)
    requires SketchExact(h, width, cells, q) && multiset(q)[key] == LIMIT
    ensures Query(h, width, Reference(h, width, cells, key), key) == CELL_MAX
    ensures CELL_MAX < LIMIT + 1 == multiset([key] + q)[key]
  {
    var r := Reference(h, width, cells, key);
    forall p | 0 <= p < |cells| && Hits(h, width, key, p) ensures Total(r[p]) == CELL_MAX {
      LoadAtLeastCount(h, width, q, key, p);
      ReferencedCell(h, width, cells, key, p);
      RaiseHolds(cells[p], Load(h, width, q, p));
    }
    QueryOfEqualCells(h, width, r, key, 0, CELL_MAX);
    assert multiset([key] + q) == multiset{key} + multiset(q);
  }

  // ----- The answer in terms of the keys

  /** The outstanding references to keys that the row's hash puts on the same cell as `key`. */
  function Colliding(h: Hash, width: nat, q: seq<nat>, row: nat, key: nat): seq<nat>
    requires width > 0
  {
    if q == [] then []
    else (if h(row, q[0]) % width == h(row, key) % width then [q[0]] else []) + Colliding(h, width, q[1..], row, key)
  }

  lemma {:induction false} LoadIsColliding(h: Hash, width: nat, q: seq<nat>, row: nat, key: nat)
    requires width > 0 && row < ROWS
    ensures Load(h, width, q, row * width + h(row, key) % width) == |Colliding(h, width, q, row, key)|
  {
    if q != [] {
      LoadIsColliding(h, width, q[1..], row, key);
      DivideRow(row, width, h(row, key) % width);
    }
  }

  /** An exact sketch answers the least number, over the four rows, of references that share the key's cell there. */
  lemma QueryIsLeastColliding(h: Hash, width: nat, cells: seq<Cell>, q: seq<nat>, key: nat) returns (at: nat)
    requires SketchExact(h, width, cells, q)
    ensures at < ROWS && Query(h, width, cells, key) == |Colliding(h, width, q, at, key)|
    ensures forall r: nat :: r < ROWS ==> Query(h, width, cells, key) <= |Colliding(h, width, q, r, key)|
  {
    at := QueryIsLeastLoad(h, width, cells, q, key, 0);
    forall r: nat | r < ROWS
      ensures Load(h, width, q, Place(h, width, r, key)) == |Colliding(h, width, q, r, key)|
    {
      LoadIsColliding(h, width, q, r, key);
      SlotAtIsProduct(r, width);
    }
  }

  // ----- Whole runs

  /** The references outstanding after a run of counter calls, most recent first. */
  function Pending(q: seq<nat>, es: seq<Event>): seq<nat>
    decreases |es|
  {
    if es == [] then q
    else Pending(if es[0].Reference? then [es[0].hash] + q else Erase(q, es[0].hash), es[1..])
  }

  /** Each dereference is of an outstanding reference, and no reference meets a full cell. */
  ghost predicate Balanced(h: Hash, width: nat, q: seq<nat>, es: seq<Event>)
    requires width > 0
    decreases |es|
  {
    es == []
    || if es[0].Reference? then HasRoom(h, width, q, es[0].hash) && Balanced(h, width, [es[0].hash] + q, es[1..])
       else es[0].hash in q && Balanced(h, width, Erase(q, es[0].hash), es[1..])
  }

  /** The sketch after a run; a call that cannot be made ends it. */
  function Calls(h: Hash, width: nat, cells: seq<Cell>, es: seq<Event>): (r: seq<Cell>)
    requires width > 0 && |cells| == SlotAt(ROWS, width)
    ensures |r| == |cells|
    decreases |es|
  {
    if es == [] then cells
    else if es[0].Reference? then Calls(h, width, Reference(h, width, cells, es[0].hash), es[1..])
    else if CanLowerRows(h, width, cells, es[0].hash) then
      Calls(h, width, Dereference(h, width, cells, es[0].hash), es[1..])
    else cells
  }

  lemma {:induction false} RunKeepsSketchExact(h: Hash, width: nat, cells: seq<Cell>, q: seq<nat>, es: seq<Event>)
    requires SketchExact(h, width, cells, q) && Balanced(h, width, q, es)
    ensures SketchExact(h, width, Calls(h, width, cells, es), Pending(q, es))
    decreases |es|
  {
    if es != [] {
      if es[0].Reference? {
        ReferenceExactIffRoom(h, width, cells, q, es[0].hash);
        RunKeepsSketchExact(h, width, Reference(h, width, cells, es[0].hash), [es[0].hash] + q, es[1..]);
      } else {
        DereferenceExact(h, width, cells, q, es[0].hash);
        RunKeepsSketchExact(h, width, Dereference(h, width, cells, es[0].hash), Erase(q, es[0].hash), es[1..]);
      }
    }
  }

  lemma {:induction false} EraseMultiset(q: seq<nat>, key: nat)
    requires key in q
    ensures multiset(Erase(q, key)) == multiset(q) - multiset{key}
  {
    assert q == [q[0]] + q[1..];
    if q[0] != key { EraseMultiset(q[1..], key); }
  }

  /** The same calls made on the exact counter leave the same references outstanding. */
  lemma {:induction false} PendingIsReplay(q: seq<nat>, es: seq<Event>)
    requires Replay(multiset(q), es).Some?
    ensures multiset(Pending(q, es)) == Replay(multiset(q), es).value
    decreases |es|
  {
    if es != [] {
      if es[0].Reference? {
        assert multiset([es[0].hash] + q) == multiset(q) + multiset{es[0].hash};
        PendingIsReplay([es[0].hash] + q, es[1..]);
      } else {
        EraseMultiset(q, es[0].hash);
        PendingIsReplay(Erase(q, es[0].hash), es[1..]);
      }
    }
  }

  function Clear(width: nat): seq<Cell> {
    seq(SlotAt(ROWS, width), _ => Cell(0, None))
  }

  /** Over any balanced run from the cleared sketch, every answer is at least the exact counter's. */
  lemma SketchNeverBelowCounter(h: Hash, width: nat, es: seq<Event>, key: nat)
    requires width > 0 && Balanced(h, width, [], es) && Replay(multiset{}, es).Some?
    ensures Query(h, width, Calls(h, width, Clear(width), es), key) >= Replay(multiset{}, es).value[key]
  {
    var empty: seq<nat> := [];
    assert multiset(empty) == multiset{};
    RunKeepsSketchExact(h, width, Clear(width), empty, es);
    PendingIsReplay(empty, es);
    QueryAtLeastCount(h, width, Calls(h, width, Clear(width), es), Pending(empty, es), key);
  }

  /** No reference of the run meets a full cell. */
  ghost predicate RoomFor(h: Hash, width: nat, q: seq<nat>, es: seq<Event>)
    requires width > 0
    decreases |es|
  {
    es != [] ==>
      if es[0].Reference? then HasRoom(h, width, q, es[0].hash) && RoomFor(h, width, [es[0].hash] + q, es[1..])
      else RoomFor(h, width, Erase(q, es[0].hash), es[1..])
  }

  /** Calls that the exact counter can make are balanced as long as there is room. */
  lemma {:induction false} ReplayBalanced(h: Hash, width: nat, q: seq<nat>, es: seq<Event>)
    requires width > 0 && RoomFor(h, width, q, es) && Replay(multiset(q), es).Some?
    ensures Balanced(h, width, q, es)
    decreases |es|
  {
    if es != [] {
      if es[0].Reference? {
        assert multiset([es[0].hash] + q) == multiset(q) + multiset{es[0].hash};
        ReplayBalanced(h, width, [es[0].hash] + q, es[1..]);
      } else {
        EraseMultiset(q, es[0].hash);
        ReplayBalanced(h, width, Erase(q, es[0].hash), es[1..]);
      }
    }
  }

  /** Over any run of calls that the exact counter can make, while there is room, no answer is below its. */
  lemma RoomyNeverBelowCounter(h: Hash, width: nat, es: seq<Event>, key: nat)
    requires width > 0 && RoomFor(h, width, [], es) && Replay(multiset{}, es).Some?
    ensures Query(h, width, Calls(h, width, Clear(width), es), key) >= Replay(multiset{}, es).value[key]
  {
    var empty: seq<nat> := [];
    assert multiset(empty) == multiset{};
    ReplayBalanced(h, width, empty, es);
    SketchNeverBelowCounter(h, width, es, key);
  }

  // ----- A run that overflows

  function Repeat(key: nat, n: nat): seq<Event> {
    if n == 0 then [] else [LbaTable.Reference(key)] + Repeat(key, n - 1)
  }

  lemma {:induction false} LoadAtMostLength(h: Hash, width: nat, q: seq<nat>, cell: nat)
    requires width > 0
    ensures Load(h, width, q, cell) <= |q|
  {
    if q != [] { LoadAtMostLength(h, width, q[1..], cell); }
  }

  lemma {:induction false} RepeatBalanced(h: Hash, width: nat, q: seq<nat>, key: nat, n: nat)
    requires width > 0 && |q| + n <= LIMIT
    ensures Balanced(h, width, q, Repeat(key, n))
    ensures multiset(Pending(q, Repeat(key, n)))[key] == multiset(q)[key] + n
    decreases n
  {
    if n > 0 {
      forall cell | Hits(h, width, key, cell) ensures Load(h, width, q, cell) < LIMIT {
        LoadAtMostLength(h, width, q, cell);
      }
      RepeatBalanced(h, width, [key] + q, key, n - 1);
      assert Repeat(key, n)[1..] == Repeat(key, n - 1);
      assert multiset([key] + q) == multiset{key} + multiset(q);
    }
  }

  lemma {:induction false} RepeatOneMore(h: Hash, width: nat, cells: seq<Cell>, key: nat, n: nat)
    requires width > 0 && |cells| == SlotAt(ROWS, width)
    ensures Calls(h, width, cells, Repeat(key, n + 1))
            == Reference(h, width, Calls(h, width, cells, Repeat(key, n)), key)
    decreases n
  {
    assert Repeat(key, n + 1)[1..] == Repeat(key, n);
    if n == 0 {
      assert Calls(h, width, Reference(h, width, cells, key), []) == Reference(h, width, cells, key);
    } else {
      assert Repeat(key, n)[1..] == Repeat(key, n - 1);
      RepeatOneMore(h, width, Reference(h, width, cells, key), key, n - 1);
    }
  }

  /** From the cleared sketch, 65551 references of one key are answered as 15. */
  lemma RepeatedUndercounts(h: Hash, width: nat, key: nat, n: nat)
    requires width > 0 && n == LIMIT
    ensures Query(h, width, Calls(h, width, Clear(width), Repeat(key, n + 1)), key) == CELL_MAX < n + 1
  {
    var empty: seq<nat> := [];
    RepeatBalanced(h, width, empty, key, n);
    RunKeepsSketchExact(h, width, Clear(width), empty, Repeat(key, n));
    OverflowUndercounts(h, width, Calls(h, width, Clear(width), Repeat(key, n)), Pending(empty, Repeat(key, n)), key);
    RepeatOneMore(h, width, Clear(width), key, n);
  }
}
