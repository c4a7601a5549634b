/** The sketch on its packed bytes, and the counter the buckets query: the sketch or the exact map. */
module SketchCounter {
  import opened Common
  import opened Bits
  import opened Bitmap
  import opened Sketch
  import opened ExactCounter

  /** Cell `c`: four bits of the bytes and its overflow entry. */
  function CellAt(bytes: seq<Byte>, mp: map<nat, nat>, c: nat): Cell {
    Cell(Field(bytes, 4 * c, 4 * c + 4), if c in mp then Some(mp[c]) else None)
  }

  function CellsOf(bytes: seq<Byte>, mp: map<nat, nat>, n: nat): seq<Cell> {
    seq(n, c requires 0 <= c => CellAt(bytes, mp, c))
  }

  lemma CountStored(bytes: seq<Byte>, bytes': seq<Byte>, mp: map<nat, nat>, n: nat, c: nat, v: nat)
    requires c < n && v <= CELL_MAX && Stored(bytes, bytes', 4 * c, 4 * c + 4, v)
    ensures var s := CellsOf(bytes, mp, n); CellsOf(bytes', mp, n) == s[c := s[c].(count := v)]
  {
    assert LowMask(4) == CELL_MAX;
    StoredField(bytes, bytes', 4 * c, 4 * c + 4, v);
    forall d: nat | d < n && d != c ensures CellAt(bytes', mp, d) == CellAt(bytes, mp, d) {
      StoredElsewhere(bytes, bytes', 4 * c, 4 * c + 4, v, 4 * d, 4 * d + 4);
    }
  }

  lemma CountFits(bytes: seq<Byte>, c: nat)
    ensures Field(bytes, 4 * c, 4 * c + 4) <= CELL_MAX
  {
    assert LowMask(4) == CELL_MAX;
    FieldFits(bytes, 4 * c, 4 * c + 4);
  }

  lemma StartLeast(h: Hash, width: nat, cells: seq<Cell>, key: nat)
    requires width > 0 && |cells| == SlotAt(ROWS, width)
    requires forall c :: 0 <= c < |cells| ==> Total(cells[c]) < 0x1_0000_0000
    ensures LeastFrom(h, width, cells, key, 0, 0xFFFF_FFFF) == Sketch.Query(h, width, cells, key)
  {
    PlaceInside(h, width, 0, key);
  }

  class SketchReferenceCounter {
    const width: nat
    const h: Hash
    const sketch: Manipulator
    var mp: map<nat, nat>

    /** The bytes reach one byte past the last cell, which reading that cell touches. */
    ghost predicate Valid() {
      width > 0 && sketch.start == 0 && 4 * SlotAt(ROWS, width) < 8 * sketch.data.Length
    }

    ghost function Cells(): (r: seq<Cell>)
      reads this, sketch.data
      ensures |r| == SlotAt(ROWS, width)
    {
      CellsOf(sketch.data[..], mp, SlotAt(ROWS, width))
    }

    constructor (width: nat, h: Hash, sketch: Manipulator)
      requires width > 0 && sketch.start == 0 && 4 * SlotAt(ROWS, width) < 8 * sketch.data.Length
      requires forall k :: 0 <= k < sketch.data.Length ==> sketch.data[k] == 0
      ensures Valid() && this.width == width && this.h == h && this.sketch == sketch && Cells() == Clear(width)
    {
      this.width, this.h, this.sketch, mp := width, h, sketch, map[];
      new;
      forall c: nat | c < SlotAt(ROWS, width) ensures CellAt(sketch.data[..], mp, c) == Cell(0, None) {
        forall i: nat ensures Bit(0, i) <==> 4 * c + i < 4 * c + 4 && BitAt(sketch.data[..], 4 * c + i) {
          ZeroBit(i);
          ZeroBit((4 * c + i) % 8);
        }
        FieldUnique(sketch.data[..], 4 * c, 4 * c + 4, 0);
      }
    }

    method Read(c: nat) returns (cell: Cell)
      requires Valid() && c < SlotAt(ROWS, width)
      ensures cell == Cells()[c]
    {
      var count := sketch.GetBits(4 * c, 4 * c + 4);
      cell := Cell(count, if c in mp then Some(mp[c]) else None);
    }

    /** The least of the four cells' totals, from the largest 32-bit number down. */
    method Query(key: nat) returns (n: nat)
      requires Valid() && forall c :: 0 <= c < |Cells()| ==> Total(Cells()[c]) < 0x1_0000_0000
      ensures n == Sketch.Query(h, width, Cells(), key)
    {
      ghost var cells := Cells();
      n := 0xFFFF_FFFF;
      StartLeast(h, width, cells, key);
      for i := 0 to ROWS
        invariant LeastFrom(h, width, cells, key, i, n) == Sketch.Query(h, width, cells, key)
      {
        SlotAtIsProduct(i, width);
        LeastStep(h, width, cells, key, i, n);
        var c := i * width + h(i, key) % width;
        var cell := Read(c);
        if Total(cell) < n { n := Total(cell); }
      }
    }

    method RaiseCell(c: nat)
      requires Valid() && c < SlotAt(ROWS, width)
      modifies `mp, sketch.data
      ensures Cells() == old(Cells())[c := Raise(old(Cells())[c])]
    {
      CountFits(sketch.data[..], c);
      var count := sketch.GetBits(4 * c, 4 * c + 4);
      if count == CELL_MAX {
        if c !in mp {
          mp := mp[c := 1];
        } else {
          mp := mp[c := (mp[c] + 1) % OVERFLOW];
        }
      } else {
        assert LowMask(4) == CELL_MAX;
        sketch.StoreBits(4 * c, 4 * c + 4, count + 1);
        CountStored(old(sketch.data[..]), sketch.data[..], mp, SlotAt(ROWS, width), c, count + 1);
      }
    }

    method LowerCell(c: nat)
      requires Valid() && c < SlotAt(ROWS, width) && CanLower(Cells()[c])
      modifies `mp, sketch.data
      ensures Cells() == old(Cells())[c := Lower(old(Cells())[c])]
    {
      if c in mp {
        mp := mp[c := (mp[c] + OVERFLOW - 1) % OVERFLOW];
        if mp[c] == 0 {
          mp := mp - {c};
        }
      } else {
        CountFits(sketch.data[..], c);
        var count := sketch.GetBits(4 * c, 4 * c + 4);
        assert LowMask(4) == CELL_MAX;
        sketch.StoreBits(4 * c, 4 * c + 4, count - 1);
        CountStored(old(sketch.data[..]), sketch.data[..], mp, SlotAt(ROWS, width), c, count - 1);
      }
    }

    method Reference(key: nat)
      requires Valid()
      modifies `mp, sketch.data
      ensures Cells() == Sketch.Reference(h, width, old(Cells()), key)
    {
      for i := 0 to ROWS
        invariant RaiseRows(h, width, Cells(), key, i) == Sketch.Reference(h, width, old(Cells()), key)
      {
        SlotAtIsProduct(i, width);
        PlaceInside(h, width, i, key);
        RaiseCell(i * width + h(i, key) % width);
      }
    }

    /** Every cell of the key must hold something, as it does for an outstanding reference. */
    method Dereference(key: nat)
      requires Valid() && CanLowerRows(h, width, Cells(), key)
      modifies `mp, sketch.data
      ensures Cells() == Sketch.Dereference(h, width, old(Cells()), key)
    {
      for i := 0 to ROWS
        invariant CanLowerFrom(h, width, Cells(), key, i)
        invariant LowerRows(h, width, Cells(), key, i) == Sketch.Dereference(h, width, old(Cells()), key)
      {
        LowerRow(key, i);
      }
    }

    method LowerRow(key: nat, i: nat)
      requires Valid() && i < ROWS && CanLowerFrom(h, width, Cells(), key, i)
      modifies `mp, sketch.data
      ensures CanLowerFrom(h, width, Cells(), key, i + 1)
      ensures LowerRows(h, width, Cells(), key, i + 1) == old(LowerRows(h, width, Cells(), key, i))
    {
      SlotAtIsProduct(i, width);
      var c := i * width + h(i, key) % width;
      ghost var cells := Cells();
      LowerStep(h, width, cells, key, i, c, []);
      LowerCell(c);
      LowerStep(h, width, cells, key, i, c, Cells());
    }
  }

  /** The count one of the two counters gives a key. */
  function CountIn(sketchEnabled: bool, h: Hash, width: nat, cells: seq<Cell>, outstanding: multiset<nat>,
                   key: nat): nat {
    if !sketchEnabled then outstanding[key]
    else if width > 0 && |cells| == SlotAt(ROWS, width) then Sketch.Query(h, width, cells, key)
    else 0
  }

  /** The counter the engine consults: the sketch or the exact map, as configured. */
  class ReferenceCounter {
    const sketchEnabled: bool
    const exact: MapReferenceCounter
    const sketch: SketchReferenceCounter

    constructor (sketchEnabled: bool, exact: MapReferenceCounter, sketch: SketchReferenceCounter)
      ensures this.sketchEnabled == sketchEnabled && this.exact == exact && this.sketch == sketch
    {
      this.sketchEnabled, this.exact, this.sketch := sketchEnabled, exact, sketch;
    }

    ghost predicate Valid()
      reads exact, sketch, sketch.sketch.data
    {
      exact.Valid() && SketchValid()
    }

    ghost predicate SketchValid()
      reads sketch, sketch.sketch.data
    {
      sketch.Valid() && forall c :: 0 <= c < |sketch.Cells()| ==> Total(sketch.Cells()[c]) < 0x1_0000_0000
    }

    ghost function Counts(): nat -> nat
      reads exact, sketch, sketch.sketch.data
    {
      var on, h, width, cells, outstanding := sketchEnabled, sketch.h, sketch.width, sketch.Cells(), exact.outstanding;
      (key: nat) => CountIn(on, h, width, cells, outstanding, key)
    }

    method Query(key: nat) returns (n: nat)
      requires Valid()
      ensures n == Counts()(key)
    {
      if sketchEnabled {
        n := sketch.Query(key);
      } else {
        n := exact.Query(key);
      }
    }
  }
}
