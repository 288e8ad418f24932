/**
 * The uniform-grid neighbour index of the particle simulation. Items are kept
 * in buckets keyed by integer grid cell; a query collects, in a fixed order of
 * offsets, the buckets of the cells around the query cell. The hash table
 * that stores the buckets is modelled as a map, since the hash only chooses
 * where a bucket lives.
 */
module SpatialIndex {

  /** An integer grid cell (or an offset between cells). */
  datatype Cell = Cell(x: int, y: int, z: int)

  function Add(a: Cell, b: Cell): Cell {
    Cell(a.x + b.x, a.y + b.y, a.z + b.z)
  }

  function Sub(a: Cell, b: Cell): Cell {
    Cell(a.x - b.x, a.y - b.y, a.z - b.z)
  }

  const Origin: Cell := Cell(0, 0, 0)

  /** A point of space. */
  datatype Vec3 = Vec3(x: real, y: real, z: real)

  /** The cell of a point: each coordinate scaled by the inverse cell size and rounded down. */
  function Discretize(p: Vec3, invCellSize: real): Cell {
    Cell(CellOf(p.x, invCellSize), CellOf(p.y, invCellSize), CellOf(p.z, invCellSize))
  }

  /** The cell coordinate of one coordinate: scaled, then rounded down. */
  function CellOf(v: real, invCellSize: real): int {
    (v * invCellSize).Floor
  }

  // ---------------------------------------------------------------------------
  // Neighbour offsets

  /** The offsets of the neighbourhood: one step or none on each axis, and none on z in 2D mode. */
  predicate InNeighborhood(o: Cell, twoD: bool) {
    && -1 <= o.x <= 1 && -1 <= o.y <= 1
    && (if twoD then o.z == 0 else -1 <= o.z <= 1)
  }

  function OffsetCount(twoD: bool): nat {
    if twoD then 9 else 27
  }

  /** The n-th offset of the nested loops over x, then y, then z, each from -1 to 1. */
  function OffsetAt(twoD: bool, n: nat): Cell {
    if twoD then Cell(n / 3 - 1, n % 3 - 1, 0)
    else Cell(n / 9 - 1, (n / 3) % 3 - 1, n % 3 - 1)
  }

  /** The position of an offset in that order. */
  function OffsetIndex(twoD: bool, o: Cell): int {
    if twoD then 3 * (o.x + 1) + (o.y + 1)
    else 9 * (o.x + 1) + 3 * (o.y + 1) + (o.z + 1)
  }

  /** Each position names a neighbourhood offset, and its position is recovered from it. */
  lemma OffsetAtInverse(twoD: bool, n: nat)
    requires n < OffsetCount(twoD)
    ensures InNeighborhood(OffsetAt(twoD, n), twoD)
    ensures OffsetIndex(twoD, OffsetAt(twoD, n)) == n
  {
  }

  /** Each neighbourhood offset has a position, at which it is found. */
  lemma OffsetIndexInverse(twoD: bool, o: Cell)
    requires InNeighborhood(o, twoD)
    ensures 0 <= OffsetIndex(twoD, o) < OffsetCount(twoD)
    ensures OffsetAt(twoD, OffsetIndex(twoD, o)) == o
  {
  }

  /**
   * The offsets are built by nested loops, as the index constructor does. The
   * result lists every neighbourhood offset exactly once, the zero offset
   * among them.
   */
  method BuildOffsets(twoD: bool) returns (offsets: seq<Cell>)
    ensures |offsets| == OffsetCount(twoD)
    ensures forall n :: 0 <= n < |offsets| ==> offsets[n] == OffsetAt(twoD, n)
    ensures forall a, b :: 0 <= a < b < |offsets| ==> offsets[a] != offsets[b]
    ensures forall o :: o in offsets <==> InNeighborhood(o, twoD)
    ensures Origin in offsets
  {
    offsets := [];
    var i := -1;
    while i <= 1
      invariant -1 <= i <= 2
      invariant |offsets| == (i + 1) * (if twoD then 3 else 9)
      invariant forall n :: 0 <= n < |offsets| ==> offsets[n] == OffsetAt(twoD, n)
    {
      var j := -1;
      while j <= 1
        invariant -1 <= j <= 2
        invariant |offsets| == (i + 1) * (if twoD then 3 else 9) + (j + 1) * (if twoD then 1 else 3)
        invariant forall n :: 0 <= n < |offsets| ==> offsets[n] == OffsetAt(twoD, n)
      {
        if twoD {
          OffsetAtInverse(twoD, |offsets|);
          OffsetIndexInverse(twoD, Cell(i, j, 0));
          offsets := offsets + [Cell(i, j, 0)];
        } else {
          var k := -1;
          while k <= 1
            invariant -1 <= k <= 2
            invariant |offsets| == (i + 1) * 9 + (j + 1) * 3 + (k + 1)
            invariant forall n :: 0 <= n < |offsets| ==> offsets[n] == OffsetAt(twoD, n)
          {
            OffsetIndexInverse(twoD, Cell(i, j, k));
            offsets := offsets + [Cell(i, j, k)];
            k := k + 1;
          }
        }
        j := j + 1;
      }
      i := i + 1;
    }
    OffsetsCharacterized(twoD, offsets);
  }

  /** A table of the offsets in loop order lists the neighbourhood, each offset once. */
  lemma OffsetsCharacterized(twoD: bool, offsets: seq<Cell>)
    requires |offsets| == OffsetCount(twoD)
    requires forall n :: 0 <= n < |offsets| ==> offsets[n] == OffsetAt(twoD, n)
    ensures forall a, b :: 0 <= a < b < |offsets| ==> offsets[a] != offsets[b]
    ensures forall o :: o in offsets <==> InNeighborhood(o, twoD)
    ensures Origin in offsets
  {
    forall a, b | 0 <= a < b < |offsets|
      ensures offsets[a] != offsets[b]
    {
      OffsetAtInverse(twoD, a);
      OffsetAtInverse(twoD, b);
    }
    forall o
      ensures o in offsets <==> InNeighborhood(o, twoD)
    {
      if o in offsets {
        var n :| 0 <= n < |offsets| && offsets[n] == o;
        OffsetAtInverse(twoD, n);
      }
      if InNeighborhood(o, twoD) {
        OffsetIndexInverse(twoD, o);
        assert offsets[OffsetIndex(twoD, o)] == o;
      }
    }
    assert InNeighborhood(Origin, twoD);
  }

  // ---------------------------------------------------------------------------
  // The index

  /** The buckets by cell, the offsets a query visits, and the inverse of the cell size. */
  datatype Index<T> = Index(buckets: map<Cell, seq<T>>, offsets: seq<Cell>, invCellSize: real)

  /** The bucket of a cell; a cell without an entry holds nothing. */
  function Bucket<T>(m: map<Cell, seq<T>>, c: Cell): seq<T> {
    if c in m then m[c] else []
  }

  /** A new index has no buckets, the offsets of its mode and the inverse of its cell size. */
  method NewIndex<T>(cellSize: real, twoD: bool) returns (idx: Index<T>)
    requires cellSize != 0.0
    ensures idx.buckets == map[]
    ensures idx.invCellSize * cellSize == 1.0
    ensures forall o :: o in idx.offsets <==> InNeighborhood(o, twoD)
    ensures forall a, b :: 0 <= a < b < |idx.offsets| ==> idx.offsets[a] != idx.offsets[b]
    ensures |idx.offsets| == OffsetCount(twoD)
    ensures forall n :: 0 <= n < |idx.offsets| ==> idx.offsets[n] == OffsetAt(twoD, n)
  {
    var offsets := BuildOffsets(twoD);
    idx := Index(map[], offsets, 1.0 / cellSize);
  }

  /**
   * Insertion appends the item to the bucket of the cell of its position and
   * touches no other bucket.
   */
  function Insert<T>(idx: Index<T>, pos: Vec3, item: T): (r: Index<T>)
    ensures r.offsets == idx.offsets && r.invCellSize == idx.invCellSize
    ensures var c := Discretize(pos, idx.invCellSize);
      Bucket(r.buckets, c) == Bucket(idx.buckets, c) + [item]
    ensures forall d :: d != Discretize(pos, idx.invCellSize) ==> Bucket(r.buckets, d) == Bucket(idx.buckets, d)
  {
    var c := Discretize(pos, idx.invCellSize);
    idx.(buckets := idx.buckets[c := Bucket(idx.buckets, c) + [item]])
  }

  /** Emptying the index drops every bucket and keeps the offsets and cell size. */
  function Clear<T>(idx: Index<T>): (r: Index<T>)
    ensures r.offsets == idx.offsets && r.invCellSize == idx.invCellSize
    ensures forall d :: Bucket(r.buckets, d) == []
  {
    idx.(buckets := map[])
  }

  /** The buckets of the cells `q + o` for the offsets `o`, concatenated in offset order. */
  function Gather<T>(m: map<Cell, seq<T>>, q: Cell, offsets: seq<Cell>): seq<T> {
    if |offsets| == 0 then []
    else Gather(m, q, offsets[..|offsets| - 1]) + Bucket(m, Add(q, offsets[|offsets| - 1]))
  }

  /**
   * The neighbour query: it appends to `ret` the bucket of every cell around
   * the cell of `pos`, in offset order, skipping cells without a bucket.
   */
  method Neighbors<T>(idx: Index<T>, pos: Vec3, ret: seq<T>) returns (out: seq<T>)
    ensures out == ret + Gather(idx.buckets, Discretize(pos, idx.invCellSize), idx.offsets)
    ensures |out| >= |ret| && out[..|ret|] == ret
  {
    var q := Discretize(pos, idx.invCellSize);
    out := ret;
    var k := 0;
    while k < |idx.offsets|
      invariant 0 <= k <= |idx.offsets|
      invariant out == ret + Gather(idx.buckets, q, idx.offsets[..k])
    {
      var c := Add(q, idx.offsets[k]);
      if c in idx.buckets {
        out := out + idx.buckets[c];
      }
      assert idx.offsets[..k + 1][..k] == idx.offsets[..k];
      k := k + 1;
    }
    assert idx.offsets[..k] == idx.offsets;
  }

  /** After `Clear` a query appends nothing. */
  lemma {:induction false} GatherCleared<T>(q: Cell, offsets: seq<Cell>)
    ensures Gather<T>(map[], q, offsets) == []
  {
    if |offsets| > 0 {
      GatherCleared<T>(q, offsets[..|offsets| - 1]);
    }
  }

  // ---------------------------------------------------------------------------
  // Building from entries

  /** An item and the position it was inserted at. */
  datatype Entry<T> = Entry(pos: Vec3, item: T)

  /** Inserting the entries in order into an index. */
  function InsertAll<T>(idx: Index<T>, entries: seq<Entry<T>>): Index<T> {
    if |entries| == 0 then idx
    else
      var last := entries[|entries| - 1];
      Insert(InsertAll(idx, entries[..|entries| - 1]), last.pos, last.item)
  }

  /** The items of the entries whose position lies in cell `c`, in entry order. */
  function ItemsAt<T>(entries: seq<Entry<T>>, c: Cell, inv: real): seq<T> {
    if |entries| == 0 then []
    else
      var last := entries[|entries| - 1];
      ItemsAt(entries[..|entries| - 1], c, inv) + (if Discretize(last.pos, inv) == c then [last.item] else [])
  }

  /** After clearing and inserting the entries, each bucket holds its cell's items in insertion order. */
  lemma {:induction false} BucketsAfterInsertAll<T>(idx: Index<T>, entries: seq<Entry<T>>, c: Cell)
    ensures Bucket(InsertAll(Clear(idx), entries).buckets, c) == ItemsAt(entries, c, idx.invCellSize)
    ensures InsertAll(Clear(idx), entries).offsets == idx.offsets
    ensures InsertAll(Clear(idx), entries).invCellSize == idx.invCellSize
  {
    if |entries| > 0 {
      BucketsAfterInsertAll(idx, entries[..|entries| - 1], c);
    }
  }

  /** No item is entered twice. */
  predicate DistinctItems<T(==)>(entries: seq<Entry<T>>) {
    forall a, b :: 0 <= a < b < |entries| ==> entries[a].item != entries[b].item
  }

  /** With distinct items, a bucket holds an entered item once if it was entered at that cell, else not at all. */
  lemma {:induction false} ItemsAtCount<T>(entries: seq<Entry<T>>, i: nat, c: Cell, inv: real)
    requires DistinctItems(entries) && i < |entries|
    ensures multiset(ItemsAt(entries, c, inv))[entries[i].item]
      == if Discretize(entries[i].pos, inv) == c then 1 else 0
  {
    var n := |entries|;
    var init := entries[..n - 1];
    var last := entries[n - 1];
    if i == n - 1 {
      ItemsAtMissing(init, last.item, c, inv);
    } else {
      assert init[i] == entries[i];
      assert DistinctItems(init);
      ItemsAtCount(init, i, c, inv);
      assert last.item != entries[i].item;
    }
  }

  /** An item never entered is in no bucket. */
  lemma {:induction false} ItemsAtMissing<T>(entries: seq<Entry<T>>, t: T, c: Cell, inv: real)
    requires forall k :: 0 <= k < |entries| ==> entries[k].item != t
    ensures multiset(ItemsAt(entries, c, inv))[t] == 0
  {
    if |entries| > 0 {
      var init := entries[..|entries| - 1];
      assert forall k :: 0 <= k < |init| ==> init[k] == entries[k];
      ItemsAtMissing(init, t, c, inv);
    }
  }

  // ---------------------------------------------------------------------------
  // Locality

  /** Distinct offsets. */
  predicate DistinctCells(s: seq<Cell>) {
    forall a, b :: 0 <= a < b < |s| ==> s[a] != s[b]
  }

  /**
   * An item that sits once in the bucket of `c` and in no other bucket is
   * gathered once when `c` is one of the visited cells, and never otherwise.
   */
  lemma {:induction false} GatherCount<T>(m: map<Cell, seq<T>>, q: Cell, offsets: seq<Cell>, t: T, c: Cell)
    requires DistinctCells(offsets)
    requires multiset(Bucket(m, c))[t] == 1
    requires forall d :: d != c ==> multiset(Bucket(m, d))[t] == 0
    ensures multiset(Gather(m, q, offsets))[t] == if Sub(c, q) in offsets then 1 else 0
  {
    if |offsets| > 0 {
      var init := offsets[..|offsets| - 1];
      var o := offsets[|offsets| - 1];
      assert DistinctCells(init);
      GatherCount(m, q, init, t, c);
      assert Add(q, o) == c <==> o == Sub(c, q);
      assert Sub(c, q) in offsets <==> Sub(c, q) in init || Sub(c, q) == o;
      if Sub(c, q) in init {
        assert o != Sub(c, q);
      }
    }
  }

  /** An item in no bucket is never gathered. */
  lemma {:induction false} GatherMissing<T>(m: map<Cell, seq<T>>, q: Cell, offsets: seq<Cell>, t: T)
    requires forall d :: multiset(Bucket(m, d))[t] == 0
    ensures multiset(Gather(m, q, offsets))[t] == 0
  {
    if |offsets| > 0 {
      GatherMissing(m, q, offsets[..|offsets| - 1], t);
    }
  }

  /**
   * Locality: after clearing and inserting entries with distinct items, a query
   * at position `p` returns an entered item exactly once when the item's cell
   * is in the neighbourhood of the cell of `p`, and not at all otherwise.
   */
  lemma QueryFindsNeighbors<T>(idx: Index<T>, twoD: bool, entries: seq<Entry<T>>, i: nat, t: T, p: Vec3)
    requires DistinctCells(idx.offsets)
    requires forall o :: o in idx.offsets <==> InNeighborhood(o, twoD)
    requires DistinctItems(entries) && i < |entries| && entries[i].item == t
    ensures var built := InsertAll(Clear(idx), entries);
      var q := Discretize(p, idx.invCellSize);
      multiset(Gather(built.buckets, q, built.offsets))[t]
        == if InNeighborhood(Sub(Discretize(entries[i].pos, idx.invCellSize), q), twoD) then 1 else 0
  {
    var built := InsertAll(Clear(idx), entries);
    var inv := idx.invCellSize;
    var c := Discretize(entries[i].pos, inv);
    BucketsAfterInsertAll(idx, entries, c);
    ItemsAtCount(entries, i, c, inv);
    forall d | d != c
      ensures multiset(Bucket(built.buckets, d))[entries[i].item] == 0
    {
      BucketsAfterInsertAll(idx, entries, d);
      ItemsAtCount(entries, i, d, inv);
    }
    GatherCount(built.buckets, Discretize(p, inv), idx.offsets, entries[i].item, c);
  }

  /** The same query never returns an item that was not entered. */
  lemma QueryOnlyEntered<T>(idx: Index<T>, entries: seq<Entry<T>>, t: T, p: Vec3)
    requires forall k :: 0 <= k < |entries| ==> entries[k].item != t
    ensures var built := InsertAll(Clear(idx), entries);
      multiset(Gather(built.buckets, Discretize(p, idx.invCellSize), built.offsets))[t] == 0
  {
    var built := InsertAll(Clear(idx), entries);
    forall d
      ensures multiset(Bucket(built.buckets, d))[t] == 0
    {
      BucketsAfterInsertAll(idx, entries, d);
      ItemsAtMissing(entries, t, d, idx.invCellSize);
    }
    GatherMissing(built.buckets, Discretize(p, idx.invCellSize), built.offsets, t);
  }

  // ---------------------------------------------------------------------------
  // Discretization

  /** `inv` is the inverse of the cell size `h`. */
  predicate InverseSize(h: real, inv: real) {
    h > 0.0 && h * inv == 1.0
  }

  /**
   * Two coordinates less than a cell size apart fall into the same cell or
   * adjacent cells.
   */
  lemma FloorLocality(a: real, b: real, h: real, inv: real)
    requires InverseSize(h, inv)
    requires -h < a - b < h
    ensures -1 <= CellOf(a, inv) - CellOf(b, inv) <= 1
  {
    ScaledBelowOne(a - b, h, inv);
    var u, v := a * inv, b * inv;
    assert u - v == (a - b) * inv;
    assert u.Floor as real <= u < u.Floor as real + 1.0;
    assert v.Floor as real <= v < v.Floor as real + 1.0;
  }

  lemma ScaledBelowOne(d: real, h: real, inv: real)
    requires InverseSize(h, inv)
    requires -h < d < h
    ensures -1.0 < d * inv < 1.0
  {
    PositiveInverse(h, inv);
    PositiveProduct(h - d, inv);
    PositiveProduct(h + d, inv);
    assert 0.0 < (h - d) * inv == h * inv - d * inv;
    assert 0.0 < (h + d) * inv == h * inv + d * inv;
    WithinUnit(d * inv, h * inv);
  }

  lemma WithinUnit(x: real, y: real)
    requires y == 1.0 && 0.0 < y - x && 0.0 < y + x
    ensures -1.0 < x < 1.0
  {
  }

  lemma PositiveInverse(h: real, inv: real)
    requires InverseSize(h, inv)
    ensures inv > 0.0
  {
    if inv <= 0.0 {
      NonPositiveProduct(h, inv);
    }
  }

  lemma PositiveProduct(a: real, b: real)
    requires a > 0.0 && b > 0.0
    ensures a * b > 0.0
  {
  }

  lemma NonPositiveProduct(a: real, b: real)
    requires a > 0.0 && b <= 0.0
    ensures a * b <= 0.0
  {
  }

  /**
   * Two points less than a cell size apart on every axis get cells in each
   * other's 3D neighbourhood.
   */
  lemma CloseCellsAreNeighbors(p: Vec3, q: Vec3, h: real, inv: real)
    requires InverseSize(h, inv)
    requires -h < p.x - q.x < h
    requires -h < p.y - q.y < h
    requires -h < p.z - q.z < h
    ensures InNeighborhood(Sub(Discretize(p, inv), Discretize(q, inv)), false)
  {
    FloorLocality(p.x, q.x, h, inv);
    FloorLocality(p.y, q.y, h, inv);
    FloorLocality(p.z, q.z, h, inv);
    AdjacentCells(Discretize(p, inv), Discretize(q, inv));
  }

  lemma AdjacentCells(a: Cell, b: Cell)
    requires -1 <= a.x - b.x <= 1 && -1 <= a.y - b.y <= 1 && -1 <= a.z - b.z <= 1
    ensures InNeighborhood(Sub(a, b), false)
  {
  }
}
