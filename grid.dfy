/** The inventory's sparse grid `_itemsGrid : cell -> Item` as a value, and
    the pure facts about placing, removing and scanning that the `Inventory`
    class is specified by. */
module Grids {
  import opened Wrappers
  import opened Vectors
  import opened Items
  import opened Int32
  import opened KeyOrder

  type Grid = map<Vec, Item>

  /** The four C# events, recorded in the order they fire. */
  datatype Event =
    | Added(item: Item, position: Vec)
    | Removed(item: Item, position: Vec)
    | Moved(item: Item, position: Vec)
    | Cleared

  /** The dictionary `_itemsGrid` — its lookup `grid` and the order of its
      entries `slots` — together with the events fired so far. */
  datatype State = State(grid: Grid, slots: Slots, events: seq<Event>)

  /** Keys lie inside the grid and the entry order holds exactly the keys. */
  ghost predicate StateValid(s: State, width: int, height: int) {
    InGrid(s.grid, width, height) && Wellformed(s.slots, s.grid.Keys)
  }

  // ---------------------------------------------------------------------
  // Footprints

  /** The cell at offset `(dx, dy)` from `anchor`. */
  function Cell(anchor: Vec, dx: int, dy: int): Vec {
    Vec(anchor.x + dx, anchor.y + dy)
  }

  /** `c` lies in the `size.x × size.y` block whose lowest corner is `anchor`. */
  predicate InFootprint(c: Vec, anchor: Vec, size: Vec) {
    anchor.x <= c.x < anchor.x + size.x && anchor.y <= c.y < anchor.y + size.y
  }

  /** The number of cells of a block; a block with a non-positive side has none. */
  function Area(size: Vec): nat {
    if size.x <= 0 || size.y <= 0 then 0 else size.x * size.y
  }

  predicate Sorted(s: seq<Vec>) {
    forall i, j :: 0 <= i < j < |s| ==> ScanBefore(s[i], s[j])
  }

  /** Column `x` from row `y0`, `n` cells upwards. */
  function Column(x: int, y0: int, n: nat): (r: seq<Vec>)
    ensures |r| == n
    ensures forall i :: 0 <= i < n ==> r[i] == Vec(x, y0 + i)
  {
    seq(n, i => Vec(x, y0 + i))
  }

  /** The cells of a block in the order the nested `for` loops of
      `CanAddItem` and `AddItem` visit them: `x` outer, `y` inner. */
  function Cells(anchor: Vec, size: Vec): (r: seq<Vec>)
    ensures |r| == Area(size)
    ensures forall c :: c in r <==> InFootprint(c, anchor, size)
    ensures Sorted(r)
    decreases size.x
  {
    if size.x <= 0 || size.y <= 0 then []
    else
      var front := Cells(anchor, Vec(size.x - 1, size.y));
      var last := Column(anchor.x + size.x - 1, anchor.y, size.y);
      CellsGrow(anchor, size, front, last);
      front + last
  }

  /** The block is the block one column narrower followed by its last
      column. */
  lemma CellsGrow(anchor: Vec, size: Vec, front: seq<Vec>, last: seq<Vec>)
    requires size.x > 0 && size.y > 0
    requires |front| == Area(Vec(size.x - 1, size.y)) && Sorted(front)
    requires forall c :: c in front <==> InFootprint(c, anchor, Vec(size.x - 1, size.y))
    requires last == Column(anchor.x + size.x - 1, anchor.y, size.y)
    ensures |front + last| == Area(size)
    ensures forall c :: c in front + last <==> InFootprint(c, anchor, size)
    ensures Sorted(front + last)
  {
    assert (size.x - 1) * size.y + size.y == size.x * size.y;
    ColumnMembers(anchor.x + size.x - 1, anchor.y, size.y);
    assert forall i, j :: 0 <= i < |front| && 0 <= j < |last| ==> ScanBefore(front[i], last[j]) by {
      forall i, j | 0 <= i < |front| && 0 <= j < |last| ensures ScanBefore(front[i], last[j]) {
        assert front[i] in front;
      }
    }
    ConcatSorted(front, last);
  }

  /** A column holds exactly the cells of its `x` between its rows. */
  lemma ColumnMembers(x: int, y0: int, n: nat)
    ensures forall c: Vec :: c in Column(x, y0, n) <==> c.x == x && y0 <= c.y < y0 + n
  {
    forall c: Vec | c.x == x && y0 <= c.y < y0 + n ensures c in Column(x, y0, n) {
      assert Column(x, y0, n)[c.y - y0] == c;
    }
  }

  lemma ConcatSorted(a: seq<Vec>, b: seq<Vec>)
    requires Sorted(a) && Sorted(b)
    requires forall i, j :: 0 <= i < |a| && 0 <= j < |b| ==> ScanBefore(a[i], b[j])
    ensures Sorted(a + b)
  {
  }

  /** The cells of the block, as a set. */
  function Footprint(anchor: Vec, size: Vec): (s: set<Vec>)
    ensures forall c :: c in s <==> InFootprint(c, anchor, size)
  {
    set x, y | anchor.x <= x < anchor.x + size.x && anchor.y <= y < anchor.y + size.y :: Vec(x, y)
  }

  /** A sorted sequence repeats no cell, so its set of cells is as large as
      the sequence is long. */
  lemma {:induction false} SortedSetSize(s: seq<Vec>)
    requires Sorted(s)
    ensures |SetOf(s)| == |s|
  {
    if s != [] {
      var init := s[..|s| - 1];
      assert Sorted(init);
      SortedSetSize(init);
      assert SetOf(s) == SetOf(init) + {s[|s| - 1]};
      assert s[|s| - 1] !in init by {
        forall i | 0 <= i < |init| ensures init[i] != s[|s| - 1] {
          assert ScanBefore(s[i], s[|s| - 1]);
        }
      }
    }
  }

  /** A sorted sequence repeats no cell. */
  lemma SortedNoDup(s: seq<Vec>)
    requires Sorted(s)
    ensures NoDup(s)
  {
    forall i, j | 0 <= i < j < |s| ensures s[i] != s[j] {
      assert ScanBefore(s[i], s[j]);
    }
  }

  /** A column's cells, visited bottom up, one more. */
  lemma ColumnCellsGrow(top: Vec, y: nat)
    ensures Column(top.x, top.y, y + 1) == Column(top.x, top.y, y) + [Vec(top.x, top.y + y)]
  {
  }

  /** The keys the inner loop of `AddItem` adds in column `x`: rows `y0` up
      to `y0 + n - 1`, bottom up. */
  function InsertColumnKeys(d: Slots, x: int, y0: int, n: nat): Slots {
    if n == 0 then d else Insert(InsertColumnKeys(d, x, y0, n - 1), Vec(x, y0 + n - 1))
  }

  /** The keys the outer loop of `AddItem` adds, column by column. */
  function InsertBlockKeys(d: Slots, anchor: Vec, size: Vec): Slots
    decreases size.x
  {
    if size.x <= 0 || size.y <= 0 then d
    else InsertColumnKeys(InsertBlockKeys(d, anchor, Vec(size.x - 1, size.y)), anchor.x + size.x - 1, anchor.y, size.y)
  }

  lemma {:induction false} InsertColumnIsInsertAll(d: Slots, x: int, y0: int, n: nat)
    ensures InsertColumnKeys(d, x, y0, n) == InsertAll(d, Column(x, y0, n))
  {
    if n > 0 {
      InsertColumnIsInsertAll(d, x, y0, n - 1);
      ColumnCellsGrow(Vec(x, y0), n - 1);
      InsertAllSnoc(d, Column(x, y0, n - 1), Vec(x, y0 + n - 1));
    } else {
      assert Column(x, y0, n) == [];
    }
  }

  /** The loops add the block's keys in the order of `Cells`. */
  lemma {:induction false} InsertBlockIsInsertAll(d: Slots, anchor: Vec, size: Vec)
    ensures InsertBlockKeys(d, anchor, size) == InsertAll(d, Cells(anchor, size))
    decreases size.x
  {
    if size.x > 0 && size.y > 0 {
      var front := Vec(size.x - 1, size.y);
      InsertBlockIsInsertAll(d, anchor, front);
      var column := Column(anchor.x + size.x - 1, anchor.y, size.y);
      InsertColumnIsInsertAll(InsertAll(d, Cells(anchor, front)), anchor.x + size.x - 1, anchor.y, size.y);
      InsertAllAppend(d, Cells(anchor, front), column);
    }
  }

  /** A block of positive sides covers `size.x * size.y` cells. */
  lemma FootprintSize(anchor: Vec, size: Vec)
    ensures |Footprint(anchor, size)| == Area(size)
  {
    var cells := Cells(anchor, size);
    SortedSetSize(cells);
    assert SetOf(cells) == Footprint(anchor, size);
  }

  // ---------------------------------------------------------------------
  // Bounds and fit

  /** Every key lies in `[0, width) × [0, height)`. */
  predicate InGrid(g: Grid, width: int, height: int) {
    forall c :: c in g ==> InFootprint(c, Zero, Vec(width, height))
  }

  /** The bounds test at the head of `CanAddItem`, passed. */
  predicate InBounds(anchor: Vec, size: Vec, width: int, height: int) {
    0 <= anchor.x && 0 <= anchor.y && anchor.x + size.x <= width && anchor.y + size.y <= height
  }

  /** `CanAddItem(item, anchor)` for an item of this size: the block is in
      bounds and none of its cells is a key of the grid, whoever holds it. */
  predicate Fits(g: Grid, width: int, height: int, size: Vec, anchor: Vec) {
    InBounds(anchor, size, width, height) && forall c :: c in g ==> !InFootprint(c, anchor, size)
  }

  /** Out of bounds never fits; in bounds, fitting is exactly "no cell
      `anchor + (dx, dy)` of the block is a key" (the loop's test). */
  lemma FitsCellwise(g: Grid, width: int, height: int, size: Vec, anchor: Vec)
    ensures !InBounds(anchor, size, width, height) ==> !Fits(g, width, height, size, anchor)
    ensures Fits(g, width, height, size, anchor) <==>
      InBounds(anchor, size, width, height) &&
      forall dx, dy :: 0 <= dx < size.x && 0 <= dy < size.y ==> Cell(anchor, dx, dy) !in g
  {
    if InBounds(anchor, size, width, height) &&
       forall dx, dy :: 0 <= dx < size.x && 0 <= dy < size.y ==> Cell(anchor, dx, dy) !in g
    {
      forall c | c in g ensures !InFootprint(c, anchor, size) {
        var dx, dy := c.x - anchor.x, c.y - anchor.y;
        assert Cell(anchor, dx, dy) == c;
      }
    }
  }

  /** A fitting block lies inside the grid: this is what the bounds test is
      for (compare `FitsAsWritten`). */
  lemma FitsStaysInside(g: Grid, width: int, height: int, size: Vec, anchor: Vec)
    requires Fits(g, width, height, size, anchor)
    ensures forall c :: InFootprint(c, anchor, size) ==> InFootprint(c, Zero, Vec(width, height))
  {
  }

  /** Freeing cells never stops a block from fitting. */
  lemma FitsAfterRemoval(g: Grid, g': Grid, width: int, height: int, size: Vec, anchor: Vec)
    requires g'.Keys <= g.Keys
    requires Fits(g, width, height, size, anchor)
    ensures Fits(g', width, height, size, anchor)
  {
  }

  // ---------------------------------------------------------------------
  // Placing and removing

  /** What the inner loop of `AddItem` writes in column `x`: rows `y0` up
      to `y0 + n - 1`, bottom up. */
  function PaintColumn(g: Grid, item: Item, x: int, y0: int, n: nat): Grid {
    if n == 0 then g else PaintColumn(g, item, x, y0, n - 1)[Vec(x, y0 + n - 1) := item]
  }

  /** What the outer loop of `AddItem` writes, column by column. */
  function PaintBlock(g: Grid, item: Item, anchor: Vec, size: Vec): Grid
    decreases size.x
  {
    if size.x <= 0 || size.y <= 0 then g
    else PaintColumn(PaintBlock(g, item, anchor, Vec(size.x - 1, size.y)), item, anchor.x + size.x - 1, anchor.y, size.y)
  }

  /** The grid `g` with `item` written on the block and nothing else
      changed. */
  ghost predicate Painted(r: Grid, g: Grid, item: Item, anchor: Vec, size: Vec) {
    (forall c :: c in r <==> c in g || InFootprint(c, anchor, size)) &&
    (forall c :: c in r ==> r[c] == if InFootprint(c, anchor, size) then item else g[c])
  }

  lemma {:induction false} PaintColumnSpec(g: Grid, item: Item, x: int, y0: int, n: nat)
    ensures Painted(PaintColumn(g, item, x, y0, n), g, item, Vec(x, y0), Vec(1, n))
  {
    if n > 0 {
      PaintColumnSpec(g, item, x, y0, n - 1);
    }
  }

  lemma {:induction false} PaintBlockSpec(g: Grid, item: Item, anchor: Vec, size: Vec)
    ensures Painted(PaintBlock(g, item, anchor, size), g, item, anchor, size)
    decreases size.x
  {
    if size.x > 0 && size.y > 0 {
      var front := Vec(size.x - 1, size.y);
      PaintBlockSpec(g, item, anchor, front);
      PaintColumnSpec(PaintBlock(g, item, anchor, front), item, anchor.x + size.x - 1, anchor.y, size.y);
    }
  }

  /** The loops write exactly the block. */
  lemma PaintBlockIsPlace(g: Grid, item: Item, anchor: Vec)
    ensures PaintBlock(g, item, anchor, item.size) == Place(g, item, anchor)
  {
    PaintBlockSpec(g, item, anchor, item.size);
    var r, p := PaintBlock(g, item, anchor, item.size), Place(g, item, anchor);
    assert r.Keys == p.Keys;
    forall c | c in r ensures r[c] == p[c] {
      if InFootprint(c, anchor, item.size) {
        assert c in Footprint(anchor, item.size);
      }
    }
  }

  /** The grid after `AddItem` has written `item` into every cell of its block. */
  function Place(g: Grid, item: Item, anchor: Vec): (r: Grid)
    ensures r.Keys == g.Keys + Footprint(anchor, item.size)
  {
    g + map c | c in Footprint(anchor, item.size) :: item
  }

  /** What a successful `AddItem(item, anchor)` promises: the block maps to
      `item`, every earlier key keeps its item (none is overwritten), the
      cell count grows by the block's area, and keys stay inside the grid. */
  lemma PlaceSpec(g: Grid, width: int, height: int, item: Item, anchor: Vec)
    requires Fits(g, width, height, item.size, anchor)
    ensures forall c :: InFootprint(c, anchor, item.size) ==> c in Place(g, item, anchor) && Place(g, item, anchor)[c] == item
    ensures forall c :: c in g ==> c in Place(g, item, anchor) && Place(g, item, anchor)[c] == g[c]
    ensures forall c :: c in Place(g, item, anchor) ==> c in g || InFootprint(c, anchor, item.size)
    ensures |Place(g, item, anchor)| == |g| + Area(item.size)
    ensures InGrid(g, width, height) ==> InGrid(Place(g, item, anchor), width, height)
  {
    var fp := Footprint(anchor, item.size);
    FootprintSize(anchor, item.size);
    assert g.Keys * fp == {};
    assert |Place(g, item, anchor).Keys| == |g.Keys| + |fp|;
  }

  /** The cells that hold an item Equal to one with id `id`. */
  function Held(g: Grid, id: int): set<Vec> {
    set c | c in g && g[c].id == id
  }

  /** The grid after every cell holding (an item Equal to) `item` is removed. */
  function Without(g: Grid, item: Item): (r: Grid)
    ensures forall c :: c in r <==> c in g && g[c].id != item.id
    ensures forall c :: c in r ==> r[c] == g[c]
  {
    g - Held(g, item.id)
  }

  /** Removing an item that was placed on cells that held nothing gives back
      the grid it was placed on. */
  lemma {:induction false} RemoveUndoesPlace(g: Grid, width: int, height: int, item: Item, anchor: Vec)
    requires Fits(g, width, height, item.size, anchor)
    requires Held(g, item.id) == {}
    ensures Without(Place(g, item, anchor), item) == g
  {
    PlaceSpec(g, width, height, item, anchor);
    var r := Without(Place(g, item, anchor), item);
    forall c | c in g ensures c in r && r[c] == g[c] {
      assert c !in Held(g, item.id);
    }
    assert r.Keys == g.Keys;
  }

  /** `MoveItem`'s effect: after removing the item and placing it at
      `anchor`, the item holds exactly the new block and every cell of every
      other item is as it was. */
  lemma MoveSpec(g: Grid, width: int, height: int, item: Item, anchor: Vec)
    requires Fits(g, width, height, item.size, anchor)
    ensures Fits(Without(g, item), width, height, item.size, anchor)
    ensures forall c :: c in Place(Without(g, item), item, anchor) && Place(Without(g, item), item, anchor)[c].id == item.id
                    <==> InFootprint(c, anchor, item.size)
    ensures forall c :: c in g && g[c].id != item.id ==>
                    c in Place(Without(g, item), item, anchor) && Place(Without(g, item), item, anchor)[c] == g[c]
    ensures forall c :: c in Place(Without(g, item), item, anchor) && Place(Without(g, item), item, anchor)[c].id != item.id ==>
                    c in g && Place(Without(g, item), item, anchor)[c] == g[c]
  {
    FitsAfterRemoval(g, Without(g, item), width, height, item.size, anchor);
    PlaceSpec(Without(g, item), width, height, item, anchor);
  }

  // ---------------------------------------------------------------------
  // Enumeration in entry order

  /** The cells of `cells` that hold an item with the given id, in the order
      of `cells` (`GetPositions`' `Where` and `Select`). */
  function Holding(g: Grid, id: int, cells: seq<Vec>): (r: seq<Vec>)
    ensures forall c :: c in r <==> c in cells && c in g && g[c].id == id
  {
    if cells == [] then []
    else
      var rest := Holding(g, id, cells[1..]);
      assert forall c :: c in cells <==> c == cells[0] || c in cells[1..];
      if cells[0] in g && g[cells[0]].id == id then [cells[0]] + rest else rest
  }

  /** Filtering keeps a sequence free of repeats. */
  lemma {:induction false} HoldingNoDup(g: Grid, id: int, cells: seq<Vec>)
    requires NoDup(cells)
    ensures NoDup(Holding(g, id, cells))
    decreases |cells|
  {
    if cells != [] {
      var rest := cells[1..];
      assert NoDup(rest) by {
        forall i, j | 0 <= i < j < |rest| ensures rest[i] != rest[j] {
          assert rest[i] == cells[i + 1] && rest[j] == cells[j + 1];
        }
      }
      HoldingNoDup(g, id, rest);
      var h := Holding(g, id, rest);
      if cells[0] in g && g[cells[0]].id == id {
        assert cells[0] !in h by {
          forall i | 0 <= i < |rest| ensures rest[i] != cells[0] {
            assert cells[0] != cells[i + 1];
          }
        }
        forall i, j | 0 <= i < j < |[cells[0]] + h| ensures ([cells[0]] + h)[i] != ([cells[0]] + h)[j] {
          assert ([cells[0]] + h)[j] == h[j - 1];
          if i == 0 {
            assert h[j - 1] in h;
          } else {
            assert ([cells[0]] + h)[i] == h[i - 1];
          }
        }
      }
    }
  }

  function IdsOf(s: seq<Item>): set<int> {
    set it | it in s :: it.id
  }

  /** The ids of the items on the grid: one per distinct item. */
  function ItemIds(g: Grid): set<int> {
    set c | c in g :: g[c].id
  }

  /** The items found at `cells`, in that order (`_itemsGrid.Values`). */
  function ItemsAt(g: Grid, cells: seq<Vec>): (r: seq<Item>)
    ensures forall it :: it in r ==> exists c :: c in cells && c in g && g[c] == it
    ensures forall c :: c in cells && c in g ==> g[c] in r
  {
    if cells == [] then []
    else
      var rest := ItemsAt(g, cells[1..]);
      assert forall c :: c in cells <==> c == cells[0] || c in cells[1..];
      if cells[0] in g then [g[cells[0]]] + rest else rest
  }

  lemma IdsOfCons(s: seq<Item>)
    requires s != []
    ensures IdsOf(s) == {s[0].id} + IdsOf(s[1..])
  {
    assert forall it :: it in s <==> it == s[0] || it in s[1..];
  }

  /** `Distinct()` over Equals: the first item of every id, in order, leaving
      out the ids in `seen`. */
  function Distinct(s: seq<Item>, seen: set<int>): (r: seq<Item>)
    ensures forall it :: it in r ==> it in s && it.id !in seen
    ensures forall i, j :: 0 <= i < j < |r| ==> r[i].id != r[j].id
    ensures IdsOf(r) == IdsOf(s) - seen
    decreases |s|
  {
    if s == [] then []
    else if s[0].id in seen then
      IdsOfCons(s);
      Distinct(s[1..], seen)
    else
      var rest := Distinct(s[1..], seen + {s[0].id});
      IdsOfCons(s);
      IdsOfCons([s[0]] + rest);
      assert ([s[0]] + rest)[1..] == rest;
      DistinctHead(s[0], rest);
      [s[0]] + rest
  }

  /** The index of the first item of `s` with this id, `|s|` if none. */
  function FirstIndex(s: seq<Item>, id: int): (r: nat)
    ensures r <= |s|
    ensures r < |s| ==> s[r].id == id
    ensures forall j :: 0 <= j < r ==> s[j].id != id
  {
    if s == [] then 0
    else if s[0].id == id then 0
    else 1 + FirstIndex(s[1..], id)
  }

  /** `Distinct()` keeps the first item of each id, and lists the ids in the
      order of their first occurrence in the input. */
  lemma DistinctInFirstOrder(s: seq<Item>, seen: set<int>)
    ensures forall k :: 0 <= k < |Distinct(s, seen)| ==>
              FirstIndex(s, Distinct(s, seen)[k].id) < |s| && s[FirstIndex(s, Distinct(s, seen)[k].id)] == Distinct(s, seen)[k]
    ensures forall k1, k2 :: 0 <= k1 < k2 < |Distinct(s, seen)| ==>
              FirstIndex(s, Distinct(s, seen)[k1].id) < FirstIndex(s, Distinct(s, seen)[k2].id)
  {
    DistinctKeepsFirst(s, seen);
    DistinctFirstOrder(s, seen);
  }

  /** Each item `Distinct` keeps is the first item of its id in the input. */
  lemma {:induction false} DistinctKeepsFirst(s: seq<Item>, seen: set<int>)
    ensures forall k :: 0 <= k < |Distinct(s, seen)| ==>
              FirstIndex(s, Distinct(s, seen)[k].id) < |s| && s[FirstIndex(s, Distinct(s, seen)[k].id)] == Distinct(s, seen)[k]
    decreases |s|
  {
    if s != [] {
      var r := Distinct(s, seen);
      if s[0].id in seen {
        DistinctKeepsFirst(s[1..], seen);
        assert r == Distinct(s[1..], seen);
        forall k | 0 <= k < |r| ensures FirstIndex(s, r[k].id) == 1 + FirstIndex(s[1..], r[k].id) {
          assert r[k] in r;
        }
      } else {
        var seen' := seen + {s[0].id};
        var rest := Distinct(s[1..], seen');
        DistinctKeepsFirst(s[1..], seen');
        assert r == [s[0]] + rest;
        forall k | 0 < k < |r|
          ensures FirstIndex(s, r[k].id) < |s| && s[FirstIndex(s, r[k].id)] == r[k]
        {
          assert r[k] == rest[k - 1] && rest[k - 1] in rest;
          assert FirstIndex(s, rest[k - 1].id) == 1 + FirstIndex(s[1..], rest[k - 1].id);
        }
      }
    }
  }

  /** The ids `Distinct` keeps come in the order of their first occurrence. */
  lemma {:induction false} DistinctFirstOrder(s: seq<Item>, seen: set<int>)
    ensures forall k1, k2 :: 0 <= k1 < k2 < |Distinct(s, seen)| ==>
              FirstIndex(s, Distinct(s, seen)[k1].id) < FirstIndex(s, Distinct(s, seen)[k2].id)
    decreases |s|
  {
    if s != [] {
      var r := Distinct(s, seen);
      if s[0].id in seen {
        DistinctFirstOrder(s[1..], seen);
        assert r == Distinct(s[1..], seen);
        forall k | 0 <= k < |r| ensures FirstIndex(s, r[k].id) == 1 + FirstIndex(s[1..], r[k].id) {
          assert r[k] in r;
        }
      } else {
        var seen' := seen + {s[0].id};
        var rest := Distinct(s[1..], seen');
        DistinctFirstOrder(s[1..], seen');
        assert r == [s[0]] + rest;
        forall k | 0 <= k < |rest| ensures FirstIndex(s, rest[k].id) == 1 + FirstIndex(s[1..], rest[k].id) {
          assert rest[k] in rest;
        }
        forall k | 0 < k < |r| ensures r[k] == rest[k - 1] {
        }
      }
    }
  }

  lemma DistinctHead(head: Item, rest: seq<Item>)
    requires forall it :: it in rest ==> it.id != head.id
    requires forall i, j :: 0 <= i < j < |rest| ==> rest[i].id != rest[j].id
    ensures forall i, j :: 0 <= i < j < |[head] + rest| ==> ([head] + rest)[i].id != ([head] + rest)[j].id
  {
    forall i, j | 0 <= i < j < |[head] + rest|
      ensures ([head] + rest)[i].id != ([head] + rest)[j].id
    {
      if i == 0 {
        assert rest[j - 1] in rest;
      }
    }
  }

  /** Over keys `order` that cover the grid, the items they hold have the
      ids of the grid's items. */
  lemma ItemsAtIds(g: Grid, order: seq<Vec>)
    requires forall c :: c in g ==> c in order
    ensures IdsOf(ItemsAt(g, order)) == ItemIds(g)
  {
    var all := ItemsAt(g, order);
    assert forall it :: it in all ==> it.id in ItemIds(g);
    forall id | id in ItemIds(g) ensures id in IdsOf(all) {
      var c :| c in g && g[c].id == id;
      assert g[c] in all;
    }
  }

  /** The distinct items of the grid in the order of the keys `order`: the
      enumerator `_itemsGrid.Values.Distinct()`. */
  function DistinctItems(g: Grid, order: seq<Vec>): (r: seq<Item>)
    ensures forall i, j :: 0 <= i < j < |r| ==> r[i].id != r[j].id
    ensures (forall c :: c in g ==> c in order) ==> IdsOf(r) == ItemIds(g)
    ensures forall it :: it in r ==> it.id in ItemIds(g)
  {
    var all := ItemsAt(g, order);
    assert forall it :: it in all ==> it.id in ItemIds(g);
    if forall c :: c in g ==> c in order then ItemsAtIds(g, order); Distinct(all, {})
    else Distinct(all, {})
  }

  lemma {:induction false} ItemsAtAppend(g: Grid, a: seq<Vec>, b: seq<Vec>)
    ensures ItemsAt(g, a + b) == ItemsAt(g, a) + ItemsAt(g, b)
    decreases |a|
  {
    if a == [] {
      assert a + b == b;
    } else {
      assert (a + b)[0] == a[0] && (a + b)[1..] == a[1..] + b;
      ItemsAtAppend(g, a[1..], b);
    }
  }

  /** Nothing is left when every id has been seen. */
  lemma AllSeen(s: seq<Item>, seen: set<int>)
    requires forall it :: it in s ==> it.id in seen
    ensures Distinct(s, seen) == []
  {
  }

  /** The fixture of `InventoryTests` that adds `D` (1 x 2) at `(4, 0)` and
      then `X` (3 x 2) at `(1, 2)` to a 5 x 5 inventory: both adds succeed,
      D's cells are enumerated before X's, and the enumerator lists D first.
      So `ReorganizeSpace` re-adds D before X. */
  lemma EnumeratesInAddOrder(d: Item, x: Item)
    requires d.id != x.id && d.size == Vec(1, 2) && x.size == Vec(3, 2)
    ensures var s2 := AddAt(AddAt(State(map[], Empty, []), 5, 5, d, Vec(4, 0)), 5, 5, x, Vec(1, 2));
            s2.events == [Added(d, Vec(4, 0)), Added(x, Vec(1, 2))] &&
            Order(s2.slots.entries) == Cells(Vec(4, 0), d.size) + Cells(Vec(1, 2), x.size) &&
            DistinctItems(s2.grid, Order(s2.slots.entries)) == [d, x]
  {
    var cd, cx := Cells(Vec(4, 0), d.size), Cells(Vec(1, 2), x.size);
    var s0 := State(map[], Empty, []);
    assert Fits(s0.grid, 5, 5, d.size, Vec(4, 0));
    var s1 := State(Place(map[], d, Vec(4, 0)), InsertAll(Empty, cd), [Added(d, Vec(4, 0))]);
    assert AddAt(s0, 5, 5, d, Vec(4, 0)) == s1;
    FixtureSecondFits(s1.grid, d, x);
    var s2 := State(Place(s1.grid, x, Vec(1, 2)), InsertAll(s1.slots, cx), s1.events + [Added(x, Vec(1, 2))]);
    assert AddAt(s1, 5, 5, x, Vec(1, 2)) == s2;
    AppendsWhenNoneFreed(Empty, cd);
    AppendsWhenNoneFreed(s1.slots, cx);
    assert Order(s2.slots.entries) == cd + cx;
    FixtureLookup(s1.grid, d, x);
    FixtureDistinct(s2.grid, d, x);
  }

  /** A 1 x 1 item added at `(3, 3)` and then, a second time, at `(0, 0)` of
      a 5 x 5 inventory: its positions in entry order start with `(3, 3)`,
      which is the position `RemoveItem` reports. */
  lemma PositionsInAddOrder(a: Item)
    requires a.size == Vec(1, 1)
    ensures var s2 := AddAt(AddAt(State(map[], Empty, []), 5, 5, a, Vec(3, 3)), 5, 5, a, Vec(0, 0));
            s2.events == [Added(a, Vec(3, 3)), Added(a, Vec(0, 0))] &&
            Holding(s2.grid, a.id, Order(s2.slots.entries)) == [Vec(3, 3), Vec(0, 0)]
  {
    var c1, c2 := Cells(Vec(3, 3), a.size), Cells(Vec(0, 0), a.size);
    var s0 := State(map[], Empty, []);
    assert Fits(s0.grid, 5, 5, a.size, Vec(3, 3));
    var s1 := State(Place(map[], a, Vec(3, 3)), InsertAll(Empty, c1), [Added(a, Vec(3, 3))]);
    assert AddAt(s0, 5, 5, a, Vec(3, 3)) == s1;
    RepeatFits(s1.grid, a);
    var s2 := State(Place(s1.grid, a, Vec(0, 0)), InsertAll(s1.slots, c2), s1.events + [Added(a, Vec(0, 0))]);
    assert AddAt(s1, 5, 5, a, Vec(0, 0)) == s2;
    AppendsWhenNoneFreed(Empty, c1);
    AppendsWhenNoneFreed(s1.slots, c2);
    assert Order(s2.slots.entries) == c1 + c2;
    RepeatHolding(s2.grid, a);
  }

  /** The fixture's constructor call: `AddItem` on D and then on X. */
  lemma FixturePlacements(d: Item, x: Item)
    ensures AddAllAt(State(map[], Empty, []), 5, 5, [(d, Vec(4, 0)), (x, Vec(1, 2))])
         == AddAt(AddAt(State(map[], Empty, []), 5, 5, d, Vec(4, 0)), 5, 5, x, Vec(1, 2))
  {
    var s0 := State(map[], Empty, []);
    var items: seq<(Item, Vec)> := [(d, Vec(4, 0)), (x, Vec(1, 2))];
    var none: seq<(Item, Vec)> := [];
    assert items[..1] == [(d, Vec(4, 0))];
    assert items[..1][..0] == none;
    assert AddAllAt(s0, 5, 5, none) == s0;
    assert AddAllAt(s0, 5, 5, items[..1]) == AddAt(s0, 5, 5, d, Vec(4, 0));
    assert AddAllAt(s0, 5, 5, items) == AddAt(AddAllAt(s0, 5, 5, items[..1]), 5, 5, x, Vec(1, 2));
  }

  /** `AddItem(item)` where the first fit is `p`. */
  lemma AddFirstFitAt(s: State, width: int, height: int, item: Item, p: Vec)
    requires FirstFit(s.grid, width, height, item.size) == Some(p)
    ensures AddFirstFit(s, width, height, item).grid == Place(s.grid, item, p)
    ensures AddFirstFit(s, width, height, item).events == s.events + [Added(item, p)]
  {
  }

  /** `ReorganizeSpace` on the fixture, which enumerates D before X: D goes
      to `(0, 0)` and X to `(0, 2)`, the first anchor of column 0 above D. */
  lemma RepacksFixture(d: Item, x: Item, events: seq<Event>)
    requires d.size == Vec(1, 2) && x.size == Vec(3, 2)
    ensures var s := AddAllFirstFit(State(map[], Empty, events), 5, 5, [d, x]);
            s.grid == Place(Place(map[], d, Zero), x, Vec(0, 2)) &&
            s.events == events + [Added(d, Zero), Added(x, Vec(0, 2))]
  {
    var s0 := State(map[], Empty, events);
    var items := [d, x];
    var none: seq<Item> := [];
    assert items[..1] == [d];
    assert items[..1][..0] == none;
    assert AddAllFirstFit(s0, 5, 5, none) == s0;
    var s1 := AddAllFirstFit(s0, 5, 5, items[..1]);
    assert s1 == AddFirstFit(s0, 5, 5, d);
    RepackFirstFit(d);
    AddFirstFitAt(s0, 5, 5, d, Zero);
    RepackSecondFit(s1.grid, d, x);
    AddFirstFitAt(s1, 5, 5, x, Vec(0, 2));
    assert AddAllFirstFit(s0, 5, 5, items) == AddFirstFit(s1, 5, 5, x);
  }

  lemma RepackFirstFit(d: Item)
    requires d.size == Vec(1, 2)
    ensures FirstFit(map[], 5, 5, d.size) == Some(Zero)
  {
    assert forall q :: ScanBefore(q, Zero) ==> !InBounds(q, d.size, 5, 5);
    FirstFitUnique(map[], 5, 5, d.size, Zero);
  }

  lemma RepackSecondFit(g1: Grid, d: Item, x: Item)
    requires d.size == Vec(1, 2) && x.size == Vec(3, 2)
    requires g1 == Place(map[], d, Zero)
    ensures FirstFit(g1, 5, 5, x.size) == Some(Vec(0, 2))
  {
    assert g1.Keys == Footprint(Zero, d.size);
    assert Vec(0, 0) in g1 && Vec(0, 1) in g1;
    forall q | ScanBefore(q, Vec(0, 2)) ensures !Fits(g1, 5, 5, x.size, q) {
      if 0 <= q.x && 0 <= q.y {
        assert InFootprint(Vec(0, q.y), q, x.size);
      }
    }
    FirstFitUnique(g1, 5, 5, x.size, Vec(0, 2));
  }

  lemma UnitCells(anchor: Vec)
    ensures Cells(anchor, Vec(1, 1)) == [anchor]
  {
    assert Cells(anchor, Vec(0, 1)) == [];
  }

  lemma RepeatFits(g: Grid, a: Item)
    requires a.size == Vec(1, 1)
    requires g == Place(map[], a, Vec(3, 3))
    ensures Fits(g, 5, 5, a.size, Vec(0, 0))
  {
    assert g.Keys == Footprint(Vec(3, 3), a.size);
  }

  lemma RepeatHolding(g2: Grid, a: Item)
    requires a.size == Vec(1, 1)
    requires g2 == Place(Place(map[], a, Vec(3, 3)), a, Vec(0, 0))
    ensures Holding(g2, a.id, Cells(Vec(3, 3), a.size) + Cells(Vec(0, 0), a.size)) == [Vec(3, 3), Vec(0, 0)]
  {
    UnitCells(Vec(3, 3));
    UnitCells(Vec(0, 0));
    assert Vec(3, 3) in g2 && g2[Vec(3, 3)] == a && Vec(0, 0) in g2 && g2[Vec(0, 0)] == a;
    var keys := [Vec(3, 3), Vec(0, 0)];
    assert Cells(Vec(3, 3), a.size) + Cells(Vec(0, 0), a.size) == keys;
    assert keys[1..] == [Vec(0, 0)];
    assert Holding(g2, a.id, [Vec(0, 0)]) == [Vec(0, 0)] by {
      assert [Vec(0, 0)][1..] == [];
    }
  }

  lemma FixtureSecondFits(g: Grid, d: Item, x: Item)
    requires d.size == Vec(1, 2) && x.size == Vec(3, 2)
    requires g == Place(map[], d, Vec(4, 0))
    ensures Fits(g, 5, 5, x.size, Vec(1, 2))
  {
    assert g.Keys == Footprint(Vec(4, 0), d.size);
  }

  lemma FixtureLookup(g: Grid, d: Item, x: Item)
    requires d.size == Vec(1, 2) && x.size == Vec(3, 2)
    requires g == Place(map[], d, Vec(4, 0))
    ensures var g2 := Place(g, x, Vec(1, 2));
            Vec(4, 0) in g2 && g2[Vec(4, 0)] == d && Vec(4, 1) in g2 && g2[Vec(4, 1)] == d &&
            forall c :: InFootprint(c, Vec(1, 2), x.size) ==> c in g2 && g2[c] == x
  {
  }

  lemma FixtureDistinct(g: Grid, d: Item, x: Item)
    requires d.id != x.id && d.size == Vec(1, 2) && x.size == Vec(3, 2)
    requires Vec(4, 0) in g && g[Vec(4, 0)] == d && Vec(4, 1) in g && g[Vec(4, 1)] == d
    requires forall c :: InFootprint(c, Vec(1, 2), x.size) ==> c in g && g[c] == x
    ensures DistinctItems(g, Cells(Vec(4, 0), d.size) + Cells(Vec(1, 2), x.size)) == [d, x]
  {
    var cd := Cells(Vec(4, 0), d.size);
    var cx := Cells(Vec(1, 2), x.size);
    FixtureFirstItems(g, d);
    var xs := ItemsAt(g, cx);
    FixtureSecondItems(g, x);
    ItemsAtAppend(g, cd, cx);
    FixtureDistinctOf(d, x, xs);
  }

  lemma FixtureFirstItems(g: Grid, d: Item)
    requires d.size == Vec(1, 2)
    requires Vec(4, 0) in g && g[Vec(4, 0)] == d && Vec(4, 1) in g && g[Vec(4, 1)] == d
    ensures ItemsAt(g, Cells(Vec(4, 0), d.size)) == [d, d]
  {
    var cd := Cells(Vec(4, 0), d.size);
    assert cd == [Vec(4, 0), Vec(4, 1)] by {
      assert Cells(Vec(4, 0), Vec(0, 2)) == [];
    }
    assert ItemsAt(g, [Vec(4, 1)]) == [d] by {
      assert [Vec(4, 1)][1..] == [];
    }
    assert cd[1..] == [Vec(4, 1)];
  }

  lemma FixtureSecondItems(g: Grid, x: Item)
    requires x.size == Vec(3, 2)
    requires forall c :: InFootprint(c, Vec(1, 2), x.size) ==> c in g && g[c] == x
    ensures var xs := ItemsAt(g, Cells(Vec(1, 2), x.size));
            xs != [] && xs[0] == x && forall it :: it in xs ==> it == x
  {
    var cx := Cells(Vec(1, 2), x.size);
    assert Vec(1, 2) in cx;
  }

  lemma FixtureDistinctOf(d: Item, x: Item, xs: seq<Item>)
    requires d.id != x.id
    requires xs != [] && xs[0] == x && forall it :: it in xs ==> it == x
    ensures Distinct([d, d] + xs, {}) == [d, x]
  {
    var all := [d, d] + xs;
    assert forall it :: it in xs[1..] ==> it in xs;
    AllSeen(xs[1..], {d.id} + {x.id});
    DistinctKeep(xs, {d.id});
    assert ([d] + xs)[0] == d && ([d] + xs)[1..] == xs;
    DistinctSkip([d] + xs, {d.id});
    assert all[0] == d && all[1..] == [d] + xs;
    DistinctKeep(all, {});
    assert {} + {d.id} == {d.id};
  }

  lemma DistinctKeep(s: seq<Item>, seen: set<int>)
    requires s != [] && s[0].id !in seen
    ensures Distinct(s, seen) == [s[0]] + Distinct(s[1..], seen + {s[0].id})
  {
  }

  lemma DistinctSkip(s: seq<Item>, seen: set<int>)
    requires s != [] && s[0].id in seen
    ensures Distinct(s, seen) == Distinct(s[1..], seen)
  {
  }

  /** Items of pairwise different ids have as many ids as there are items. */
  lemma {:induction false} DistinctIdsCount(s: seq<Item>)
    requires forall i, j :: 0 <= i < j < |s| ==> s[i].id != s[j].id
    ensures |IdsOf(s)| == |s|
    decreases |s|
  {
    if s != [] {
      var rest := s[1..];
      assert forall i, j :: 0 <= i < j < |rest| ==> rest[i].id != rest[j].id by {
        forall i, j | 0 <= i < j < |rest| ensures rest[i].id != rest[j].id {
          assert rest[i] == s[i + 1] && rest[j] == s[j + 1];
        }
      }
      DistinctIdsCount(rest);
      IdsOfCons(s);
      assert s[0].id !in IdsOf(rest) by {
        forall it | it in rest ensures it.id != s[0].id {
          var k :| 0 <= k < |rest| && rest[k] == it;
          assert s[k + 1] == it;
        }
      }
    }
  }

  /** Counting distinct items in `Count` terms: there are never more items
      than occupied cells. */
  lemma {:induction false} ItemsAtMostCells(g: Grid)
    ensures |ItemIds(g)| <= |g|
    decreases |g|
  {
    if g != map[] {
      var c :| c in g;
      var g' := g - {c};
      ItemsAtMostCells(g');
      forall id | id in ItemIds(g) ensures id in ItemIds(g') + {g[c].id} {
        var d :| d in g && g[d].id == id;
        if d != c {
          assert d in g' && g'[d] == g[d];
        }
      }
      SubsetSize(ItemIds(g), ItemIds(g') + {g[c].id});
      assert |g'.Keys| == |g.Keys| - 1;
    }
  }

  lemma SubsetSize(a: set<int>, b: set<int>)
    requires a <= b
    ensures |a| <= |b|
  {
    assert b == a + (b - a);
  }

  // ---------------------------------------------------------------------
  // First-fit search

  /** The first anchor, in the scan `x` ascending from `x` then `y`
      ascending (from `y` in the first column, from 0 after), at which a
      block of `size` fits (`FindFreePosition`'s nested loops). */
  function FirstFitFrom(g: Grid, width: int, height: int, size: Vec, x: int, y: int): (r: Option<Vec>)
    ensures r.Some? ==> Fits(g, width, height, size, r.value) && !ScanBefore(r.value, Vec(x, y))
    ensures r.Some? ==> forall q :: !ScanBefore(q, Vec(x, y)) && ScanBefore(q, r.value) ==> !Fits(g, width, height, size, q)
    ensures r.None? ==> forall q :: !ScanBefore(q, Vec(x, y)) ==> !Fits(g, width, height, size, q)
    decreases width - size.x - x + 1, height - size.y - y + 1
  {
    if x > width - size.x then None
    else if y > height - size.y then FirstFitFrom(g, width, height, size, x + 1, 0)
    else if Fits(g, width, height, size, Vec(x, y)) then Some(Vec(x, y))
    else FirstFitFrom(g, width, height, size, x, y + 1)
  }

  function FirstFit(g: Grid, width: int, height: int, size: Vec): Option<Vec> {
    FirstFitFrom(g, width, height, size, 0, 0)
  }

  /** The first fit is the fitting anchor that no other fitting anchor
      precedes in scan order, and there is none exactly when nothing fits. */
  lemma FirstFitIsFirst(g: Grid, width: int, height: int, size: Vec)
    ensures FirstFit(g, width, height, size).None? <==> forall q :: !Fits(g, width, height, size, q)
    ensures FirstFit(g, width, height, size).Some? ==>
      var p := FirstFit(g, width, height, size).value;
      Fits(g, width, height, size, p) && forall q :: ScanBefore(q, p) ==> !Fits(g, width, height, size, q)
  {
    var r := FirstFit(g, width, height, size);
    if r.Some? {
      forall q | ScanBefore(q, r.value) ensures !Fits(g, width, height, size, q) {
        if ScanBefore(q, Zero) { assert !InBounds(q, size, width, height); }
      }
    } else {
      forall q ensures !Fits(g, width, height, size, q) {
        if ScanBefore(q, Zero) { assert !InBounds(q, size, width, height); }
      }
    }
  }

  /** An anchor that fits and has no fitting predecessor is the first fit. */
  lemma FirstFitUnique(g: Grid, width: int, height: int, size: Vec, p: Vec)
    requires Fits(g, width, height, size, p)
    requires forall q :: ScanBefore(q, p) ==> !Fits(g, width, height, size, q)
    ensures FirstFit(g, width, height, size) == Some(p)
  {
    FirstFitIsFirst(g, width, height, size);
    var r := FirstFit(g, width, height, size);
    ScanOrderIsTotal(r.value, p);
  }

  // ---------------------------------------------------------------------
  // Folds: the batch constructors and ReorganizeSpace

  /** `AddItem(item, anchor)` on a state: the block's cells are added to the
      dictionary in the loops' order. */
  function AddAt(s: State, width: int, height: int, item: Item, anchor: Vec): State {
    if Fits(s.grid, width, height, item.size, anchor)
    then State(Place(s.grid, item, anchor), InsertAll(s.slots, Cells(anchor, item.size)), s.events + [Added(item, anchor)])
    else s
  }

  /** A successful `AddItem` adds new keys only, inside the grid, so the
      state stays valid. */
  lemma AddAtValid(s: State, width: int, height: int, item: Item, anchor: Vec)
    requires StateValid(s, width, height)
    ensures StateValid(AddAt(s, width, height, item, anchor), width, height)
  {
    if Fits(s.grid, width, height, item.size, anchor) {
      var g := s.grid;
      var cells := Cells(anchor, item.size);
      SortedNoDup(cells);
      assert forall k :: k in cells ==> k !in g.Keys;
      InsertAllWellformed(s.slots, g.Keys, cells);
      assert SetOf(cells) == Footprint(anchor, item.size);
      PlaceInGrid(g, width, height, item, anchor);
    }
  }

  lemma PlaceInGrid(g: Grid, width: int, height: int, item: Item, anchor: Vec)
    requires Fits(g, width, height, item.size, anchor)
    requires InGrid(g, width, height)
    ensures InGrid(Place(g, item, anchor), width, height)
  {
  }

  /** `AddItem(item)`: the first fit, if any. */
  function AddFirstFit(s: State, width: int, height: int, item: Item): State {
    match FirstFit(s.grid, width, height, item.size)
    case None => s
    case Some(p) => AddAt(s, width, height, item, p)
  }

  /** `AddItem(key, value)` for every pair, in order, results ignored. */
  function AddAllAt(s: State, width: int, height: int, items: seq<(Item, Vec)>): State
    decreases |items|
  {
    if items == [] then s
    else
      var last := items[|items| - 1];
      AddAt(AddAllAt(s, width, height, items[..|items| - 1]), width, height, last.0, last.1)
  }

  /** `AddItem(item)` for every item, in order, results ignored. */
  function AddAllFirstFit(s: State, width: int, height: int, items: seq<Item>): State
    decreases |items|
  {
    if items == [] then s
    else AddFirstFit(AddAllFirstFit(s, width, height, items[..|items| - 1]), width, height, items[|items| - 1])
  }

  /** One more item of the list. */
  lemma AddAllFirstFitStep(s: State, width: int, height: int, items: seq<Item>, i: nat)
    requires i < |items|
    ensures AddAllFirstFit(s, width, height, items[..i + 1])
         == AddFirstFit(AddAllFirstFit(s, width, height, items[..i]), width, height, items[i])
  {
    assert items[..i + 1][..i] == items[..i];
  }

  /** Adding first-fit keeps the state valid. */
  lemma {:induction false} AddAllFirstFitValid(s: State, width: int, height: int, items: seq<Item>)
    requires StateValid(s, width, height)
    ensures StateValid(AddAllFirstFit(s, width, height, items), width, height)
    decreases |items|
  {
    if items != [] {
      var init := items[..|items| - 1];
      var item := items[|items| - 1];
      AddAllFirstFitValid(s, width, height, init);
      var t := AddAllFirstFit(s, width, height, init);
      var p := FirstFit(t.grid, width, height, item.size);
      if p.Some? {
        AddAtValid(t, width, height, item, p.value);
      }
    }
  }

  /** Adding first-fit overwrites no cell and adds no item other than the
      given ones. */
  lemma {:induction false} AddAllFirstFitSpec(s: State, width: int, height: int, items: seq<Item>)
    ensures ItemIds(AddAllFirstFit(s, width, height, items).grid) <= ItemIds(s.grid) + IdsOf(items)
    ensures forall c :: c in s.grid ==>
              c in AddAllFirstFit(s, width, height, items).grid && AddAllFirstFit(s, width, height, items).grid[c] == s.grid[c]
    decreases |items|
  {
    if items != [] {
      var init := items[..|items| - 1];
      var item := items[|items| - 1];
      AddAllFirstFitSpec(s, width, height, init);
      var t := AddAllFirstFit(s, width, height, init);
      assert IdsOf(items) == IdsOf(init) + {item.id} by {
        assert forall it :: it in items <==> it in init || it == item;
      }
      var p := FirstFit(t.grid, width, height, item.size);
      if p.Some? {
        PlaceSpec(t.grid, width, height, item, p.value);
        var u := Place(t.grid, item, p.value);
        forall id | id in ItemIds(u) ensures id in ItemIds(t.grid) + {item.id} {
          var c :| c in u && u[c].id == id;
          if c in t.grid && u[c] == t.grid[c] {
          }
        }
      }
    }
  }

  /** `ReorganizeSpace` on a grid of these items: starting from the cleared
      grid, no item ends up present that was not in the list. */
  lemma RepackOnlyListedItems(events: seq<Event>, width: int, height: int, items: seq<Item>)
    ensures ItemIds(AddAllFirstFit(State(map[], Empty, events), width, height, items).grid) <= IdsOf(items)
    ensures StateValid(AddAllFirstFit(State(map[], Empty, events), width, height, items), width, height)
  {
    AddAllFirstFitSpec(State(map[], Empty, events), width, height, items);
    AddAllFirstFitValid(State(map[], Empty, events), width, height, items);
  }

  /** Adding at given anchors keeps the state valid. */
  lemma {:induction false} AddAllAtValid(s: State, width: int, height: int, items: seq<(Item, Vec)>)
    requires StateValid(s, width, height)
    ensures StateValid(AddAllAt(s, width, height, items), width, height)
    decreases |items|
  {
    if items != [] {
      var last := items[|items| - 1];
      AddAllAtValid(s, width, height, items[..|items| - 1]);
      AddAtValid(AddAllAt(s, width, height, items[..|items| - 1]), width, height, last.0, last.1);
    }
  }

  // ---------------------------------------------------------------------
  // GetItemCount

  /** `Where(item => item.Name.Equals(name, OrdinalIgnoreCase))`: the
      items whose name matches, in order; a null name throws. */
  function Named(s: seq<Item>, name: Option<string>): (r: Result<seq<Item>>)
    ensures r.Err? <==> exists it :: it in s && it.name.None?
    ensures r.Ok? ==> forall it :: it in r.value ==> it in s && NameMatches(it.name, name) == Ok(true)
    ensures r.Ok? ==> forall it :: it in s && NameMatches(it.name, name) == Ok(true) ==> it in r.value
    decreases |s|
  {
    if s == [] then Ok([])
    else
      assert forall it :: it in s ==> it == s[0] || it in s[1..];
      assert forall it :: it in s[1..] ==> it in s;
      match NameMatches(s[0].name, name)
      case Err(e) => Err(e)
      case Ok(m) =>
        match Named(s[1..], name)
        case Err(e) => Err(e)
        case Ok(rest) => Ok(if m then [s[0]] + rest else rest)
  }

  /** The ids of the grid's items whose name matches `name`. */
  function MatchingIds(g: Grid, name: Option<string>): set<int> {
    set c | c in g && NameMatches(g[c].name, name) == Ok(true) :: g[c].id
  }

  /** Over keys that cover the grid, a placed item with a null name makes
      the name filter throw. */
  lemma NullNameThrows(g: Grid, order: seq<Vec>, name: Option<string>, c: Vec)
    requires forall c :: c in g ==> c in order
    requires c in g && g[c].name.None?
    ensures Named(ItemsAt(g, order), name).Err?
  {
    assert g[c] in ItemsAt(g, order);
  }

  /** Over keys that cover the grid, the items the name filter keeps carry
      exactly the ids of the grid's matching items. */
  lemma NamedIds(g: Grid, order: seq<Vec>, name: Option<string>, matching: seq<Item>)
    requires forall c :: c in g ==> c in order
    requires Named(ItemsAt(g, order), name) == Ok(matching)
    ensures IdsOf(matching) == MatchingIds(g, name)
    ensures |MatchingIds(g, name)| <= |ItemIds(g)|
  {
    var values := ItemsAt(g, order);
    forall id | id in MatchingIds(g, name) ensures id in IdsOf(matching) {
      var c :| c in g && NameMatches(g[c].name, name) == Ok(true) && g[c].id == id;
      assert g[c] in values;
      assert g[c] in matching;
    }
    SubsetSize(MatchingIds(g, name), ItemIds(g));
  }

  /** `GetItemCount(name)`: `_itemsGrid.Values`, in the order of the keys
      `order`, filtered by name, made distinct and counted. Over keys that
      cover the grid it throws exactly when a placed item has a null name,
      and otherwise counts the distinct matching items. */
  function CountNamed(g: Grid, order: seq<Vec>, name: Option<string>): (r: Result<nat>)
    ensures r.Err? ==> exists c :: c in g && g[c].name.None?
    ensures (forall c :: c in g ==> c in order) ==>
              (r.Err? <==> exists c :: c in g && g[c].name.None?) &&
              (r.Ok? ==> r.value == |MatchingIds(g, name)| <= |ItemIds(g)|)
  {
    match Named(ItemsAt(g, order), name)
    case Err(e) => Err(e)
    case Ok(matching) =>
      var distinct := Distinct(matching, {});
      DistinctIdsCount(distinct);
      if forall c :: c in g ==> c in order then
        NamedIds(g, order, name, matching);
        assert !exists c :: c in g && g[c].name.None? by {
          forall c | c in g && g[c].name.None? ensures false {
            NullNameThrows(g, order, name, c);
          }
        }
        Ok(|distinct|)
      else Ok(|distinct|)
  }

  // ---------------------------------------------------------------------
  // Finding: CanAddItem's bounds test in 32-bit arithmetic

  /** The cell `anchor + (dx, dy)` computed with unchecked 32-bit sums. */
  function WrapCell(anchor: Vec, dx: int, dy: int): Vec {
    Vec(Wrap(anchor.x + dx) as int, Wrap(anchor.y + dy) as int)
  }

  /** `CanAddItem` as the C# evaluates it: `position.x + item.Size.x` and
      `position.x + x` are unchecked 32-bit sums (coordinates are C# ints). */
  predicate FitsAsWritten(g: Grid, width: int32, height: int32, size: Vec, anchor: Vec) {
    !(anchor.x < 0 || anchor.y < 0 || Wrap(anchor.x + size.x) > width || Wrap(anchor.y + size.y) > height) &&
    forall dx, dy :: 0 <= dx < size.x && 0 <= dy < size.y ==> WrapCell(anchor, dx, dy) !in g
  }

  /** On a 5 x 5 empty grid, the as-written test accepts a 1 x 1 block at
      `(int.MaxValue, 0)`: the sum wraps to `int.MinValue`, which is not
      greater than the width. `AddItem` then writes a key outside the grid. */
  lemma FitsAsWrittenAdmitsOutsideCell()
    ensures FitsAsWritten(map[], 5, 5, Vec(1, 1), Vec(MaxValue, 0))
    ensures !InFootprint(Vec(MaxValue, 0), Zero, Vec(5, 5))
    ensures !Fits(map[], 5, 5, Vec(1, 1), Vec(MaxValue, 0))
  {
    assert Wrap(MaxValue + 1) as int == MinValue;
  }

  /** Wherever the sums do not overflow, the as-written test and `Fits` agree. */
  lemma FitsAsWrittenWithoutOverflow(g: Grid, width: int32, height: int32, size: Vec, anchor: Vec)
    requires 0 <= anchor.x && 0 <= anchor.y && MinValue <= size.x && MinValue <= size.y
    requires anchor.x + size.x <= MaxValue && anchor.y + size.y <= MaxValue
    ensures FitsAsWritten(g, width, height, size, anchor) == Fits(g, width as int, height as int, size, anchor)
  {
    FitsCellwise(g, width as int, height as int, size, anchor);
    forall dx, dy | 0 <= dx < size.x && 0 <= dy < size.y ensures WrapCell(anchor, dx, dy) == Cell(anchor, dx, dy) {
    }
  }

  // ---------------------------------------------------------------------
  // Finding: FindFreePosition's loop bounds in 32-bit arithmetic

  /** The bound `_width - size.x` (or `_height - size.y`) of
      `FindFreePosition`'s loops: an unchecked 32-bit difference. */
  function ScanLimitAsWritten(extent: int32, side: int32): int32 {
    Wrap(extent as int - side as int)
  }

  /** On an empty 5 x 5 grid a block of size `(-2147483644, 1)` fits at
      `(0, 0)`, and the first fit is `(0, 0)`; but `5 - (-2147483644)` wraps
      to a negative bound, so the C# outer loop never runs and
      `FindFreePosition` reports that no position is free. */
  lemma ScanLimitAsWrittenSkipsFit()
    ensures ScanLimitAsWritten(5, -2147483644) < 0
    ensures Fits(map[], 5, 5, Vec(-2147483644, 1), Zero)
    ensures FirstFit(map[], 5, 5, Vec(-2147483644, 1)) == Some(Zero)
  {
    assert Wrap(5 + 2147483644) as int == 2147483649 - 0x1_0000_0000;
  }

  /** On an empty 5 x 5 grid with size `(-2147483642, 6)`, the outer bound
      `5 - (-2147483642)` is exactly `int.MaxValue` and the inner bound
      `5 - 6` is negative, so no column is searched and no anchor fits. The
      C# `x++` then takes `x` past `int.MaxValue` to `int.MinValue`, which is
      again within the bound: the loop never ends. */
  lemma ScanAsWrittenNeverEnds()
    ensures ScanLimitAsWritten(5, -2147483642) as int == MaxValue
    ensures ScanLimitAsWritten(5, 6) < 0
    ensures Wrap(MaxValue + 1) as int == MinValue
    ensures forall q :: !Fits(map[], 5, 5, Vec(-2147483642, 6), q)
  {
    assert Wrap(MaxValue + 1) as int == MaxValue + 1 - 0x1_0000_0000;
  }
}
