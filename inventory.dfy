/** `Inventories.Inventory`: a `width × height` grid holding rectangular items
    in the sparse map `_itemsGrid`, every cell an item covers being a key. */
module Inventories {
  import opened Wrappers
  import opened Vectors
  import opened Items
  import opened Grids
  import opened KeyOrder

  /** The outer loop of `AddItem`: `item` goes into each column of its
      block, and each cell becomes a key of the dictionary `d` in turn. */
  method WriteBlock(g: Grid, d: Slots, item: Item, position: Vec) returns (r: Grid, rd: Slots)
    ensures r == Place(g, item, position)
    ensures rd == InsertAll(d, Cells(position, item.size))
  {
    r, rd := g, d;
    var x := 0;
    while x < item.size.x
      invariant 0 <= x && (x <= item.size.x || x == 0)
      invariant r == PaintBlock(g, item, position, Vec(x, item.size.y))
      invariant rd == InsertBlockKeys(d, position, Vec(x, item.size.y))
    {
      BlockGrowsByColumn(g, d, item, position, x);
      r, rd := WriteColumn(r, rd, item, Cell(position, x, 0), item.size.y);
      x := x + 1;
    }
    if item.size.x > 0 {
      assert Vec(x, item.size.y) == item.size;
    }
    PaintBlockIsPlace(g, item, position);
    InsertBlockIsInsertAll(d, position, item.size);
  }

  /** Column `x` of the loops follows columns `0` to `x - 1`. */
  lemma BlockGrowsByColumn(g: Grid, d: Slots, item: Item, position: Vec, x: int)
    requires 0 <= x
    ensures PaintBlock(PaintBlock(g, item, position, Vec(x, item.size.y)), item, Cell(position, x, 0), Vec(1, item.size.y))
         == PaintBlock(g, item, position, Vec(x + 1, item.size.y))
    ensures InsertBlockKeys(InsertBlockKeys(d, position, Vec(x, item.size.y)), Cell(position, x, 0), Vec(1, item.size.y))
         == InsertBlockKeys(d, position, Vec(x + 1, item.size.y))
  {
    var h := item.size.y;
    if h > 0 {
      var done := PaintBlock(g, item, position, Vec(x, h));
      assert PaintBlock(done, item, Cell(position, x, 0), Vec(0, h)) == done;
      var keys := InsertBlockKeys(d, position, Vec(x, h));
      assert InsertBlockKeys(keys, Cell(position, x, 0), Vec(0, h)) == keys;
    }
  }

  /** The inner loop of `AddItem`: `item` goes into the `height` cells of
      the column whose top cell is `top`, bottom up. */
  method WriteColumn(g: Grid, d: Slots, item: Item, top: Vec, height: int) returns (r: Grid, rd: Slots)
    ensures r == PaintBlock(g, item, top, Vec(1, height))
    ensures rd == InsertBlockKeys(d, top, Vec(1, height))
  {
    r, rd := g, d;
    var y := 0;
    while y < height
      invariant 0 <= y && (y <= height || y == 0)
      invariant r == PaintColumn(g, item, top.x, top.y, y)
      invariant rd == InsertColumnKeys(d, top.x, top.y, y)
    {
      r := r[Cell(top, 0, y) := item];
      rd := Insert(rd, Cell(top, 0, y));
      y := y + 1;
    }
    if height > 0 {
      assert y == height;
      assert PaintBlock(g, item, top, Vec(0, height)) == g;
      assert InsertBlockKeys(d, top, Vec(0, height)) == d;
    }
  }

  class Inventory {
    const width: int
    const height: int
    /** `_itemsGrid`, as a lookup from cell to item. */
    var grid: Grid
    /** `_itemsGrid`'s entries, which fix the order it enumerates in. */
    var slots: Slots
    /** `OnAdded`, `OnRemoved`, `OnMoved` and `OnCleared`, in firing order. */
    ghost var events: seq<Event>

    /** Every key lies inside the grid, and the entries hold exactly the
        keys. */
    ghost predicate Valid()
      reads this
    {
      InGrid(grid, width, height) && Wellformed(slots, grid.Keys)
    }

    /** `Inventory(width, height)`: no validation of the sizes. */
    constructor (width: int, height: int)
      ensures this.width == width && this.height == height
      ensures grid == map[] && slots == Empty && events == []
      ensures Valid()
    {
      this.width := width;
      this.height := height;
      grid := map[];
      slots := Empty;
      events := [];
    }

    /** The constructors taking `(item, position)` pairs: `AddItem` on each
        pair in order, results ignored. */
    constructor WithPlacements(width: int, height: int, items: seq<(Item, Vec)>)
      ensures this.width == width && this.height == height
      ensures State(grid, slots, events) == AddAllAt(State(map[], Empty, []), width, height, items)
      ensures Valid()
    {
      this.width := width;
      this.height := height;
      grid := map[];
      slots := Empty;
      events := [];
      new;
      for i := 0 to |items|
        invariant Valid()
        invariant State(grid, slots, events) == AddAllAt(State(map[], Empty, []), width, height, items[..i])
      {
        assert items[..i + 1][..i] == items[..i];
        var _ := AddItemAt(items[i].0, items[i].1);
      }
      assert items[..|items|] == items;
    }

    /** The constructors taking items: each goes to its free position if
        `FindFreePosition` finds one and to `(0, 0)` otherwise, which then
        fails; in effect `AddItem(item)` on each item in order. */
    constructor WithItems(width: int, height: int, items: seq<Item>)
      ensures this.width == width && this.height == height
      ensures State(grid, slots, events) == AddAllFirstFit(State(map[], Empty, []), width, height, items)
      ensures Valid()
    {
      this.width := width;
      this.height := height;
      grid := map[];
      slots := Empty;
      events := [];
      new;
      for i := 0 to |items|
        invariant Valid()
        invariant State(grid, slots, events) == AddAllFirstFit(State(map[], Empty, []), width, height, items[..i])
      {
        assert items[..i + 1][..i] == items[..i];
        var found, position := FindFreePosition(items[i].size);
        var _ := AddItemAt(items[i], if found then position else Zero);
      }
      assert items[..|items|] == items;
    }

    /** `Count`: the number of occupied cells, which is at least the number
        of distinct items. */
    function Count(): (n: nat)
      reads this
      ensures n >= |ItemIds(grid)|
    {
      ItemsAtMostCells(grid);
      |grid|
    }

    /** The nested loops of `CanAddItem`, for an item of this size. */
    method CanAddSize(size: Vec, position: Vec) returns (ok: bool)
      ensures ok == Fits(grid, width, height, size, position)
    {
      FitsCellwise(grid, width, height, size, position);
      if position.x < 0 || position.y < 0 || position.x + size.x > width || position.y + size.y > height {
        return false;
      }
      var x := 0;
      while x < size.x
        invariant 0 <= x
        invariant forall dx, dy :: 0 <= dx < x && 0 <= dy < size.y ==> Cell(position, dx, dy) !in grid
      {
        var y := 0;
        while y < size.y
          invariant 0 <= y
          invariant forall dy :: 0 <= dy < y ==> Cell(position, x, dy) !in grid
        {
          if Cell(position, x, y) in grid {
            return false;
          }
          y := y + 1;
        }
        x := x + 1;
      }
      return true;
    }

    /** `CanAddItem(item, position)`: false out of bounds; in bounds, true
        exactly when no cell of the block is a key, even one held by `item`. */
    method CanAddItem(item: Item, position: Vec) returns (ok: bool)
      ensures !InBounds(position, item.size, width, height) ==> !ok
      ensures InBounds(position, item.size, width, height) ==>
        (ok <==> forall dx, dy :: 0 <= dx < item.size.x && 0 <= dy < item.size.y ==> Cell(position, dx, dy) !in grid)
      ensures ok == Fits(grid, width, height, item.size, position)
    {
      FitsCellwise(grid, width, height, item.size, position);
      ok := CanAddSize(item.size, position);
    }

    /** `AddItem(item, position)`: succeeds exactly when `CanAddItem` holds;
        then the block maps to `item`, nothing else changes and one `OnAdded`
        fires. On failure nothing changes. */
    method AddItemAt(item: Item, position: Vec) returns (ok: bool)
      requires Valid()
      modifies this
      ensures Valid()
      ensures ok == Fits(old(grid), width, height, item.size, position)
      ensures grid == if ok then Place(old(grid), item, position) else old(grid)
      ensures slots == if ok then InsertAll(old(slots), Cells(position, item.size)) else old(slots)
      ensures events == old(events) + (if ok then [Added(item, position)] else [])
      ensures State(grid, slots, events) == AddAt(old(State(grid, slots, events)), width, height, item, position)
    {
      ok := CanAddItem(item, position);
      if !ok {
        assert events + [] == events;
        return;
      }
      AddAtValid(State(grid, slots, events), width, height, item, position);
      grid, slots := WriteBlock(grid, slots, item, position);
      events := events + [Added(item, position)];
    }

    /** `FindFreePosition(size)`: the first anchor, `x` outer and `y` inner,
        at which a block of `size` fits; `(0, 0)` and false when none does. */
    method FindFreePosition(size: Vec) returns (found: bool, position: Vec)
      ensures found ==> Fits(grid, width, height, size, position)
      ensures found ==> forall q :: ScanBefore(q, position) ==> !Fits(grid, width, height, size, q)
      ensures !found ==> position == Zero && forall q :: !Fits(grid, width, height, size, q)
      ensures found == FirstFit(grid, width, height, size).Some?
      ensures found ==> position == FirstFit(grid, width, height, size).value
    {
      FirstFitIsFirst(grid, width, height, size);
      var x := 0;
      while x <= width - size.x
        invariant 0 <= x
        invariant forall q: Vec :: q.x < x ==> !Fits(grid, width, height, size, q)
      {
        var y := 0;
        while y <= height - size.y
          invariant 0 <= y
          invariant forall q: Vec :: q.x == x && q.y < y ==> !Fits(grid, width, height, size, q)
        {
          var ok := CanAddSize(size, Vec(x, y));
          if ok {
            FirstFitUnique(grid, width, height, size, Vec(x, y));
            return true, Vec(x, y);
          }
          y := y + 1;
        }
        x := x + 1;
      }
      return false, Zero;
    }

    /** `CanAddItem(item)`: some anchor fits. */
    method CanAddItemAnywhere(item: Item) returns (ok: bool)
      ensures ok <==> exists q :: Fits(grid, width, height, item.size, q)
    {
      var position;
      ok, position := FindFreePosition(item.size);
    }

    /** `AddItem(item)`: `FindFreePosition` then `AddItem` at that anchor. */
    method AddItem(item: Item) returns (ok: bool)
      requires Valid()
      modifies this
      ensures Valid()
      ensures ok == FirstFit(old(grid), width, height, item.size).Some?
      ensures State(grid, slots, events) == AddFirstFit(old(State(grid, slots, events)), width, height, item)
    {
      var found, position := FindFreePosition(item.size);
      if !found {
        return false;
      }
      ok := AddItemAt(item, position);
    }

    /** `_itemsGrid.Keys`: every key once, in entry order. */
    function Keys(): (r: seq<Vec>)
      reads this
      ensures Valid() ==> forall c :: c in r <==> c in grid
      ensures Valid() ==> NoDup(r)
    {
      OrderMembers(slots.entries);
      if DistinctEntries(slots.entries) then OrderNoDup(slots.entries); Order(slots.entries)
      else Order(slots.entries)
    }

    /** `Contains(item)`: some cell holds an item Equal to it; so exactly when
        the item has positions. */
    function Contains(item: Item?): (r: bool)
      reads this
      ensures r ==> item != null
      ensures Valid() && item != null ==> (r <==> Positions(item) != [])
    {
      if item != null then PositionsWitness(item); exists c :: c in grid && grid[c].id == item.id
      else false
    }

    lemma PositionsWitness(item: Item)
      ensures Valid() ==>
        ((exists c :: c in grid && grid[c].id == item.id) <==> Positions(item) != [])
    {
      if Valid() && Positions(item) != [] {
        assert Positions(item)[0] in Positions(item);
      }
    }

    /** `IsOccupied(position)`: the cell is a key; an occupied cell lies
        inside the grid and holds an item. */
    function IsOccupied(position: Vec): (r: bool)
      reads this
      ensures r <==> position in grid
      ensures Valid() && r ==> InFootprint(position, Zero, Vec(width, height))
      ensures r <==> GetItem(position) != null
    {
      position in grid
    }

    /** `IsFree(position)`. */
    function IsFree(position: Vec): (r: bool)
      reads this
      ensures r <==> !IsOccupied(position)
    {
      !IsOccupied(position)
    }

    /** `GetItem(position)`: the stored item, null for an empty cell and for
        every cell outside the grid. */
    function GetItem(position: Vec): (r: Item?)
      reads this
      ensures position in grid ==> r == grid[position]
      ensures position !in grid ==> r == null
      ensures Valid() && !InFootprint(position, Zero, Vec(width, height)) ==> r == null
    {
      if position in grid then grid[position] else null
    }

    /** `TryGetItem(position, out item)`: false and null exactly where
        `GetItem` is null. */
    function TryGetItem(position: Vec): (r: (bool, Item?))
      reads this
      ensures r.0 <==> IsOccupied(position)
      ensures r.1 == GetItem(position)
      ensures !r.0 ==> r.1 == null
    {
      if position in grid then (true, grid[position]) else (false, null)
    }

    /** The cells holding an item Equal to `item`, each once, in the order
        `_itemsGrid` enumerates them. */
    function Positions(item: Item): (r: seq<Vec>)
      reads this
      ensures Valid() ==> forall c :: c in r <==> c in grid && grid[c].id == item.id
      ensures Valid() ==> NoDup(r)
    {
      var keys := Keys();
      if NoDup(keys) then HoldingNoDup(grid, item.id, keys); Holding(grid, item.id, keys)
      else Holding(grid, item.id, keys)
    }

    /** `GetPositions(item)`. `Equals(Item)` reads the argument's id, so a
        null item throws as soon as there is a cell to compare with; on an
        empty grid it has no positions. */
    function GetPositions(item: Item?): (r: Result<seq<Vec>>)
      reads this
      ensures r.Err? <==> item == null && grid != map[]
      ensures item == null && grid == map[] ==> r == Ok([])
      ensures item != null ==> r == Ok(Positions(item))
      ensures Valid() && r.Ok? ==> forall c :: c in r.value <==> item != null && c in grid && grid[c].id == item.id
    {
      if item == null then (if grid == map[] then Ok([]) else Err(NullReference))
      else Ok(Positions(item))
    }

    /** `TryGetPositions(item, out positions)`: the positions of a contained
        item, null and false for any other (null included, which `Contains`
        rejects before `GetPositions` could throw). */
    function TryGetPositions(item: Item?): (r: (bool, Option<seq<Vec>>))
      reads this
      ensures r.0 == Contains(item)
      ensures r.0 ==> item != null && r.1 == Some(Positions(item))
      ensures r.0 ==> GetPositions(item) == Ok(r.1.value)
      ensures !r.0 ==> r.1 == None
    {
      if item != null && Contains(item) then (true, Some(Positions(item))) else (false, None)
    }

    /** The `foreach` of `RemoveItem` and `MoveItem`: each cell is removed. */
    method RemoveCells(cells: seq<Vec>)
      modifies this`grid, this`slots
      ensures grid == old(grid) - SetOf(cells)
      ensures slots == DeleteAll(old(slots), cells)
    {
      for i := 0 to |cells|
        invariant grid == old(grid) - SetOf(cells[..i])
        invariant slots == DeleteAll(old(slots), cells[..i])
      {
        assert SetOf(cells[..i + 1]) == SetOf(cells[..i]) + {cells[i]} by {
          assert cells[..i + 1] == cells[..i] + [cells[i]];
        }
        assert cells[..i + 1][..i] == cells[..i];
        grid := grid - {cells[i]};
        slots := Delete(slots, cells[i]);
      }
      assert cells[..|cells|] == cells;
    }

    /** Removing the item's positions removes the item, and the entries
        still hold exactly the remaining keys. */
    lemma PositionsAreHeldCells(item: Item)
      requires Valid()
      ensures grid - SetOf(Positions(item)) == Without(grid, item)
      ensures Wellformed(DeleteAll(slots, Positions(item)), Without(grid, item).Keys)
    {
      assert SetOf(Positions(item)) == Held(grid, item.id);
      DeleteAllWellformed(slots, grid.Keys, Positions(item));
      assert grid.Keys - SetOf(Positions(item)) == Without(grid, item).Keys;
    }

    /** `RemoveItem(item)`: for a contained item, every cell holding it is
        removed in entry order, all others stay, and one `OnRemoved` with
        its first position in entry order fires; for an absent or null item
        nothing changes. */
    method RemoveItem(item: Item?) returns (ok: bool)
      requires Valid()
      modifies this
      ensures Valid()
      ensures ok == old(Contains(item))
      ensures ok ==> item != null && grid == Without(old(grid), item) && !Contains(item)
      ensures ok ==> slots == DeleteAll(old(slots), old(Positions(item)))
      ensures ok ==> events == old(events) + [Removed(item, old(Positions(item))[0])]
      ensures !ok ==> grid == old(grid) && slots == old(slots) && events == old(events)
    {
      if item == null || !Contains(item) {
        return false;
      }
      var positions := Positions(item);
      PositionsAreHeldCells(item);
      RemoveCells(positions);
      events := events + [Removed(item, positions[0])];
      return true;
    }

    /** `RemoveItem(item, out position)`: as `RemoveItem`, also returning the
        first position; `(0, 0)` when nothing was removed. */
    method RemoveItemWithPosition(item: Item?) returns (ok: bool, position: Vec)
      requires Valid()
      modifies this
      ensures Valid()
      ensures ok == old(Contains(item))
      ensures ok ==> item != null && position == old(Positions(item))[0]
      ensures ok ==> grid == Without(old(grid), item) && slots == DeleteAll(old(slots), old(Positions(item)))
      ensures ok ==> events == old(events) + [Removed(item, position)]
      ensures !ok ==> position == Zero && grid == old(grid) && slots == old(slots) && events == old(events)
    {
      if item == null || !Contains(item) {
        return false, Zero;
      }
      position := Positions(item)[0];
      ok := RemoveItem(item);
    }

    /** `Clear()`: the grid becomes empty and `OnCleared` fires, whether or
        not it was empty before. */
    method Clear()
      requires Valid()
      modifies this
      ensures Valid()
      ensures grid == map[] && slots == Empty && events == old(events) + [Cleared]
      ensures Count() == 0
      ensures forall p :: IsFree(p)
      ensures forall it: Item :: !Contains(it)
    {
      grid := map[];
      slots := Empty;
      events := events + [Cleared];
    }

    /** `GetItemCount(name)`: the number of distinct items whose name equals
        `name` ignoring case; a placed item with a null name makes it throw. */
    function GetItemCount(name: Option<string>): (r: Result<nat>)
      reads this
      ensures r.Err? ==> exists c :: c in grid && grid[c].name.None?
      ensures Valid() ==> (r.Err? <==> exists c :: c in grid && grid[c].name.None?)
      ensures Valid() && r.Ok? ==> r.value == |MatchingIds(grid, name)| <= |ItemIds(grid)| <= Count()
    {
      CountNamed(grid, Keys(), name)
    }

    /** `MoveItem(item, newPosition)`: fails with nothing changed when the
        item is absent or `CanAddItem(item, newPosition)` fails (its own
        cells included); otherwise the item holds exactly the new block,
        other items keep their cells, and `OnAdded` then `OnMoved` fire. */
    method MoveItem(item: Item?, newPosition: Vec) returns (ok: bool)
      requires Valid()
      modifies this
      ensures Valid()
      ensures ok == (old(Contains(item)) && Fits(old(grid), width, height, item.size, newPosition))
      ensures ok ==> grid == Place(Without(old(grid), item), item, newPosition)
      ensures ok ==> slots == InsertAll(DeleteAll(old(slots), old(Positions(item))), Cells(newPosition, item.size))
      ensures ok ==> events == old(events) + [Added(item, newPosition), Moved(item, newPosition)]
      ensures ok ==> forall c :: c in grid && grid[c].id == item.id <==> InFootprint(c, newPosition, item.size)
      ensures ok ==> forall c :: c in old(grid) && old(grid)[c].id != item.id ==> c in grid && grid[c] == old(grid)[c]
      ensures !ok ==> grid == old(grid) && slots == old(slots) && events == old(events)
    {
      if item == null || !Contains(item) {
        return false;
      }
      var fits := CanAddItem(item, newPosition);
      if !fits {
        return false;
      }
      Relocate(item, newPosition);
      return true;
    }

    /** The body of `MoveItem` once both guards have passed: the old cells
        are removed in entry order, then `AddItem` at the new anchor
        succeeds, then `OnMoved` fires. */
    method Relocate(item: Item, newPosition: Vec)
      requires Valid()
      requires Fits(grid, width, height, item.size, newPosition)
      modifies this
      ensures Valid()
      ensures grid == Place(Without(old(grid), item), item, newPosition)
      ensures slots == InsertAll(DeleteAll(old(slots), old(Positions(item))), Cells(newPosition, item.size))
      ensures events == old(events) + [Added(item, newPosition), Moved(item, newPosition)]
      ensures forall c :: c in grid && grid[c].id == item.id <==> InFootprint(c, newPosition, item.size)
      ensures forall c :: c in old(grid) && old(grid)[c].id != item.id ==> c in grid && grid[c] == old(grid)[c]
    {
      ghost var g0 := grid;
      ghost var s0 := slots;
      var oldPositions := Positions(item);
      PositionsAreHeldCells(item);
      RemoveCells(oldPositions);
      assert grid == Without(g0, item) && slots == DeleteAll(s0, oldPositions);
      assert Valid();
      FitsAfterRemoval(g0, grid, width, height, item.size, newPosition);
      var added := AddItemAt(item, newPosition);
      assert added && grid == Place(Without(g0, item), item, newPosition);
      events := events + [Moved(item, newPosition)];
      MoveSpec(g0, width, height, item, newPosition);
    }

    /** The enumerator: each distinct item once, in the order their first
        cells come in `_itemsGrid`'s entries. */
    function Enumerate(): (r: seq<Item>)
      reads this
      ensures forall i, j :: 0 <= i < j < |r| ==> r[i].id != r[j].id
      ensures forall it :: it in r ==> Contains(it)
      ensures Valid() ==> IdsOf(r) == ItemIds(grid)
    {
      DistinctItems(grid, Keys())
    }

    /** `ReorganizeSpace()`: `Clear()`, then `AddItem(item)` for each item the
        enumerator listed before; no item ends up present that was absent. */
    method ReorganizeSpace()
      requires Valid()
      modifies this
      ensures Valid()
      ensures State(grid, slots, events) == AddAllFirstFit(State(map[], Empty, old(events) + [Cleared]), width, height, old(Enumerate()))
      ensures ItemIds(grid) <= old(ItemIds(grid))
    {
      var items := Enumerate();
      assert IdsOf(items) == ItemIds(grid);
      Clear();
      RepackOnlyListedItems(events, width, height, items);
      AddEach(items);
    }

    /** The loop of `ReorganizeSpace`: `AddItem` for each item, in order. */
    method AddEach(items: seq<Item>)
      requires Valid()
      modifies this
      ensures Valid()
      ensures State(grid, slots, events) == AddAllFirstFit(old(State(grid, slots, events)), width, height, items)
    {
      ghost var start := State(grid, slots, events);
      for i := 0 to |items|
        invariant Valid()
        invariant State(grid, slots, events) == AddAllFirstFit(start, width, height, items[..i])
      {
        AddAllFirstFitStep(start, width, height, items, i);
        var _ := AddItem(items[i]);
      }
      assert items[..|items|] == items;
    }

    /** `CopyTo(matrix)`: writes `GetItem(x, y)` to `matrix[x, y]`, `x` outer
        and `y` inner. Returns false where the C# throws
        `IndexOutOfRangeException` at the first index outside the matrix,
        after the writes before it. */
    method CopyTo(matrix: array2<Item?>) returns (completed: bool)
      modifies matrix
      ensures completed <==> width <= 0 || height <= 0 || (width <= matrix.Length0 && height <= matrix.Length1)
      ensures forall i, j :: 0 <= i < matrix.Length0 && 0 <= j < matrix.Length1 ==>
        matrix[i, j] == if CopiedCell(i, j, matrix.Length0, matrix.Length1) then GetItem(Vec(i, j)) else old(matrix[i, j])
    {
      var x := 0;
      while x < width
        invariant 0 <= x && (x <= width || x == 0)
        invariant 0 < x && 0 < height ==> x <= matrix.Length0 && height <= matrix.Length1
        invariant forall i, j :: 0 <= i < matrix.Length0 && 0 <= j < matrix.Length1 ==>
          matrix[i, j] == if i < x && j < height then GetItem(Vec(i, j)) else old(matrix[i, j])
      {
        var y := 0;
        while y < height
          invariant 0 <= y && (y <= height || y == 0)
          invariant 0 < y ==> x < matrix.Length0 && y <= matrix.Length1
          invariant forall i, j :: 0 <= i < matrix.Length0 && 0 <= j < matrix.Length1 ==>
            matrix[i, j] == if (i < x && j < height) || (i == x && j < y) then GetItem(Vec(i, j)) else old(matrix[i, j])
        {
          if x >= matrix.Length0 || y >= matrix.Length1 {
            return false;
          }
          matrix[x, y] := GetItem(Vec(x, y));
          y := y + 1;
        }
        x := x + 1;
      }
      return true;
    }

    /** The cells `CopyTo` writes before it completes or throws. */
    predicate CopiedCell(i: int, j: int, length0: int, length1: int) {
      0 <= i < width && 0 <= j < height && i < length0 && j < length1 && (i == 0 || height <= length1)
    }
  }

  /** The test fixture that adds D (1 x 2) at `(4, 0)` and X (3 x 2) at
      `(1, 2)` of a 5 x 5 inventory, followed by `ReorganizeSpace()`: the
      enumerator lists D first, so D is re-added at `(0, 0)` and X at
      `(0, 2)`. */
  method ReorganizeFixture(d: Item, x: Item) returns (g: Grid)
    requires d.id != x.id && d.size == Vec(1, 2) && x.size == Vec(3, 2)
    ensures g == Place(Place(map[], d, Zero), x, Vec(0, 2))
  {
    var inventory := new Inventory.WithPlacements(5, 5, [(d, Vec(4, 0)), (x, Vec(1, 2))]);
    FixturePlacements(d, x);
    EnumeratesInAddOrder(d, x);
    assert inventory.Enumerate() == [d, x];
    ghost var before := inventory.events;
    inventory.ReorganizeSpace();
    RepacksFixture(d, x, before + [Cleared]);
    g := inventory.grid;
  }
}
