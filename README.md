# Grid inventory, health and resource converter, in Dafny

This project models three components of a Unity homework repository and
proves properties of the models. The C# classes and their Dafny
counterparts are:

| C# class | Dafny |
|---|---|
| `Inventories.Inventory` | class `Inventories.Inventory`, over the grid values of module `Grids` and the dictionary order of module `KeyOrder` |
| `Inventories.Item` | class `Items.Item` |
| `ShootEmUp.HealthComponent` | class `Health.HealthComponent` |
| `Modules.ResourceConverter.ResourceConverter` | class `Converters.ResourceConverter` |

- **Inventory** (C# `Inventories.Inventory`) is a `width × height` grid of rectangular items.
  The C# stores it as a sparse dictionary `_itemsGrid` from cell to item, and
  every cell an item covers is a key.
  - Items are placed at an anchor (C# `AddItem(item, position)`, Dafny `AddItemAt`) or at the first
    free anchor (C# `AddItem(item)`, Dafny `AddItem`).
  - Items can be found, counted by name, removed, moved, repacked
    (`ReorganizeSpace`), copied into a matrix and enumerated.
  - Each change fires `OnAdded`, `OnRemoved`, `OnMoved` or `OnCleared`.
- **Item** (C# `Inventories.Item`) is an immutable handle with a name, a size and an id.
  The id comes from a static counter. Equality and hashing use the id only.
- **HealthComponent** (C# `ShootEmUp.HealthComponent`) holds hit points. Each hit sets them to
  `max(0, Health - damage)` in 32-bit arithmetic, so after a hit they are never negative. From
  non-negative hit points, non-negative damage never raises them. Zero is final. A negative
  maximum starts below zero, and negative damage heals.
- **ResourceConverter** (C# `Modules.ResourceConverter.ResourceConverter`) is an input counter with a
  capacity and a "converting" flag.

## Layout

| file | module | contents |
|---|---|---|
| `wrappers.dfy` | `Wrappers`, `Vectors`, `Int32` | `Option`/`Result`; `Vector2Int` as `Vec` and the scan order; C# `int` and unchecked wrap-around |
| `item.dfy` | `Items` | `Item`, the `ID_GEN` counter as an `IdGenerator` object, `Equals`/`GetHashCode`, the case-insensitive name test |
| `keyorder.dfy` | `KeyOrder` | the entry array and free list of a .NET `Dictionary`, which fix the order it enumerates its keys in |
| `grid.dfy` | `Grids` | the grid as a `map<Vec, Item>` value with its entry order; footprints, fit, placing, removing, enumeration, first fit, folds for the batch operations; the overflow findings |
| `inventory.dfy` | `Inventories` | the `Inventory` class, whose methods update `grid`, `slots` and a ghost trace of events |
| `health.dfy` | `Health` | the `HealthComponent` class and the pure function of damage it follows |
| `converter.dfy` | `Converters` | the `ResourceConverter` class |

## Modelling decisions

- **Events.** The four multicast events become one ghost trace `events: seq<Event>`, in firing order.
- **Dictionary order.** `_itemsGrid` is two fields: `grid`, the lookup from cell to item, and `slots`, the dictionary's entry array and free list (`KeyOrder.Slots`).
  - Whatever the C# reads in dictionary order (`GetPositions`, `Values`, the enumerator) is read in entry order (`KeyOrder.Order`).
  - `Add` reuses the most recently freed entry, otherwise it appends one. `Remove` frees the key's entry. `Clear` empties both.
  - So after removals a newly added key can be enumerated ahead of older keys (`KeyOrder.ReusesFreedEntry`).
  - Without removals, keys come in the order they were added (`KeyOrder.FreshInsertionOrder`). For one `AddItem` that order is `x` outer, `y` inner, over the block (`Grids.Cells`).
  - This is the order of the .NET `Dictionary<TKey, TValue>` implementation. The .NET documentation leaves the order unspecified.
- **Coordinates.** Coordinates and sizes are mathematical integers. 32-bit overflow changes behaviour in three places, all reported under Findings:
  - the sums of `CanAddItem`'s bounds test;
  - the differences `_width - size.x` and `_height - size.y` that bound `FindFreePosition`'s loops;
  - the counter `x++` of `FindFreePosition`'s outer loop. When the bound is exactly `int.MaxValue` and no anchor fits, `x` wraps to `int.MinValue` and the loop never ends.
- **Health and converter arithmetic.** These use a 32-bit `int32` newtype. `Health - damage` wraps as unchecked C# does.
- **Code over tests.** Where the repository's tests expect something the code does not do, the model follows the code:
  - `Count` is the number of occupied cells, not the number of items.
  - `FindFreePosition` scans column by column: `x` outer, `y` inner.
  - Re-adding an item that is already placed succeeds when its new cells are free.
  - `Clear` always fires `OnCleared`, even on an empty grid.
  - `GetItemCount` fails (`Err(NullReference)`) when a placed item has a null name.
  - `GetPositions(null)` fails (`Err(NullReference)`) only when the grid has a key. The `Where` lambda that dereferences the null never runs on an empty grid. `InventoryTests.cs:992-997` expects an exception on an empty 3 × 3 inventory.
  - Non-positive sizes are accepted.
- **ResourceConverter, as written.** `GetFreeInputResourceCount` reports 0 whenever the input count is not positive. A fresh converter therefore never takes input, and `StartConverting` never sets the flag.
  - `ResourceConverterTests.cs:22-34` expects the opposite.
  - `Converters.StartAfterAdding` states what the code does instead.

## Model

| member | source | states |
|---|---|---|
| Vectors.ScanOrderIsTotal | Assets/Modules/Inventory/Scripts/Inventory.cs:133-135 | the column-major scan order is total on distinct cells |
| Int32.Wrap | Assets/Scripts/Components/HealthComponent.cs:27 | unchecked 32-bit arithmetic: the identity in range, and always congruent modulo 2^32 |
| Items.IdGenerator.constructor | Assets/Modules/Inventory/Scripts/Item.cs:8 | the static counter starts at 0 |
| Items.Item.Named | Assets/Modules/Inventory/Scripts/Item.cs:17-27 | the item takes the counter's value as its id and advances the counter by one; name and size are stored as given; the private constructor at :41-44 is folded in |
| Items.Item.Unnamed | Assets/Modules/Inventory/Scripts/Item.cs:29-39 | as `Named`, but the name is the empty string |
| Items.Item.EqualsItem | Assets/Modules/Inventory/Scripts/Item.cs:54-57 | two items are Equal exactly when their hash codes agree |
| Items.Item.Equals | Assets/Modules/Inventory/Scripts/Item.cs:46-52 | false for null and for other runtime types; otherwise true exactly when the ids agree, so the same reference is always Equal |
| Items.EqualItemsHashEqually | Assets/Modules/Inventory/Scripts/Item.cs:46-62 | Equal items have equal hash codes |
| Items.EqualsIsEquivalence | Assets/Modules/Inventory/Scripts/Item.cs:46-57 | `Equals` is reflexive, symmetric and transitive |
| Items.BuildTwo | Assets/Modules/Inventory/Scripts/Item.cs:41-44 | two items built one after the other with the same name and size are not Equal |
| Items.EqualsIgnoreCaseIsEquivalence | Assets/Modules/Inventory/Scripts/Inventory.cs:258 | the case-insensitive name comparison is an equivalence |
| Items.NameMatches | Assets/Modules/Inventory/Scripts/Inventory.cs:258 | it throws exactly when the item's name is null; it matches exactly when both names are present and equal ignoring case |
| KeyOrder.IndexOf | Assets/Modules/Inventory/Scripts/Inventory.cs:186 | the index found holds the key; when none is found the key is in no entry |
| KeyOrder.OrderMembers | Assets/Modules/Inventory/Scripts/Inventory.cs:225-228 | the dictionary enumerates exactly the keys in its entries |
| KeyOrder.OrderNoDup | Assets/Modules/Inventory/Scripts/Inventory.cs:225-228 | when each key sits in one entry, the enumeration yields no key twice |
| KeyOrder.InsertWellformed | Assets/Modules/Inventory/Scripts/Inventory.cs:105 | adding a new key to a wellformed dictionary keeps it wellformed, with that key added: each key in one entry, the free list naming distinct empty entries |
| KeyOrder.InsertAllWellformed | Assets/Modules/Inventory/Scripts/Inventory.cs:101-107 | adding distinct new keys one by one keeps the dictionary wellformed and adds exactly those keys |
| KeyOrder.DeleteWellformed | Assets/Modules/Inventory/Scripts/Inventory.cs:186 | removing a key keeps the dictionary wellformed, with that key gone; an absent key changes nothing |
| KeyOrder.DeleteAllWellformed | Assets/Modules/Inventory/Scripts/Inventory.cs:184-187 | removing keys one by one keeps the dictionary wellformed and removes exactly those keys |
| KeyOrder.InsertAppends | Assets/Modules/Inventory/Scripts/Inventory.cs:105 | while no entry is free, `Add` enumerates the new key last and still leaves no entry free |
| KeyOrder.AppendsWhenNoneFreed | Assets/Modules/Inventory/Scripts/Inventory.cs:101-107 | while no entry is free, the keys added are enumerated after the old ones, in the order they were added |
| KeyOrder.FreshInsertionOrder | Assets/Modules/Inventory/Scripts/Inventory.cs:25 | a dictionary that has only been added to enumerates its keys in the order they were added |
| KeyOrder.ReusesFreedEntry | Assets/Modules/Inventory/Scripts/Inventory.cs:186 | after `Add(a)`, `Add(b)`, `Remove(a)`, the next key added takes the freed entry and is enumerated before `b` |
| Grids.Cells | Assets/Modules/Inventory/Scripts/Inventory.cs:101-107 | the cells the nested loops visit: exactly the block, `size.x * size.y` of them for positive sides, in scan order |
| Grids.CellsGrow | Assets/Modules/Inventory/Scripts/Inventory.cs:101-107 | one more pass of the outer loop visits the next column after the earlier ones: the cells stay sorted, cover exactly the wider block, and number its area |
| Grids.SortedSetSize | Assets/Modules/Inventory/Scripts/Inventory.cs:101-107 | the loops never visit a cell twice, so they write as many keys as they visit cells |
| Grids.InsertBlockIsInsertAll | Assets/Modules/Inventory/Scripts/Inventory.cs:101-107 | the nested loops add the block's keys to the dictionary one by one in the order of `Cells` |
| Grids.FootprintSize | Assets/Modules/Inventory/Scripts/Inventory.cs:101-107 | a block covers `size.x * size.y` cells, and none when a side is not positive |
| Grids.FitsCellwise | Assets/Modules/Inventory/Scripts/Inventory.cs:74-87 | out of bounds never fits; in bounds, fitting is exactly "no cell of the block is a key", whoever holds it |
| Grids.FitsStaysInside | Assets/Modules/Inventory/Scripts/Inventory.cs:74-76 | a block that fits lies inside the grid |
| Grids.FitsAfterRemoval | Assets/Modules/Inventory/Scripts/Inventory.cs:268-277 | freeing cells never stops a block from fitting |
| Grids.Place | Assets/Modules/Inventory/Scripts/Inventory.cs:101-107 | the keys after a placement are the old keys plus the block |
| Grids.PaintBlockIsPlace | Assets/Modules/Inventory/Scripts/Inventory.cs:101-107 | the nested loops' writes, column after column and cell after cell, give exactly the grid with the item on every cell of the block |
| Grids.PlaceSpec | Assets/Modules/Inventory/Scripts/Inventory.cs:96-111 | after a fitting placement, the block holds the item, no old key is overwritten, nothing else is added, the count grows by the area, and keys stay inside the grid |
| Grids.Without | Assets/Modules/Inventory/Scripts/Inventory.cs:183-187 | exactly the cells holding an Equal item are gone; every other cell keeps its item |
| Grids.RemoveUndoesPlace | Assets/Modules/Inventory/Scripts/Inventory.cs:178-191 | removing an item placed on a grid that did not hold it gives back that grid |
| Grids.MoveSpec | Assets/Modules/Inventory/Scripts/Inventory.cs:266-280 | after a move, the item holds exactly the new block, and every cell of every other item is unchanged in both directions |
| Grids.Holding | Assets/Modules/Inventory/Scripts/Inventory.cs:225-228 | the cells of the given key order whose item is Equal (same id) to the given one, and no others |
| Grids.HoldingNoDup | Assets/Modules/Inventory/Scripts/Inventory.cs:225-228 | filtering keys that repeat no cell yields positions that repeat no cell |
| Grids.ItemsAt | Assets/Modules/Inventory/Scripts/Inventory.cs:312 | the items at the given cells: each comes from one of the cells, and every occupied cell contributes its item |
| Grids.IdsOfCons | Assets/Modules/Inventory/Scripts/Inventory.cs:312 | the ids of a list are its head's id plus the ids of its tail |
| Grids.Distinct | Assets/Modules/Inventory/Scripts/Inventory.cs:259 | `Distinct()` by Equals: drawn from the input, no id twice, and every id of the input not already seen is kept |
| Grids.DistinctHead | Assets/Modules/Inventory/Scripts/Inventory.cs:259 | putting an item with a new id in front of a list with distinct ids keeps the ids distinct |
| Grids.DistinctInFirstOrder | Assets/Modules/Inventory/Scripts/Inventory.cs:259 | `Distinct()` keeps the first item of each id, and lists the ids in the order of their first occurrence in the input, which fixes the order `ReorganizeSpace` re-adds items in |
| Grids.DistinctKeepsFirst | Assets/Modules/Inventory/Scripts/Inventory.cs:259 | each item `Distinct()` keeps is the first item of its id in the input |
| Grids.DistinctFirstOrder | Assets/Modules/Inventory/Scripts/Inventory.cs:259 | the items `Distinct()` keeps come in the order of their ids' first occurrences in the input |
| Grids.DistinctItems | Assets/Modules/Inventory/Scripts/Inventory.cs:310-313 | the enumerator yields no id twice and only ids on the grid; over keys that cover the grid it yields every item's id |
| Grids.ItemsAtMostCells | Assets/Modules/Inventory/Scripts/Inventory.cs:20 | there are never more distinct items than occupied cells |
| Grids.FirstFitFrom | Assets/Modules/Inventory/Scripts/Inventory.cs:133-145 | the anchor found fits and no fitting anchor precedes it from the start point on; none is found exactly when nothing fits from there |
| Grids.FirstFitIsFirst | Assets/Modules/Inventory/Scripts/Inventory.cs:131-149 | the first fit is the fitting anchor that no fitting anchor precedes; there is none exactly when no anchor fits |
| Grids.FirstFitUnique | Assets/Modules/Inventory/Scripts/Inventory.cs:131-149 | an anchor that fits and has no fitting predecessor is the first fit |
| Grids.AddAtValid | Assets/Modules/Inventory/Scripts/Inventory.cs:96-111 | a call of `AddItem(item, position)` keeps every key inside the grid and the entries holding exactly the keys |
| Grids.AddAllFirstFitSpec | Assets/Modules/Inventory/Scripts/Inventory.cs:290-293 | adding a list first-fit keeps keys inside the grid, keeps every earlier cell, and adds no item outside the list |
| Grids.RepackOnlyListedItems | Assets/Modules/Inventory/Scripts/Inventory.cs:285-294 | repacking from the cleared grid leaves only listed items, inside the grid, with the entries holding exactly the keys |
| Grids.AddAllFirstFitValid | Assets/Modules/Inventory/Scripts/Inventory.cs:290-293 | adding a list first-fit keeps every key inside the grid and the entries holding exactly the keys |
| Grids.AddAllAtValid | Assets/Modules/Inventory/Scripts/Inventory.cs:38-39 | adding at given anchors keeps every key inside the grid and the entries holding exactly the keys |
| Grids.Named | Assets/Modules/Inventory/Scripts/Inventory.cs:258 | the `Where` filter throws exactly when some item in the list has a null name; otherwise it keeps exactly the items whose name matches |
| Grids.NamedIds | Assets/Modules/Inventory/Scripts/Inventory.cs:257-258 | over keys that cover the grid, the filtered values carry exactly the ids of the grid's items whose name matches |
| Grids.CountNamed | Assets/Modules/Inventory/Scripts/Inventory.cs:255-261 | it throws only when a placed item has a null name, and over keys that cover the grid whenever one has; otherwise the count is the number of distinct items whose name matches, which is at most the number of distinct items |
| Grids.EnumeratesInAddOrder | Assets/Modules/Inventory/Scripts/Tests/InventoryTests.cs:967-973 | in this fixture (a 1 × 2 item D added at `(4, 0)`, then a 3 × 2 item X at `(1, 2)` of a 5 × 5 inventory) both adds succeed, the keys are enumerated as D's cells and then X's, and the enumerator (`Assets/Modules/Inventory/Scripts/Inventory.cs:310-313`) lists D before X, so `ReorganizeSpace` re-adds D first |
| Grids.PositionsInAddOrder | Assets/Modules/Inventory/Scripts/Inventory.cs:178-191 | a 1 × 1 item added at `(3, 3)` and then again at `(0, 0)` has the positions `[(3, 3), (0, 0)]` in entry order; `RemoveItem` reports the first of them, `(3, 3)` |
| Grids.RepacksFixture | Assets/Modules/Inventory/Scripts/Inventory.cs:285-294 | repacking `[D, X]` first-fit from the cleared 5 × 5 grid puts D at `(0, 0)` and X at `(0, 2)` and fires `OnAdded` for D and then X |
| Grids.FitsAsWrittenAdmitsOutsideCell | Assets/Modules/Inventory/Scripts/Inventory.cs:74-76 | on an empty 5 × 5 grid, the 32-bit bounds test accepts a 1 × 1 block at `(int.MaxValue, 0)`, which lies outside the grid |
| Grids.FitsAsWrittenWithoutOverflow | Assets/Modules/Inventory/Scripts/Inventory.cs:74-85 | where no sum overflows, the 32-bit test and the model's test agree |
| Grids.ScanLimitAsWrittenSkipsFit | Assets/Modules/Inventory/Scripts/Inventory.cs:133-135 | on an empty 5 × 5 grid a block of size `(-2147483644, 1)` fits at `(0, 0)`, which is the first fit, but the 32-bit bound `5 - (-2147483644)` is negative |
| Grids.ScanAsWrittenNeverEnds | Assets/Modules/Inventory/Scripts/Inventory.cs:133 | on an empty 5 × 5 grid with size `(-2147483642, 6)`, no anchor fits, the 32-bit outer bound is exactly `int.MaxValue`, the inner bound is negative, and `int.MaxValue + 1` wraps to `int.MinValue`, so the C# outer loop never ends |
| Inventories.WriteBlock | Assets/Modules/Inventory/Scripts/Inventory.cs:101-107 | the outer loop leaves the grid with the item on every cell of its block and nothing else changed, and adds the block's keys to the entries in the order `x` outer, `y` inner |
| Inventories.WriteColumn | Assets/Modules/Inventory/Scripts/Inventory.cs:103-106 | the inner loop writes the item into every cell of one column of the block and adds those keys bottom up |
| Inventories.Inventory.constructor | Assets/Modules/Inventory/Scripts/Inventory.cs:27-31 | the sizes are stored unvalidated; the grid, the entries and the event trace start empty |
| Inventories.Inventory.WithPlacements | Assets/Modules/Inventory/Scripts/Inventory.cs:33-40 | `AddItem(item, position)` for each pair in order, results ignored; the `IEnumerable` overload at :51-58 is the same |
| Inventories.Inventory.WithItems | Assets/Modules/Inventory/Scripts/Inventory.cs:42-49 | each item goes to its first fit, or to `(0, 0)` when there is none; the `IEnumerable` overload at :60-67 is the same |
| Inventories.Inventory.Count | Assets/Modules/Inventory/Scripts/Inventory.cs:20 | the number of occupied cells, never less than the number of distinct items |
| Inventories.Inventory.CanAddSize | Assets/Modules/Inventory/Scripts/Inventory.cs:74-87 | the bounds test and the nested loops decide exactly `Fits` |
| Inventories.Inventory.CanAddItem | Assets/Modules/Inventory/Scripts/Inventory.cs:72-88 | false out of bounds; in bounds, true exactly when no cell of the block is a key |
| Inventories.Inventory.AddItemAt | Assets/Modules/Inventory/Scripts/Inventory.cs:96-111 | succeeds exactly when `CanAddItem` holds; then the block holds the item, its keys are added to the entries in loop order, and one `OnAdded` fires; on failure nothing changes; keys stay inside the grid |
| Inventories.Inventory.FindFreePosition | Assets/Modules/Inventory/Scripts/Inventory.cs:131-149 | the first fitting anchor in column-major order, or `(0, 0)` and false when no anchor fits |
| Inventories.Inventory.CanAddItemAnywhere | Assets/Modules/Inventory/Scripts/Inventory.cs:119-120 | true exactly when some anchor fits |
| Inventories.Inventory.AddItem | Assets/Modules/Inventory/Scripts/Inventory.cs:125-126 | succeeds exactly when some anchor fits, and places the item at the first one |
| Inventories.Inventory.Keys | Assets/Modules/Inventory/Scripts/Inventory.cs:225 | in a valid state, every key of `_itemsGrid` once, in entry order, and nothing else |
| Inventories.Inventory.Contains | Assets/Modules/Inventory/Scripts/Inventory.cs:154-155 | false for null; otherwise true exactly when the item has positions |
| Inventories.Inventory.PositionsWitness | Assets/Modules/Inventory/Scripts/Inventory.cs:223-229 | some cell holds an Equal item exactly when `GetPositions` is not empty |
| Inventories.Inventory.IsOccupied | Assets/Modules/Inventory/Scripts/Inventory.cs:160-161 | true exactly when the cell is a key; `GetItem` is then not null and, in a valid state, the cell lies inside the grid |
| Inventories.Inventory.IsFree | Assets/Modules/Inventory/Scripts/Inventory.cs:169-170 | the negation of `IsOccupied` |
| Inventories.Inventory.GetItem | Assets/Modules/Inventory/Scripts/Inventory.cs:208-209 | the item stored at a key, null at any other cell, so always null outside the grid |
| Inventories.Inventory.TryGetItem | Assets/Modules/Inventory/Scripts/Inventory.cs:214-215 | true exactly for occupied cells; the item is the one `GetItem` returns |
| Inventories.Inventory.Positions | Assets/Modules/Inventory/Scripts/Inventory.cs:223-229 | in a valid state, exactly the cells holding an Equal item, each once, in entry order |
| Inventories.Inventory.GetPositions | Assets/Modules/Inventory/Scripts/Inventory.cs:223-229 | throws exactly when the item is null and the grid has a key; `[]` for null on an empty grid; otherwise the item's positions in entry order |
| Inventories.Inventory.TryGetPositions | Assets/Modules/Inventory/Scripts/Inventory.cs:231-241 | `Contains`, with the positions `GetPositions` returns when true and null when false |
| Inventories.Inventory.RemoveCells | Assets/Modules/Inventory/Scripts/Inventory.cs:184-187 | each listed cell is removed from the lookup and from the entries, in order, and no other |
| Inventories.Inventory.PositionsAreHeldCells | Assets/Modules/Inventory/Scripts/Inventory.cs:183-187 | removing the item's positions removes exactly the item, and the entries then hold exactly the remaining keys |
| Inventories.Inventory.RemoveItem | Assets/Modules/Inventory/Scripts/Inventory.cs:178-191 | for a contained item, all its cells go, in entry order, the item is no longer contained, and `OnRemoved` fires with its first position in entry order; otherwise nothing changes |
| Inventories.Inventory.RemoveItemWithPosition | Assets/Modules/Inventory/Scripts/Inventory.cs:193-203 | as `RemoveItem`, also returning that first position, or `(0, 0)` when nothing is removed |
| Inventories.Inventory.Clear | Assets/Modules/Inventory/Scripts/Inventory.cs:246-250 | the grid and its entries are emptied and `OnCleared` fires, even on an empty grid |
| Inventories.Inventory.GetItemCount | Assets/Modules/Inventory/Scripts/Inventory.cs:255-261 | in a valid state it throws exactly when a placed item has a null name; otherwise it returns the number of distinct items whose name matches, at most the number of distinct items and of occupied cells |
| Inventories.Inventory.MoveItem | Assets/Modules/Inventory/Scripts/Inventory.cs:266-280 | succeeds exactly when the item is contained and fits at the new anchor with its own cells counted; then its old cells are removed in entry order and the new block added, it holds exactly the new block, other items keep their cells, and `OnAdded` then `OnMoved` fire; on failure nothing changes |
| Inventories.Inventory.Relocate | Assets/Modules/Inventory/Scripts/Inventory.cs:271-279 | once the item is contained and fits, removing its old cells in entry order and re-adding it keeps the inventory valid, places exactly the new block, leaves the other items' cells alone, and fires `OnAdded` then `OnMoved` |
| Inventories.Inventory.Enumerate | Assets/Modules/Inventory/Scripts/Inventory.cs:310-313 | in a valid state, every contained item exactly once; `Inventories.ReorganizeFixture` shows its order, by first cell in entry order, on a test fixture |
| Inventories.Inventory.ReorganizeSpace | Assets/Modules/Inventory/Scripts/Inventory.cs:285-294 | `Clear()`, then first-fit `AddItem` of each item in the order the enumerator listed them before; no new item appears |
| Inventories.Inventory.AddEach | Assets/Modules/Inventory/Scripts/Inventory.cs:290-293 | the loop adds each item first-fit, in order |
| Inventories.Inventory.CopyTo | Assets/Modules/Inventory/Scripts/Inventory.cs:299-308 | writes `GetItem(x, y)` in column-major order; it stops where the C# throws, with the earlier writes done and every other cell untouched |
| Inventories.ReorganizeFixture | Assets/Modules/Inventory/Scripts/Inventory.cs:285-294 | after `ReorganizeSpace()` on the inventory built from the fixture at `Assets/Modules/Inventory/Scripts/Tests/InventoryTests.cs:967-973`, the grid holds exactly D on its block at `(0, 0)` and X on its block at `(0, 2)`: the layout that follows from enumerating D before X |
| Health.Damaged | Assets/Scripts/Components/HealthComponent.cs:27 | never negative; `max(0, health - damage)` when the subtraction does not overflow; non-negative damage never heals |
| Health.ZeroIsAbsorbing | Assets/Scripts/Components/HealthComponent.cs:24-25 | from zero, any sequence of hits leaves zero |
| Health.HitsLeaveNonNegative | Assets/Scripts/Components/HealthComponent.cs:24-28 | after at least one hit the hit points are not negative |
| Health.HitsNeverHeal | Assets/Scripts/Components/HealthComponent.cs:27 | hits whose damage is not negative never raise the hit points |
| Health.DeadStaysDead | Assets/Scripts/Components/HealthComponent.cs:24-28 | once the hit points reach zero, later hits leave them at zero |
| Health.HealthComponent.constructor | Assets/Scripts/Components/HealthComponent.cs:11-15 | `Health == MaxHealth == maxHealth`, and no event has fired |
| Health.HealthComponent.TakeDamage | Assets/Scripts/Components/HealthComponent.cs:22-29 | at zero nothing happens and nothing fires; otherwise the hit points become `max(0, Health - damage)` and `OnStateChanged` fires once with the new value; `MaxHealth` is unchanged |
| Converters.ResourceConverter.constructor | Assets/Modules/ResourceConverter/Scripts/ResourceConverter.cs:17-21 | the capacities are stored; the counts are 0 and the converter is not converting |
| Converters.ResourceConverter.Default | Assets/Modules/ResourceConverter/Scripts/ResourceConverter.cs:17 | both capacities default to 1 |
| Converters.ResourceConverter.GetFreeInputResourceCount | Assets/Modules/ResourceConverter/Scripts/ResourceConverter.cs:42-48 | 0 for an empty zone or a non-positive capacity; when non-zero, adding it fills the zone exactly to capacity; never negative in a valid state; the subtraction cannot overflow |
| Converters.ResourceConverter.AddInputResource | Assets/Modules/ResourceConverter/Scripts/ResourceConverter.cs:23-33 | adds the free count taken before the call, whatever `count` is; hands back `count` minus that when `count` is larger, else 0; keeps the bounds invariant; from the idle state it stays idle and hands everything back; only `InputCount` changes |
| Converters.ResourceConverter.StartConverting | Assets/Modules/ResourceConverter/Scripts/ResourceConverter.cs:35-39 | sets the flag when there is input and never clears it |
| Converters.ResourceConverter.IsInputEmpty | Assets/Modules/ResourceConverter/Scripts/ResourceConverter.cs:50-53 | in a valid state, true exactly when the count is 0; an empty zone reports no free room |
| Converters.ResourceConverter.IsOutputEmpty | Assets/Modules/ResourceConverter/Scripts/ResourceConverter.cs:55-58 | always true in the idle state, since nothing writes the output count |
| Converters.StartAfterAdding | Assets/Modules/ResourceConverter/Tests/ResourceConverterTests.cs:22-34 | a fresh default converter given resources and then started is not converting and holds nothing |
| Converters.ChangeAfterAdding | Assets/Modules/ResourceConverter/Tests/ResourceConverterTests.cs:36-50 | a fresh converter hands back all of a positive count, which equals the count minus the free room afterwards |

## Left out

- Null `Item` arguments to `CanAddItem`, `AddItem`, `FindFreePosition` callers and the constructors: the C# dereferences them and throws. The model takes a non-null `Item` there. `Contains`, `GetPositions` (which returns `Err(NullReference)` for null on a non-empty grid), `TryGetPositions`, `RemoveItem` and `MoveItem` do take `Item?`.
- `Items.Item.EqualsItem`: takes a non-null item; `Equals(Item)` with null throws in the C#.
- The `(int x, int y)` overloads of `CanAddItem`, `AddItem`, `IsOccupied`, `IsFree`, `GetItem` and `TryGetItem`: each only builds a `Vector2Int` and delegates, so each is its `Vec` member.
- `ToString` on `Item`: string formatting only.
- `ID_GEN` wrap-around after 2^32 items: the counter is unbounded.
- `Inventories.Inventory.FindFreePosition`: does not model that the C# builds a throwaway `new Item(size)` for every anchor it probes. That advances the id counter once per probe. The model's search leaves the counter alone. Ids stay unique either way.
- Dictionary capacity, hashing and buckets: only the entry array and the free list are modelled, because only they decide the order of enumeration. `KeyOrder.Insert` also has a branch for a free list naming an entry outside the array; that branch is never taken in a wellformed dictionary (`KeyOrder.Wellformed`).
- `OrdinalIgnoreCase` beyond ASCII: the model folds only `a`–`z`.
- Null or oversized collections and a null matrix: arguments are sequences and a non-null array. `CopyTo`'s `IndexOutOfRangeException` is the `false` result of `Inventories.Inventory.CopyTo`.
- `HealthComponent.GetProgress`: it divides as a float.
- Event subscribers and multicast dispatch: events are a ghost trace only.
- `Grids.Fits` and the `Inventory` class: use unbounded coordinates, so they do not reproduce the 32-bit overflow in the bounds test. The overflow is modelled separately; see Findings.
- `Inventories.Inventory.FindFreePosition`: its loop bounds `width - size.x` and `height - size.y` are unbounded integers, while the C# differences wrap. On an empty 5 × 5 grid with size `(-2147483644, 1)`, the C# returns false and `(0, 0)`; the model returns true and `(0, 0)`. So C# `AddItem(item)` fails there, but the model places the (empty) block and fires `OnAdded`. `Grids.ScanLimitAsWrittenSkipsFit` exhibits the case; see Findings. The model's loop counter `x` is also unbounded. On an empty 5 × 5 grid with size `(-2147483642, 6)`, the C# `x++` wraps and `FindFreePosition` never returns. The same holds for `CanAddItem(item)`, `AddItem(item)` and the constructors taking items. The model returns false and `(0, 0)`. `Grids.ScanAsWrittenNeverEnds` exhibits the case.
- The engine side of the repository (enemies, bullets, pools, input, movement, level scrolling, damage dealing, interfaces): these are lifecycle hooks, physics, randomness and float vectors.

## Findings

| source | as written | input that shows it | evidently intended | confidence | as-written member | corrected member |
|---|---|---|---|---|---|---|
| Assets/Modules/Inventory/Scripts/Inventory.cs:74-76 | `position.x + item.Size.x > _width` is a 32-bit sum that can wrap to a negative number | empty 5 × 5 inventory, 1 × 1 item at `(int.MaxValue, 0)`: the sum wraps to `int.MinValue`, the test passes, and `AddItem` writes the key `(int.MaxValue, 0)` outside the grid | a block fits only when it lies inside the grid | not executed | Grids.FitsAsWrittenAdmitsOutsideCell | Grids.FitsStaysInside |
| Assets/Modules/Inventory/Scripts/Inventory.cs:133-135 | `x <= _width - size.x` and `y <= _height - size.y` use unchecked 32-bit differences that can wrap to a negative bound | empty 5 × 5 inventory, size `(-2147483644, 1)`: `5 - (-2147483644)` wraps to `-2147483647`, the outer loop never runs and `FindFreePosition` returns false, although the block fits at `(0, 0)` | the search visits every anchor from which the block can lie inside the grid | not executed; low, only sizes near `int.MinValue` reach it | Grids.ScanLimitAsWrittenSkipsFit | Inventories.Inventory.FindFreePosition |
| Assets/Modules/Inventory/Scripts/Inventory.cs:133 | `x++` is an unchecked 32-bit increment, and the loop test is `x <= _width - size.x` | empty 5 × 5 inventory, size `(-2147483642, 6)`: the bound `5 - (-2147483642)` is `int.MaxValue`, the inner loop never runs because `5 - 6 < 0`, `x` wraps from `int.MaxValue` to `int.MinValue` and the test holds again, so `FindFreePosition` never returns | the search ends, returning false and `(0, 0)` when no anchor fits | not executed; low, only sizes near `int.MinValue` reach it | Grids.ScanAsWrittenNeverEnds | Inventories.Inventory.FindFreePosition |
