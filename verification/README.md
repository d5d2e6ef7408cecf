# Grid-sim core in Dafny

A model of the in-memory core of Grid-sim's `script.ts`, a browser cellular-automaton editor. The model covers:

- **The grid occupancy store** (`Grid`). It is an ordered, sparse list of `(instance, position)` entries. `setCell` updates the list by index assignment, `push` and `splice`, and the read-only queries `getPosition`, `getPositions` and `entriesAtPos` work over it. The central invariant is that no position holds two blocking (non-floating) entries.
- **Blueprints** (`Cell`): their name and icon setters, their change listeners (`trackChanges`, `callChanges`), and the instances that refer to them (`CellInstance`).
- **The blueprint registry** (`AllCellClasses`). In the source it is a global. Here it is an explicit `Registry` object passed to whoever needs it. `addCell` keeps registered names pairwise distinct.
- **Two editor handlers.** The "new cell" button searches for the first free default name `New thing`, `New thing1`, `New thing2`, … The brush button cycles through the registered cells and back to "empty".
- **The layout loop** of `startSimulation`, which maps a flat index to a grid coordinate.

Modules, one per component:

- `Wrappers`: Option and Result.
- `Vectors`: `Vector2D` and the index/coordinate mapping.
- `Decimal`: `String(n)` and `Number(s)` on decimal text.
- `Cells`: `Cell`, `CellInstance` and `Registry`.
- `GridQueries`: entries and the queries over them.
- `Grids`: the placement rule, the `Grid` class and the layout loop.
- `Editor`: the two handlers.

State that the source changes in place is a class with `modifies` clauses:

- grid entries and size;
- a cell's name, icon, listener list and notification log;
- the registry's cell list;
- the brush index.

The queries are functions over the entry sequence. `Grids.Placed` gives, case by case, the list that `setCell` leaves behind. `Grid.SetCell` follows the source's steps, which are find → `indexOf` → assign, or push → find → `indexOf` → `splice`. It is proved to produce `Placed`, and the lemmas next to `Placed` state what the placement means.

One might expect a non-reference instance to lose its old entry before it is appended. `setCell` instead pushes first and then splices out the instance's first entry, and its overwrite branch removes nothing. The model follows the code, and the consequences are recorded under "## Findings".

## Model

| member | source | states |
|---|---|---|
| `Vectors.Equal` | script.ts:30-32 | componentwise equality holds exactly when the two points are equal |
| `Vectors.IndexToPosition` | script.ts:165 | `(i % width, floor(i / width))` has its column in `[0, width)` and its row non-negative; reading it back row-major gives `i` |
| `Vectors.IndexInBounds` | script.ts:164-165 | every index below `width * height` maps inside the grid |
| `Vectors.PositionIndexRoundTrip` | script.ts:165 | a position in a row of `width` columns is the image of its own row-major index |
| `Vectors.PositionIndexInRange` | script.ts:164-165 | a position inside the grid has an index below `width * height` |
| `Vectors.IndexToPositionInjective` | script.ts:165 | distinct indices map to distinct positions |
| `Grids.Layout` | script.ts:164-172 | the `width * height` drawn cells are inside the grid, pairwise distinct, and cover every grid position |
| `Decimal.ToString` | script.ts:336 | `String(n)` is a non-empty digit string without a leading zero |
| `Decimal.ParseToString` | script.ts:336 | `Number(String(n)) == n` |
| `Decimal.Parse` | script.ts:336 | `Number(i)` on a digit string is zero exactly when every digit is `0` |
| `Decimal.ToStringParse` | script.ts:336 | `String(Number(i)) == i` for a digit string without a leading zero, so the suffix text and its number determine each other |
| `Decimal.ToStringInjective` | script.ts:336 | distinct numbers have distinct decimal text |
| `Cells.Cell.constructor` | script.ts:46-54 | a new cell has the given name, icon and flags, no listeners and no notifications |
| `Cells.Cell.CallChanges` | script.ts:56-58 | every tracked listener is invoked once, in tracking order, and nothing else is invoked |
| `Cells.OccursOnce` | script.ts:56-58 | in a listener list without duplicates, each listener occurs exactly once, so `callChanges` calls it exactly once |
| `Cells.Cell.SetName` | script.ts:64-68 | a name that a registered cell already holds changes nothing and notifies no one; any other name is stored and all listeners are notified; registered names stay pairwise distinct |
| `Cells.Cell.SetIcon` | script.ts:74-77 | the icon is always stored and all listeners are notified |
| `Cells.Cell.TrackChanges` | script.ts:79-82 | a listener is appended only if it is not already tracked, so the list stays free of duplicates |
| `Cells.CellInstance.constructor` | script.ts:90-92 | an instance refers to the blueprint it was built from |
| `Cells.Registry.constructor` | script.ts:267-269 | the registry starts empty |
| `Cells.Registry.HasName` | script.ts:319 | `cells.some(val => val.name === str)` holds exactly when `str` is a registered name |
| `Cells.Registry.AddCell` | script.ts:317-323 | refuses (false, no change) exactly when the name is taken, which covers an already registered cell; otherwise appends the cell and returns true; registered names stay pairwise distinct |
| `GridQueries.IndexOf` | script.ts:141 | `indexOf` gives the first index holding the entry, or -1 exactly when the entry is absent |
| `GridQueries.EntriesAt` | script.ts:134-136 | `entriesAtPos` keeps exactly the entries at the position |
| `GridQueries.EntriesAtAppend` | script.ts:134-136 | `entriesAtPos` keeps list order: the entries at a position of a concatenation are those of the first part followed by those of the second |
| `GridQueries.FindBlocking` | script.ts:139 | finds a blocking entry exactly when there is one, and that entry is the first blocking entry |
| `GridQueries.FindInstance` | script.ts:124 | finds an entry of the instance exactly when it has one, and that entry is its first |
| `GridQueries.PositionsOf` | script.ts:131 | the listed positions are exactly those at which the instance has an entry |
| `GridQueries.PositionsOfAppend` | script.ts:131 | the positions of a concatenation are the positions of each part, in order |
| `GridQueries.GetPosition` | script.ts:122-127 | fails exactly on a reference blueprint; otherwise gives none exactly when the instance has no entry, else a position where it has one |
| `GridQueries.GetPositions` | script.ts:129-132 | fails exactly on a non-reference blueprint; otherwise lists exactly the instance's positions |
| `GridQueries.GetPositionIsFirst` | script.ts:122-132 | for a non-reference instance, `getPosition` is the first of its positions in list order, or none if it has none |
| `GridQueries.BlockerFound` | script.ts:139-141 | finding the blocker among the entries at a position, then `indexOf` of that entry, gives the first index of the whole list that blocks the position |
| `GridQueries.InstanceFound` | script.ts:149-151 | `find` followed by `indexOf` for an instance gives the index of its first entry |
| `Grids.Grid.constructor` | script.ts:105-116 | a new grid has the given size and no entries, the `width`/`height` getters give its x and y components, and it satisfies the occupancy invariant |
| `Grids.Grid.SetSize` | script.ts:110-120 | the size setter replaces the size and leaves the entries alone, and the `width`/`height` getters then give `v.x`/`v.y` |
| `Grids.Placed` | script.ts:138-156 | the list `setCell` leaves: it grows by one exactly when a reference instance is appended and keeps its length otherwise; the new entry is in it whenever the instance is a reference, overwrites a blocker, or already had an entry |
| `Grids.Grid.SetCell` | script.ts:138-156 | always returns true; the new list is `Placed(old list)`; the occupancy invariant is preserved |
| `Grids.PushThenSplice` | script.ts:148-153 | after the push, `find` always succeeds, and `indexOf` lands on the instance's old first entry, or on the pushed entry when there was none |
| `Grids.PlacedKeepsOccupancy` | script.ts:138-156 | if no position holds two blocking entries before `setCell`, none does afterwards, for every kind of instance |
| `Grids.PlacedOverwritesBlocker` | script.ts:139-142 | when a blocker sits at the position and the instance is not floating, that entry is overwritten in place: same length, every other entry unchanged, and the instance is now the position's first blocker |
| `Grids.PlacedAppendsReference` | script.ts:144-146 | otherwise a reference instance is appended and nothing is removed; its positions are its old ones followed by the new one |
| `Grids.ReferenceKeepsPlacements` | script.ts:139-146 | after placing a reference instance, its positions are exactly its old ones plus the new one |
| `Grids.PlacedRelocates` | script.ts:147-154 | outside the overwrite case, a placed non-reference instance loses its first entry and reappears last, at the new position; if it had one position, `getPosition` now gives the new one |
| `Grids.PlacedDropsUnplaced` | script.ts:147-154 | outside the overwrite case, a non-reference instance without an entry leaves the list unchanged and remains unplaced |
| `Grids.OverwriteLeavesOldPlacement` | script.ts:139-142 | a non-reference instance at `p1` placed over another blocker at `p2` ends up at both `p1` and `p2` |
| `Grids.PlacedIntendedLocates` | script.ts:138-156 | under the corrected rule, a non-reference instance is afterwards at exactly one position, the new one |
| `Grids.PlacedIntendedKeepsOccupancy` | script.ts:138-156 | the corrected rule keeps the occupancy invariant |
| `Grids.PlacedIntendedOnReferences` | script.ts:139-146 | for reference instances, the corrected rule is the rule as written |
| `Editor.Suffix` | script.ts:331-337 | the suffix `i` is empty exactly on the first attempt |
| `Editor.CandidateReadsBack` | script.ts:332 | the n-th attempted name `'New thing' + i` starts with `New thing`, and its suffix is empty exactly on the first attempt and otherwise reads back as n |
| `Editor.CandidateInjective` | script.ts:332-337 | the attempts `New thing`, `New thing1`, `New thing2`, … are pairwise distinct names |
| `Editor.Tried` | script.ts:332-337 | the names of the first n attempts include every one of them |
| `Editor.NotYetTried` | script.ts:332-337 | an attempt never retries a name an earlier attempt tried |
| `Editor.TriedCount` | script.ts:332-337 | n attempts try n distinct names |
| `Editor.TriedBound` | script.ts:332-337 | if the first n + 1 attempted names are all taken, at least n + 1 names are taken |
| `Editor.NextSuffix` | script.ts:333-337 | `i = '1'` on the empty suffix, otherwise `String(Number(i) + 1)`, gives the next attempt's suffix |
| `Editor.NextSuffixText` | script.ts:333-337 | the executed update of `i` yields the suffix of the next attempt |
| `Editor.NewCell` | script.ts:330-338 | the loop terminates; the registry grows by exactly one fresh cell; its name is the first attempted name that no registered cell held, and every earlier attempt was taken; registered names stay distinct |
| `Editor.AddNewCell` | script.ts:332 | `addCell(new Cell({name, icon}))` adds the fresh cell exactly when its name is free |
| `Editor.NextBrushIndex` | script.ts:348-349 | the brush index stays in `[-1, count - 1]`; it becomes -1 exactly when the next index would reach the count, and otherwise advances by one |
| `Editor.AfterClicks` | script.ts:347-349 | any number of clicks keeps the index in `[-1, count - 1]` |
| `Editor.BrushCycles` | script.ts:347-358 | starting from "empty", k clicks (k ≤ count) select cell k - 1, and count + 1 clicks return to "empty" |
| `Editor.Brush.constructor` | script.ts:344-346 | the brush starts at index -1 with "empty" selected |
| `Editor.Brush.Click` | script.ts:347-358 | a click moves the index as `NextBrushIndex` does, and selects the cell at that index, or "empty" at -1 |

## Left out

- DOM and UI code is not modelled: `removeAllChildren`, `editableTextModule`, `updateList`/`createCell`, the element lookups and the text updates of the click handlers. It is browser plumbing. The model keeps only the state those handlers change.
- `Cells.Registry.AddCell`: after a successful `addCell` the source runs `updateList` (script.ts:321), whose `createCell` calls `trackChanges` on every registered cell with a new closure (script.ts:285-287). `includes` never matches a fresh closure, so every registered cell, the new one included, gains one listener; the rename handler at script.ts:293-295 does the same. The model's `AddCell`, `Editor.AddNewCell` and `Editor.NewCell` leave every listener list unchanged, because those listeners only rewrite the icon text shown in the browser list.
- The drawing part of `startSimulation` is not modelled. `Grids.Layout` keeps only the coordinates of the cells it draws.
- The commented-out tick loop is not modelled. It depends on wall-clock time.
- `CellInstance.tick` is not modelled. It is an empty stub (script.ts:94-96).
- The loop at script.ts:360-364 is not modelled. It runs once at load, while the registry is still empty, so it registers no listener.
- Listener bodies are not modelled. A listener is an opaque id, and calling it is recorded in the cell's `notified` log. So the model does not capture a listener that changes the cell again while it is being notified.
- `Variable` lists are not modelled. They are copied at construction and never read.
- `console.log` output is not modelled.
- `isReference` and `isFloating` are `const` in the model. The file never reassigns them.
- Coordinates are unbounded integers. JavaScript numbers could also be fractional or NaN, which the file never produces. `Vector2D` is a value: the source stores the caller's `Vector2D` object by reference in `_size` and in each entry (script.ts:106, 119, 141, 145, 148), and the model drops that aliasing. The file never mutates a `Vector2D`, so behaviour is the same.
- `Grids.Layout`: the grid size is taken as two natural numbers. The only size the file sets is 30×30, and negative sizes, where JavaScript's `%` and `Math.floor` differ from Dafny's operators, are not modelled.
- `Decimal.Parse`: models `Number(s)` only on strings of decimal digits, the only strings the naming loop passes to it.
- `Editor.Brush.Click`: requires the class invariant `index >= -1`. The constructor establishes it and every click keeps it.
- script.ts has no `removeCell`, neighbour query, grid-wide tick, instruction interpreter, publish/subscribe hub or blueprint deletion, so none is modelled.
- `Editor.NewCellIcon`: the icon literal at script.ts:332 is stored in the file as the UTF-8 bytes of the tree emoji decoded as Latin-1 text. The model reads it as the intended single character U+1F332.

## Findings

| source | as written | input that shows it | evidently intended | confidence | as-written member | corrected member |
|---|---|---|---|---|---|---|
| script.ts:147-154 | For a non-reference instance, `setCell` pushes the new entry and then splices out the instance's first entry. If the instance had no entry yet, that first entry is the one just pushed. | A non-reference, non-floating instance placed on an empty grid: the entry list stays `[]`, `setCell` returns true, and `getPosition` gives null. | The instance is placed at the position. Any earlier entry it had is removed. | medium, not executed | `Grids.PlacedDropsUnplaced` | `Grids.PlacedIntendedLocates` |
| script.ts:139-142 | The overwrite branch replaces the blocker at the position and never removes the placed instance's other entries. | Entries `[(a, p1), (b, p2)]` with a and b non-reference and non-floating. `setCell(a, p2)` leaves `[(a, p1), (a, p2)]`, so a is in two places. | A non-reference instance occupies at most one position, as the comment at script.ts:43 implies. | medium, not executed | `Grids.OverwriteLeavesOldPlacement` | `Grids.PlacedIntendedLocates` |

The corrected rule is `Grids.PlacedIntended`:

- A non-reference instance first leaves every position it holds.
- It then overwrites the blocker at the new position when it is itself non-floating, and is appended otherwise.
- Reference instances are placed as before.

It is proved to keep the occupancy invariant, and to leave a non-reference instance at exactly the new position. `Grids.Grid.SetCell` keeps modelling the code as written.
