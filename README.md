# Tube rack slot allocation, modelled in Dafny

The tube rack library keeps laboratory items in a rack: a fixed grid of
`rows` by `columns` cells backed by a collection of the host inventory
framework. A `TubeRack` takes one item per cell, each new item going to the
first empty cell in row-major order unless the caller names the cell. A
`StripWellRack` takes whole strips of wells: the parts of a strip go into
the first row that is entirely empty, one part per column from column 0,
and each cell remembers the strip its part came from. `TubeRackFactory.build`
picks the kind of rack from the list it is handed, creates the rack and
adds every item in turn.

The project has five modules:

- `Grid` (`grid.dfy`): the grid as a value. It is a sequence of rows of
  cells, each empty or holding a `Slot`. A `Slot` records the item's id, its
  sample and, for a strip's part, the strip it came from. The module holds
  the row-major scans behind `get_empty` and `get_non_empty`, and the
  filter behind the finders. Its lemmas cover those scans: membership,
  order, the partition of the grid, and what a single write changes.
- `Items` (`items.dfy`): the inventory records handed to a rack, which are
  items, collections with their own layout of parts, samples, and
  anything else.
- `Placement` (`placement.dfy`): the specification the rack's methods are
  proved against. `Place` is what `add_item` does to the grid, with its
  exceptions. `PlaceAll` applies `add_item` to each item in turn, which is
  the factory's loop. The lemmas are about whole placement sequences: tubes
  fill the empty cells in row-major order, and strips take successive empty
  rows.
- `Racks` (`tube_rack.dfy`): the rack as a class over an `array2` of
  cells. One class stands for both `TubeRack` and `StripWellRack`: the
  constant `kind` says which, and `AddItem` dispatches on it as the
  subclass's override does. Every method is proved equal to the
  specification above.
- `Factory` (`factory.dfy`): `TubeRackFactory.build`, together with its
  choice of rack kind.

An exception the source raises becomes an `Err` of the `Result` datatype.
Its case names the exception class or, for a Ruby runtime error, the
reason.

## Model

| member | source | states |
|---|---|---|
| Grid.ScanMembers | tube_rack/libraries/tuberack/source.rb:38-44 | a scan lists exactly the cells that match its query (empty, occupied, holding an item, holding a sample, from a strip), each once, in row-major order |
| Grid.Partition | tube_rack/libraries/tuberack/source.rb:38-44 | the empty cells and the occupied cells split the grid: each in-bounds cell is in exactly one of the two, and their counts add up to rows * columns |
| Grid.BlankCapacity | tube_rack/libraries/tuberack/source.rb:29-36 | a newly created rack has rows * columns empty cells |
| Grid.FirstVacant | tube_rack/libraries/tuberack/source.rb:111 | the cell add_item picks when no location is given is empty, and every cell before it in row-major order is occupied; there is none exactly when every cell is occupied |
| Grid.Put | tube_rack/libraries/tuberack/source.rb:113-117 | writing a cell makes it hold the new record and leaves every other cell and the grid's shape unchanged |
| Grid.PutThenFind | tube_rack/libraries/tuberack/source.rb:69-76 | an item just written into a cell is found there, and an item it overwrote is no longer found there |
| Grid.FillFirstVacant | tube_rack/libraries/tuberack/source.rb:111 | after the first empty cell is filled, the empty cells are the earlier list without its head, in the same order |
| Grid.PartsFinds | tube_rack/libraries/tuberack/source.rb:94-96 | an id is among the rack's parts exactly when finding that id gives at least one cell |
| Items.RowPartAt | tube_rack/libraries/tuberack/source.rb:166 | within one row of a strip, the part of each occupied cell sits at the number of occupied cells to its left |
| Items.RowPartFrom | tube_rack/libraries/tuberack/source.rb:166 | every entry of a row's list of parts is the part of an occupied cell of that row, at the position RowPartAt gives it: one entry per occupied cell, left to right |
| Items.OccupiedPartAt | tube_rack/libraries/tuberack/source.rb:166-168 | the parts a strip brings (`Placement.StripParts`, the strip's `get_non_empty.map { part }`) are the occupied parts of its layout, and the part of the strip's occupied cell (r, c) is entry number (occupied cells of the rows above) + (occupied cells left of c in row r), so it goes into that column of the rack's row |
| Items.OccupiedPartFrom | tube_rack/libraries/tuberack/source.rb:166-168 | every part the strip brings is the part of one of its occupied cells, at the position OccupiedPartAt gives that cell |
| Placement.OneRowStripAdmissible | tube_rack/libraries/tuberack/source.rb:164-168 | a well-shaped strip of at most one row that passes check_dimensions never brings more parts than the rack has columns |
| Placement.TwoRowStripOverflows | tube_rack/libraries/tuberack/source.rb:164-168 | a full, well-shaped 2-by-2 strip passes check_dimensions on a 2-by-2 rack yet brings four parts for two columns |
| Placement.TubeSlot | tube_rack/libraries/tuberack/source.rb:113-117 | the record add_item writes for a tube carries the item's id and sample and names no strip |
| Placement.PartSlot | tube_rack/libraries/tuberack/source.rb:152-162 | a part's record carries the part's id and sample, and names a strip exactly when the part belongs to a collection |
| Placement.CheckDimensions | tube_rack/libraries/tuberack/source.rb:183-190 | a strip passes exactly when neither of its dimensions exceeds the rack's; otherwise IncompatibleDimensions is raised |
| Placement.FirstVacantRowFrom | tube_rack/libraries/tuberack/source.rb:171-181 | the row found has no occupied cell and every row before it holds something; none is found exactly when every row holds something |
| Placement.FirstVacantRowIs | tube_rack/libraries/tuberack/source.rb:171-181 | an empty row preceded only by rows that hold something is the row get_empty_row returns |
| Placement.WriteRow | tube_rack/libraries/tuberack/source.rb:164-168 | after a strip is written, row r holds its j-th part in column j; every other row and the columns beyond the strip are unchanged |
| Placement.Place | tube_rack/libraries/tuberack/source.rb:110-119 | add_item without a location leaves a grid of the same dimensions; the methods of Racks.TubeRack are proved equal to it |
| Placement.PlaceAll | tube_rack/libraries/tuberack/source.rb:18 | adding the items in turn, stopping at the first exception, leaves a grid of the same dimensions |
| Placement.PlaceAllStep | tube_rack/libraries/tuberack/source.rb:18 | once the first item is placed, adding the rest continues from the grid it left |
| Placement.TubeGoesFirst | tube_rack/libraries/tuberack/source.rb:110-119 | a tube added without a location goes into the first empty cell in row-major order |
| Placement.TubesFillEmptyCellsInOrder | tube_rack/libraries/tuberack/source.rb:110-119 | tubes added one after another without locations all succeed while there are enough empty cells; the k-th goes into the k-th empty cell of the starting grid in row-major order, and every other cell is unchanged |
| Placement.TubesOverflow | tube_rack/libraries/tuberack/source.rb:111-112 | adding more tubes than there are empty cells raises when a tube finds no empty cell (indexing the nil location) |
| Placement.TubesOnTwoByTwo | tube_rack/libraries/tuberack/source.rb:110-119 | on an empty 2-by-2 rack, four tubes go to (0,0), (0,1), (1,0) and (1,1) in that order, and a fifth raises |
| Placement.ClaimRow | tube_rack/libraries/tuberack/source.rb:164-169 | when the first m rows hold something and the rest are empty, writing a non-empty strip into row m keeps that shape with m + 1 rows |
| Placement.StripGoesToRow | tube_rack/libraries/tuberack/source.rb:164-169 | for a strip that fits and brings at least one part: it goes into the first empty row from column 0, and afterwards that row is taken |
| Placement.StripsTakeSuccessiveRows | tube_rack/libraries/tuberack/source.rb:164-181 | for strips that each fit and bring at least one part: added one after another, they take successive empty rows: the k-th goes into row m + k with its j-th part in column j, and the rows already taken stay as they were |
| Placement.StripsOverflow | tube_rack/libraries/tuberack/source.rb:171-181 | for strips that each fit and bring at least one part: adding more of them than there are empty rows raises NoEmptyRows |
| Placement.StripsOnEmptyRack | tube_rack/libraries/tuberack/source.rb:164-181 | for strips that each fit and bring at least one part: on an empty rack the k-th strip fills row k from column 0; with more strips than rows, NoEmptyRows is raised |
| Placement.StripSkipsPartlyFilledRow | tube_rack/libraries/tuberack/source.rb:171-181 | a two-part strip on a 3-by-2 rack whose row 0 holds one tube goes into row 1, not into the free cell of row 0 |
| Placement.StripLeavesOccupiedRows | tube_rack/libraries/tuberack/source.rb:171-181 | adding a strip never changes a row that already holds something |
| Placement.FindStripAfterWrite | tube_rack/libraries/tuberack/source.rb:142-148 | after a strip is written into an empty row, find_stripwell for any strip gives the cells it gave before plus the new row's cells whose part belongs to that strip |
| Racks.TubeRack.constructor | tube_rack/libraries/tuberack/source.rb:29-36 | a new rack has the object type's dimensions and name, the collection's id, and every cell empty |
| Racks.TubeRack.Wrap | tube_rack/libraries/tuberack/source.rb:29-36 | a rack over an existing collection has that collection's dimensions and holds exactly its cells |
| Racks.TubeRack.ScanGrid | tube_rack/libraries/tuberack/source.rb:38-44 | a scan of the rack lists exactly the in-bounds cells of the array that match, in row-major order |
| Racks.TubeRack.ScanEmpty | tube_rack/libraries/tuberack/source.rb:78-84 | a scan of the rack is empty exactly when no cell of the array matches |
| Racks.TubeRack.Dimensions | tube_rack/libraries/tuberack/source.rb:46-48 | the rack's dimensions are those of its grid of cells |
| Racks.TubeRack.GetEmpty | tube_rack/libraries/tuberack/source.rb:42-44 | lists exactly the empty cells, in row-major order |
| Racks.TubeRack.GetNonEmpty | tube_rack/libraries/tuberack/source.rb:38-40 | lists exactly the occupied cells, in row-major order |
| Racks.TubeRack.IsEmpty | tube_rack/libraries/tuberack/source.rb:78-80 | true exactly when no cell is occupied |
| Racks.TubeRack.IsFull | tube_rack/libraries/tuberack/source.rb:82-84 | true exactly when every cell is occupied |
| Racks.TubeRack.Part | tube_rack/libraries/tuberack/source.rb:106-108 | the record returned is the one the occupied cell holds |
| Racks.TubeRack.Parts | tube_rack/libraries/tuberack/source.rb:94-96 | one id per occupied cell, in get_non_empty order; the k-th is the item at the k-th occupied cell |
| Grid.PushMatching | tube_rack/libraries/tuberack/source.rb:71-75 | pushing each walked location whose cell matches, in walk order, gives exactly the matching locations of the walk, in that order |
| Racks.TubeRack.Collect | tube_rack/libraries/tuberack/source.rb:72-75 | walking the occupied cells and pushing each match gives exactly the query's row-major scan |
| Racks.TubeRack.FindItem | tube_rack/libraries/tuberack/source.rb:69-76 | the cells holding the item are exactly the ones returned, in row-major order |
| Racks.TubeRack.FindSample | tube_rack/libraries/tuberack/source.rb:60-67 | the cells whose item holds the sample are exactly the ones returned, in row-major order |
| Racks.TubeRack.Find | tube_rack/libraries/tuberack/source.rb:50-58 | a sample is looked up by sample and an item by id; anything else is refused |
| Racks.TubeRack.FindStripwell | tube_rack/libraries/tuberack/source.rb:142-148 | on a strip well rack, the only kind that has find_stripwell: the cells whose record names the strip are exactly the ones returned, in row-major order |
| Racks.TubeRack.Write | tube_rack/libraries/tuberack/source.rb:113-117 | the rack's cells afterwards are the old ones with that one cell written |
| Racks.TubeRack.TubeAddItem | tube_rack/libraries/tuberack/source.rb:110-119 | the item's record (TubeSlot) goes to the given cell or, with none given, to the first empty cell, and that cell is returned; a full rack with no location given raises (NilLocation) and nothing changes |
| Racks.TubeRack.GetEmptyRow | tube_rack/libraries/tuberack/source.rb:171-181 | returns the least row with no occupied cell, or raises NoEmptyRows when every row holds something |
| Racks.TubeRack.AddSingleItem | tube_rack/libraries/tuberack/source.rb:152-162 | the part's record, with its strip back-reference, is written to the given cell and that cell is returned |
| Racks.TubeRack.AddStripWell | tube_rack/libraries/tuberack/source.rb:164-169 | the dimension check comes before the row search; on success the strip's parts fill the first empty row from column 0 and are returned; after any exception the rack is unchanged |
| Racks.TubeRack.StripWellAddItem | tube_rack/libraries/tuberack/source.rb:126-133 | a non-collection raises IncompatibleObjectType; otherwise the outcome and the new cells are those Place gives, and on success the strip's parts are returned |
| Racks.TubeRack.AddItem | tube_rack/libraries/tuberack/source.rb:110-119 | without a location, the outcome and the new cells are those Place gives for the rack's kind, and on success a tube rack returns the first empty cell as [row, column] while a strip well rack returns the strip's parts; a location given to a strip well rack raises; after any exception the rack is unchanged |
| Racks.TubeRack.Set | tube_rack/libraries/tuberack/source.rb:98-101 | only an item is accepted and it goes to the named cell of a tube rack; a strip well rack raises ArgumentError (WrongArguments), since its add_item takes the item alone |
| Racks.FindAsWritten | tube_rack/libraries/tuberack/source.rb:60-76 | as written, find raises for every sample and every item, and refuses anything else |
| Racks.FindAsWrittenMissesPlacedTube | tube_rack/libraries/tuberack/source.rb:69-76 | a tube just placed is in the intended scans by id and by sample, while find as written raises for both |
| Factory.AllCollections | tube_rack/libraries/tuberack/source.rb:11 | true exactly when every value is a collection; false exactly when an item that is not a collection is reached first; raises (NoMethod) exactly when a non-item is reached first |
| Factory.RackKind | tube_rack/libraries/tuberack/source.rb:10-17 | a strip well rack exactly when every value is a collection, the empty list included; a tube rack exactly when every value is an item and one is not a collection; otherwise an exception, exactly when some value is not an item |
| Factory.PlaceAllFrom | tube_rack/libraries/tuberack/source.rb:18 | an item that raises ends the rest of the placement with its exception; an item that succeeds lets the rest continue from the grid it left |
| Factory.AddEach | tube_rack/libraries/tuberack/source.rb:18 | adding the items in turn without locations gives exactly what PlaceAll gives from the rack's grid, and on success the rack holds that grid |
| Factory.Build | tube_rack/libraries/tuberack/source.rb:9-20 | an exception from choosing the kind is returned; otherwise a new rack of that kind and of the object type's dimensions is returned, holding exactly the grid PlaceAll gives from empty, or the first exception adding an item raised |
| Factory.BuildsTubeRack | tube_rack/libraries/tuberack/source.rb:9-20 | a built tube rack takes up to rows * columns items, the k-th in the k-th cell in row-major order; one more raises |
| Factory.BuildsStripWellRack | tube_rack/libraries/tuberack/source.rb:9-20 | for strips that each fit and bring at least one part: a built strip well rack holds the k-th strip's parts in row k from column 0; more strips than rows raise NoEmptyRows |
| Factory.MixedListBuildsTubeRack | tube_rack/libraries/tuberack/source.rb:9-20 | a collection followed by a plain tube chooses a tube rack, whatever the collection holds, so the collection is then placed like any tube (where each goes on a 2-by-2 rack is TubesOnTwoByTwo) |

## Behaviour as coded

- With an explicit location, `add_item` overwrites whatever the cell held.
  No occupied-cell error is raised, and `TubeAddItem` is specified that way.
- A full `TubeRack` raises no error of its own for `add_item` without a
  location. `get_empty.first` is nil, indexing nil raises NoMethodError,
  and the model reports this as `NilLocation`.
- `find_stripwell` returns every matching cell in row-major order, not
  just the first one. As written, `find_item` and `find_sample` raise on
  every call (see "## Findings"); with their guards corrected they would
  also return every matching cell.
- A strip with no parts passes the checks and still calls
  `get_empty_row`. It therefore raises when no row is empty and otherwise
  changes nothing, and the model does the same.

## Left out

- `next` and `num_samples` forward to the framework's collection and hold no rack logic of their own.
- The persistence calls are not modelled: `Collection.new_collection`, `mark_as_deleted`, the `Generic Tube Rack` sample written into each cell, the data associations and `Item.find`. A cell's `Slot` stands for the part and its associations, and the new collection's id is a parameter.
- `get_empty` and `get_non_empty` are the framework's; the model assumes they enumerate cells in row-major order.
- The `instructions:` parameter of `build` is never read and is not modelled.
- Error messages are not modelled; only which exception is raised.
- Racks.TubeRack.TubeAddItem: an explicit location must lie inside the grid (a `requires`). `Racks.TubeRack.AddItem` and `Racks.TubeRack.Set` carry the same `requires` on a tube rack. What the framework's `set` does with a cell outside it is not part of this model.
- Racks.TubeRack.AddStripWell: a strip that passes `check_dimensions` must have no more parts than the rack has columns (`Admissible`, a `requires`). When such a strip finds an empty row, the source writes past the last column, which is the framework's behaviour and not part of this model. `Placement.OneRowStripAdmissible` shows that a well-shaped strip of one row always meets this. `Placement.TwoRowStripOverflows` shows a two-row strip that does not. The same `requires` is carried by `Placement.Place` for a strip well rack, `Placement.PlaceAll` (every item of the list), `Racks.TubeRack.StripWellAddItem`, `Racks.TubeRack.AddItem` without a location on a strip well rack, `Factory.AddEach`, and `Factory.Build` when every value is a collection. It also excludes two inputs on which the source never writes past the last column. (a) On a rack with no empty row, such a strip makes the source raise NoEmptyRows before any write. (b) In `Build`, `PlaceAll` and `AddEach`, every strip of the list must meet it, including strips after one that raises, which the source never reaches. It does not apply to a location given to a strip well rack, to `Set`, or to a list that builds a tube rack.
- Racks.TubeRack.FindStripwell: a cell whose record names no strip is skipped. In the source, `get_strip_well` on such a cell calls `Collection.find(nil)`, whose outcome is the framework's and not part of this model.
- Factory.AllCollections: a value that is not an item is assumed not to answer `collection?` (it raises NoMethodError). That method belongs to the framework's classes, which are not part of this model.
- The helper library (`tube_rack/libraries/tuberackhelper`) is not part of this model.

## Findings

| source | as written | input that shows it | evidently intended | confidence | as-written member | corrected member |
|---|---|---|---|---|---|---|
| tube_rack/libraries/tuberack/source.rb:61 | `sample.is_a Sample` calls `is_a`, which is not a method (the predicate is `is_a?`), so `find_sample` raises NoMethodError before scanning | `find(s)` where `s` is the sample of a tube just added to the rack | check the type with `is_a?`, then return the cells whose item holds the sample | not executed | Racks.FindAsWrittenMissesPlacedTube | Racks.TubeRack.FindSample |
| tube_rack/libraries/tuberack/source.rb:70 | `item.is_a item` calls the same missing `is_a`, and it compares against the item itself rather than the class `Item`, so `find_item` always raises | `find(item)` right after `add_item(item)` | check `is_a? Item`, then return the cells holding the item | not executed | Racks.FindAsWrittenMissesPlacedTube | Racks.TubeRack.FindItem |
