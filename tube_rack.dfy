/** A tube rack: a fixed rows-by-columns grid of cells, each empty or
    holding the record of one placed item. One class stands for both
    TubeRack and its subclass StripWellRack; `kind` says which, and
    AddItem dispatches on it as the subclass's override does. */
module Racks {
  import opened Grid
  import opened Items
  import opened Placement

  /** A container type as the rack reads it: its name and its dimensions. */
  datatype ObjectType = ObjectType(name: string, rows: nat, columns: nat)

  /** What add_item returns: the `[row, column]` a TubeRack wrote, or the
      parts a StripWellRack placed. */
  datatype Placed = AtCell(loc: Loc) | StripPlaced(parts: seq<Item>)

  class TubeRack {
    const kind: Kind
    const objectType: string
    const rows: nat
    const columns: nat
    const id: CollectionId
    /** The collection's matrix of parts. */
    const grid: array2<Option<Slot>>

    ghost predicate Valid()
      reads this
    {
      grid.Length0 == rows && grid.Length1 == columns
    }

    /** The grid as a value. */
    function Contents(): (g: Cells)
      reads this, grid
      ensures Shaped(g, grid.Length0, grid.Length1)
    {
      seq(grid.Length0, r requires 0 <= r < grid.Length0 reads grid =>
        seq(grid.Length1, c requires 0 <= c < grid.Length1 reads grid => grid[r, c]))
    }

    /** A scan of the grid lists exactly the in-bounds cells that match, in
        row-major order. */
    lemma ScanGrid(q: Query)
      requires Valid()
      ensures forall l :: l in Scan(Contents(), q) <==> InBounds(l, rows, columns) && Matches(q, grid[l.row, l.col])
      ensures forall j, k :: 0 <= j < k < |Scan(Contents(), q)| ==> Before(Scan(Contents(), q)[j], Scan(Contents(), q)[k])
    {
      var g := Contents();
      ScanMembers(g, q);
      forall l ensures On(g, l) <==> InBounds(l, rows, columns) {
      }
      forall l | InBounds(l, rows, columns) ensures g[l.row][l.col] == grid[l.row, l.col] {
      }
    }

    /** A scan of the grid is empty exactly when no cell matches. */
    lemma ScanEmpty(q: Query)
      requires Valid()
      ensures Scan(Contents(), q) == [] <==>
        forall r, c :: 0 <= r < rows && 0 <= c < columns ==> !Matches(q, grid[r, c])
    {
      ScanGrid(q);
      var s := Scan(Contents(), q);
      if s != [] {
        assert s[0] in s;
      }
      forall r, c | 0 <= r < rows && 0 <= c < columns && Matches(q, grid[r, c]) ensures Loc(r, c) in s {
      }
    }

    /** A rack over a new, empty collection of the given container type. */
    constructor (kind: Kind, objectType: ObjectType, id: CollectionId)
      ensures Valid() && fresh(grid)
      ensures this.kind == kind && this.objectType == objectType.name && this.id == id
      ensures rows == objectType.rows && columns == objectType.columns
      ensures Contents() == Blank(rows, columns)
    {
      this.kind := kind;
      this.objectType := objectType.name;
      this.id := id;
      rows := objectType.rows;
      columns := objectType.columns;
      grid := new Option<Slot>[objectType.rows, objectType.columns]((_, _) => None);
      new;
      CellsEqual(Contents(), Blank(rows, columns), rows, columns);
    }

    /** A rack over an existing collection, named by that collection's
        container type and keeping the collection's contents. */
    constructor Wrap(kind: Kind, typeName: string, id: CollectionId, existing: Cells, rows: nat, columns: nat)
      requires Shaped(existing, rows, columns)
      ensures Valid() && fresh(grid)
      ensures this.kind == kind && objectType == typeName && this.id == id
      ensures this.rows == rows && this.columns == columns
      ensures Contents() == existing
    {
      this.kind := kind;
      objectType := typeName;
      this.id := id;
      this.rows := rows;
      this.columns := columns;
      grid := new Option<Slot>[rows, columns]((r, c) requires 0 <= r < rows && 0 <= c < columns => existing[r][c]);
      new;
      CellsEqual(Contents(), existing, rows, columns);
    }

    /** `[rows, columns]`: the size of the grid. */
    function Dimensions(): (d: (nat, nat))
      reads this
      requires Valid()
      ensures d.0 == grid.Length0 && d.1 == grid.Length1
    {
      (rows, columns)
    }

    /** The collection's get_empty: the empty cells, in row-major order. */
    function GetEmpty(): (locs: seq<Loc>)
      reads this, grid
      requires Valid()
      ensures forall l :: l in locs <==> InBounds(l, rows, columns) && grid[l.row, l.col].None?
      ensures forall j, k :: 0 <= j < k < |locs| ==> Before(locs[j], locs[k])
    {
      ScanGrid(Vacant);
      Scan(Contents(), Vacant)
    }

    /** The collection's get_non_empty: the occupied cells, in row-major
        order. */
    function GetNonEmpty(): (locs: seq<Loc>)
      reads this, grid
      requires Valid()
      ensures forall l :: l in locs <==> InBounds(l, rows, columns) && grid[l.row, l.col].Some?
      ensures forall j, k :: 0 <= j < k < |locs| ==> Before(locs[j], locs[k])
      ensures AllFilled(Contents(), locs)
    {
      ScanGrid(Filled);
      ScanMembers(Contents(), Filled);
      Scan(Contents(), Filled)
    }

    /** The collection's empty?: no cell is occupied. */
    function IsEmpty(): (b: bool)
      reads this, grid
      requires Valid()
      ensures b <==> forall r, c :: 0 <= r < rows && 0 <= c < columns ==> grid[r, c].None?
    {
      ScanEmpty(Filled);
      GetNonEmpty() == []
    }

    /** The collection's full?: no cell is empty. */
    function IsFull(): (b: bool)
      reads this, grid
      requires Valid()
      ensures b <==> forall r, c :: 0 <= r < rows && 0 <= c < columns ==> grid[r, c].Some?
    {
      ScanEmpty(Vacant);
      GetEmpty() == []
    }

    /** The record of the item at an occupied cell. */
    function Part(r: nat, c: nat): (s: Slot)
      reads this, grid
      requires Valid() && r < rows && c < columns && grid[r, c].Some?
      ensures grid[r, c] == Some(s)
    {
      grid[r, c].value
    }

    /** The ids of the items held, one per occupied cell, in the order of
        get_non_empty. */
    function Parts(): (ids: seq<ItemId>)
      reads this, grid
      requires Valid()
      ensures |ids| == |GetNonEmpty()|
      ensures forall k :: 0 <= k < |ids| ==>
        var l := GetNonEmpty()[k]; grid[l.row, l.col].Some? && ids[k] == grid[l.row, l.col].value.item
    {
      PartsOf(Contents(), GetNonEmpty())
    }

    /** The occupied cells whose record matches `q`, collected by walking
        get_non_empty and pushing each match. */
    method Collect(q: Query) returns (locs: seq<Loc>)
      requires Valid() && PicksOccupied(q)
      ensures locs == Scan(Contents(), q)
    {
      var cells := Contents();
      locs := PushMatching(cells, GetNonEmpty(), q);
      ScanKeep(cells, q);
    }

    /** find_item: every occupied cell holding the item, in row-major
        order; an item never placed gives no cells. */
    method FindItem(item: Item) returns (locs: seq<Loc>)
      requires Valid()
      ensures forall l :: l in locs <==>
        InBounds(l, rows, columns) && grid[l.row, l.col].Some? && grid[l.row, l.col].value.item == item.id
      ensures forall j, k :: 0 <= j < k < |locs| ==> Before(locs[j], locs[k])
      ensures locs == Scan(Contents(), Holds(item.id))
    {
      locs := Collect(Holds(item.id));
      ScanGrid(Holds(item.id));
    }

    /** find_sample: every occupied cell whose item holds the sample, in
        row-major order. */
    method FindSample(sample: SampleId) returns (locs: seq<Loc>)
      requires Valid()
      ensures forall l :: l in locs <==>
        InBounds(l, rows, columns) && grid[l.row, l.col].Some? && grid[l.row, l.col].value.sample == Some(sample)
      ensures forall j, k :: 0 <= j < k < |locs| ==> Before(locs[j], locs[k])
      ensures locs == Scan(Contents(), OfSample(sample))
    {
      locs := Collect(OfSample(sample));
      ScanGrid(OfSample(sample));
    }

    /** find: a sample is looked up by sample, an item by identity, and
        anything else is refused. */
    method Find(v: Value) returns (r: Result<seq<Loc>>)
      requires Valid()
      ensures v.ASample? ==> r == Ok(Scan(Contents(), OfSample(v.sample)))
      ensures v.AnItem? ==> r == Ok(Scan(Contents(), Holds(v.item.id)))
      ensures v.Other? ==> r == Err(NotFindable)
    {
      match v
      case ASample(s) =>
        var locs := FindSample(s);
        r := Ok(locs);
      case AnItem(item) =>
        var locs := FindItem(item);
        r := Ok(locs);
      case Other =>
        r := Err(NotFindable);
    }

    /** find_stripwell, which only a StripWellRack has: every occupied cell
        whose record names the strip as the collection its part came from,
        in row-major order. */
    method FindStripwell(strip: Item) returns (locs: seq<Loc>)
      requires Valid() && kind == StripWellKind
      ensures forall l :: l in locs <==>
        InBounds(l, rows, columns) && grid[l.row, l.col].Some? && grid[l.row, l.col].value.strip == Some(strip.id)
      ensures forall j, k :: 0 <= j < k < |locs| ==> Before(locs[j], locs[k])
      ensures locs == Scan(Contents(), FromStrip(strip.id))
    {
      locs := Collect(FromStrip(strip.id));
      ScanGrid(FromStrip(strip.id));
    }

    /** The collection's set of a cell followed by the association of the
        record with the new part: the cell now holds `s`, whatever it held,
        and no other cell changes. */
    method Write(l: Loc, s: Slot)
      requires Valid() && InBounds(l, rows, columns)
      modifies grid
      ensures Contents() == Put(old(Contents()), l, s)
    {
      ghost var before := Contents();
      grid[l.row, l.col] := Some(s);
      CellsEqual(Contents(), Put(before, l, s), rows, columns);
    }

    /** TubeRack#add_item: writes the item at the given location or, with
        none, at the first empty cell, and returns that location. With no
        location on a full rack, get_empty.first is nil and the source
        fails on it. */
    method TubeAddItem(item: Item, location: Option<Loc>) returns (r: Result<Placed>)
      requires Valid()
      requires location.Some? ==> InBounds(location.value, rows, columns)
      modifies grid
      ensures location.Some? ==> r == Ok(AtCell(location.value))
      ensures location.None? && FirstVacant(old(Contents())).None? ==> r == Err(NilLocation)
      ensures location.None? && FirstVacant(old(Contents())).Some? ==> r == Ok(AtCell(FirstVacant(old(Contents())).value))
      ensures r.Ok? ==> Contents() == Put(old(Contents()), r.value.loc, TubeSlot(item))
      ensures r.Err? ==> Contents() == old(Contents())
    {
      var l: Loc;
      if location.Some? {
        l := location.value;
      } else {
        var empty := GetEmpty();
        if empty == [] {
          return Err(NilLocation);
        }
        l := empty[0];
      }
      Write(l, TubeSlot(item));
      r := Ok(AtCell(l));
    }

    /** get_empty_row: the least row whose every column is empty; a row
        with even one occupied cell is skipped. */
    method GetEmptyRow() returns (r: Result<nat>)
      requires Valid()
      ensures r.Ok? ==> r.value < rows && forall c :: 0 <= c < columns ==> grid[r.value, c].None?
      ensures r.Ok? ==> forall p :: 0 <= p < r.value ==> !RowVacant(Contents(), p)
      ensures r.Err? ==> r.error == NoEmptyRows
      ensures r.Err? ==> forall p :: 0 <= p < rows ==> !RowVacant(Contents(), p)
      ensures r.Ok? <==> FirstVacantRow(Contents()).Some?
      ensures r.Ok? ==> r.value == FirstVacantRow(Contents()).value
    {
      for row := 0 to rows
        invariant forall p :: 0 <= p < row ==> !RowVacant(Contents(), p)
      {
        var skip := false;
        for column := 0 to columns
          invariant skip <==> exists c :: 0 <= c < column && grid[row, c].Some?
        {
          if grid[row, column].Some? {
            skip := true;
          }
        }
        if !skip {
          assert RowVacant(Contents(), row) by {
            forall c | 0 <= c < columns ensures Contents()[row][c] == grid[row, c] {
            }
          }
          FirstVacantRowIs(Contents(), row);
          return Ok(row);
        }
        assert !RowVacant(Contents(), row) by {
          var c :| 0 <= c < columns && grid[row, c].Some?;
          assert Contents()[row][c] == grid[row, c];
        }
      }
      r := Err(NoEmptyRows);
    }

    /** add_single_item: writes a part of a strip at the given location,
        recording the strip it came from when it is a part of one. */
    method AddSingleItem(item: Item, l: Loc) returns (placed: Loc)
      requires Valid() && InBounds(l, rows, columns)
      modifies grid
      ensures placed == l
      ensures Contents() == Put(old(Contents()), l, PartSlot(item))
    {
      Write(l, PartSlot(item));
      placed := l;
    }

    /** add_strip_well: checks the strip's dimensions, then finds the first
        empty row, then writes the strip's k-th occupied part into column k
        of that row. Nothing is written when either check raises. */
    method AddStripWell(strip: Item) returns (r: Result<Placed>)
      requires Valid() && strip.IsCollection() && Admissible(StripWellKind, rows, columns, strip)
      modifies grid
      ensures CheckDimensions(strip.layout.value, rows, columns).Err? ==> r == Err(IncompatibleDimensions)
      ensures CheckDimensions(strip.layout.value, rows, columns).Ok? && FirstVacantRow(old(Contents())).None?
        ==> r == Err(NoEmptyRows)
      ensures r.Ok? <==> CheckDimensions(strip.layout.value, rows, columns).Ok? && FirstVacantRow(old(Contents())).Some?
      ensures r.Err? ==> Contents() == old(Contents())
      ensures r.Ok? ==> r.value == StripPlaced(StripParts(strip))
      ensures r.Ok? ==> FirstVacantRow(old(Contents())).Some? && |StripParts(strip)| <= columns
      ensures r.Ok? ==> Contents() == WriteRow(old(Contents()), FirstVacantRow(old(Contents())).value, StripParts(strip))
    {
      if CheckDimensions(strip.layout.value, rows, columns).Err? {
        return Err(IncompatibleDimensions);
      }
      var items := StripParts(strip);
      var row := GetEmptyRow();
      if row.Err? {
        return Err(row.error);
      }
      var r0 := row.value;
      ghost var before := Contents();
      for c := 0 to |items|
        invariant Contents() == WriteRow(before, r0, items[..c])
      {
        assert items[..c + 1][..c] == items[..c];
        var _ := AddSingleItem(items[c], Loc(r0, c));
      }
      assert items[..|items|] == items;
      r := Ok(StripPlaced(items));
    }

    /** StripWellRack#add_item: only collections are accepted. */
    method StripWellAddItem(item: Item) returns (r: Result<Placed>)
      requires Valid() && Admissible(StripWellKind, rows, columns, item)
      modifies grid
      ensures !item.IsCollection() ==> r == Err(IncompatibleObjectType)
      ensures r.Err? ==> Contents() == old(Contents())
      ensures item.IsCollection() ==> r.Ok? == Place(StripWellKind, old(Contents()), rows, columns, item).Ok?
      ensures r.Ok? ==> Contents() == Place(StripWellKind, old(Contents()), rows, columns, item).value
      ensures r.Err? ==> r.error == Place(StripWellKind, old(Contents()), rows, columns, item).error
      ensures r.Ok? ==> r.value == StripPlaced(StripParts(item))
    {
      if !item.IsCollection() {
        return Err(IncompatibleObjectType);
      }
      r := AddStripWell(item);
    }

    /** add_item as dispatched on the rack's class. A StripWellRack's
        add_item takes no location, so passing one raises. With no
        location, the new grid is the one Place specifies. */
    method AddItem(item: Item, location: Option<Loc>) returns (r: Result<Placed>)
      requires Valid() && (location.None? ==> Admissible(kind, rows, columns, item))
      requires kind == TubeKind && location.Some? ==> InBounds(location.value, rows, columns)
      modifies grid
      ensures kind == StripWellKind && location.Some? ==> r == Err(WrongArguments)
      ensures kind == TubeKind && location.Some? ==>
        r == Ok(AtCell(location.value)) && Contents() == Put(old(Contents()), location.value, TubeSlot(item))
      ensures location.None? ==> r.Ok? == Place(kind, old(Contents()), rows, columns, item).Ok?
      ensures location.None? && r.Ok? ==> Contents() == Place(kind, old(Contents()), rows, columns, item).value
      ensures location.None? && r.Err? ==> r.error == Place(kind, old(Contents()), rows, columns, item).error
      ensures location.None? && r.Ok? ==>
        r.value == (if kind == TubeKind then AtCell(FirstVacant(old(Contents())).value) else StripPlaced(StripParts(item)))
      ensures r.Err? ==> Contents() == old(Contents())
    {
      if kind == TubeKind {
        r := TubeAddItem(item, location);
      } else if location.Some? {
        r := Err(WrongArguments);
      } else {
        r := StripWellAddItem(item);
      }
    }

    /** set: only an item may be placed; it goes to the given cell. */
    method Set(row: nat, column: nat, x: Value) returns (r: Result<Placed>)
      requires Valid()
      requires kind == TubeKind && x.AnItem? ==> row < rows && column < columns
      modifies grid
      ensures !x.AnItem? ==> r == Err(NotAnItem)
      ensures x.AnItem? && kind == StripWellKind ==> r == Err(WrongArguments)
      ensures x.AnItem? && kind == TubeKind ==>
        r == Ok(AtCell(Loc(row, column))) && Contents() == Put(old(Contents()), Loc(row, column), TubeSlot(x.item))
      ensures r.Err? ==> Contents() == old(Contents())
    {
      if !x.AnItem? {
        return Err(NotAnItem);
      }
      r := AddItem(x.item, Some(Loc(row, column)));
    }
  }

  /** find as written: find_sample guards with `sample.is_a Sample` and
      find_item with `item.is_a item`. Neither `is_a` is a method (the
      predicate is `is_a?`), so the guard itself raises NoMethodError
      before any cell is scanned, whatever the rack holds. */
  function FindAsWritten(v: Value): (r: Result<seq<Loc>>)
    ensures r.Err?
    ensures v.Other? <==> r == Err(NotFindable)
    ensures v.ASample? || v.AnItem? <==> r == Err(NoMethod)
  {
    match v
    case ASample(_) => Err(NoMethod)
    case AnItem(_) => Err(NoMethod)
    case Other => Err(NotFindable)
  }

  /** A tube just placed into an empty cell is found there by the
      intended scan, by its own id and by its sample, while find as
      written raises for both lookups. */
  lemma FindAsWrittenMissesPlacedTube(g: Cells, l: Loc, item: Item)
    requires On(g, l)
    ensures l in Scan(Put(g, l, TubeSlot(item)), Holds(item.id))
    ensures item.sample.Some? ==> l in Scan(Put(g, l, TubeSlot(item)), OfSample(item.sample.value))
    ensures FindAsWritten(AnItem(item)) == Err(NoMethod)
    ensures item.sample.Some? ==> FindAsWritten(ASample(item.sample.value)) == Err(NoMethod)
  {
    var h := Put(g, l, TubeSlot(item));
    PutThenFind(g, l, TubeSlot(item), item.id);
    ScanMembers(h, OfSample(if item.sample.Some? then item.sample.value else 0));
  }
}
