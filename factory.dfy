/** TubeRackFactory.build: choose the kind of rack from the list it is
    handed, create the rack and add every item of the list to it in turn. */
module Factory {
  import opened Grid
  import opened Items
  import opened Placement
  import opened Racks

  /** A value that is a collection (an item with a layout of parts). */
  predicate IsCollectionValue(v: Value)
  {
    v.AnItem? && v.item.IsCollection()
  }

  /** `values.all? { |coll| coll.collection? }`, as Ruby evaluates it: left
      to right, stopping at the first value that answers false. A value
      that is not an item has no `collection?` and raises when it is asked. */
  function AllCollections(values: seq<Value>): (r: Result<bool>)
    ensures r == Ok(true) <==> forall k :: 0 <= k < |values| ==> IsCollectionValue(values[k])
    ensures r.Ok? && !r.value <==>
      exists k :: 0 <= k < |values| && values[k].AnItem? && !values[k].item.IsCollection()
        && forall j :: 0 <= j < k ==> IsCollectionValue(values[j])
    ensures r.Err? <==>
      exists k :: 0 <= k < |values| && !values[k].AnItem?
        && forall j :: 0 <= j < k ==> IsCollectionValue(values[j])
    ensures r.Err? ==> r.error == NoMethod
    decreases |values|
  {
    if values == [] then Ok(true)
    else if !values[0].AnItem? then Err(NoMethod)
    else if !values[0].item.IsCollection() then Ok(false)
    else
      var rest := AllCollections(values[1..]);
      assert forall k :: 1 <= k < |values| ==> values[k] == values[1..][k - 1];
      rest
  }

  /** Which rack `build` creates for `values`: a StripWellRack when every
      value is a collection (the empty list included), a TubeRack when
      every value is an item, and otherwise the exception it raises. */
  function RackKind(values: seq<Value>): (r: Result<Kind>)
    ensures r == Ok(StripWellKind) <==> forall k :: 0 <= k < |values| ==> IsCollectionValue(values[k])
    ensures r == Ok(TubeKind) <==>
      (forall k :: 0 <= k < |values| ==> values[k].AnItem?)
      && exists k :: 0 <= k < |values| && !values[k].item.IsCollection()
    ensures r.Err? <==> exists k :: 0 <= k < |values| && !values[k].AnItem?
    ensures r.Err? ==> r.error == NoMethod || r.error == IncompatibleObjectType
  {
    match AllCollections(values)
    case Err(e) => Err(e)
    case Ok(true) => Ok(StripWellKind)
    case Ok(false) =>
      if forall k :: 0 <= k < |values| ==> values[k].AnItem? then Ok(TubeKind)
      else Err(IncompatibleObjectType)
  }

  /** The items of a list that holds nothing else. */
  function ItemsOf(values: seq<Value>): (items: seq<Item>)
    requires forall k :: 0 <= k < |values| ==> values[k].AnItem?
    ensures |items| == |values| && forall k :: 0 <= k < |items| ==> AnItem(items[k]) == values[k]
  {
    seq(|values|, k requires 0 <= k < |values| => values[k].item)
  }

  /** Every item of the list passes the strip-well admission check. */
  predicate ItemsAdmissible(values: seq<Value>, objectType: ObjectType)
  {
    forall k :: 0 <= k < |values| && values[k].AnItem? ==>
      Admissible(StripWellKind, objectType.rows, objectType.columns, values[k].item)
  }

  /** Every list of items whose strips are admissible is admissible for
      whichever kind of rack it is placed into. */
  lemma ItemsAdmissibleForKind(values: seq<Value>, objectType: ObjectType, kind: Kind)
    requires kind == StripWellKind ==> ItemsAdmissible(values, objectType)
    requires forall k :: 0 <= k < |values| ==> values[k].AnItem?
    ensures AllAdmissible(kind, objectType.rows, objectType.columns, ItemsOf(values))
  {
    var items := ItemsOf(values);
    forall k | 0 <= k < |items| ensures Admissible(kind, objectType.rows, objectType.columns, items[k]) {
      assert AnItem(items[k]) == values[k];
    }
  }

  /** Placing the items from position `k` on, after the item at `k` was
      placed, continues from `k + 1` on the grid that placement left. */
  lemma PlaceAllFrom(kind: Kind, g: Cells, rows: nat, columns: nat, items: seq<Item>, k: nat)
    requires Shaped(g, rows, columns) && k < |items| && AllAdmissible(kind, rows, columns, items[k..])
    ensures AllAdmissible(kind, rows, columns, items[k + 1..])
    ensures Place(kind, g, rows, columns, items[k]).Err? ==>
      PlaceAll(kind, g, rows, columns, items[k..]) == Err(Place(kind, g, rows, columns, items[k]).error)
    ensures Place(kind, g, rows, columns, items[k]).Ok? ==>
      PlaceAll(kind, g, rows, columns, items[k..])
        == PlaceAll(kind, Place(kind, g, rows, columns, items[k]).value, rows, columns, items[k + 1..])
  {
    assert items[k..][0] == items[k];
    assert items[k..][1..] == items[k + 1..];
    var rest := items[k + 1..];
    forall j | 0 <= j < |rest| ensures Admissible(kind, rows, columns, rest[j]) {
      assert rest[j] == items[k..][j + 1];
    }
  }

  /** `values.each { |value| rack.add_item(value) }`: add the items one
      after the other without locations, stopping at the first exception.
      The result is what placing them all on the rack's grid gives, and
      the rack then holds that grid. */
  method AddEach(rack: TubeRack, items: seq<Item>) returns (r: Result<Cells>)
    requires rack.Valid() && AllAdmissible(rack.kind, rack.rows, rack.columns, items)
    modifies rack.grid
    ensures rack.Valid()
    ensures r == PlaceAll(rack.kind, old(rack.Contents()), rack.rows, rack.columns, items)
    ensures r.Ok? ==> rack.Contents() == r.value
  {
    ghost var g0 := rack.Contents();
    for k := 0 to |items|
      invariant rack.Valid()
      invariant AllAdmissible(rack.kind, rack.rows, rack.columns, items[k..])
      invariant PlaceAll(rack.kind, g0, rack.rows, rack.columns, items)
        == PlaceAll(rack.kind, rack.Contents(), rack.rows, rack.columns, items[k..])
    {
      PlaceAllFrom(rack.kind, rack.Contents(), rack.rows, rack.columns, items, k);
      var placed := rack.AddItem(items[k], None);
      if placed.Err? {
        return Err(placed.error);
      }
    }
    assert items[|items|..] == [];
    return Ok(rack.Contents());
  }

  /** `TubeRackFactory.build`: the rack holding every item of `values`,
      placed in list order without locations, or the first exception. The
      collection behind the new rack is created by the host framework;
      its id is a parameter. */
  method Build(values: seq<Value>, objectType: ObjectType, id: CollectionId) returns (r: Result<TubeRack>)
    requires (forall k :: 0 <= k < |values| ==> IsCollectionValue(values[k])) ==> ItemsAdmissible(values, objectType)
    ensures RackKind(values).Err? ==> r == Err(RackKind(values).error)
    ensures RackKind(values).Ok? ==>
      var kind, rows, columns := RackKind(values).value, objectType.rows, objectType.columns;
      ItemsOf.requires(values) && AllAdmissible(kind, rows, columns, ItemsOf(values)) &&
      var placed := PlaceAll(kind, Blank(rows, columns), rows, columns, ItemsOf(values));
      (placed.Err? ==> r == Err(placed.error)) &&
      (placed.Ok? ==>
         r.Ok? && fresh(r.value) && r.value.Valid() && r.value.kind == kind
         && r.value.rows == rows && r.value.columns == columns && r.value.id == id
         && r.value.Contents() == placed.value)
  {
    var chosen := RackKind(values);
    if chosen.Err? {
      return Err(chosen.error);
    }
    var kind := chosen.value;
    var items := ItemsOf(values);
    ItemsAdmissibleForKind(values, objectType, kind);
    var rack := new TubeRack(kind, objectType, id);
    var added := AddEach(rack, items);
    if added.Err? {
      return Err(added.error);
    }
    return Ok(rack);
  }

  /** A list of items, not all collections, builds a TubeRack of the
      object type's dimensions: up to rows * columns items fill the cells
      in row-major order, one more raises at the first item that finds no
      empty cell. */
  lemma BuildsTubeRack(values: seq<Value>, objectType: ObjectType)
    requires RackKind(values) == Ok(TubeKind)
    ensures |Scan(Blank(objectType.rows, objectType.columns), Vacant)| == objectType.rows * objectType.columns
    ensures var rows, columns := objectType.rows, objectType.columns;
      ItemsOf.requires(values) && AllAdmissible(TubeKind, rows, columns, ItemsOf(values)) &&
      var placed := PlaceAll(TubeKind, Blank(rows, columns), rows, columns, ItemsOf(values));
      (|values| <= rows * columns ==>
         placed.Ok? && TubesAt(placed.value, Scan(Blank(rows, columns), Vacant), ItemsOf(values)))
      && (|values| > rows * columns ==> placed == Err(NilLocation))
  {
    var rows, columns := objectType.rows, objectType.columns;
    var items := ItemsOf(values);
    var g := Blank(rows, columns);
    assert AllAdmissible(TubeKind, rows, columns, items);
    BlankCapacity(rows, columns, rows);
    assert |Scan(g, Vacant)| == rows * columns;
    if |items| <= |Scan(g, Vacant)| {
      TubesFillEmptyCellsInOrder(g, rows, columns, items);
    } else {
      TubesOverflow(g, rows, columns, items);
    }
  }

  /** A list of strips that each fit builds a StripWellRack whose k-th row
      holds the k-th strip's parts from column 0, or raises NoEmptyRows
      when there are more strips than rows. */
  lemma BuildsStripWellRack(values: seq<Value>, objectType: ObjectType)
    requires RackKind(values) == Ok(StripWellKind)
    requires forall k :: 0 <= k < |values| ==> FittingStrip(values[k].item, objectType.rows, objectType.columns)
    ensures var rows, columns := objectType.rows, objectType.columns;
      ItemsOf.requires(values) && AllAdmissible(StripWellKind, rows, columns, ItemsOf(values)) &&
      var placed := PlaceAll(StripWellKind, Blank(rows, columns), rows, columns, ItemsOf(values));
      (|values| <= rows ==> placed.Ok? && StripsFrom(placed.value, 0, ItemsOf(values)))
      && (|values| > rows ==> placed == Err(NoEmptyRows))
  {
    var items := ItemsOf(values);
    forall k | 0 <= k < |items| ensures FittingStrip(items[k], objectType.rows, objectType.columns) {
      assert AnItem(items[k]) == values[k];
    }
    StripsOnEmptyRack(objectType.rows, objectType.columns, items);
  }

  /** A list holding a collection and then a plain tube builds a TubeRack,
      whatever the collection holds, even a strip the strip well rack would
      refuse: the collection is then placed like any tube. */
  lemma MixedListBuildsTubeRack(coll: Item, tube: Item)
    requires coll.IsCollection() && !tube.IsCollection()
    ensures RackKind([AnItem(coll), AnItem(tube)]) == Ok(TubeKind)
    ensures ItemsOf([AnItem(coll), AnItem(tube)]) == [coll, tube]
  {
    var values := [AnItem(coll), AnItem(tube)];
    assert values[1].AnItem? && !values[1].item.IsCollection();
  }
}
