/** What placing items into a rack does to its grid, stated on values: the
    specification that the rack's methods are proved against, and the
    properties of whole placement sequences (the factory's loop). */
module Placement {
  import opened Grid
  import opened Items

  /** TubeRack, or its subclass StripWellRack, whose add_item places whole
      strips. */
  datatype Kind = TubeKind | StripWellKind

  /** The exceptions the rack raises. */
  datatype Error =
    | IncompatibleObjectType  // the factory's mixed list; StripWellRack#add_item given a non-collection
    | IncompatibleDimensions  // a strip larger than the rack in either direction
    | NoEmptyRows             // no fully empty row left for a strip
    | NilLocation             // add_item on a full TubeRack: get_empty.first is nil, and indexing nil raises
    | NotAnItem               // set given something that is not an item
    | NotFindable             // find given neither a sample nor an item
    | WrongArguments          // set on a StripWellRack: its add_item takes one argument and no keywords (ArgumentError)
    | NoMethod                // find_item / find_sample as written: `is_a` is not a method

  datatype Result<T> = Ok(value: T) | Err(error: Error)

  /** What TubeRack#add_item records for an item: its id (and so its
      sample), with no strip back-reference. */
  function TubeSlot(item: Item): (s: Slot)
    ensures s.item == item.id && s.sample == item.sample
    ensures s.strip.None?
  {
    Slot(item.id, item.sample, None)
  }

  /** What add_single_item records for a part of a strip: its id and, when
      the part is a part of a collection, that collection's id. */
  function PartSlot(item: Item): (s: Slot)
    ensures s.item == item.id && s.sample == item.sample
    ensures s.strip.Some? <==> item.IsPart()
    ensures item.IsPart() ==> s.strip == item.container
  {
    Slot(item.id, item.sample, if item.IsPart() then item.container else None)
  }

  /** check_dimensions: a strip is refused exactly when it has more rows or
      more columns than the rack. */
  function CheckDimensions(strip: Layout, rows: nat, columns: nat): (r: Result<()>)
    ensures r.Ok? <==> strip.rows <= rows && strip.columns <= columns
    ensures r.Err? ==> r.error == IncompatibleDimensions
  {
    if strip.rows > rows || strip.columns > columns then Err(IncompatibleDimensions) else Ok(())
  }

  /** Row `r` has no occupied cell. */
  predicate RowVacant(g: Cells, r: nat)
    requires r < |g|
  {
    forall c :: 0 <= c < |g[r]| ==> g[r][c].None?
  }

  /** The least row, from `i` on, with no occupied cell. */
  function FirstVacantRowFrom(g: Cells, i: nat): (r: Option<nat>)
    requires i <= |g|
    ensures r.Some? ==> i <= r.value < |g| && RowVacant(g, r.value)
    ensures r.Some? ==> forall p :: i <= p < r.value ==> !RowVacant(g, p)
    ensures r.None? ==> forall p :: i <= p < |g| ==> !RowVacant(g, p)
    decreases |g| - i
  {
    if i == |g| then None
    else if RowVacant(g, i) then Some(i)
    else FirstVacantRowFrom(g, i + 1)
  }

  /** get_empty_row: the least row with no occupied cell, if there is one. */
  function FirstVacantRow(g: Cells): Option<nat>
  {
    FirstVacantRowFrom(g, 0)
  }

  /** A vacant row whose earlier rows all hold something is the first
      vacant row. */
  lemma FirstVacantRowIs(g: Cells, r: nat)
    requires r < |g| && RowVacant(g, r)
    requires forall p :: 0 <= p < r ==> !RowVacant(g, p)
    ensures FirstVacantRow(g) == Some(r)
  {
  }

  /** The parts of a strip written into columns 0, 1, ... of row `r`, in
      order, one add_single_item after another. */
  function WriteRow(g: Cells, r: nat, parts: seq<Item>): (h: Cells)
    requires r < |g| && |parts| <= |g[r]|
    ensures |h| == |g| && forall p :: 0 <= p < |g| ==> |h[p]| == |g[p]|
    ensures forall p :: 0 <= p < |g| && p != r ==> h[p] == g[p]
    ensures forall c :: 0 <= c < |parts| ==> h[r][c] == Some(PartSlot(parts[c]))
    ensures forall c :: |parts| <= c < |g[r]| ==> h[r][c] == g[r][c]
    decreases |parts|
  {
    if parts == [] then g
    else
      var k := |parts| - 1;
      Put(WriteRow(g, r, parts[..k]), Loc(r, k), PartSlot(parts[k]))
  }

  /** The parts a strip brings: its occupied parts in row-major order (an
      item that is not a collection brings none). */
  function StripParts(strip: Item): seq<Item>
  {
    if strip.IsCollection() then OccupiedParts(strip.layout.value.parts, |strip.layout.value.parts|) else []
  }

  /** A strip that passes check_dimensions has no more parts than the rack
      has columns; otherwise, once an empty row is found, the source writes
      past the last column. */
  predicate Admissible(kind: Kind, rows: nat, columns: nat, item: Item)
  {
    (kind == StripWellKind && item.IsCollection() && CheckDimensions(item.layout.value, rows, columns).Ok?)
    ==> |StripParts(item)| <= columns
  }

  /** A well-shaped strip of at most one row that passes check_dimensions
      has no more parts than the rack has columns, so Admissible only ever
      excludes strips of two rows or more. */
  lemma OneRowStripAdmissible(strip: Item, rows: nat, columns: nat)
    requires strip.IsCollection() && strip.layout.value.WellShaped() && strip.layout.value.rows <= 1
    ensures Admissible(StripWellKind, rows, columns, strip)
  {
    var parts := strip.layout.value.parts;
    if |parts| == 1 {
      assert OccupiedParts(parts, 1) == RowParts(parts[0], |parts[0]|);
    }
  }

  /** A well-shaped 2-by-2 strip with every well filled passes
      check_dimensions on a 2-by-2 rack but brings four parts for two
      columns: the case Admissible excludes. */
  lemma TwoRowStripOverflows(strip: Item, a: Item, b: Item, c: Item, d: Item)
    requires strip.layout == Some(Layout(2, 2, [[Some(a), Some(b)], [Some(c), Some(d)]]))
    ensures strip.layout.value.WellShaped()
    ensures CheckDimensions(strip.layout.value, 2, 2).Ok?
    ensures StripParts(strip) == [a, b, c, d]
    ensures !Admissible(StripWellKind, 2, 2, strip)
  {
    var parts := strip.layout.value.parts;
    assert RowParts(parts[0], 2) == [a, b] by {
      assert RowParts(parts[0], 1) == [a];
    }
    assert RowParts(parts[1], 2) == [c, d] by {
      assert RowParts(parts[1], 1) == [c];
    }
    assert OccupiedParts(parts, 1) == [a, b];
  }

  /** add_item with no location on a rack of kind `kind`: the grid it
      leaves, or the exception it raises (the grid is then unchanged, as no
      cell is written before any of these raises). */
  function Place(kind: Kind, g: Cells, rows: nat, columns: nat, item: Item): (r: Result<Cells>)
    requires Shaped(g, rows, columns) && Admissible(kind, rows, columns, item)
    ensures r.Ok? ==> Shaped(r.value, rows, columns)
  {
    match kind
    case TubeKind =>
      (match FirstVacant(g)
       case None => Err(NilLocation)
       case Some(l) => Ok(Put(g, l, TubeSlot(item))))
    case StripWellKind =>
      if !item.IsCollection() then Err(IncompatibleObjectType)
      else if CheckDimensions(item.layout.value, rows, columns).Err? then Err(IncompatibleDimensions)
      else
        (match FirstVacantRow(g)
         case None => Err(NoEmptyRows)
         case Some(r) => Ok(WriteRow(g, r, StripParts(item))))
  }

  /** Every item of the list is admissible. */
  predicate AllAdmissible(kind: Kind, rows: nat, columns: nat, items: seq<Item>)
  {
    forall k :: 0 <= k < |items| ==> Admissible(kind, rows, columns, items[k])
  }

  /** add_item applied to each item in turn, stopping at the first
      exception. */
  function PlaceAll(kind: Kind, g: Cells, rows: nat, columns: nat, items: seq<Item>): (r: Result<Cells>)
    requires Shaped(g, rows, columns) && AllAdmissible(kind, rows, columns, items)
    ensures r.Ok? ==> Shaped(r.value, rows, columns)
    decreases |items|
  {
    if items == [] then Ok(g)
    else
      match Place(kind, g, rows, columns, items[0])
      case Err(e) => Err(e)
      case Ok(h) => PlaceAll(kind, h, rows, columns, items[1..])
  }

  /** One step of PlaceAll when the first item is placed. */
  lemma PlaceAllStep(kind: Kind, g: Cells, rows: nat, columns: nat, items: seq<Item>)
    requires Shaped(g, rows, columns) && AllAdmissible(kind, rows, columns, items) && items != []
    requires Place(kind, g, rows, columns, items[0]).Ok?
    ensures AllAdmissible(kind, rows, columns, items[1..])
    ensures PlaceAll(kind, g, rows, columns, items)
      == PlaceAll(kind, Place(kind, g, rows, columns, items[0]).value, rows, columns, items[1..])
  {
    forall k | 0 <= k < |items[1..]| ensures Admissible(kind, rows, columns, items[1..][k]) {
      assert items[1..][k] == items[k + 1];
    }
  }

  /** A tube goes into the first cell of the empty-cell scan. */
  lemma TubeGoesFirst(g: Cells, rows: nat, columns: nat, item: Item)
    requires Shaped(g, rows, columns) && Scan(g, Vacant) != []
    ensures Place(TubeKind, g, rows, columns, item) == Ok(Put(g, Scan(g, Vacant)[0], TubeSlot(item)))
  {
    assert FirstVacant(g) == Some(Scan(g, Vacant)[0]);
  }

  /** `h` holds the k-th tube in the cell `locs[k]`, for every k. */
  ghost predicate TubesAt(h: Cells, locs: seq<Loc>, items: seq<Item>)
    requires |items| <= |locs|
  {
    forall k :: 0 <= k < |items| ==> On(h, locs[k]) && h[locs[k].row][locs[k].col] == Some(TubeSlot(items[k]))
  }

  /** Every cell of `g` outside `locs` holds the same in `h`. */
  ghost predicate SameOutside(g: Cells, h: Cells, locs: seq<Loc>)
  {
    forall l :: On(g, l) && l !in locs ==> On(h, l) && h[l.row][l.col] == g[l.row][l.col]
  }

  /** The first tube at `v[0]` and the rest at `v[1..]` give all of them
      at `v`. */
  lemma TubesAtCons(g1: Cells, h: Cells, v: seq<Loc>, items: seq<Item>)
    requires 0 < |items| <= |v| && On(g1, v[0]) && g1[v[0].row][v[0].col] == Some(TubeSlot(items[0]))
    requires v[0] !in v[1..][..|items| - 1]
    requires TubesAt(h, v[1..], items[1..]) && SameOutside(g1, h, v[1..][..|items| - 1])
    ensures TubesAt(h, v, items)
  {
    forall k | 0 <= k < |items|
      ensures On(h, v[k]) && h[v[k].row][v[k].col] == Some(TubeSlot(items[k]))
    {
      if k > 0 {
        assert v[k] == v[1..][k - 1];
        assert items[k] == items[1..][k - 1];
      }
    }
  }

  /** Writing `v[0]` and then only cells of `v[1..n]` leaves every cell
      outside `v[..n]` alone. */
  lemma SameOutsideCons(g: Cells, h: Cells, v: seq<Loc>, n: nat, s: Slot)
    requires 0 < n <= |v| && On(g, v[0])
    requires SameOutside(Put(g, v[0], s), h, v[1..][..n - 1])
    ensures SameOutside(g, h, v[..n])
  {
    var g1 := Put(g, v[0], s);
    var w := v[1..][..n - 1];
    forall l | On(g, l) && l !in v[..n]
      ensures On(h, l) && h[l.row][l.col] == g[l.row][l.col]
    {
      assert l != v[0] by {
        assert v[..n][0] == v[0];
      }
      assert l !in w by {
        forall j | 0 <= j < n - 1 ensures w[j] != l {
          assert w[j] == v[..n][j + 1];
        }
      }
      assert On(g1, l);
    }
  }

  /** Placing tubes one after another without locations puts the k-th
      item into the k-th empty cell of the starting grid, in row-major
      order, and leaves every other cell as it was. */
  lemma {:induction false} TubesFillEmptyCellsInOrder(g: Cells, rows: nat, columns: nat, items: seq<Item>)
    requires Shaped(g, rows, columns) && |items| <= |Scan(g, Vacant)|
    ensures PlaceAll(TubeKind, g, rows, columns, items).Ok?
    ensures TubesAt(PlaceAll(TubeKind, g, rows, columns, items).value, Scan(g, Vacant), items)
    ensures SameOutside(g, PlaceAll(TubeKind, g, rows, columns, items).value, Scan(g, Vacant)[..|items|])
    decreases |items|
  {
    var v := Scan(g, Vacant);
    if items == [] {
      assert PlaceAll(TubeKind, g, rows, columns, items) == Ok(g);
    } else {
      var n := |items|;
      ScanMembers(g, Vacant);
      FillFirstVacant(g, TubeSlot(items[0]));
      var g1 := Put(g, v[0], TubeSlot(items[0]));
      TubeGoesFirst(g, rows, columns, items[0]);
      PlaceAllStep(TubeKind, g, rows, columns, items);
      TubesFillEmptyCellsInOrder(g1, rows, columns, items[1..]);
      var h := PlaceAll(TubeKind, g1, rows, columns, items[1..]).value;
      var w := v[1..][..n - 1];
      assert v[0] !in w by {
        forall j | 0 <= j < n - 1 ensures w[j] != v[0] {
          assert w[j] == v[j + 1];
          assert Before(v[0], v[j + 1]);
        }
      }
      TubesAtCons(g1, h, v, items);
      SameOutsideCons(g, h, v, n, TubeSlot(items[0]));
    }
  }

  /** Placing more tubes than the grid has empty cells raises at the first
      tube that finds no empty cell. */
  lemma {:induction false} TubesOverflow(g: Cells, rows: nat, columns: nat, items: seq<Item>)
    requires Shaped(g, rows, columns) && |items| > |Scan(g, Vacant)|
    ensures PlaceAll(TubeKind, g, rows, columns, items) == Err(NilLocation)
    decreases |items|
  {
    var v := Scan(g, Vacant);
    if v != [] {
      FillFirstVacant(g, TubeSlot(items[0]));
      var g1 := Put(g, v[0], TubeSlot(items[0]));
      assert Place(TubeKind, g, rows, columns, items[0]) == Ok(g1);
      TubesOverflow(g1, rows, columns, items[1..]);
    }
  }

  /** The empty cells of an empty 2-by-2 rack, in row-major order. */
  lemma TwoByTwoScan()
    ensures Scan(Blank(2, 2), Vacant) == [Loc(0, 0), Loc(0, 1), Loc(1, 0), Loc(1, 1)]
  {
    var g := Blank(2, 2);
    assert SelectRow(g[0], 0, Vacant, 2) == [Loc(0, 0), Loc(0, 1)];
    assert SelectRow(g[1], 1, Vacant, 2) == [Loc(1, 0), Loc(1, 1)];
    assert Select(g, Vacant, 1) == [Loc(0, 0), Loc(0, 1)];
  }

  /** An empty 2-by-2 rack takes tubes at (0,0), (0,1), (1,0) and (1,1),
      in that order, and a fifth tube raises. */
  lemma TubesOnTwoByTwo(items: seq<Item>)
    requires |items| <= 5
    ensures |items| <= 4 ==> PlaceAll(TubeKind, Blank(2, 2), 2, 2, items).Ok?
    ensures |items| <= 4 ==>
      var h := PlaceAll(TubeKind, Blank(2, 2), 2, 2, items).value;
      var cells := [Loc(0, 0), Loc(0, 1), Loc(1, 0), Loc(1, 1)];
      forall k :: 0 <= k < |items| ==> h[cells[k].row][cells[k].col] == Some(TubeSlot(items[k]))
    ensures |items| == 5 ==> PlaceAll(TubeKind, Blank(2, 2), 2, 2, items) == Err(NilLocation)
  {
    var g := Blank(2, 2);
    TwoByTwoScan();
    if |items| <= 4 {
      TubesFillEmptyCellsInOrder(g, 2, 2, items);
    } else {
      TubesOverflow(g, 2, 2, items);
    }
  }

  /** The first `m` rows each hold something and every later row is empty:
      the shape block placement gives a rack that started empty. */
  ghost predicate RowsClaimed(g: Cells, m: nat)
  {
    m <= |g| &&
    (forall p :: 0 <= p < m ==> !RowVacant(g, p)) &&
    (forall p :: m <= p < |g| ==> RowVacant(g, p))
  }

  /** A strip that fits the rack, brings at least one part and no more parts
      than the rack has columns. */
  predicate FittingStrip(strip: Item, rows: nat, columns: nat)
  {
    strip.IsCollection() && CheckDimensions(strip.layout.value, rows, columns).Ok?
    && 0 < |StripParts(strip)| <= columns
  }

  /** Every strip of the list fits the rack. */
  predicate AllFitting(strips: seq<Item>, rows: nat, columns: nat)
  {
    forall k :: 0 <= k < |strips| ==> FittingStrip(strips[k], rows, columns)
  }

  /** Fitting strips are admissible, and so is any tail of them. */
  lemma FittingTail(strips: seq<Item>, rows: nat, columns: nat)
    requires AllFitting(strips, rows, columns)
    ensures AllAdmissible(StripWellKind, rows, columns, strips)
    ensures strips != [] ==> AllFitting(strips[1..], rows, columns)
  {
    if strips != [] {
      forall k | 0 <= k < |strips[1..]| ensures FittingStrip(strips[1..][k], rows, columns) {
        assert strips[1..][k] == strips[k + 1];
      }
    }
  }

  /** The row begins with the records of `parts`, one per column. */
  predicate RowStarts(row: seq<Option<Slot>>, parts: seq<Item>)
  {
    |parts| <= |row| && forall c :: 0 <= c < |parts| ==> row[c] == Some(PartSlot(parts[c]))
  }

  /** Row `m + k` of `h` begins with the parts of the k-th strip. */
  ghost predicate StripsFrom(h: Cells, m: nat, strips: seq<Item>)
  {
    m + |strips| <= |h| &&
    forall p :: m <= p < m + |strips| ==> RowStarts(h[p], StripParts(strips[p - m]))
  }

  /** Writing at least one part into the first empty row claims it. */
  lemma ClaimRow(g: Cells, m: nat, parts: seq<Item>)
    requires RowsClaimed(g, m) && m < |g| && 0 < |parts| <= |g[m]|
    ensures RowsClaimed(WriteRow(g, m, parts), m + 1)
  {
    var g1 := WriteRow(g, m, parts);
    forall p | 0 <= p < m + 1 ensures !RowVacant(g1, p) {
      if p < m {
        assert !RowVacant(g, p);
        var c :| 0 <= c < |g[p]| && g[p][c].Some?;
        assert g1[p][c].Some?;
      } else {
        assert g1[m][0].Some?;
      }
    }
    forall p | m + 1 <= p < |g1| ensures RowVacant(g1, p) {
      assert RowVacant(g, p);
      assert g1[p] == g[p];
    }
  }

  /** A fitting strip goes into the first empty row, which it claims. */
  lemma StripGoesToRow(g: Cells, rows: nat, columns: nat, m: nat, strip: Item)
    requires Shaped(g, rows, columns) && RowsClaimed(g, m) && m < rows
    requires FittingStrip(strip, rows, columns)
    ensures Admissible(StripWellKind, rows, columns, strip)
    ensures Place(StripWellKind, g, rows, columns, strip) == Ok(WriteRow(g, m, StripParts(strip)))
    ensures RowsClaimed(WriteRow(g, m, StripParts(strip)), m + 1)
  {
    FirstVacantRowIs(g, m);
    ClaimRow(g, m, StripParts(strip));
  }

  /** Strips placed one after another take successive empty rows: the
      k-th strip goes into row m + k, its j-th part into column j, and the
      rows already claimed are untouched. */
  lemma {:induction false} StripsTakeSuccessiveRows(g: Cells, rows: nat, columns: nat, m: nat, strips: seq<Item>)
    requires Shaped(g, rows, columns) && RowsClaimed(g, m) && m + |strips| <= rows
    requires AllFitting(strips, rows, columns)
    ensures AllAdmissible(StripWellKind, rows, columns, strips)
    ensures PlaceAll(StripWellKind, g, rows, columns, strips).Ok?
    ensures StripsFrom(PlaceAll(StripWellKind, g, rows, columns, strips).value, m, strips)
    ensures forall p :: 0 <= p < m ==> PlaceAll(StripWellKind, g, rows, columns, strips).value[p] == g[p]
    decreases |strips|
  {
    FittingTail(strips, rows, columns);
    if strips == [] {
      assert PlaceAll(StripWellKind, g, rows, columns, strips) == Ok(g);
    } else {
      StripGoesToRow(g, rows, columns, m, strips[0]);
      var g1 := WriteRow(g, m, StripParts(strips[0]));
      PlaceAllStep(StripWellKind, g, rows, columns, strips);
      StripsTakeSuccessiveRows(g1, rows, columns, m + 1, strips[1..]);
      var h := PlaceAll(StripWellKind, g1, rows, columns, strips[1..]).value;
      StripsFromCons(g1, h, m, strips);
    }
  }

  /** The first strip in row `m` (kept by the later ones) and the rest from
      row `m + 1` give all of them from row `m`. */
  lemma StripsFromCons(g1: Cells, h: Cells, m: nat, strips: seq<Item>)
    requires strips != [] && m < |g1| && RowStarts(g1[m], StripParts(strips[0]))
    requires |h| == |g1| && h[m] == g1[m]
    requires StripsFrom(h, m + 1, strips[1..])
    ensures StripsFrom(h, m, strips)
  {
    var rest := strips[1..];
    forall p | m <= p < m + |strips| ensures RowStarts(h[p], StripParts(strips[p - m])) {
      if p == m {
        assert h[p] == g1[m];
      } else {
        assert strips[p - m] == rest[p - (m + 1)];
      }
    }
  }

  /** Strips that together need more rows than are empty: the first strip
      left without an empty row raises NoEmptyRows. */
  lemma {:induction false} StripsOverflow(g: Cells, rows: nat, columns: nat, m: nat, strips: seq<Item>)
    requires Shaped(g, rows, columns) && RowsClaimed(g, m) && m + |strips| > rows
    requires AllFitting(strips, rows, columns)
    ensures AllAdmissible(StripWellKind, rows, columns, strips)
    ensures PlaceAll(StripWellKind, g, rows, columns, strips) == Err(NoEmptyRows)
    decreases |strips|
  {
    FittingTail(strips, rows, columns);
    if m == rows {
      assert FirstVacantRow(g).None?;
    } else {
      StripGoesToRow(g, rows, columns, m, strips[0]);
      var g1 := WriteRow(g, m, StripParts(strips[0]));
      PlaceAllStep(StripWellKind, g, rows, columns, strips);
      StripsOverflow(g1, rows, columns, m + 1, strips[1..]);
    }
  }

  /** On an empty rack, the k-th strip fills row k from column 0; with more
      strips than rows, placement raises NoEmptyRows. */
  lemma StripsOnEmptyRack(rows: nat, columns: nat, strips: seq<Item>)
    requires AllFitting(strips, rows, columns)
    ensures AllAdmissible(StripWellKind, rows, columns, strips)
    ensures |strips| <= rows ==> PlaceAll(StripWellKind, Blank(rows, columns), rows, columns, strips).Ok?
    ensures |strips| <= rows ==> StripsFrom(PlaceAll(StripWellKind, Blank(rows, columns), rows, columns, strips).value, 0, strips)
    ensures |strips| > rows ==> PlaceAll(StripWellKind, Blank(rows, columns), rows, columns, strips) == Err(NoEmptyRows)
  {
    var g := Blank(rows, columns);
    assert RowsClaimed(g, 0);
    if |strips| <= rows {
      StripsTakeSuccessiveRows(g, rows, columns, 0, strips);
    } else {
      StripsOverflow(g, rows, columns, 0, strips);
    }
  }

  /** A strip of two parts on a 3-by-2 rack whose row 0 holds one tube
      lands in row 1, not in the free cell of row 0. */
  lemma StripSkipsPartlyFilledRow(strip: Item, tube: Slot)
    requires FittingStrip(strip, 3, 2) && |StripParts(strip)| == 2
    ensures Admissible(StripWellKind, 3, 2, strip)
    ensures var g := Put(Blank(3, 2), Loc(0, 0), tube);
      Place(StripWellKind, g, 3, 2, strip) == Ok(WriteRow(g, 1, StripParts(strip)))
  {
    var g := Put(Blank(3, 2), Loc(0, 0), tube);
    assert !RowVacant(g, 0) by {
      assert g[0][0].Some?;
    }
    FirstVacantRowIs(g, 1);
  }

  /** Block placement never writes into a row that already holds something:
      a strip never joins a partly filled row. */
  lemma StripLeavesOccupiedRows(g: Cells, rows: nat, columns: nat, strip: Item, p: nat)
    requires Shaped(g, rows, columns) && Admissible(StripWellKind, rows, columns, strip)
    requires p < |g| && !RowVacant(g, p)
    ensures Place(StripWellKind, g, rows, columns, strip).Ok? ==>
      Place(StripWellKind, g, rows, columns, strip).value[p] == g[p]
  {
  }

  /** After a strip is written into an empty row, the cells whose record
      names a collection are the ones that named it before, plus the
      strip's parts of that collection in the new row. */
  lemma FindStripAfterWrite(g: Cells, r: nat, parts: seq<Item>, s: CollectionId)
    requires r < |g| && |parts| <= |g[r]| && RowVacant(g, r)
    ensures forall l :: l in Scan(WriteRow(g, r, parts), FromStrip(s)) <==>
      l in Scan(g, FromStrip(s)) || (l.row == r && l.col < |parts| && parts[l.col].container == Some(s))
  {
    var h := WriteRow(g, r, parts);
    ScanMembers(g, FromStrip(s));
    ScanMembers(h, FromStrip(s));
  }
}
