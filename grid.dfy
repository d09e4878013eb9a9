/** The rack's grid, standing in for the host framework's Collection: a
    sequence of rows, each a sequence of optional slots, indexed
    `g[row][column]`.
    Modelling assumption: the framework's get_empty and get_non_empty
    enumerate cells in row-major order (row 0 left to right, then row 1, ...). */
module Grid {

  datatype Option<+T> = None | Some(value: T)

  /** Items, collections and samples are records of the lab's inventory,
      compared by id; a collection is itself an item, so item and
      collection ids share one space. */
  type ItemId = nat
  type CollectionId = nat
  type SampleId = nat

  /** What an occupied cell records: the id of the item placed there (the
      true-item association), the sample of that item, if it has one, and,
      for a strip-well rack, the id of the strip the item came from (the
      true-collection association). */
  datatype Slot = Slot(item: ItemId, sample: Option<SampleId>, strip: Option<CollectionId>)

  type Cells = seq<seq<Option<Slot>>>

  /** A `[row, column]` location. */
  datatype Loc = Loc(row: nat, col: nat)

  /** `g` has `rows` rows of `cols` cells each. */
  ghost predicate Shaped<T>(g: seq<seq<T>>, rows: nat, cols: nat)
  {
    |g| == rows && forall r :: 0 <= r < rows ==> |g[r]| == cols
  }

  predicate InBounds(l: Loc, rows: nat, cols: nat)
  {
    l.row < rows && l.col < cols
  }

  /** `l` addresses a cell of `g`. */
  predicate On(g: Cells, l: Loc)
  {
    l.row < |g| && l.col < |g[l.row]|
  }

  /** Every location of `locs` addresses an occupied cell of `g`. */
  predicate AllFilled(g: Cells, locs: seq<Loc>)
  {
    forall k {:trigger locs[k]} :: 0 <= k < |locs| ==> On(g, locs[k]) && g[locs[k].row][locs[k].col].Some?
  }

  /** Row-major scan order on locations. */
  predicate Before(a: Loc, b: Loc)
  {
    a.row < b.row || (a.row == b.row && a.col < b.col)
  }

  /** A grid with every cell empty. */
  function Blank(rows: nat, cols: nat): (g: Cells)
    ensures Shaped(g, rows, cols)
    ensures forall r, c :: 0 <= r < rows && 0 <= c < cols ==> g[r][c].None?
  {
    seq(rows, _ => seq(cols, _ => None))
  }

  /** The kinds of cells a scan collects. */
  datatype Query = Vacant | Filled | Holds(item: ItemId) | OfSample(sample: SampleId) | FromStrip(strip: CollectionId)

  predicate Matches(q: Query, c: Option<Slot>)
  {
    match q
    case Vacant => c.None?
    case Filled => c.Some?
    case Holds(id) => c.Some? && c.value.item == id
    case OfSample(id) => c.Some? && c.value.sample == Some(id)
    case FromStrip(s) => c.Some? && c.value.strip == Some(s)
  }

  /** The queries that only ever pick occupied cells. */
  predicate PicksOccupied(q: Query)
  {
    !q.Vacant?
  }

  /** The locations among the first `n` cells of row `r` that match `q`,
      left to right. */
  function SelectRow(row: seq<Option<Slot>>, r: nat, q: Query, n: nat): (locs: seq<Loc>)
    requires n <= |row|
    ensures |locs| <= n
    ensures forall k :: 0 <= k < |locs| ==>
      locs[k].row == r && locs[k].col < n && Matches(q, row[locs[k].col])
    decreases n
  {
    if n == 0 then []
    else SelectRow(row, r, q, n - 1) + (if Matches(q, row[n - 1]) then [Loc(r, n - 1)] else [])
  }

  /** The locations in the first `m` rows of the grid whose cell matches `q`,
      in row-major order: the framework's scans, and the cells that
      find_item's and find_stripwell's loops collect. */
  function Select(g: Cells, q: Query, m: nat): (locs: seq<Loc>)
    requires m <= |g|
    ensures forall k :: 0 <= k < |locs| ==>
      locs[k].row < m && On(g, locs[k]) && Matches(q, g[locs[k].row][locs[k].col])
    decreases m
  {
    if m == 0 then []
    else Select(g, q, m - 1) + SelectRow(g[m - 1], m - 1, q, |g[m - 1]|)
  }

  /** The whole scan. */
  function Scan(g: Cells, q: Query): seq<Loc>
  {
    Select(g, q, |g|)
  }

  /** A row scan lists its locations left to right. */
  lemma {:induction false} SelectRowOrdered(row: seq<Option<Slot>>, r: nat, q: Query, n: nat)
    requires n <= |row|
    ensures forall j, k :: 0 <= j < k < |SelectRow(row, r, q, n)| ==>
      SelectRow(row, r, q, n)[j].col < SelectRow(row, r, q, n)[k].col
    decreases n
  {
    if n > 0 {
      SelectRowOrdered(row, r, q, n - 1);
    }
  }

  /** A scan lists its locations in row-major order. */
  lemma {:induction false} SelectOrdered(g: Cells, q: Query, m: nat)
    requires m <= |g|
    ensures forall j, k :: 0 <= j < k < |Select(g, q, m)| ==> Before(Select(g, q, m)[j], Select(g, q, m)[k])
    decreases m
  {
    if m > 0 {
      SelectOrdered(g, q, m - 1);
      SelectRowOrdered(g[m - 1], m - 1, q, |g[m - 1]|);
    }
  }

  lemma {:induction false} SelectRowComplete(row: seq<Option<Slot>>, r: nat, q: Query, n: nat, c: nat)
    requires n <= |row| && c < n && Matches(q, row[c])
    ensures Loc(r, c) in SelectRow(row, r, q, n)
    decreases n
  {
    var before := SelectRow(row, r, q, n - 1);
    var last := if Matches(q, row[n - 1]) then [Loc(r, n - 1)] else [];
    assert SelectRow(row, r, q, n) == before + last;
    if c < n - 1 {
      SelectRowComplete(row, r, q, n - 1, c);
      assert Loc(r, c) in before;
    } else {
      assert Loc(r, c) in last;
    }
  }

  lemma {:induction false} SelectComplete(g: Cells, q: Query, m: nat, l: Loc)
    requires m <= |g| && l.row < m && On(g, l) && Matches(q, g[l.row][l.col])
    ensures l in Select(g, q, m)
    decreases m
  {
    var upper := Select(g, q, m - 1);
    var row := SelectRow(g[m - 1], m - 1, q, |g[m - 1]|);
    assert Select(g, q, m) == upper + row;
    if l.row == m - 1 {
      SelectRowComplete(g[m - 1], m - 1, q, |g[m - 1]|, l.col);
      assert l in row;
    } else {
      SelectComplete(g, q, m - 1, l);
      assert l in upper;
    }
  }

  /** A scan lists exactly the cells that match, each once, in row-major
      order. */
  lemma ScanMembers(g: Cells, q: Query)
    ensures forall l :: l in Scan(g, q) <==> On(g, l) && Matches(q, g[l.row][l.col])
    ensures forall j, k :: 0 <= j < k < |Scan(g, q)| ==> Before(Scan(g, q)[j], Scan(g, q)[k])
  {
    forall l | On(g, l) && Matches(q, g[l.row][l.col]) ensures l in Scan(g, q) {
      SelectComplete(g, q, |g|, l);
    }
    SelectOrdered(g, q, |g|);
  }

  lemma {:induction false} PartitionRow(row: seq<Option<Slot>>, r: nat, n: nat)
    requires n <= |row|
    ensures |SelectRow(row, r, Vacant, n)| + |SelectRow(row, r, Filled, n)| == n
    decreases n
  {
    if n > 0 {
      PartitionRow(row, r, n - 1);
      var empty := if row[n - 1].None? then [Loc(r, n - 1)] else [];
      var full := if row[n - 1].Some? then [Loc(r, n - 1)] else [];
      assert SelectRow(row, r, Vacant, n) == SelectRow(row, r, Vacant, n - 1) + empty;
      assert SelectRow(row, r, Filled, n) == SelectRow(row, r, Filled, n - 1) + full;
      assert |empty| + |full| == 1;
    }
  }

  lemma {:induction false} PartitionPrefix(g: Cells, rows: nat, cols: nat, m: nat)
    requires Shaped(g, rows, cols) && m <= rows
    ensures |Select(g, Vacant, m)| + |Select(g, Filled, m)| == m * cols
    decreases m
  {
    if m > 0 {
      PartitionPrefix(g, rows, cols, m - 1);
      PartitionRow(g[m - 1], m - 1, cols);
      assert m * cols == (m - 1) * cols + cols;
    }
  }

  /** The empty cells and the occupied cells partition the grid: every cell
      is in exactly one of the two scans, and the two counts add up to the
      number of cells. */
  lemma {:induction false} Partition(g: Cells, rows: nat, cols: nat)
    requires Shaped(g, rows, cols)
    ensures |Scan(g, Vacant)| + |Scan(g, Filled)| == rows * cols
    ensures forall l :: InBounds(l, rows, cols) ==> (l in Scan(g, Vacant) <==> l !in Scan(g, Filled))
  {
    PartitionPrefix(g, rows, cols, rows);
    ScanMembers(g, Vacant);
    ScanMembers(g, Filled);
  }

  /** Writing value `v` into cell `c` of a row changes how many of its cells
      match `q` only by what changed in that one cell. */
  lemma {:induction false} SelectRowAfterWrite(row: seq<Option<Slot>>, r: nat, q: Query, n: nat, c: nat, v: Option<Slot>)
    requires n <= |row| && c < |row|
    ensures |SelectRow(row[c := v], r, q, n)| ==
      |SelectRow(row, r, q, n)|
      + (if c < n && Matches(q, v) then 1 else 0)
      - (if c < n && Matches(q, row[c]) then 1 else 0)
    decreases n
  {
    if n > 0 {
      SelectRowAfterWrite(row, r, q, n - 1, c, v);
    }
  }

  lemma {:induction false} SelectAfterWrite(g: Cells, q: Query, m: nat, l: Loc, v: Option<Slot>)
    requires m <= |g| && On(g, l)
    ensures |Select(g[l.row := g[l.row][l.col := v]], q, m)| ==
      |Select(g, q, m)|
      + (if l.row < m && Matches(q, v) then 1 else 0)
      - (if l.row < m && Matches(q, g[l.row][l.col]) then 1 else 0)
    decreases m
  {
    if m > 0 {
      SelectAfterWrite(g, q, m - 1, l, v);
      if l.row == m - 1 {
        SelectRowAfterWrite(g[m - 1], m - 1, q, |g[m - 1]|, l.col, v);
      }
    }
  }

  /** The item ids stored at the given occupied locations, in the same order:
      `parts` maps get_non_empty to the part at each location. */
  function PartsOf(g: Cells, locs: seq<Loc>): (ids: seq<ItemId>)
    requires AllFilled(g, locs)
  {
    seq(|locs|, k requires 0 <= k < |locs| => g[locs[k].row][locs[k].col].value.item)
  }

  /** The first empty cell in row-major order, if there is one:
      `get_empty.first`. */
  function FirstVacant(g: Cells): (first: Option<Loc>)
    ensures first.None? <==> forall l :: On(g, l) ==> g[l.row][l.col].Some?
    ensures first.Some? ==>
      On(g, first.value) && g[first.value.row][first.value.col].None?
      && forall l :: On(g, l) && Before(l, first.value) ==> g[l.row][l.col].Some?
  {
    var empty := Scan(g, Vacant);
    ScanMembers(g, Vacant);
    if empty == [] then None else Some(empty[0])
  }

  /** In a row of empty cells every cell is selected by the empty-cell
      query. */
  lemma {:induction false} VacantRowCount(row: seq<Option<Slot>>, r: nat, n: nat)
    requires n <= |row| && forall c :: 0 <= c < |row| ==> row[c].None?
    ensures |SelectRow(row, r, Vacant, n)| == n
    decreases n
  {
    if n > 0 {
      VacantRowCount(row, r, n - 1);
    }
  }

  /** An empty rows-by-columns grid has rows * columns empty cells. */
  lemma {:induction false} BlankCapacity(rows: nat, cols: nat, m: nat)
    requires m <= rows
    ensures |Select(Blank(rows, cols), Vacant, m)| == m * cols
    decreases m
  {
    if m > 0 {
      var g := Blank(rows, cols);
      BlankCapacity(rows, cols, m - 1);
      VacantRowCount(g[m - 1], m - 1, |g[m - 1]|);
      assert m * cols == (m - 1) * cols + cols;
    }
  }

  /** Write `s` into the cell at `l`, whatever it held before. */
  function Put(g: Cells, l: Loc, s: Slot): (h: Cells)
    requires On(g, l)
    ensures |h| == |g| && forall r :: 0 <= r < |g| ==> |h[r]| == |g[r]|
    ensures h[l.row][l.col] == Some(s)
    ensures forall r, c :: 0 <= r < |g| && 0 <= c < |g[r]| && (r != l.row || c != l.col) ==> h[r][c] == g[r][c]
  {
    g[l.row := g[l.row][l.col := Some(s)]]
  }

  /** What was written is found where it was written, and an item it
      overwrote is no longer found there. */
  lemma PutThenFind(g: Cells, l: Loc, s: Slot, other: ItemId)
    requires On(g, l)
    ensures l in Scan(Put(g, l, s), Holds(s.item))
    ensures other != s.item ==> l !in Scan(Put(g, l, s), Holds(other))
  {
    ScanMembers(Put(g, l, s), Holds(s.item));
    ScanMembers(Put(g, l, s), Holds(other));
  }

  /** Grids of the same shape that agree cell by cell are equal. */
  lemma CellsEqual(g: Cells, h: Cells, rows: nat, cols: nat)
    requires Shaped(g, rows, cols) && Shaped(h, rows, cols)
    requires forall r, c :: 0 <= r < rows && 0 <= c < cols ==> g[r][c] == h[r][c]
    ensures g == h
  {
    forall r | 0 <= r < rows ensures g[r] == h[r] {
      assert forall c :: 0 <= c < cols ==> g[r][c] == h[r][c];
    }
  }

  /** A list of locations in strict row-major order is determined by its
      length and the set of its members. */
  lemma {:induction false} OrderedUnique(a: seq<Loc>, b: seq<Loc>)
    requires forall j, k :: 0 <= j < k < |a| ==> Before(a[j], a[k])
    requires forall j, k :: 0 <= j < k < |b| ==> Before(b[j], b[k])
    requires forall l :: l in a <==> l in b
    ensures a == b
    decreases |a|
  {
    assert a != [] ==> a[0] in b;
    assert b != [] ==> b[0] in a;
    if a != [] {
      var i :| 0 <= i < |a| && a[i] == b[0];
      var j :| 0 <= j < |b| && b[j] == a[0];
      assert a[0] == b[0];
      forall l ensures l in a[1..] <==> l in b[1..] {
        if l in a[1..] {
          var k :| 1 <= k < |a| && a[k] == l;
          assert Before(a[0], l);
          assert l in b;
          var m :| 0 <= m < |b| && b[m] == l;
          assert m != 0;
          assert b[1..][m - 1] == l;
        }
        if l in b[1..] {
          var k :| 1 <= k < |b| && b[k] == l;
          assert Before(b[0], l);
          assert l in a;
          var m :| 0 <= m < |a| && a[m] == l;
          assert m != 0;
          assert a[1..][m - 1] == l;
        }
      }
      OrderedUnique(a[1..], b[1..]);
      assert a == [a[0]] + a[1..] && b == [b[0]] + b[1..];
    }
  }

  /** An item id is among the parts exactly when find_item finds it
      somewhere. */
  lemma PartsFinds(g: Cells, id: ItemId)
    ensures AllFilled(g, Scan(g, Filled))
    ensures id in PartsOf(g, Scan(g, Filled)) <==> Scan(g, Holds(id)) != []
  {
    var occupied := Scan(g, Filled);
    ScanMembers(g, Filled);
    ScanMembers(g, Holds(id));
    var ps := PartsOf(g, occupied);
    if id in ps {
      var k :| 0 <= k < |ps| && ps[k] == id;
      assert occupied[k] in Scan(g, Holds(id));
    }
    if Scan(g, Holds(id)) != [] {
      var l := Scan(g, Holds(id))[0];
      assert l in occupied;
      var k :| 0 <= k < |occupied| && occupied[k] == l;
      assert ps[k] == id;
    }
  }

  /** The cell at `l`, or nothing when `l` lies outside the grid. */
  function CellAt(g: Cells, l: Loc): (cell: Option<Slot>)
    ensures On(g, l) ==> cell == g[l.row][l.col]
    ensures !On(g, l) ==> cell.None?
  {
    if On(g, l) then g[l.row][l.col] else None
  }

  /** The locations of `locs` whose cell matches `q`, in the order given:
      what a loop that pushes each matching location of a scan builds. */
  function Keep(g: Cells, locs: seq<Loc>, q: Query): (kept: seq<Loc>)
    ensures |kept| <= |locs|
    decreases |locs|
  {
    if locs == [] then []
    else
      var last := locs[|locs| - 1];
      Keep(g, locs[..|locs| - 1], q) + (if Matches(q, CellAt(g, last)) then [last] else [])
  }

  /** Extending the walked prefix by one location keeps that location
      exactly when it matches. */
  lemma KeepNext(g: Cells, locs: seq<Loc>, k: nat, q: Query)
    requires k < |locs|
    ensures Keep(g, locs[..k + 1], q) ==
      Keep(g, locs[..k], q) + (if Matches(q, CellAt(g, locs[k])) then [locs[k]] else [])
  {
    assert locs[..k + 1][..k] == locs[..k];
  }

  /** The walk behind find_item, find_sample and find_stripwell: each
      location of `occupied`, in order, is pushed when its cell matches. */
  method PushMatching(cells: Cells, occupied: seq<Loc>, q: Query) returns (locs: seq<Loc>)
    ensures locs == Keep(cells, occupied, q)
  {
    locs := [];
    for k := 0 to |occupied|
      invariant locs == Keep(cells, occupied[..k], q)
    {
      var l := occupied[k];
      KeepNext(cells, occupied, k, q);
      if Matches(q, CellAt(cells, l)) {
        locs := locs + [l];
      }
    }
    assert occupied[..|occupied|] == occupied;
  }

  /** A location is kept exactly when it is walked and its cell matches. */
  lemma {:induction false} KeepMembers(g: Cells, locs: seq<Loc>, q: Query)
    ensures forall l :: l in Keep(g, locs, q) <==> l in locs && Matches(q, CellAt(g, l))
    decreases |locs|
  {
    if locs != [] {
      var init := locs[..|locs| - 1];
      KeepMembers(g, init, q);
      assert locs == init + [locs[|locs| - 1]];
    }
  }

  /** Keeping some locations of a walk in row-major order leaves them in
      row-major order. */
  lemma {:induction false} KeepOrdered(g: Cells, locs: seq<Loc>, q: Query)
    requires forall j, k :: 0 <= j < k < |locs| ==> Before(locs[j], locs[k])
    ensures forall j, k :: 0 <= j < k < |Keep(g, locs, q)| ==> Before(Keep(g, locs, q)[j], Keep(g, locs, q)[k])
    decreases |locs|
  {
    if locs != [] {
      var init := locs[..|locs| - 1];
      var last := locs[|locs| - 1];
      var kept := Keep(g, init, q);
      KeepOrdered(g, init, q);
      KeepMembers(g, init, q);
      forall j | 0 <= j < |kept| ensures Before(kept[j], last) {
        assert kept[j] in init;
        var i :| 0 <= i < |init| && init[i] == kept[j];
        assert Before(locs[i], locs[|locs| - 1]);
      }
    }
  }

  /** Walking the occupied cells and keeping those that match a query that
      only picks occupied cells gives that query's own scan. */
  lemma ScanKeep(g: Cells, q: Query)
    requires PicksOccupied(q)
    ensures Keep(g, Scan(g, Filled), q) == Scan(g, q)
  {
    var all := Scan(g, Filled);
    ScanMembers(g, Filled);
    ScanMembers(g, q);
    KeepMembers(g, all, q);
    KeepOrdered(g, all, q);
    forall l ensures l in Keep(g, all, q) <==> l in Scan(g, q) {
      if On(g, l) {
        assert CellAt(g, l) == g[l.row][l.col];
      }
    }
    OrderedUnique(Keep(g, all, q), Scan(g, q));
  }

  /** Filling the first empty cell takes it, and only it, off the front of
      the empty-cell scan: the next unlocated placement goes to the next
      empty cell in row-major order. */
  lemma FillFirstVacant(g: Cells, s: Slot)
    requires Scan(g, Vacant) != []
    ensures On(g, Scan(g, Vacant)[0])
    ensures Scan(Put(g, Scan(g, Vacant)[0], s), Vacant) == Scan(g, Vacant)[1..]
  {
    var before := Scan(g, Vacant);
    ScanMembers(g, Vacant);
    var l := before[0];
    assert l in before;
    var h := Put(g, l, s);
    var after := Scan(h, Vacant);
    ScanMembers(h, Vacant);
    SelectAfterWrite(g, Vacant, |g|, l, Some(s));
    FilledFirstLeaves(g, s);
    FilledFirstKeeps(g, s);
    OrderedUnique(after, before[1..]);
  }

  /** No cell joins the empty-cell scan when its first cell is filled. */
  lemma FilledFirstLeaves(g: Cells, s: Slot)
    requires Scan(g, Vacant) != [] && On(g, Scan(g, Vacant)[0])
    ensures forall l :: l in Scan(Put(g, Scan(g, Vacant)[0], s), Vacant) ==> l in Scan(g, Vacant)[1..]
  {
    var before := Scan(g, Vacant);
    var h := Put(g, before[0], s);
    ScanMembers(g, Vacant);
    ScanMembers(h, Vacant);
    forall l | l in Scan(h, Vacant) ensures l in before[1..] {
      assert l != before[0];
      assert l in before;
      var k :| 0 <= k < |before| && before[k] == l;
      assert before[1..][k - 1] == l;
    }
  }

  /** Every empty cell after the first stays in the scan when the first
      is filled. */
  lemma FilledFirstKeeps(g: Cells, s: Slot)
    requires Scan(g, Vacant) != [] && On(g, Scan(g, Vacant)[0])
    ensures forall l :: l in Scan(g, Vacant)[1..] ==> l in Scan(Put(g, Scan(g, Vacant)[0], s), Vacant)
  {
    var before := Scan(g, Vacant);
    var h := Put(g, before[0], s);
    ScanMembers(g, Vacant);
    ScanMembers(h, Vacant);
    forall l | l in before[1..] ensures l in Scan(h, Vacant) {
      var k :| 0 <= k < |before[1..]| && before[1..][k] == l;
      assert before[k + 1] == l;
      assert Before(before[0], l);
    }
  }
}
