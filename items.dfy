/** The inventory records a rack is handed: items, and collections of
    items such as strip wells. The host framework's persistent store stands
    behind these; the model keeps only what the rack reads from them. */
module Items {
  import opened Grid

  /** An item as the rack sees it: its id, the sample it holds, if any,
      the collection it is a part of, if any (`is_part` and
      `containing_collection`), and, when the item is itself a collection,
      that collection's own layout (`collection?`). */
  datatype Item = Item(id: ItemId, sample: Option<SampleId>, container: Option<CollectionId>, layout: Option<Layout>)
  {
    predicate IsCollection() { layout.Some? }
    predicate IsPart() { container.Some? }
  }

  /** A collection's dimensions and its grid of parts. */
  datatype Layout = Layout(rows: nat, columns: nat, parts: seq<seq<Option<Item>>>)
  {
    /** The grid of parts has the collection's dimensions, as the
        framework's collections keep it. */
    predicate WellShaped()
    {
      |parts| == rows && forall r :: 0 <= r < |parts| ==> |parts[r]| == columns
    }
  }

  /** A value handed to the rack: an item (collections included), a sample,
      or anything else. */
  datatype Value = AnItem(item: Item) | ASample(sample: SampleId) | Other

  /** The parts held in the first `n` cells of one row of a collection,
      left to right. */
  function RowParts(row: seq<Option<Item>>, n: nat): (ps: seq<Item>)
    requires n <= |row|
    ensures |ps| <= n
    decreases n
  {
    if n == 0 then []
    else RowParts(row, n - 1) + (match row[n - 1] case None => [] case Some(x) => [x])
  }

  /** The parts of the first `m` rows of a collection in row-major order:
      the collection's get_non_empty locations mapped to the part at each. */
  function OccupiedParts(cells: seq<seq<Option<Item>>>, m: nat): (ps: seq<Item>)
    requires m <= |cells|
    decreases m
  {
    if m == 0 then []
    else OccupiedParts(cells, m - 1) + RowParts(cells[m - 1], |cells[m - 1]|)
  }

  /** The part of the occupied cell c of a row sits in the list at the
      number of occupied cells to its left. */
  lemma {:induction false} RowPartAt(row: seq<Option<Item>>, n: nat, c: nat)
    requires n <= |row| && c < n && row[c].Some?
    ensures |RowParts(row, c)| < |RowParts(row, n)|
    ensures RowParts(row, n)[|RowParts(row, c)|] == row[c].value
    decreases n
  {
    var before := RowParts(row, n - 1);
    var tail := match row[n - 1] case None => [] case Some(x) => [x];
    var at := |RowParts(row, c)|;
    assert RowParts(row, n) == before + tail;
    if c == n - 1 {
      assert (before + tail)[at] == tail[0];
    } else {
      RowPartAt(row, n - 1, c);
      assert (before + tail)[at] == before[at];
    }
  }

  /** Every entry of a row's list of parts is the part of an occupied cell,
      at the position RowPartAt gives that cell. */
  lemma {:induction false} RowPartFrom(row: seq<Option<Item>>, n: nat, k: nat)
    requires n <= |row| && k < |RowParts(row, n)|
    ensures exists c :: 0 <= c < n && row[c] == Some(RowParts(row, n)[k]) && |RowParts(row, c)| == k
    decreases n
  {
    var before := RowParts(row, n - 1);
    var tail := match row[n - 1] case None => [] case Some(x) => [x];
    assert RowParts(row, n) == before + tail;
    if k < |before| {
      RowPartFrom(row, n - 1, k);
      var c :| 0 <= c < n - 1 && row[c] == Some(before[k]) && |RowParts(row, c)| == k;
      assert row[c] == Some(RowParts(row, n)[k]);
    } else {
      assert row[n - 1] == Some(RowParts(row, n)[k]);
    }
  }

  /** The part of the occupied cell (r, c) sits in the list after the parts
      of the earlier rows and of the cells to its left in row r. */
  lemma {:induction false} OccupiedPartAt(cells: seq<seq<Option<Item>>>, m: nat, r: nat, c: nat)
    requires m <= |cells| && r < m && c < |cells[r]| && cells[r][c].Some?
    ensures |OccupiedParts(cells, r)| + |RowParts(cells[r], c)| < |OccupiedParts(cells, m)|
    ensures OccupiedParts(cells, m)[|OccupiedParts(cells, r)| + |RowParts(cells[r], c)|] == cells[r][c].value
    decreases m
  {
    var before := OccupiedParts(cells, m - 1);
    var tail := RowParts(cells[m - 1], |cells[m - 1]|);
    var at := |OccupiedParts(cells, r)| + |RowParts(cells[r], c)|;
    assert OccupiedParts(cells, m) == before + tail;
    if r == m - 1 {
      RowPartAt(cells[r], |cells[r]|, c);
      assert tail[at - |before|] == cells[r][c].value;
      assert (before + tail)[at] == tail[at - |before|];
    } else {
      OccupiedPartAt(cells, m - 1, r, c);
      assert (before + tail)[at] == before[at];
    }
  }

  /** Every entry of the list is the part of an occupied cell, at the
      position OccupiedPartAt gives that cell. */
  lemma {:induction false} OccupiedPartFrom(cells: seq<seq<Option<Item>>>, m: nat, k: nat)
    requires m <= |cells| && k < |OccupiedParts(cells, m)|
    ensures exists r, c :: (0 <= r < m && 0 <= c < |cells[r]| && cells[r][c] == Some(OccupiedParts(cells, m)[k])
                           && k == |OccupiedParts(cells, r)| + |RowParts(cells[r], c)|)
    decreases m
  {
    var last := cells[m - 1];
    var before := OccupiedParts(cells, m - 1);
    var tail := RowParts(last, |last|);
    assert OccupiedParts(cells, m) == before + tail;
    if k < |before| {
      OccupiedPartFrom(cells, m - 1, k);
      var r, c :| (0 <= r < m - 1 && 0 <= c < |cells[r]| && cells[r][c] == Some(before[k])
                   && k == |OccupiedParts(cells, r)| + |RowParts(cells[r], c)|);
      assert cells[r][c] == Some(OccupiedParts(cells, m)[k]);
    } else {
      RowPartFrom(last, |last|, k - |before|);
      var c :| 0 <= c < |last| && last[c] == Some(tail[k - |before|]) && |RowParts(last, c)| == k - |before|;
      assert cells[m - 1][c] == Some(OccupiedParts(cells, m)[k]);
    }
  }
}
