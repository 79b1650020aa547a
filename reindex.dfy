/**
 * What `_fast_reindex` computes, stated relationally: a left equi-join with
 * the grid as the driving relation, matched on (date, asset id), selecting
 * the grid's two key columns and then every other column of the data in
 * column order, a missing match giving a row of nulls.
 */
module Reindex {
  import opened Frames
  import opened Columns
  import opened Duplicates

  /** The key cells of a result row: the grid's date and asset id. */
  function KeyCells(k: Key): Row
  {
    [Day(k.0), k.1]
  }

  /** A row of nulls, for a grid key that no data row matches. */
  function Nulls(n: nat): (r: Row)
    ensures |r| == n && forall j :: 0 <= j < n ==> r[j] == Null
  {
    seq(n, _ => Null)
  }

  /** Every row of `rows` has `w` cells. */
  predicate Wide(rows: seq<Row>, w: nat)
  {
    forall r :: r in rows ==> |r| == w
  }

  /** The positions of the payload columns: every column that is neither
      'date' nor the id column, in column order. */
  function PayloadPositions(cols: seq<string>, idCol: string): (pos: seq<nat>)
    ensures forall j :: 0 <= j < |pos| ==> pos[j] < |cols| && cols[pos[j]] != "date" && cols[pos[j]] != idCol
    ensures forall i, j :: 0 <= i < j < |pos| ==> pos[i] < pos[j]
    ensures forall i :: 0 <= i < |cols| && cols[i] != "date" && cols[i] != idCol ==> i in pos
  {
    if cols == [] then []
    else
      var n := |cols| - 1;
      var prev := PayloadPositions(cols[..n], idCol);
      if cols[n] != "date" && cols[n] != idCol then prev + [n] else prev
  }

  /** Data row `row` carries the grid key `k` in its date and id columns. The
      join compares with SQL `=`, under which a missing value equals nothing,
      so a missing grid id matches no row. */
  predicate IsMatch(row: Row, di: nat, ii: nat, k: Key)
  {
    k.1 != Null && di < |row| && ii < |row| && row[di] == Day(k.0) && row[ii] == k.1
  }

  /** The positions of the data rows that carry `k`, ascending. */
  function MatchIdx(rows: seq<Row>, di: nat, ii: nat, k: Key): (idx: seq<nat>)
    ensures forall j :: 0 <= j < |idx| ==> idx[j] < |rows| && IsMatch(rows[idx[j]], di, ii, k)
    ensures forall i, j :: 0 <= i < j < |idx| ==> idx[i] < idx[j]
    ensures forall i :: 0 <= i < |rows| && IsMatch(rows[i], di, ii, k) ==> i in idx
  {
    if rows == [] then []
    else
      var n := |rows| - 1;
      var prev := MatchIdx(rows[..n], di, ii, k);
      if IsMatch(rows[n], di, ii, k) then prev + [n] else prev
  }

  /** The joined rows of one grid key: one per matching data row, or a single
      row of nulls when none matches. */
  function JoinKey(k: Key, rows: seq<Row>, w: nat, di: nat, ii: nat, pos: seq<nat>): seq<Row>
    requires Wide(rows, w) && forall p :: 0 <= p < |pos| ==> pos[p] < w
  {
    var idx := MatchIdx(rows, di, ii, k);
    if idx == [] then [KeyCells(k) + Nulls(|pos|)]
    else
      seq(|idx|, j requires 0 <= j < |idx| =>
        assert rows[idx[j]] in rows;
        KeyCells(k) + Select(rows[idx[j]], pos))
  }

  /** The joined rows of every grid key, in grid order. */
  function JoinAll(grid: seq<Key>, rows: seq<Row>, w: nat, di: nat, ii: nat, pos: seq<nat>): seq<Row>
    requires Wide(rows, w) && forall p :: 0 <= p < |pos| ==> pos[p] < w
  {
    if grid == [] then []
    else JoinAll(grid[..|grid| - 1], rows, w, di, ii, pos) + JoinKey(grid[|grid| - 1], rows, w, di, ii, pos)
  }

  /** The data the join reads: a plain index and the two key columns present. */
  predicate JoinReady(data: Frame, idCol: string)
  {
    Rectangular(data) && data.indexNames == [] && "date" in data.columns && idCol in data.columns
  }

  /** Where the join looks for the date and the id in a data row. */
  function DateAt(data: Frame): nat
    requires "date" in data.columns
  {
    ColumnIndex(data.columns, "date")
  }

  function IdAt(data: Frame, idCol: string): nat
    requires idCol in data.columns
  {
    ColumnIndex(data.columns, idCol)
  }

  /** The data rows are all as wide as the frame has columns. */
  lemma ReadyRows(data: Frame, idCol: string)
    requires JoinReady(data, idCol)
    ensures Wide(data.rows, |data.columns|)
    ensures forall p :: 0 <= p < |PayloadPositions(data.columns, idCol)| ==>
      PayloadPositions(data.columns, idCol)[p] < |data.columns|
  {
  }

  /** `_fast_reindex(grid, data)`, indexed by (date, id) as `set_index` leaves it. */
  function LeftJoin(grid: seq<Key>, data: Frame, idCol: string): (r: Frame)
    requires JoinReady(data, idCol)
    ensures r.indexNames == ["date", idCol] && Rectangular(r)
  {
    var pos := PayloadPositions(data.columns, idCol);
    ReadyRows(data, idCol);
    JoinAllShape(grid, data.rows, |data.columns|, DateAt(data), IdAt(data, idCol), pos);
    Frame(["date", idCol], Select(data.columns, pos),
      JoinAll(grid, data.rows, |data.columns|, DateAt(data), IdAt(data, idCol), pos))
  }

  /** The rows of one grid key all carry that key and one cell per payload column. */
  lemma JoinKeyShape(k: Key, rows: seq<Row>, w: nat, di: nat, ii: nat, pos: seq<nat>)
    requires Wide(rows, w) && forall p :: 0 <= p < |pos| ==> pos[p] < w
    ensures |JoinKey(k, rows, w, di, ii, pos)| > 0
    ensures forall r :: r in JoinKey(k, rows, w, di, ii, pos) ==> |r| == 2 + |pos| && r[..2] == KeyCells(k)
  {
    var out := JoinKey(k, rows, w, di, ii, pos);
    forall r | r in out ensures |r| == 2 + |pos| && r[..2] == KeyCells(k) {
      var j :| 0 <= j < |out| && out[j] == r;
    }
  }

  /** Every joined row is a grid key followed by one cell per payload column,
      and every grid key has at least one joined row. */
  lemma {:induction false} JoinAllShape(grid: seq<Key>, rows: seq<Row>, w: nat, di: nat, ii: nat, pos: seq<nat>)
    requires Wide(rows, w) && forall p :: 0 <= p < |pos| ==> pos[p] < w
    ensures Wide(JoinAll(grid, rows, w, di, ii, pos), 2 + |pos|)
    ensures forall r :: r in JoinAll(grid, rows, w, di, ii, pos) ==>
      exists k :: k in grid && r[..2] == KeyCells(k)
    ensures forall k :: k in grid ==>
      exists r :: r in JoinAll(grid, rows, w, di, ii, pos) && r[..2] == KeyCells(k)
  {
    if grid != [] {
      var n := |grid| - 1;
      var init := grid[..n];
      JoinAllShape(init, rows, w, di, ii, pos);
      JoinKeyShape(grid[n], rows, w, di, ii, pos);
      var prev := JoinAll(init, rows, w, di, ii, pos);
      var last := JoinKey(grid[n], rows, w, di, ii, pos);
      var all := prev + last;
      assert all == JoinAll(grid, rows, w, di, ii, pos);
      forall r | r in all ensures |r| == 2 + |pos| && exists k :: k in grid && r[..2] == KeyCells(k) {
        if r in prev {
          var k :| k in init && r[..2] == KeyCells(k);
          assert k in grid;
        } else {
          assert grid[n] in grid;
        }
      }
      forall k | k in grid ensures exists r :: r in all && r[..2] == KeyCells(k) {
        if k in init {
          var r :| r in prev && r[..2] == KeyCells(k);
          assert r in all;
        } else {
          assert k == grid[n];
          assert last[0] in all;
        }
      }
    }
  }

  /** The result's keys are exactly the grid's keys: no grid key is dropped and
      no key outside the grid is made up; each row has one cell per payload column. */
  lemma JoinKeysAreGridKeys(grid: seq<Key>, data: Frame, idCol: string)
    requires JoinReady(data, idCol)
    ensures Rectangular(LeftJoin(grid, data, idCol))
    ensures forall r :: r in LeftJoin(grid, data, idCol).rows ==>
      exists k :: k in grid && r[..2] == KeyCells(k)
    ensures forall k :: k in grid ==>
      exists r :: r in LeftJoin(grid, data, idCol).rows && r[..2] == KeyCells(k)
  {
    var pos := PayloadPositions(data.columns, idCol);
    ReadyRows(data, idCol);
    JoinAllShape(grid, data.rows, |data.columns|, DateAt(data), IdAt(data, idCol), pos);
  }

  /** The (date, id) key the duplicate check uses is the one the join matches on. */
  lemma KeysAreMatchKeys(data: Frame, idCol: string, i: nat, k: Key)
    requires JoinReady(data, idCol) && i < |data.rows|
    ensures SubsetPresent(data, ["date", idCol])
    ensures IsMatch(data.rows[i], DateAt(data), IdAt(data, idCol), k) <==>
      k.1 != Null && Keys(data, ["date", idCol])[i] == KeyCells(k)
  {
    var row := data.rows[i];
    assert row in data.rows;
    assert Positions(data, ["date", idCol]) == [DateAt(data), IdAt(data, idCol)];
    assert Keys(data, ["date", idCol])[i] == [row[DateAt(data)], row[IdAt(data, idCol)]];
  }

  /** With one data row per key (as after dropping duplicates), each grid key
      matches at most one data row. */
  lemma AtMostOneMatch(data: Frame, idCol: string, k: Key)
    requires JoinReady(data, idCol)
    requires SubsetPresent(data, ["date", idCol]) && Distinct(Keys(data, ["date", idCol]))
    ensures |MatchIdx(data.rows, DateAt(data), IdAt(data, idCol), k)| <= 1
  {
    var idx := MatchIdx(data.rows, DateAt(data), IdAt(data, idCol), k);
    if |idx| > 1 {
      KeysAreMatchKeys(data, idCol, idx[0], k);
      KeysAreMatchKeys(data, idCol, idx[1], k);
    }
  }

  /** The payload of a key's single joined row when at most one data row matches. */
  predicate OneRowFor(r: Row, k: Key, rows: seq<Row>, di: nat, ii: nat, pos: seq<nat>)
  {
    && |r| == 2 + |pos| && r[..2] == KeyCells(k)
    && (forall i :: 0 <= i < |rows| && IsMatch(rows[i], di, ii, k) ==>
          (forall p :: 0 <= p < |pos| ==> pos[p] < |rows[i]|) && r[2..] == Select(rows[i], pos))
    && ((forall i :: 0 <= i < |rows| ==> !IsMatch(rows[i], di, ii, k)) ==> r[2..] == Nulls(|pos|))
  }

  /** A key matched by at most one data row has exactly one joined row. */
  lemma JoinKeyUnique(k: Key, rows: seq<Row>, w: nat, di: nat, ii: nat, pos: seq<nat>)
    requires Wide(rows, w) && forall p :: 0 <= p < |pos| ==> pos[p] < w
    requires |MatchIdx(rows, di, ii, k)| <= 1
    ensures |JoinKey(k, rows, w, di, ii, pos)| == 1
    ensures OneRowFor(JoinKey(k, rows, w, di, ii, pos)[0], k, rows, di, ii, pos)
  {
    var idx := MatchIdx(rows, di, ii, k);
    var r := JoinKey(k, rows, w, di, ii, pos)[0];
    if idx != [] {
      assert rows[idx[0]] in rows;
      assert r == KeyCells(k) + Select(rows[idx[0]], pos);
      forall i | 0 <= i < |rows| && IsMatch(rows[i], di, ii, k)
        ensures (forall p :: 0 <= p < |pos| ==> pos[p] < |rows[i]|) && r[2..] == Select(rows[i], pos)
      {
        assert rows[i] in rows;
        assert i in idx;
      }
    }
  }

  /** With every grid key matched by at most one data row, the join has one
      row per grid entry, and entry `j`'s row is the one `JoinKeyUnique` describes. */
  lemma {:induction false} JoinAllUnique(grid: seq<Key>, rows: seq<Row>, w: nat, di: nat, ii: nat, pos: seq<nat>, j: nat)
    requires Wide(rows, w) && forall p :: 0 <= p < |pos| ==> pos[p] < w
    requires forall k :: k in grid ==> |MatchIdx(rows, di, ii, k)| <= 1
    ensures |JoinAll(grid, rows, w, di, ii, pos)| == |grid|
    ensures j < |grid| ==> OneRowFor(JoinAll(grid, rows, w, di, ii, pos)[j], grid[j], rows, di, ii, pos)
  {
    if grid != [] {
      var n := |grid| - 1;
      var init := grid[..n];
      assert forall k :: k in init ==> k in grid;
      JoinAllUnique(init, rows, w, di, ii, pos, j);
      assert grid[n] in grid;
      JoinKeyUnique(grid[n], rows, w, di, ii, pos);
      var prev := JoinAll(init, rows, w, di, ii, pos);
      var last := JoinKey(grid[n], rows, w, di, ii, pos);
      assert JoinAll(grid, rows, w, di, ii, pos) == prev + last;
      if j < n {
        assert (prev + last)[j] == prev[j] && init[j] == grid[j];
      } else if j == n {
        assert (prev + last)[j] == last[0];
      }
    }
  }

  /** Grid entry `j`'s joined row, stated through the duplicate check's (date,
      id) key: the payload of the data row with the entry's key, or nulls when
      there is none or the entry's id is missing. */
  predicate RowForEntry(r: Row, k: Key, data: Frame, idCol: string, pos: seq<nat>)
    requires Rectangular(data) && SubsetPresent(data, ["date", idCol])
  {
    && |r| == 2 + |pos| && r[..2] == KeyCells(k)
    && (forall i :: 0 <= i < |data.rows| && k.1 != Null && Keys(data, ["date", idCol])[i] == KeyCells(k) ==>
          (forall p :: 0 <= p < |pos| ==> pos[p] < |data.rows[i]|) && r[2..] == Select(data.rows[i], pos))
    && ((k.1 == Null || forall i :: 0 <= i < |data.rows| ==> Keys(data, ["date", idCol])[i] != KeyCells(k)) ==>
          r[2..] == Nulls(|pos|))
  }

  /** One entry of `JoinOneRowPerGridEntry`. */
  lemma JoinRowAt(grid: seq<Key>, data: Frame, idCol: string, j: nat)
    requires JoinReady(data, idCol)
    requires SubsetPresent(data, ["date", idCol]) && Distinct(Keys(data, ["date", idCol]))
    ensures |LeftJoin(grid, data, idCol).rows| == |grid|
    ensures j < |grid| ==>
      RowForEntry(LeftJoin(grid, data, idCol).rows[j], grid[j], data, idCol, PayloadPositions(data.columns, idCol))
  {
    var pos := PayloadPositions(data.columns, idCol);
    ReadyRows(data, idCol);
    forall k | k in grid ensures |MatchIdx(data.rows, DateAt(data), IdAt(data, idCol), k)| <= 1 {
      AtMostOneMatch(data, idCol, k);
    }
    JoinAllUnique(grid, data.rows, |data.columns|, DateAt(data), IdAt(data, idCol), pos, j);
    if j < |grid| {
      forall i | 0 <= i < |data.rows|
        ensures IsMatch(data.rows[i], DateAt(data), IdAt(data, idCol), grid[j]) <==>
          grid[j].1 != Null && Keys(data, ["date", idCol])[i] == KeyCells(grid[j])
      {
        KeysAreMatchKeys(data, idCol, i, grid[j]);
      }
    }
  }

  /** After duplicate (date, id) rows are dropped, the join has exactly one row
      per grid entry, in grid order and multiplicity: the entry's key, then the
      matching data row's payload cells, or nulls when no data row matches. */
  lemma JoinOneRowPerGridEntry(grid: seq<Key>, data: Frame, idCol: string)
    requires JoinReady(data, idCol)
    requires SubsetPresent(data, ["date", idCol]) && Distinct(Keys(data, ["date", idCol]))
    ensures |LeftJoin(grid, data, idCol).rows| == |grid|
    ensures forall j :: 0 <= j < |grid| ==>
      RowForEntry(LeftJoin(grid, data, idCol).rows[j], grid[j], data, idCol, PayloadPositions(data.columns, idCol))
  {
    JoinRowAt(grid, data, idCol, 0);
    forall j | 0 <= j < |grid|
      ensures RowForEntry(LeftJoin(grid, data, idCol).rows[j], grid[j], data, idCol, PayloadPositions(data.columns, idCol))
    {
      JoinRowAt(grid, data, idCol, j);
    }
  }
}
