/**
 * What `add_index_info` builds from a membership table: for every row, in row
 * order, a block of (day, asset) keys for the factor grid (calendar days from
 * `from` to `thru`) and one for the pricing grid (calendar days from `from` to
 * the end of the calendar), the blocks of all rows concatenated.
 */
module Membership {
  import opened Frames
  import opened Calendar
  import opened Columns
  import opened Duplicates

  /** One membership row: the asset and the days it entered and left the
      index; a row read from the table has both dates or neither (`NaT`). */
  datatype Interval = Interval(id: Cell, from: Label, thru: Label)

  /** The factor grid is cut at `thru`; the pricing grid runs to the calendar's end. */
  datatype GridKind = FactorGrid | PricingGrid

  /** The upper label of a row's calendar slice for a grid. */
  function Upper(m: Interval, kind: GridKind): Option<Label>
  {
    if kind == FactorGrid then Some(m.thru) else None
  }

  /** Day `d` lies in the row's window for a grid: `[from, thru]` or `[from, ∞)`.
      A missing `from` leaves the window empty. */
  predicate InWindow(m: Interval, kind: GridKind, d: int)
  {
    NotBefore(d, m.from) && (kind == FactorGrid ==> NotAfter(d, m.thru))
  }

  /** Pair every day with an asset (`to_frame(symbol).stack()`). */
  function Tag(days: seq<int>, id: Cell): (keys: seq<Key>)
    ensures |keys| == |days| && forall j :: 0 <= j < |days| ==> keys[j] == (days[j], id)
  {
    seq(|days|, j requires 0 <= j < |days| => (days[j], id))
  }

  /** The keys one membership row contributes to a grid. */
  function Block(cal: seq<int>, m: Interval, kind: GridKind): seq<Key>
  {
    Tag(Loc(cal, m.from, Upper(m, kind)), m.id)
  }

  /** The concatenation of every row's block, in row order (`pd.concat`). */
  function Grid(cal: seq<int>, ms: seq<Interval>, kind: GridKind): seq<Key>
  {
    if ms == [] then []
    else Grid(cal, ms[..|ms| - 1], kind) + Block(cal, ms[|ms| - 1], kind)
  }

  /** The asset identifiers of the rows, in row order. */
  function Ids(ms: seq<Interval>): (ids: seq<Cell>)
    ensures |ids| == |ms| && forall i :: 0 <= i < |ms| ==> ids[i] == ms[i].id
  {
    seq(|ms|, i requires 0 <= i < |ms| => ms[i].id)
  }

  /** A row's block holds exactly its asset paired with the calendar days in its window. */
  lemma BlockMembers(cal: seq<int>, m: Interval, kind: GridKind, d: int, id: Cell)
    requires Increasing(cal)
    ensures (d, id) in Block(cal, m, kind) <==> d in cal && id == m.id && InWindow(m, kind, d)
    ensures Distinct(Block(cal, m, kind))
  {
    var days := Loc(cal, m.from, Upper(m, kind));
    LocMembers(cal, m.from, Upper(m, kind));
    var b := Block(cal, m, kind);
    if (d, id) in b {
      var j :| 0 <= j < |b| && b[j] == (d, id);
      assert days[j] == d;
    }
    if d in cal && id == m.id && InWindow(m, kind, d) {
      assert d in days;
      var j :| 0 <= j < |days| && days[j] == d;
      assert b[j] == (d, id);
    }
  }

  /** A row whose dates are both missing contributes nothing to either grid:
      both of its slices start past the last calendar day. */
  lemma BothMissingNoKeys(cal: seq<int>, m: Interval, kind: GridKind)
    requires Increasing(cal) && m.from.NaT? && m.thru.NaT?
    ensures Block(cal, m, kind) == []
  {
    LocMembers(cal, m.from, Upper(m, kind));
  }

  /** The concatenation of a sequence of sequences, in order. */
  function Concat<T>(bs: seq<seq<T>>): seq<T>
  {
    if bs == [] then [] else Concat(bs[..|bs| - 1]) + bs[|bs| - 1]
  }

  /** An element of a concatenation comes from one of its parts, and every
      part's elements are in it. */
  lemma {:induction false} ConcatMembers<T>(bs: seq<seq<T>>, x: T)
    ensures x in Concat(bs) <==> exists i :: 0 <= i < |bs| && x in bs[i]
  {
    if bs != [] {
      var n := |bs| - 1;
      ConcatMembers(bs[..n], x);
      if exists i :: 0 <= i < |bs| && x in bs[i] {
        var i :| 0 <= i < |bs| && x in bs[i];
        if i < n {
          assert bs[..n][i] == bs[i];
        }
      }
    }
  }

  /** Each row's block, in row order. */
  function Blocks(cal: seq<int>, ms: seq<Interval>, kind: GridKind): (bs: seq<seq<Key>>)
    ensures |bs| == |ms| && forall i :: 0 <= i < |ms| ==> bs[i] == Block(cal, ms[i], kind)
  {
    seq(|ms|, i requires 0 <= i < |ms| => Block(cal, ms[i], kind))
  }

  /** The grid is the concatenation of the rows' blocks. */
  lemma {:induction false} GridIsConcat(cal: seq<int>, ms: seq<Interval>, kind: GridKind)
    ensures Grid(cal, ms, kind) == Concat(Blocks(cal, ms, kind))
  {
    if ms != [] {
      var n := |ms| - 1;
      GridIsConcat(cal, ms[..n], kind);
      assert Blocks(cal, ms, kind)[..n] == Blocks(cal, ms[..n], kind);
    }
  }

  /** A grid holds exactly the pairs (d, id) where d is a calendar day inside
      the window of some membership row of asset id. */
  lemma GridMembers(cal: seq<int>, ms: seq<Interval>, kind: GridKind, d: int, id: Cell)
    requires Increasing(cal)
    ensures (d, id) in Grid(cal, ms, kind) <==>
      d in cal && exists m :: m in ms && m.id == id && InWindow(m, kind, d)
  {
    var bs := Blocks(cal, ms, kind);
    GridIsConcat(cal, ms, kind);
    ConcatMembers(bs, (d, id));
    if (d, id) in Grid(cal, ms, kind) {
      var i :| 0 <= i < |bs| && (d, id) in bs[i];
      BlockMembers(cal, ms[i], kind, d, id);
    }
    if d in cal && exists m :: m in ms && m.id == id && InWindow(m, kind, d) {
      var m :| m in ms && m.id == id && InWindow(m, kind, d);
      var i :| 0 <= i < |ms| && ms[i] == m;
      BlockMembers(cal, m, kind, d, id);
      assert (d, id) in bs[i];
    }
  }

  /** Each row's factor block is a prefix of its pricing block, so every factor
      key is also a pricing key. */
  lemma {:induction false} FactorWithinPricing(cal: seq<int>, ms: seq<Interval>)
    ensures forall m :: m in ms ==> Block(cal, m, FactorGrid) <= Block(cal, m, PricingGrid)
    ensures forall k :: k in Grid(cal, ms, FactorGrid) ==> k in Grid(cal, ms, PricingGrid)
  {
    forall m | m in ms ensures Block(cal, m, FactorGrid) <= Block(cal, m, PricingGrid) {
      FactorSlicePrefix(cal, m.from, m.thru);
    }
    if ms != [] {
      var n := |ms| - 1;
      FactorWithinPricing(cal, ms[..n]);
      assert ms[n] in ms;
      forall k | k in Grid(cal, ms, FactorGrid) ensures k in Grid(cal, ms, PricingGrid) {
        if k !in Grid(cal, ms[..n], FactorGrid) {
          var f := Block(cal, ms[n], FactorGrid);
          var j :| 0 <= j < |f| && f[j] == k;
          assert Block(cal, ms[n], PricingGrid)[j] == k;
        }
      }
    }
  }

  /** Every key of a grid carries the id of some row. */
  lemma GridIds(cal: seq<int>, ms: seq<Interval>, kind: GridKind)
    ensures forall k :: k in Grid(cal, ms, kind) ==> k.1 in Ids(ms)
  {
    var bs := Blocks(cal, ms, kind);
    GridIsConcat(cal, ms, kind);
    forall k | k in Grid(cal, ms, kind) ensures k.1 in Ids(ms) {
      ConcatMembers(bs, k);
      var i :| 0 <= i < |bs| && k in bs[i];
      BlockIds(cal, ms[i], kind, k);
      assert Ids(ms)[i] == k.1;
    }
  }

  /** Every key of a row's block carries that row's id. */
  lemma BlockIds(cal: seq<int>, m: Interval, kind: GridKind, k: Key)
    requires k in Block(cal, m, kind)
    ensures k.1 == m.id
  {
    var b := Block(cal, m, kind);
    var j :| 0 <= j < |b| && b[j] == k;
  }

  /** Appending one row appends its block. */
  lemma GridStep(cal: seq<int>, ms: seq<Interval>, m: Interval, kind: GridKind)
    ensures Grid(cal, ms + [m], kind) == Grid(cal, ms, kind) + Block(cal, m, kind)
  {
    assert (ms + [m])[..|ms|] == ms;
  }

  /** Reading one more row that reads fine appends its interval. */
  lemma ReadStep(rows: seq<Row>, i: nat, ms: seq<Interval>, m: Interval)
    requires i < |rows| && ReadIntervals(rows[..i]) == Ok(ms) && ReadRow(rows[i]) == Some(m)
    ensures ReadIntervals(rows[..i + 1]) == Ok(ms + [m])
  {
    assert rows[..i + 1][..i] == rows[..i];
  }

  /** Two duplicate-free sequences with no element in common concatenate to
      a duplicate-free sequence. */
  lemma AppendDistinct<T>(g: seq<T>, b: seq<T>)
    requires Distinct(g) && Distinct(b)
    requires forall x :: x in g ==> x !in b
    ensures Distinct(g + b)
  {
    forall i, j | 0 <= i < j < |g + b| ensures (g + b)[i] != (g + b)[j] {
      if j < |g| {
        assert (g + b)[i] == g[i] && (g + b)[j] == g[j];
      } else if i >= |g| {
        assert (g + b)[i] == b[i - |g|] && (g + b)[j] == b[j - |g|];
      } else {
        assert (g + b)[i] == g[i] && (g + b)[j] == b[j - |g|];
        assert g[i] in g;
      }
    }
  }

  /** With a calendar free of repeats and one row per asset, no grid repeats a key. */
  lemma {:induction false} GridDistinct(cal: seq<int>, ms: seq<Interval>, kind: GridKind)
    requires Increasing(cal) && Distinct(Ids(ms))
    ensures Distinct(Grid(cal, ms, kind))
  {
    if ms != [] {
      var n := |ms| - 1;
      var init := ms[..n];
      assert Distinct(Ids(init)) by {
        forall i, j | 0 <= i < j < n ensures Ids(init)[i] != Ids(init)[j] {
          assert Ids(init)[i] == Ids(ms)[i] && Ids(init)[j] == Ids(ms)[j];
        }
      }
      GridDistinct(cal, init, kind);
      GridIds(cal, init, kind);
      var g := Grid(cal, init, kind);
      var b := Block(cal, ms[n], kind);
      BlockMembers(cal, ms[n], kind, 0, ms[n].id);
      forall k | k in g ensures k !in b {
        var p :| 0 <= p < n && Ids(init)[p] == k.1;
        assert Ids(ms)[p] == k.1 && Ids(ms)[n] == ms[n].id;
        BlockMembers(cal, ms[n], kind, k.0, k.1);
      }
      AppendDistinct(g, b);
    }
  }

  /** A slice label as the cell it is read from: a missing date is a null. */
  function LabelCell(l: Label): Cell
  {
    match l
    case NaT => Null
    case On(d) => Day(d)
  }

  /** An interval as a row `[id, from, thru]` of the projected table. */
  function Cells(m: Interval): Row
  {
    [m.id, LabelCell(m.from), LabelCell(m.thru)]
  }

  /** Both bounds are dates, or both are missing. Slicing the UTC calendar
      between a date and a missing date (which has no time zone) is refused,
      so no other interval survives a row's first slice. */
  predicate BoundsAlike(m: Interval)
  {
    m.from.NaT? <==> m.thru.NaT?
  }

  /** A row with exactly one missing bound, the other a date. */
  predicate OneBoundMissing(row: Row)
  {
    |row| == 3 && ((row[1].Null? && row[2].Day?) || (row[1].Day? && row[2].Null?))
  }

  /** A row of the projected table `[id, from, thru]` as an interval; `None`
      when a bound is neither a date nor missing, or exactly one is missing.
      (The projected table always has three cells per row.) */
  function ReadRow(row: Row): (m: Option<Interval>)
    // a reading gives back the row it was read from, with alike bounds
    ensures m.Some? ==> Cells(m.value) == row && BoundsAlike(m.value)
  {
    if |row| != 3 then None
    else
      match (row[1], row[2])
      case (Day(a), Day(b)) => Some(Interval(row[0], On(a), On(b)))
      case (Null, Null) => Some(Interval(row[0], NaT, NaT))
      case _ => None
  }

  /** Every interval with alike bounds is read back from its own row, so a
      row reads exactly when it is the row of such an interval. */
  lemma ReadCells(m: Interval)
    requires BoundsAlike(m)
    ensures ReadRow(Cells(m)) == Some(m)
  {
  }

  /** The error a row that does not read reports: the UTC-offset mismatch for
      a row with one missing bound and one date, otherwise not-a-date. */
  function RowError(row: Row, n: nat): (e: Error)
    ensures (e.NotADate? || e.OffsetMismatch?) && e.row == n
  {
    if OneBoundMissing(row) then OffsetMismatch(n) else NotADate(n)
  }

  /** All rows as intervals, or the error of the first row that does not read. */
  function ReadIntervals(rows: seq<Row>): (r: Result<seq<Interval>>)
    ensures r.Ok? ==>
      |r.value| == |rows| &&
      forall i :: 0 <= i < |rows| ==> ReadRow(rows[i]) == Some(r.value[i])
    ensures r.Err? ==>
      (r.error.NotADate? || r.error.OffsetMismatch?) && r.error.row < |rows| &&
      ReadRow(rows[r.error.row]).None? &&
      (r.error.OffsetMismatch? <==> OneBoundMissing(rows[r.error.row])) &&
      forall i :: 0 <= i < r.error.row ==> ReadRow(rows[i]).Some?
  {
    if rows == [] then Ok([])
    else
      var n := |rows| - 1;
      assert forall i :: 0 <= i < n ==> rows[..n][i] == rows[i];
      match ReadIntervals(rows[..n])
      case Err(e) => Err(e)
      case Ok(ms) =>
        match ReadRow(rows[n])
        case None => Err(RowError(rows[n], n))
        case Some(m) => Ok(ms + [m])
  }

  /** A row with one missing bound and one date, after rows that read fine,
      stops the reading with the UTC-offset mismatch at that row. */
  lemma OneBoundMissingFails(rows: seq<Row>, i: nat)
    requires i < |rows| && OneBoundMissing(rows[i])
    requires forall q :: 0 <= q < i ==> ReadRow(rows[q]).Some?
    ensures ReadIntervals(rows) == Err(OffsetMismatch(i))
  {
    assert ReadRow(rows[i]).None?;
  }

  /** The outcome of `add_index_info` on a membership table and a calendar: the
      column check, the duplicate-id check, reading the rows, concatenation. */
  function BuildGrids(constitutes: Frame, idCol: string, cal: seq<int>): (r: Result<(seq<Key>, seq<Key>)>)
    requires Rectangular(constitutes)
    ensures r.Ok? ==> |constitutes.rows| > 0
    ensures r.Ok? ==> forall c :: c in [idCol, "from", "thru"] ==> c in AllColumns(constitutes)
  {
    match CheckColumns([idCol, "from", "thru"], constitutes, true)
    case Err(e) => Err(e)
    case Ok(f) =>
      match HandleDuplicates(f, "ValueError", "The column symbols", false, [idCol])
      case Err(e) => Err(e)
      case Ok(_) =>
        match ReadIntervals(f.rows)
        case Err(e) => Err(e)
        case Ok(ms) =>
          if ms == [] then Err(NothingToConcatenate)
          else Ok((Grid(cal, ms, FactorGrid), Grid(cal, ms, PricingGrid)))
  }

  /** The cell of row `k` of the membership table in column `col`, as the
      projection reads it (the first column of that name). */
  function CellAt(constitutes: Frame, col: string, k: nat): Cell
    requires Rectangular(constitutes) && col in AllColumns(constitutes) && k < |constitutes.rows|
  {
    assert constitutes.rows[k] in constitutes.rows;
    constitutes.rows[k][ColumnIndex(AllColumns(constitutes), col)]
  }

  /** Row `k` of the membership table cut down to its id, `from` and `thru` cells. */
  function MemberRow(constitutes: Frame, idCol: string, k: nat): (row: Row)
    requires Rectangular(constitutes) && k < |constitutes.rows|
    requires forall c :: c in [idCol, "from", "thru"] ==> c in AllColumns(constitutes)
    ensures |row| == 3 && row[0] == CellAt(constitutes, idCol, k)
  {
    [CellAt(constitutes, idCol, k), CellAt(constitutes, "from", k), CellAt(constitutes, "thru", k)]
  }

  /** After the column check, the duplicate-id check looks at the id cells. */
  lemma ProjectedKeys(constitutes: Frame, idCol: string, f: Frame)
    requires Rectangular(constitutes)
    requires CheckColumns([idCol, "from", "thru"], constitutes, true) == Ok(f)
    ensures SubsetPresent(f, [idCol])
    ensures forall c :: c in [idCol, "from", "thru"] ==> c in AllColumns(constitutes)
    ensures |f.rows| == |constitutes.rows|
    ensures forall k :: 0 <= k < |f.rows| ==>
      Keys(f, [idCol])[k] == [f.rows[k][0]] && f.rows[k] == MemberRow(constitutes, idCol, k)
  {
    ProjectedRows(constitutes, idCol, f);
    assert f.columns == [idCol, "from", "thru"] && f.indexNames == [];
    assert ColumnIndex(f.columns, idCol) == 0;
    forall k | 0 <= k < |f.rows| ensures Keys(f, [idCol])[k] == [f.rows[k][0]] {
      assert f.rows[k] in f.rows;
    }
  }

  /** The projected table holds, row by row, the id, `from` and `thru` cells
      of the membership table. */
  lemma ProjectedRows(constitutes: Frame, idCol: string, f: Frame)
    requires Rectangular(constitutes)
    requires CheckColumns([idCol, "from", "thru"], constitutes, true) == Ok(f)
    ensures forall c :: c in [idCol, "from", "thru"] ==> c in AllColumns(constitutes)
    ensures |f.rows| == |constitutes.rows|
    ensures forall k :: 0 <= k < |f.rows| ==> f.rows[k] == MemberRow(constitutes, idCol, k)
  {
    var needed := [idCol, "from", "thru"];
    assert forall j :: 0 <= j < |needed| ==> needed[j] in AllColumns(constitutes);
    forall k | 0 <= k < |f.rows| ensures f.rows[k] == MemberRow(constitutes, idCol, k) {
      assert f.rows[k] in f.rows;
      ProjectedRow(constitutes, idCol, f.rows[k], k);
    }
  }

  /** A three-cell row holding, in order, the cells of row `k` in the first
      columns named like the id, `from` and `thru` is that row's member row. */
  lemma ProjectedRow(constitutes: Frame, idCol: string, row: Row, k: nat)
    requires Rectangular(constitutes) && k < |constitutes.rows|
    requires forall c :: c in [idCol, "from", "thru"] ==> c in AllColumns(constitutes)
    requires |row| == 3
    requires forall j :: 0 <= j < 3 ==>
      |constitutes.rows[k]| == |AllColumns(constitutes)| &&
      row[j] == constitutes.rows[k][ColumnIndex(AllColumns(constitutes), [idCol, "from", "thru"][j])]
    ensures row == MemberRow(constitutes, idCol, k)
  {
    assert row[0] == CellAt(constitutes, idCol, k);
    assert row[1] == CellAt(constitutes, "from", k);
    assert row[2] == CellAt(constitutes, "thru", k);
  }

  /** A repeated asset id in the membership table is rejected (after the column
      check, before any date is looked at), reporting how many rows repeat one. */
  lemma RepeatedIdRejected(constitutes: Frame, idCol: string, cal: seq<int>, i: nat, j: nat)
    requires Rectangular(constitutes)
    requires forall c :: c in [idCol, "from", "thru"] ==> c in AllColumns(constitutes)
    requires LevelsInsertable(constitutes)
    requires i < j < |constitutes.rows|
    requires CellAt(constitutes, idCol, i) == CellAt(constitutes, idCol, j)
    ensures BuildGrids(constitutes, idCol, cal).Err?
    ensures BuildGrids(constitutes, idCol, cal).error.DuplicateRows?
    ensures BuildGrids(constitutes, idCol, cal).error.count > 0
  {
    var needed := [idCol, "from", "thru"];
    assert forall q :: 0 <= q < |needed| ==> needed[q] in AllColumns(constitutes);
    var f := CheckColumns(needed, constitutes, true).value;
    ProjectedKeys(constitutes, idCol, f);
    var keys := Keys(f, [idCol]);
    assert keys[i] == keys[j];
    RepeatedKeyCounted(keys, i, j);
    var n := DupCount(keys);
    var dups := HandleDuplicates(f, "ValueError", "The column symbols", false, [idCol]);
    assert dups == Err(DuplicateRows("The column symbols", n, |f.rows|));
    DuplicatesStopBuild(constitutes, idCol, cal, f);
  }

  /** A failed duplicate check is the error the build reports. */
  lemma DuplicatesStopBuild(constitutes: Frame, idCol: string, cal: seq<int>, f: Frame)
    requires Rectangular(constitutes)
    requires CheckColumns([idCol, "from", "thru"], constitutes, true) == Ok(f)
    requires HandleDuplicates(f, "ValueError", "The column symbols", false, [idCol]).Err?
    ensures BuildGrids(constitutes, idCol, cal) ==
      Err(HandleDuplicates(f, "ValueError", "The column symbols", false, [idCol]).error)
  {
  }

  /** The projected table a successful build reads, and what the build's
      checks established about it. */
  lemma BuildSteps(constitutes: Frame, idCol: string, cal: seq<int>) returns (f: Frame)
    requires Rectangular(constitutes)
    requires BuildGrids(constitutes, idCol, cal).Ok?
    ensures CheckColumns([idCol, "from", "thru"], constitutes, true) == Ok(f)
    ensures SubsetPresent(f, [idCol]) && Distinct(Keys(f, [idCol]))
    ensures ReadIntervals(f.rows).Ok?
    ensures BuildGrids(constitutes, idCol, cal).value ==
      (Grid(cal, ReadIntervals(f.rows).value, FactorGrid), Grid(cal, ReadIntervals(f.rows).value, PricingGrid))
  {
    f := CheckColumns([idCol, "from", "thru"], constitutes, true).value;
    ProjectedKeys(constitutes, idCol, f);
    assert HandleDuplicates(f, "ValueError", "The column symbols", false, [idCol]).Ok?;
    NoDuplicatesIffDistinct(Keys(f, [idCol]));
  }

  /** The intervals a successful build reads: one per membership row, with
      that row's id, no id twice, and the grids are theirs. */
  lemma BuiltIntervals(constitutes: Frame, idCol: string, cal: seq<int>) returns (ms: seq<Interval>)
    requires Rectangular(constitutes)
    requires BuildGrids(constitutes, idCol, cal).Ok?
    ensures |ms| == |constitutes.rows| && Distinct(Ids(ms))
    ensures forall q :: 0 <= q < |ms| ==> ReadRow(MemberRow(constitutes, idCol, q)) == Some(ms[q])
    ensures BuildGrids(constitutes, idCol, cal).value == (Grid(cal, ms, FactorGrid), Grid(cal, ms, PricingGrid))
  {
    var f := BuildSteps(constitutes, idCol, cal);
    ms := ReadIntervals(f.rows).value;
    IntervalIds(constitutes, idCol, f, ms);
  }

  /** Intervals read from the projected table carry its id cells, so distinct
      id keys make distinct interval ids. */
  lemma IntervalIds(constitutes: Frame, idCol: string, f: Frame, ms: seq<Interval>)
    requires Rectangular(constitutes)
    requires CheckColumns([idCol, "from", "thru"], constitutes, true) == Ok(f)
    requires SubsetPresent(f, [idCol]) && Distinct(Keys(f, [idCol]))
    requires ReadIntervals(f.rows) == Ok(ms)
    ensures |ms| == |constitutes.rows| && Distinct(Ids(ms))
    ensures forall q :: 0 <= q < |ms| ==> ReadRow(MemberRow(constitutes, idCol, q)) == Some(ms[q])
  {
    ProjectedKeys(constitutes, idCol, f);
    ReadIds(f, idCol, ms);
  }

  /** The intervals read from a table whose first column holds distinct ids
      carry those ids, in row order. */
  lemma ReadIds(f: Frame, idCol: string, ms: seq<Interval>)
    requires Rectangular(f) && SubsetPresent(f, [idCol]) && Distinct(Keys(f, [idCol]))
    requires forall k :: 0 <= k < |f.rows| ==> |f.rows[k]| > 0 && Keys(f, [idCol])[k] == [f.rows[k][0]]
    requires ReadIntervals(f.rows) == Ok(ms)
    ensures Distinct(Ids(ms)) && forall q :: 0 <= q < |ms| ==> ms[q].id == f.rows[q][0]
  {
    var keys := Keys(f, [idCol]);
    forall q | 0 <= q < |ms| ensures ms[q].id == keys[q][0] {
      assert ReadRow(f.rows[q]) == Some(ms[q]);
    }
    forall p, q | 0 <= p < q < |ms| ensures Ids(ms)[p] != Ids(ms)[q] {
      assert keys[p] != keys[q];
    }
  }

  /** A successful build yields grids that repeat no key, whose factor keys are
      all pricing keys, and which hold exactly the calendar days in the windows
      of the table's rows. */
  lemma BuiltGrids(constitutes: Frame, idCol: string, cal: seq<int>)
    requires Rectangular(constitutes) && Increasing(cal)
    requires BuildGrids(constitutes, idCol, cal).Ok?
    ensures
      var (factor, pricing) := BuildGrids(constitutes, idCol, cal).value;
      && Distinct(factor) && Distinct(pricing)
      && (forall k :: k in factor ==> k in pricing)
      && exists ms: seq<Interval> ::
           && |ms| == |constitutes.rows|
           && Distinct(Ids(ms))
           && (forall q :: 0 <= q < |ms| ==> ReadRow(MemberRow(constitutes, idCol, q)) == Some(ms[q]))
           && factor == Grid(cal, ms, FactorGrid)
           && pricing == Grid(cal, ms, PricingGrid)
  {
    var ms := BuiltIntervals(constitutes, idCol, cal);
    GridDistinct(cal, ms, FactorGrid);
    GridDistinct(cal, ms, PricingGrid);
    FactorWithinPricing(cal, ms);
  }

  /** What a successful build guarantees of its two grids alone: no repeated
      key in either, and every factor key is a pricing key. */
  lemma BuiltGridsSound(constitutes: Frame, idCol: string, cal: seq<int>)
    requires Rectangular(constitutes) && Increasing(cal)
    requires BuildGrids(constitutes, idCol, cal).Ok?
    ensures Distinct(BuildGrids(constitutes, idCol, cal).value.0)
    ensures Distinct(BuildGrids(constitutes, idCol, cal).value.1)
    ensures forall k :: k in BuildGrids(constitutes, idCol, cal).value.0 ==> k in BuildGrids(constitutes, idCol, cal).value.1
  {
    BuiltGrids(constitutes, idCol, cal);
  }
}
