/**
 * The `ConstituteAdjustment` object: it holds the factor and pricing grids of
 * the last successful `add_index_info` and re-projects data onto one of them
 * in `adjust_data_for_membership`.
 */
module Constitute {
  import opened Frames
  import opened Columns
  import opened Duplicates
  import opened Calendar
  import opened Membership
  import opened Reindex

  /** How dates are handed out: time-zone-stamped instants or daily periods. */
  datatype DateType = Timestamp | Period

  /** The constructor's check of `date_type`. */
  function ParseDateType(s: string): (r: Result<DateType>)
    ensures r.Ok? <==> s == "period" || s == "timestamp"
    ensures r.Ok? ==> (r.value == Period <==> s == "period")
    ensures r.Err? ==> r.error == UnknownDateType(s)
  {
    if s == "period" then Ok(Period)
    else if s == "timestamp" then Ok(Timestamp)
    else Err(UnknownDateType(s))
  }

  /** What `adjust_data_for_membership` returns: a frame indexed by (date, id),
      or, when it has a single payload column, that column as a series. The
      date representation is a tag on the result; it does not change a key. */
  datatype Adjusted =
    | AsFrame(frame: Frame, dates: DateType)
    | AsSeries(name: string, indexNames: seq<string>, index: seq<Row>, values: seq<Cell>, dates: DateType)

  /** `iloc[:, 0]` when the result has exactly one column, the frame otherwise. */
  function Shape(f: Frame, dates: DateType): (a: Adjusted)
    requires Rectangular(f) && |f.indexNames| == 2
    ensures a.AsSeries? <==> |f.columns| == 1
    ensures a.dates == dates
    ensures a.AsFrame? ==> a.frame == f
    ensures a.AsSeries? ==>
      && a.name == f.columns[0] && a.indexNames == f.indexNames
      && |a.index| == |a.values| == |f.rows|
      && forall j :: 0 <= j < |f.rows| ==> |f.rows[j]| == 3 && a.index[j] == f.rows[j][..2] && a.values[j] == f.rows[j][2]
  {
    if |f.columns| == 1 then
      assert forall j :: 0 <= j < |f.rows| ==> f.rows[j] in f.rows;
      AsSeries(f.columns[0], f.indexNames,
        seq(|f.rows|, j requires 0 <= j < |f.rows| => f.rows[j][..2]),
        seq(|f.rows|, j requires 0 <= j < |f.rows| => f.rows[j][2]),
        dates)
    else AsFrame(f, dates)
  }

  /** The data after the column check and after dropping repeated (date, id) rows,
      as `adjust_data_for_membership` passes it to the join. */
  function Cleaned(data: Frame, idCol: string): (c: Frame)
    requires Rectangular(data) && CheckColumns(["date", idCol], data, false).Ok?
    ensures JoinReady(c, idCol) && SubsetPresent(c, ["date", idCol])
    ensures Distinct(Keys(c, ["date", idCol]))
  {
    var f := CheckColumns(["date", idCol], data, false).value;
    assert ["date", idCol][0] in AllColumns(data) && ["date", idCol][1] in AllColumns(data);
    DropDuplicates(f, ["date", idCol])
  }

  class ConstituteAdjustment {
    /** The asset identifier column. */
    const idCol: string
    /** How dates in results are represented. */
    const dateType: DateType
    /** The grids of the last successful build; `None` before any. */
    var factorGrid: Option<seq<Key>>
    var pricingGrid: Option<seq<Key>>

    /** Both grids are set together; a set grid repeats no key; every factor
        key is a pricing key. */
    ghost predicate Valid()
      reads this
    {
      && (factorGrid.Some? <==> pricingGrid.Some?)
      && (factorGrid.Some? ==>
            && Distinct(factorGrid.value) && Distinct(pricingGrid.value)
            && forall k :: k in factorGrid.value ==> k in pricingGrid.value)
    }

    /** A fresh object has no grids. */
    constructor (idCol: string, dateType: DateType)
      ensures Valid()
      ensures this.idCol == idCol && this.dateType == dateType
      ensures factorGrid == None && pricingGrid == None
    {
      this.idCol := idCol;
      this.dateType := dateType;
      factorGrid := None;
      pricingGrid := None;
    }

    /** `ConstituteAdjustment(id_col, date_type)`: any `date_type` other than
        'period' or 'timestamp' is rejected. */
    static method Create(idCol: string, dateType: string) returns (r: Result<ConstituteAdjustment>)
      ensures r.Ok? <==> dateType == "period" || dateType == "timestamp"
      ensures r.Err? ==> r.error == UnknownDateType(dateType)
      ensures r.Ok? ==>
        && fresh(r.value) && r.value.Valid()
        && r.value.idCol == idCol && r.value.dateType == ParseDateType(dateType).value
        && r.value.factorGrid == None && r.value.pricingGrid == None
    {
      var parsed := ParseDateType(dateType);
      if parsed.Err? {
        return Err(parsed.error);
      }
      var c := new ConstituteAdjustment(idCol, parsed.value);
      return Ok(c);
    }

    /** `factor_components`. */
    function FactorComponents(): (g: Option<seq<Key>>)
      reads this
      requires Valid()
      ensures g.Some? <==> PricingComponents().Some?
      ensures g.Some? ==> Distinct(g.value) && forall k :: k in g.value ==> k in PricingComponents().value
    {
      factorGrid
    }

    /** `pricing_components`. */
    function PricingComponents(): (g: Option<seq<Key>>)
      reads this
      requires Valid()
      ensures g.Some? ==> Distinct(g.value)
    {
      pricingGrid
    }

    /** `add_index_info(constitutes, ...)` over the trading calendar `cal`.
        Both grids are replaced together, and only when the whole build
        succeeds; a failed build leaves the previous grids in place. */
    method AddIndexInfo(constitutes: Frame, cal: seq<int>) returns (outcome: Outcome)
      requires Valid() && Rectangular(constitutes) && Increasing(cal)
      modifies this
      ensures Valid()
      ensures BuildGrids(constitutes, idCol, cal).Ok? ==>
        && outcome == Pass
        && factorGrid == Some(BuildGrids(constitutes, idCol, cal).value.0)
        && pricingGrid == Some(BuildGrids(constitutes, idCol, cal).value.1)
      ensures BuildGrids(constitutes, idCol, cal).Err? ==>
        && outcome == Fail(BuildGrids(constitutes, idCol, cal).error)
        && factorGrid == old(factorGrid) && pricingGrid == old(pricingGrid)
    {
      var built := Build(constitutes, idCol, cal);
      if built.Err? {
        return Fail(built.error);
      }
      BuiltGridsSound(constitutes, idCol, cal);
      factorGrid := Some(built.value.0);
      pricingGrid := Some(built.value.1);
      outcome := Pass;
    }

    /** `adjust_data_for_membership(data, contents)`: check the state, then the
        columns, drop repeated (date, id) rows, then pick the grid by `contents`
        and join the data onto it. */
    method AdjustDataForMembership(data: Frame, contents: string) returns (r: Result<Adjusted>)
      requires Valid() && Rectangular(data)
      // the state check comes first
      ensures factorGrid.None? ==> r == Err(GridsNotSet)
      // then the column check
      ensures factorGrid.Some? && CheckColumns(["date", idCol], data, false).Err? ==>
        r == Err(CheckColumns(["date", idCol], data, false).error)
      // and only then the check of `contents`
      ensures (factorGrid.Some? && CheckColumns(["date", idCol], data, false).Ok? &&
               contents != "pricing" && contents != "factor") ==>
        r == Err(UnknownContents(contents))
      // it succeeds exactly when all three checks pass
      ensures r.Ok? <==>
        && factorGrid.Some? && (contents == "pricing" || contents == "factor")
        && CheckColumns(["date", idCol], data, false).Ok?
      // a success is the cleaned data joined onto the chosen grid
      ensures r.Ok? ==>
        var grid := if contents == "pricing" then pricingGrid.value else factorGrid.value;
        r.value == Shape(LeftJoin(grid, Cleaned(data, idCol), idCol), dateType)
    {
      if factorGrid.None? {
        return Err(GridsNotSet);
      }
      var checked := CheckColumns(["date", idCol], data, false);
      if checked.Err? {
        return Err(checked.error);
      }
      var frame := checked.value;
      assert ["date", idCol][0] in AllColumns(data) && ["date", idCol][1] in AllColumns(data);
      var deduped := HandleDuplicates(frame, "Warning", "Data", true, ["date", idCol]);
      frame := deduped.value.value;
      assert frame == Cleaned(data, idCol);
      var grid: seq<Key>;
      if contents == "pricing" {
        grid := pricingGrid.value;
      } else if contents == "factor" {
        grid := factorGrid.value;
      } else {
        return Err(UnknownContents(contents));
      }
      var joined := LeftJoin(grid, frame, idCol);
      JoinKeysAreGridKeys(grid, frame, idCol);
      return Ok(Shape(joined, dateType));
    }
  }

  /** The steps of `add_index_info` in their order: the column check, the
      duplicate-id check, the row-by-row concatenation, the empty-table check. */
  method Build(constitutes: Frame, idCol: string, cal: seq<int>) returns (r: Result<(seq<Key>, seq<Key>)>)
    requires Rectangular(constitutes)
    ensures r == BuildGrids(constitutes, idCol, cal)
  {
    var checked := CheckColumns([idCol, "from", "thru"], constitutes, true);
    if checked.Err? {
      return Err(checked.error);
    }
    var table := checked.value;
    var dups := HandleDuplicates(table, "ValueError", "The column symbols", false, [idCol]);
    if dups.Err? {
      return Err(dups.error);
    }
    r := ConcatBlocks(table.rows, cal);
    if r.Ok? && |table.rows| == 0 {
      r := Err(NothingToConcatenate);
    }
  }

  /** Reading the membership rows in order and appending each row's factor and
      pricing blocks; the first row that does not read stops the build. */
  method ConcatBlocks(rows: seq<Row>, cal: seq<int>) returns (r: Result<(seq<Key>, seq<Key>)>)
    ensures ReadIntervals(rows).Err? ==> r == Err(ReadIntervals(rows).error)
    ensures ReadIntervals(rows).Ok? ==>
      r == Ok((Grid(cal, ReadIntervals(rows).value, FactorGrid), Grid(cal, ReadIntervals(rows).value, PricingGrid)))
  {
    var factor: seq<Key> := [];
    var pricing: seq<Key> := [];
    ghost var ms: seq<Interval> := [];
    var i := 0;
    while i < |rows|
      invariant 0 <= i <= |rows|
      invariant ReadIntervals(rows[..i]) == Ok(ms)
      invariant factor == Grid(cal, ms, FactorGrid) && pricing == Grid(cal, ms, PricingGrid)
    {
      var read := ReadRow(rows[i]);
      if read.None? {
        ReadFailsAt(rows, i);
        return Err(RowError(rows[i], i));
      }
      var m := read.value;
      factor := factor + Block(cal, m, FactorGrid);
      pricing := pricing + Block(cal, m, PricingGrid);
      ReadStep(rows, i, ms, m);
      GridStep(cal, ms, m, FactorGrid);
      GridStep(cal, ms, m, PricingGrid);
      ms := ms + [m];
      i := i + 1;
    }
    assert rows[..i] == rows;
    return Ok((factor, pricing));
  }

  /** A row that does not read, after rows that read fine, is the error
      the whole table reports. */
  lemma ReadFailsAt(rows: seq<Row>, i: nat)
    requires i < |rows| && ReadIntervals(rows[..i]).Ok?
    requires ReadRow(rows[i]).None?
    ensures ReadIntervals(rows) == Err(RowError(rows[i], i))
  {
    var r := ReadIntervals(rows);
    assert forall q :: 0 <= q < i ==> ReadRow(rows[..i][q]).Some? && rows[..i][q] == rows[q];
  }

  /** A successful adjustment has one entry per grid key, in grid order: the
      key, then the payload of the data row with that (date, id), or nulls. */
  lemma AdjustedEntries(grid: seq<Key>, data: Frame, idCol: string, dates: DateType)
    requires Rectangular(data) && CheckColumns(["date", idCol], data, false).Ok?
    ensures
      var c := Cleaned(data, idCol);
      var pos := PayloadPositions(c.columns, idCol);
      var joined := LeftJoin(grid, c, idCol);
      && Rectangular(joined)
      && |joined.rows| == |grid|
      && (forall j :: 0 <= j < |grid| ==> RowForEntry(joined.rows[j], grid[j], c, idCol, pos))
      && (Shape(joined, dates).AsSeries? ==>
            |pos| == 1 && forall j :: 0 <= j < |grid| ==> Shape(joined, dates).index[j] == KeyCells(grid[j]))
  {
    var c := Cleaned(data, idCol);
    JoinKeysAreGridKeys(grid, c, idCol);
    JoinOneRowPerGridEntry(grid, c, idCol);
  }
}
