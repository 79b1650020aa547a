/**
 * The column-presence check run on every frame the engine accepts: flatten a
 * non-trivial index into columns, fail on the first required column that is
 * absent, and optionally cut the frame down to exactly the required columns.
 */
module Columns {
  import opened Frames

  /** Position in `needed` of the first name that is not a column. */
  function FirstMissing(needed: seq<string>, cols: seq<string>): (m: Option<nat>)
    ensures m.None? <==> forall j :: 0 <= j < |needed| ==> needed[j] in cols
    ensures m.Some? ==> m.value < |needed| && needed[m.value] !in cols
    ensures m.Some? ==> forall j :: 0 <= j < m.value ==> needed[j] in cols
  {
    if needed == [] then None
    else if needed[0] !in cols then Some(0)
    else
      match FirstMissing(needed[1..], cols)
      case None => None
      case Some(k) => Some(k + 1)
  }

  /** The elements of `s` at the positions `idx`, in that order: a row's cells
      at some column positions, or a frame's rows at some row positions. */
  function Select<T>(s: seq<T>, idx: seq<nat>): (r: seq<T>)
    requires forall j :: 0 <= j < |idx| ==> idx[j] < |s|
    ensures |r| == |idx| && forall j :: 0 <= j < |idx| ==> r[j] == s[idx[j]]
  {
    seq(|idx|, j requires 0 <= j < |idx| => s[idx[j]])
  }

  /** The positions in a row of a frame of the (first) columns named in `names`. */
  function Positions(f: Frame, names: seq<string>): (pos: seq<nat>)
    requires forall j :: 0 <= j < |names| ==> names[j] in f.columns
    ensures |pos| == |names|
    ensures forall j :: 0 <= j < |names| ==>
      pos[j] == |f.indexNames| + ColumnIndex(f.columns, names[j])
  {
    seq(|names|, j requires 0 <= j < |names| => |f.indexNames| + ColumnIndex(f.columns, names[j]))
  }

  /** `df[needed]` on a frame with a plain index: the listed columns, in that order. */
  function Project(f: Frame, needed: seq<string>): (r: Frame)
    requires Rectangular(f)
    requires forall j :: 0 <= j < |needed| ==> needed[j] in f.columns
    ensures r.indexNames == f.indexNames && r.columns == needed
    ensures |r.rows| == |f.rows|
    ensures forall k :: 0 <= k < |f.rows| ==> r.rows[k] == Select(f.rows[k], Positions(f, needed))
  {
    var pos := Positions(f, needed);
    Frame(f.indexNames, needed,
      seq(|f.rows|, k requires 0 <= k < |f.rows| =>
        assert f.rows[k] in f.rows;
        Select(f.rows[k], pos)))
  }

  /** Projecting a frame with a plain index keeps it rectangular, and cell `j`
      of a projected row is the row's cell in the first column named `needed[j]`. */
  lemma ProjectCells(f: Frame, needed: seq<string>)
    requires Rectangular(f) && f.indexNames == []
    requires forall j :: 0 <= j < |needed| ==> needed[j] in f.columns
    ensures Rectangular(Project(f, needed))
    ensures forall k, j :: 0 <= k < |f.rows| && 0 <= j < |needed| ==>
      |f.rows[k]| == |f.columns| &&
      Project(f, needed).rows[k][j] == f.rows[k][ColumnIndex(f.columns, needed[j])]
  {
    var p := Project(f, needed);
    forall k | 0 <= k < |f.rows| ensures |f.rows[k]| == |f.columns| {
      assert f.rows[k] in f.rows;
    }
  }

  /** The frame `_check_columns` works on: a RangeIndex is kept, any other
      index is reset. */
  function Flatten(df: Frame): (r: Result<Frame>)
    requires Rectangular(df)
    ensures r.Err? <==> !LevelsInsertable(df)
    ensures r.Err? ==> r == ResetIndex(df) && r.error.LevelExists?
    ensures r.Ok? ==>
      r.value.indexNames == [] && r.value.columns == AllColumns(df) &&
      r.value.rows == df.rows && Rectangular(r.value)
  {
    if df.indexNames == [] then Ok(df) else ResetIndex(df)
  }

  /** `_check_columns(needed, df, indexColumns)`. */
  function CheckColumns(needed: seq<string>, df: Frame, indexColumns: bool): (r: Result<Frame>)
    requires Rectangular(df)
    // it fails exactly when the index cannot be flattened (a level name is
    // already taken) or some required label is neither a column nor an index level
    ensures r.Err? <==>
      !LevelsInsertable(df) || exists j :: 0 <= j < |needed| && needed[j] !in AllColumns(df)
    // a failed flattening is reported as such, before any column is looked at
    ensures !LevelsInsertable(df) ==> r.Err? && r.error.LevelExists? && r == ResetIndex(df)
    // otherwise the error names the first missing label in the order of `needed`
    ensures r.Err? && LevelsInsertable(df) ==>
      exists j :: 0 <= j < |needed| && r.error == MissingColumn(needed[j]) &&
        needed[j] !in AllColumns(df) &&
        forall i :: 0 <= i < j ==> needed[i] in AllColumns(df)
    // a success always carries a plain index and keeps every row
    ensures r.Ok? ==>
      r.value.indexNames == [] && Rectangular(r.value) && |r.value.rows| == |df.rows|
    // projected: exactly the required columns, in that order, each cell taken from
    // the first column of that name in the flattened frame
    ensures r.Ok? && indexColumns ==>
      r.value.columns == needed &&
      forall k, j :: 0 <= k < |df.rows| && 0 <= j < |needed| ==>
        needed[j] in AllColumns(df) && |df.rows[k]| == |AllColumns(df)| &&
        r.value.rows[k][j] == df.rows[k][ColumnIndex(AllColumns(df), needed[j])]
    // not projected: the whole flattened frame
    ensures r.Ok? && !indexColumns ==> r.value.columns == AllColumns(df) && r.value.rows == df.rows
  {
    match Flatten(df)
    case Err(e) => Err(e)
    case Ok(f) =>
      match FirstMissing(needed, f.columns)
      case Some(i) => Err(MissingColumn(needed[i]))
      case None =>
        if indexColumns then
          ProjectCells(f, needed);
          Ok(Project(f, needed))
        else Ok(f)
  }
}
