/**
 * Tabular data as the membership engine sees it: a pandas data frame reduced
 * to its column names, the names of its index levels and its rows of cells,
 * plus the errors the engine raises and the result types that carry them.
 */
module Frames {

  /** A cell of a frame. Payload values are only ever copied, never computed
      on, so a number stands for any scalar; `Day` is a calendar-day ordinal. */
  datatype Cell = Null | Text(s: string) | Num(n: int) | Day(ordinal: int)

  type Row = seq<Cell>

  /** A frame. `indexNames == []` stands for a plain RangeIndex; otherwise each
      row holds its index-level values first, then one value per column. */
  datatype Frame = Frame(indexNames: seq<string>, columns: seq<string>, rows: seq<Row>)

  /** A grid entry: a trading-day ordinal and an asset identifier. */
  type Key = (int, Cell)

  /** The exceptions raised by the engine. */
  datatype Error =
    | MissingColumn(column: string)                 // required column absent
    | MissingSubset(column: string)                 // duplicate-check key column absent
    | DuplicateRows(name: string, count: nat, total: nat)
    | UnknownOutType(outType: string)
    | UnknownDateType(dateType: string)
    | NotADate(row: nat)                            // a 'from'/'thru' cell that is not a date
    | OffsetMismatch(row: nat)                      // one bound missing, the other a (UTC) date
    | NothingToConcatenate                          // empty membership table
    | GridsNotSet
    | UnknownContents(contents: string)
    | UnknownTable(table: string)
    | LevelExists(level: string)                    // reset_index: a level name is already taken

  datatype Option<+T> = None | Some(value: T)

  datatype Result<+T> = Ok(value: T) | Err(error: Error)

  datatype Outcome = Pass | Fail(error: Error)

  /** Every row has one cell per index level and per column. */
  predicate Rectangular(f: Frame)
  {
    forall r :: r in f.rows ==> |r| == |f.indexNames| + |f.columns|
  }

  /** All column labels once the index is turned into columns. */
  function AllColumns(f: Frame): seq<string>
  {
    f.indexNames + f.columns
  }

  /** Pairwise distinct elements. */
  predicate Distinct<T(==)>(s: seq<T>)
  {
    forall i, j :: 0 <= i < j < |s| ==> s[i] != s[j]
  }

  /** Position of the first column labelled `name`. */
  function ColumnIndex(cols: seq<string>, name: string): (i: nat)
    requires name in cols
    ensures i < |cols| && cols[i] == name
    ensures name !in cols[..i]
  {
    if cols[0] == name then 0
    else
      assert name in cols[1..];
      var k := ColumnIndex(cols[1..], name);
      assert cols[..k + 1] == [cols[0]] + cols[1..][..k];
      k + 1
  }

  /** Index level `i` cannot be inserted as a column: its name is already the
      name of a column or of a later level. */
  predicate Clash(names: seq<string>, cols: seq<string>, i: nat)
    requires i < |names|
  {
    names[i] in cols || exists j :: i < j < |names| && names[j] == names[i]
  }

  /** The first level `reset_index` fails on. It inserts the levels from the
      last to the first, each in front of the columns, and refuses a name that
      is already there; so this is the last level that clashes. */
  function {:induction false} TakenLevel(names: seq<string>, cols: seq<string>): (t: Option<nat>)
    ensures t.None? <==> forall i :: 0 <= i < |names| ==> !Clash(names, cols, i)
    ensures t.Some? ==>
      t.value < |names| && Clash(names, cols, t.value) &&
      forall i :: t.value < i < |names| ==> !Clash(names, cols, i)
  {
    if names == [] then None
    else
      var n := |names| - 1;
      ClashStep(names, cols);
      if names[n] in cols then Some(n)
      else
        var front, cols' := names[..n], [names[n]] + cols;
        var t := TakenLevel(front, cols');
        assert t.None? ==> forall i :: 0 <= i < |names| ==> !Clash(names, cols, i) by {
          if t.None? {
            forall i | 0 <= i < |names| ensures !Clash(names, cols, i) {
              if i < n {
                assert !Clash(front, cols', i);
              }
            }
          }
        }
        assert t.Some? ==> t.value < n && Clash(front, cols', t.value) && Clash(names, cols, t.value);
        t
  }

  /** Once the last level is in front of the columns, the other levels clash
      exactly as before. */
  lemma ClashStep(names: seq<string>, cols: seq<string>)
    requires names != []
    ensures Clash(names, cols, |names| - 1) <==> names[|names| - 1] in cols
    ensures forall i :: 0 <= i < |names| - 1 ==>
      (Clash(names[..|names| - 1], [names[|names| - 1]] + cols, i) <==> Clash(names, cols, i))
  {
    var n := |names| - 1;
    var front := names[..n];
    forall i | 0 <= i < n
      ensures Clash(front, [names[n]] + cols, i) <==> Clash(names, cols, i)
    {
      if Clash(names, cols, i) && names[i] !in cols && names[i] != names[n] {
        var j :| i < j < |names| && names[j] == names[i];
        assert front[j] == names[j];
      }
    }
  }

  /** No level clashes exactly when the level names are distinct and none is
      already a column. */
  lemma NoClashIffInsertable(f: Frame)
    ensures (forall i :: 0 <= i < |f.indexNames| ==> !Clash(f.indexNames, f.columns, i)) <==> LevelsInsertable(f)
  {
    var names := f.indexNames;
    if forall i :: 0 <= i < |names| ==> !Clash(names, f.columns, i) {
      forall i, j | 0 <= i < j < |names| ensures names[i] != names[j] {
        assert !Clash(names, f.columns, i);
      }
      forall j | 0 <= j < |names| ensures names[j] !in f.columns {
        assert !Clash(names, f.columns, j);
      }
    }
    if LevelsInsertable(f) {
      forall i | 0 <= i < |names| ensures !Clash(names, f.columns, i) {
        forall j | i < j < |names| ensures names[j] != names[i] {
        }
      }
    }
  }

  /** The index levels can all be turned into columns: their names are
      distinct and none is already a column. */
  predicate LevelsInsertable(f: Frame)
  {
    Distinct(f.indexNames) && forall j :: 0 <= j < |f.indexNames| ==> f.indexNames[j] !in f.columns
  }

  /** `reset_index()`: the index levels become the leading columns and the
      frame gets a plain RangeIndex; the cells do not move. A level whose name
      is already taken makes it fail, naming the first level it tries and
      cannot insert. */
  function ResetIndex(f: Frame): (r: Result<Frame>)
    ensures r.Err? <==> !LevelsInsertable(f)
    ensures r.Err? ==>
      exists i :: 0 <= i < |f.indexNames| && r.error == LevelExists(f.indexNames[i]) &&
        Clash(f.indexNames, f.columns, i) &&
        forall j :: i < j < |f.indexNames| ==> !Clash(f.indexNames, f.columns, j)
    ensures r.Ok? ==> r.value.indexNames == [] && r.value.rows == f.rows
    ensures r.Ok? ==> r.value.columns == AllColumns(f)
    ensures r.Ok? && Rectangular(f) ==> Rectangular(r.value)
    // each level becomes the column at its own position, shadowed by no other
    ensures r.Ok? ==> forall j :: 0 <= j < |f.indexNames| ==> ColumnIndex(r.value.columns, f.indexNames[j]) == j
  {
    NoClashIffInsertable(f);
    match TakenLevel(f.indexNames, f.columns)
    case Some(i) => Err(LevelExists(f.indexNames[i]))
    case None =>
      var cols := f.indexNames + f.columns;
      assert forall j :: 0 <= j < |f.indexNames| ==> ColumnIndex(cols, f.indexNames[j]) == j by {
        forall j | 0 <= j < |f.indexNames| ensures ColumnIndex(cols, f.indexNames[j]) == j {
          FirstAt(cols, f.indexNames, j);
        }
      }
      Ok(Frame([], cols, f.rows))
  }

  /** In `names + cols` with `names` distinct, `names[j]` first occurs at `j`. */
  lemma FirstAt(cols: seq<string>, names: seq<string>, j: nat)
    requires Distinct(names) && j < |names| <= |cols| && cols[..|names|] == names
    ensures ColumnIndex(cols, names[j]) == j
  {
    assert cols[j] == names[j];
    forall k | 0 <= k < j ensures cols[..j][k] != names[j] {
      assert cols[k] == names[k];
    }
  }
}
