# Membership grids and reindexing, modelled in Dafny

This project models the universe-membership engine of the `nusa` utilities.
`ConstituteAdjustment` takes a table of index-membership intervals: one row per
asset, holding the asset id and the `from` and `thru` dates. It builds two
grids of `(date, asset)` keys over a trading calendar.

- The **factor grid** pairs every asset with the trading days from `from` to
  `thru`, both ends included.
- The **pricing grid** pairs every asset with every trading day from `from`
  to the end of the calendar. This keeps returns computable after an asset
  leaves the index.

Arbitrary data keyed by `(date, asset)` is then re-projected onto either grid
with a left join that is driven by the grid. The model also covers the two
helpers every input goes through:

- the required-column check, which flattens a non-trivial index first;
- the duplicate-key policy (raise, warn, or warn and keep the first row of
  each key).

Separately, it covers the CRSP adjustment-script builder. For each column of
a daily security file it writes one line that rescales prices, volumes or
share counts by the split factors. The lines, joined by newlines, form the
script the data frame evaluates. The builder exists twice, in
`alphalens/nusa.py` and in `nusa_alphalens/nusa.py` (lines 16-82), with the
same logic; the model cites the first copy.

Layout, one module per file:

- `frames.dfy` (`Frames`): cells, frames, keys, errors and result types.
  `reset_index` is here.
- `columns.dfy` (`Columns`): `_check_columns`.
- `duplicates.dfy` (`Duplicates`): the duplicate count, first-occurrence
  selection, `drop_duplicates` and `_handle_duplicates`.
- `calendar.dfy` (`Calendar`): label slicing `cal.loc[lo:hi]` on a sorted
  calendar.
- `membership.dfy` (`Membership`): what `add_index_info` computes, and what
  is proved about the grids.
- `reindex.dfy` (`Reindex`): `_fast_reindex`, stated as a relational left
  join.
- `constitute.dfy` (`Constitute`): the `ConstituteAdjustment` class. Its
  grid fields are updated in place, and the row loop of `add_index_info` is a
  `while` loop proved against the specification in `Membership`.
- `crsp_adjust.dfy` (`CrspAdjust`): `_adjust_field` and the script assembly
  of `adjust_crsp_data`.

The model follows the code as written:

- The grids are the per-row blocks concatenated in membership-row order. They
  are not sorted by date and then asset.
- The grid builder does not deduplicate its output. Its keys are unique only
  because a repeated asset id is rejected first (`GridDistinct`,
  `BuiltGrids`).
- An interval with `from` after `thru` is not rejected. It contributes an
  empty factor block (`LocMembers`).
- The factor window includes both `from` and `thru`.

Dates are calendar-day ordinals, and the calendar is a strictly increasing
sequence of them. Cells are `Null`, text, a number, or a day. An asset id is a
cell, since ids may be numbers.

## Model

| member | source | states |
|---|---|---|
| Frames.ResetIndex | nusa_alphalens/nusa.py:296-297 | fails exactly when a level name repeats or is already a column, naming the first level pandas cannot insert (it inserts the last level first); otherwise the levels become the leading columns, the index becomes plain, no cell moves, the frame stays rectangular and each level name first occurs at its own level's position |
| Frames.TakenLevel | nusa_alphalens/nusa.py:296-297 | no level is reported exactly when no level clashes with a later level or a column; a reported level clashes and every later level does not |
| Frames.NoClashIffInsertable | nusa_alphalens/nusa.py:296-297 | no level clashes if and only if the level names are distinct and none is a column |
| Columns.Flatten | nusa_alphalens/nusa.py:296-297 | a frame with a RangeIndex is kept as it is and any other is reset; this fails exactly when the index levels cannot be inserted, with `reset_index`'s error, and otherwise gives a rectangular frame with a plain index, the flattened columns and the same rows |
| Columns.FirstMissing | nusa_alphalens/nusa.py:299-301 | finds the first required name (in list order) that is not a column, or none when all are present |
| Columns.ProjectCells | nusa_alphalens/nusa.py:303-304 | `df[needed]` on a frame with a plain index stays rectangular, and each projected cell is the row's cell in the first column of the required name |
| Columns.CheckColumns | nusa_alphalens/nusa.py:287-306 | fails exactly when the index cannot be flattened (then with the flattening's own error, before any column is looked at) or a required name is neither a column nor an index level (then naming the first such name); on success the index is plain and every row is kept; with projection the columns are exactly the required ones, in order, each cell taken from the first column of that name; without projection the whole flattened frame is returned |
| Duplicates.KeepFirst | nusa_alphalens/nusa.py:344 | the kept positions are exactly the first occurrences of each key, ascending, and there are as many as the rows minus the duplicate count |
| Duplicates.NoDuplicatesIffDistinct | nusa_alphalens/nusa.py:330-332 | the duplicate count (rows whose key occurred earlier) is zero if and only if no key repeats |
| Duplicates.KeptKeysDistinct | nusa_alphalens/nusa.py:344 | keeping first occurrences leaves every key exactly once, and every key of the input survives |
| Duplicates.KeepFirstAll | nusa_alphalens/nusa.py:346-347 | without duplicates, every row is kept |
| Duplicates.FirstIndex | nusa_alphalens/nusa.py:344 | the first occurrence of a key is a position holding it with no earlier one |
| Duplicates.DropDuplicates | nusa_alphalens/nusa.py:343-344 | `drop_duplicates(keep='first')` keeps the first row of every key in original order, same columns, as many rows as rows minus duplicates, keys distinct and the same set of keys; no duplicates gives the frame back unchanged |
| Duplicates.HandleDuplicates | nusa_alphalens/nusa.py:314-347 | a missing key column fails; it fails exactly when there are duplicates and the policy is not 'Warning'; 'ValueError' reports the name, the duplicate count and the row count; any other unknown policy fails only when duplicates exist; a frame is returned exactly when `drop` is set, and it is the input when there are no duplicates and the first-occurrence frame otherwise |
| Calendar.SearchLeft | nusa_alphalens/nusa.py:163 | the left search position: every day before it is earlier than the label and the day at it is not |
| Calendar.SearchRight | nusa_alphalens/nusa.py:163 | the right search position: every day before it is at or before the label and the day at it is later |
| Calendar.LocMembers | nusa_alphalens/nusa.py:163-165 | a label slice of the calendar holds exactly the calendar days in `[from, thru]` (or `[from, ∞)`), in calendar order; a missing `from` gives nothing, since `NaT` sorts after every day, and so does an inverted interval |
| Calendar.LocSound | nusa_alphalens/nusa.py:163-165 | every day of a label slice is a calendar day inside the window |
| Calendar.LocComplete | nusa_alphalens/nusa.py:163-165 | every calendar day inside the window is in the label slice |
| Calendar.FactorSlicePrefix | nusa_alphalens/nusa.py:163-165 | a row's factor slice is a prefix of its pricing slice |
| Membership.BlockMembers | nusa_alphalens/nusa.py:159-173 | a row's block holds exactly its id paired with the calendar days in its window, without repeats |
| Membership.BothMissingNoKeys | nusa_alphalens/nusa.py:163-173 | a row whose `from` and `thru` are both missing contributes no key to either grid |
| Membership.BlockIds | nusa_alphalens/nusa.py:160-173 | every key of a row's block carries that row's asset id |
| Membership.GridIsConcat | nusa_alphalens/nusa.py:155-177 | a grid is the concatenation, in row order, of the rows' blocks (`pd.concat` of the per-row lists) |
| Membership.GridMembers | nusa_alphalens/nusa.py:159-177 | a pair is in a grid if and only if its day is a calendar day inside the window of some row with that asset id |
| Membership.FactorWithinPricing | nusa_alphalens/nusa.py:163-177 | every row's factor block is a prefix of its pricing block, so every factor key is a pricing key |
| Membership.GridIds | nusa_alphalens/nusa.py:159-177 | every key of a grid carries the id of some membership row |
| Membership.GridDistinct | nusa_alphalens/nusa.py:143-177 | with one row per asset id, neither grid repeats a key |
| Membership.ReadIntervals | nusa_alphalens/nusa.py:159-165 | every row becomes an interval in order, or the build stops at the first row that does not read: with the UTC-offset error exactly when that row has one missing bound and one date, otherwise with not-a-date |
| Membership.ReadRow | nusa_alphalens/nusa.py:159-165 | a row that reads gives an interval whose bounds are both dates or both missing and whose cells are that row |
| Membership.ReadCells | nusa_alphalens/nusa.py:159-165 | every interval whose bounds are both dates or both missing is read back from its own row, so the reading is the inverse of writing the interval out as a row |
| Membership.OneBoundMissingFails | nusa_alphalens/nusa.py:159-163 | a row with one missing bound and one date, after rows that read, makes the reading fail with the UTC-offset error at that row |
| Membership.BuildGrids | nusa_alphalens/nusa.py:140-177 | success requires a non-empty membership table that has the id, `from` and `thru` columns |
| Membership.ProjectedKeys | nusa_alphalens/nusa.py:140-144 | after the column check, the projected table has one row per membership row, made of that row's id, `from` and `thru` cells, and the duplicate check looks at exactly the id cells |
| Membership.IntervalIds | nusa_alphalens/nusa.py:140-165 | after the column and duplicate checks, the intervals read from the table are the readings of its rows' id, `from` and `thru` cells, one per row in row order, with no id repeated |
| Membership.BuiltIntervals | nusa_alphalens/nusa.py:140-177 | a successful build reads one interval per membership row, from that row's id, `from` and `thru` cells, no id twice, and its grids are those intervals' grids |
| Membership.RepeatedIdRejected | nusa_alphalens/nusa.py:140-144 | when the table has the three columns and its index can be flattened, two rows with the same asset id make the build fail with a duplicate-rows error counting at least one duplicate |
| Membership.DuplicatesStopBuild | nusa_alphalens/nusa.py:140-144 | once the column check has passed, a failed duplicate-id check is exactly the error the build reports |
| Membership.BuiltGrids | nusa_alphalens/nusa.py:140-177 | a successful build yields duplicate-free grids whose factor keys are all pricing keys, and which are the grids of one interval per membership row, each read from that row's id, `from` and `thru` cells (ids distinct, in row order) |
| Membership.BuiltGridsSound | nusa_alphalens/nusa.py:176-177 | the two stored grids of a successful build are duplicate-free and the factor grid lies within the pricing grid |
| Reindex.PayloadPositions | nusa_alphalens/nusa.py:246 | the payload columns are exactly the columns other than 'date' and the id column, in column order |
| Reindex.MatchIdx | nusa_alphalens/nusa.py:251-252 | the matched data rows are exactly those whose date and id equal the grid key, ascending; a missing grid id matches nothing, as SQL `=` does not match NULL |
| Reindex.LeftJoin | nusa_alphalens/nusa.py:244-255 | the result is indexed by (date, id) and has one cell per payload column in every row |
| Reindex.JoinKeyShape | nusa_alphalens/nusa.py:248-252 | a grid key yields at least one joined row, each made of that key and one cell per payload column |
| Reindex.JoinAllShape | nusa_alphalens/nusa.py:248-252 | every joined row carries a grid key and every grid key has a joined row |
| Reindex.JoinKeysAreGridKeys | nusa_alphalens/nusa.py:248-255 | the result has no key outside the grid and drops no grid key |
| Reindex.KeysAreMatchKeys | nusa_alphalens/nusa.py:251-252 | the join matches a data row exactly when the grid id is not missing and the duplicate check's (date, id) key of the row equals the grid key |
| Reindex.AtMostOneMatch | nusa_alphalens/nusa.py:216 | with distinct (date, id) keys, each grid key matches at most one data row |
| Reindex.JoinKeyUnique | nusa_alphalens/nusa.py:248-252 | a key matched by at most one row yields one joined row: the matching row's payload, or nulls |
| Reindex.JoinAllUnique | nusa_alphalens/nusa.py:248-252 | with at most one match per key, the join has one row per grid entry, and entry j's row is the one for grid key j |
| Reindex.JoinRowAt | nusa_alphalens/nusa.py:236-255 | one entry of the one-row-per-grid-entry property |
| Reindex.JoinOneRowPerGridEntry | nusa_alphalens/nusa.py:236-255 | after duplicates are dropped, the join has exactly one row per grid entry, in grid order and multiplicity: the entry's key, then the payload of the data row with that key, or nulls when none has it or the entry's id is missing |
| Constitute.ParseDateType | nusa_alphalens/nusa.py:107-109 | accepts exactly 'period' and 'timestamp' and rejects anything else, naming it |
| Constitute.Shape | nusa_alphalens/nusa.py:230-234 | a result with exactly one payload column becomes a series with that column's name, index and values; any other result stays a frame |
| Constitute.Cleaned | nusa_alphalens/nusa.py:207-216 | the checked, deduplicated data is ready for the join and has distinct (date, id) keys |
| Constitute.ConstituteAdjustment.constructor | nusa_alphalens/nusa.py:105-112 | a new object holds its id column and date type and has neither grid |
| Constitute.ConstituteAdjustment.Create | nusa_alphalens/nusa.py:95-112 | construction succeeds exactly for 'period' and 'timestamp', and yields a fresh object with no grids |
| Constitute.ConstituteAdjustment.FactorComponents | nusa_alphalens/nusa.py:272-277 | the factor grid is present exactly when the pricing grid is, repeats no key and lies within the pricing grid |
| Constitute.ConstituteAdjustment.PricingComponents | nusa_alphalens/nusa.py:279-284 | a present pricing grid repeats no key |
| Constitute.ConstituteAdjustment.AddIndexInfo | nusa_alphalens/nusa.py:114-177 | on success both grids are replaced by the built grids; on any failure the error is reported and both grids keep their previous values; the object stays valid (grids set together, duplicate-free, factor within pricing) |
| Constitute.ConstituteAdjustment.AdjustDataForMembership | nusa_alphalens/nusa.py:179-234 | fails when the grids are unset, then on a failed column check, and only then on a `contents` other than 'pricing' or 'factor'; it succeeds exactly when all three checks pass, and a success is the deduplicated data joined onto the chosen grid and shaped as a series for a single payload column |
| Constitute.Build | nusa_alphalens/nusa.py:139-177 | the build's steps, run in order, give exactly the specified result |
| Constitute.ConcatBlocks | nusa_alphalens/nusa.py:155-177 | the row loop appends each row's blocks in row order, giving the grids of all rows, or stops at the first row that does not read, with that row's error |
| Constitute.ReadFailsAt | nusa_alphalens/nusa.py:159-165 | a row that does not read, after readable rows, is the error the whole table reports: the UTC-offset error or not-a-date for that row |
| Constitute.AdjustedEntries | nusa_alphalens/nusa.py:216-255 | the adjusted data has one row per grid entry, each the entry's key and the payload of the data row with that key or nulls; a series result is indexed by the grid keys |
| CrspAdjust.Lower | alphalens/nusa.py:33 | keeps the length, leaves no upper-case ASCII letter, keeps every other character and turns each upper-case letter into its lower-case partner |
| CrspAdjust.LowerIdempotent | alphalens/nusa.py:33 | lower-casing twice gives the same names as lower-casing once |
| CrspAdjust.Line | alphalens/nusa.py:61-66 | a line for a field starts with that field and is never empty |
| CrspAdjust.FirstLine | alphalens/nusa.py:56-68 | the line of the first table entry that lists the field wins; the empty line exactly when no entry lists it |
| CrspAdjust.AdjustField | alphalens/nusa.py:43-68 | fails exactly when the lower-cased table name is unknown, naming the table; otherwise the line is empty exactly when no entry of that table lists the field |
| CrspAdjust.SecurityDailyKnown | alphalens/nusa.py:3-17 | the daily security table is in the adjustment table under its lower-case name |
| CrspAdjust.DailyTable | alphalens/nusa.py:50-54 | any spelling of the daily security table's name selects its entries |
| CrspAdjust.PriceFieldsDivided | alphalens/nusa.py:56-63 | a price field yields exactly `f = abs(f / cfacpr)` |
| CrspAdjust.ShareFieldsMultiplied | alphalens/nusa.py:56-66 | a volume or share field yields exactly `f = f * cfacshr` |
| CrspAdjust.OtherFieldsUntouched | alphalens/nusa.py:56-68 | a field yields the empty line if and only if no table entry lists it |
| CrspAdjust.Join | alphalens/nusa.py:35 | a newline join is empty exactly for no parts or a single empty part |
| CrspAdjust.Lines | alphalens/nusa.py:35 | one line per column, in column order, empty exactly for the unadjustable columns |
| CrspAdjust.AdjustCrspData | alphalens/nusa.py:20-41 | the column names come back lower-cased; the frame is returned untouched exactly when there are no columns or a single unadjustable one; otherwise the newline-joined lines go to the evaluator |
| CrspAdjust.NonEmpty | alphalens/nusa.py:35-37 | keeps exactly the non-empty lines |
| CrspAdjust.BlankScriptIsEvaluated | alphalens/nusa.py:35-41 | as written, columns `PERMNO` and `date` give the script of one bare newline, which is evaluated, while the corrected builder returns the frame |
| CrspAdjust.AdjustCrspDataIntended | alphalens/nusa.py:35-41 | the frame is untouched exactly when no column is adjustable; otherwise the script consists of exactly the lines of the adjustable columns |

## Left out

- Date parsing and time zones are not modelled: `date_format`, `pd.to_datetime`, `tz_localize('UTC')`, `to_period('D')` and the conversion from periods to timestamps. Dates are day ordinals, and the date type is a tag on the result that changes no key.
- The NYSE market calendar and the `start_date`/`end_date` arguments are not modelled. The calendar is a parameter, required to be strictly increasing as a market calendar is.
- Membership.ReadIntervals: a text `from` or `thru`, which pandas would parse as a date label, is reported as `NotADate` for the first such row, since date parsing is not modelled; so is a number. A `None` in an object column, which pandas would treat as an open slice end, is not modelled either. The pandas exceptions themselves are not modelled: the model names the failing row. A row with one missing bound and one date is refused, because the calendar is in UTC and a missing date has no time zone; the model reports `OffsetMismatch` for it.
- LocMembers: a missing date is ordered after every day, as the datetime64 search of pandas 1.2 and later orders it. So a row with both dates missing gets empty factor and pricing blocks. Earlier pandas versions, which ordered it first, are not modelled.
- The duckdb SQL text and its execution are not modelled. The join is specified by its relational meaning. Its rows come out in grid order, which the SQL engine does not promise; the model states that order.
- Reindex.LeftJoin: with no payload column, the generated SQL is malformed and fails. The model instead returns a frame with only the key columns.
- `frame.eval(script)` and its floating-point arithmetic are not modelled. `AdjustCrspData` returns the lower-cased column names and the script handed to the evaluator.
- Logging, the message text of the duplicate error (the model carries the name, the duplicate count and the row count instead), and the `Warning(...)` call are not modelled. That call constructs an exception object and has no effect.
- The `__main__` block reading a CSV file is not modelled.
- CrspAdjust.Lower: lower-cases ASCII letters only, not the full Unicode case mapping of `str.lower`.
- Duplicate column names: a name is looked up at its first occurrence. Selecting a repeated name, which pandas would return as several columns, is not modelled.
- `_check_columns` on an unnamed index that is not a RangeIndex is not modelled. The model's frames have either a plain index or named levels, so the `index` column that `reset_index` would invent does not arise. A named RangeIndex cannot be represented either: `indexNames == []` stands for every RangeIndex, which the source leaves in place (nusa_alphalens/nusa.py:296), while any named index of the model is reset.
- `_handle_duplicates` with `subset=None` (all columns) is not modelled: the engine always passes a key.
- The MultiIndex level names `['date', id_col]` of the stored grids are not kept. A grid is a sequence of (day, id) keys.
- Aliasing of the caller's frame is not modelled; the model works on values. In `add_index_info` the projection `df[needed]` is a new frame, so the date conversion at nusa_alphalens/nusa.py:148-151 does not reach the caller. In `adjust_data_for_membership`, a frame with a plain index is returned as it is by the column check (nusa_alphalens/nusa.py:306), and without duplicate (date, id) rows the duplicate handler returns that same object (346-347). The date conversions at nusa_alphalens/nusa.py:212 and 220 then write into the caller's frame, despite the docstring's promise; the model does not show that change.

## Findings

| source | as written | input that shows it | evidently intended | confidence | as-written member | corrected member |
|---|---|---|---|---|---|---|
| alphalens/nusa.py:35-41 | the "no columns adjusted" return tests the newline-joined script against the empty string, but the join keeps the empty lines of unadjustable columns | a frame with the columns `PERMNO` and `date`: the script is a single newline, so the frame is handed to `eval` instead of being returned | return the frame unchanged whenever no column is adjustable, and evaluate only the lines of adjustable columns | medium, not executed | CrspAdjust.BlankScriptIsEvaluated | CrspAdjust.AdjustCrspDataIntended |
