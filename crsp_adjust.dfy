/**
 * Split and share adjustment of CRSP daily security data. For every column the
 * adjustment table names, a line of the form `field = field op adjustor` (or
 * `field = fn(field op adjustor)`) is produced; the lines, joined by newlines,
 * form the script the data frame evaluates. Only the script and the column
 * names are modelled: evaluating it is the data-frame library's business.
 */
module CrspAdjust {
  import opened Frames

  /** One entry of the adjustment table: divide or multiply the listed fields
      by the adjustor column, optionally wrapping the result in a function. */
  datatype Adjustment = Adjustment(adjustor: string, fields: seq<string>, operation: string, wrapper: Option<string>)

  const SecurityDaily: string := "crsp.security_daily"
  /** Price fields, divided by the price factor and made non-negative. */
  const PriceFields: seq<string> := ["prc", "openprc", "askhi", "bidlo", "bid", "ask"]
  /** Volume and share fields, multiplied by the share factor. */
  const ShareFields: seq<string> := ["vol", "shrout"]

  /** The adjustment table, by table name. */
  const AdjustorFields: map<string, seq<Adjustment>> := map[
    SecurityDaily := [
      Adjustment("cfacpr", PriceFields, "/", Some("abs")),
      Adjustment("cfacshr", ShareFields, "*", None)
    ]
  ]

  /** ASCII lower-casing of one character. */
  function LowerChar(c: char): char
  {
    if 'A' <= c <= 'Z' then (c as int + 32) as char else c
  }

  /** `s.lower()` on ASCII letters. */
  function Lower(s: string): (r: string)
    ensures |r| == |s|
    // no upper-case ASCII letter is left
    ensures forall i :: 0 <= i < |s| ==> !('A' <= r[i] <= 'Z')
    // every other character is kept
    ensures forall i :: 0 <= i < |s| && !('A' <= s[i] <= 'Z') ==> r[i] == s[i]
    // an upper-case letter becomes its lower-case partner
    ensures forall i :: 0 <= i < |s| && 'A' <= s[i] <= 'Z' ==>
      'a' <= r[i] <= 'z' && r[i] as int - 'a' as int == s[i] as int - 'A' as int
  {
    seq(|s|, i requires 0 <= i < |s| => LowerChar(s[i]))
  }

  /** Lower-casing twice is lower-casing once. */
  lemma LowerIdempotent(s: string)
    ensures Lower(Lower(s)) == Lower(s)
  {
  }

  /** The lower-cased column names. */
  function LowerAll(cols: seq<string>): (r: seq<string>)
    ensures |r| == |cols| && forall i :: 0 <= i < |cols| ==> r[i] == Lower(cols[i])
  {
    seq(|cols|, i requires 0 <= i < |cols| => Lower(cols[i]))
  }

  /** The line adjusting `field` with entry `a`; a function name that is
      missing or empty is not applied. */
  function Line(field: string, a: Adjustment): (line: string)
    ensures |line| > |field| && line[..|field|] == field
  {
    if a.wrapper.Some? && a.wrapper.value != "" then
      field + " = " + a.wrapper.value + "(" + field + " " + a.operation + " " + a.adjustor + ")"
    else
      field + " = " + field + " " + a.operation + " " + a.adjustor
  }

  /** The line of the first entry listing `field`, or the empty line when none does. */
  function FirstLine(field: string, adjs: seq<Adjustment>): (line: string)
    ensures line == "" <==> forall i :: 0 <= i < |adjs| ==> field !in adjs[i].fields
    ensures line != "" ==>
      exists i :: 0 <= i < |adjs| && field in adjs[i].fields && line == Line(field, adjs[i]) &&
        forall j :: 0 <= j < i ==> field !in adjs[j].fields
  {
    if adjs == [] then ""
    else if field in adjs[0].fields then Line(field, adjs[0])
    else
      var rest := FirstLine(field, adjs[1..]);
      assert forall i :: 1 <= i < |adjs| ==> adjs[i] == adjs[1..][i - 1];
      rest
  }

  /** `_adjust_field(field, table)`: the table name is matched case-insensitively
      and an unknown table is an error. */
  function AdjustField(field: string, table: string): (r: Result<string>)
    ensures r.Err? <==> Lower(table) !in AdjustorFields
    ensures r.Err? ==> r.error == UnknownTable(table)
    ensures r.Ok? ==>
      (r.value == "" <==> forall a :: a in AdjustorFields[Lower(table)] ==> field !in a.fields)
  {
    var key := Lower(table);
    if key !in AdjustorFields then Err(UnknownTable(table))
    else
      var line := FirstLine(field, AdjustorFields[key]);
      assert forall a :: a in AdjustorFields[key] ==> exists i :: 0 <= i < |AdjustorFields[key]| && AdjustorFields[key][i] == a;
      Ok(line)
  }

  /** The daily security table is known under its own name. */
  lemma SecurityDailyKnown()
    ensures Lower(SecurityDaily) == SecurityDaily && SecurityDaily in AdjustorFields
  {
    assert Lower(SecurityDaily) == SecurityDaily;
  }

  /** A field the daily security table adjusts. */
  predicate Adjustable(field: string)
  {
    field in PriceFields || field in ShareFields
  }

  /** Any spelling of the daily security table's name selects its entries. */
  lemma DailyTable(field: string, table: string)
    requires Lower(table) == SecurityDaily
    ensures AdjustField(field, table) == Ok(FirstLine(field, AdjustorFields[SecurityDaily]))
  {
  }

  /** A price field is divided by the price factor `cfacpr` and made
      non-negative: the line reads `f = abs(f / cfacpr)`. */
  lemma PriceFieldsDivided(field: string, table: string)
    requires Lower(table) == SecurityDaily && field in PriceFields
    ensures AdjustField(field, table) == Ok(field + " = " + "abs" + "(" + field + " " + "/" + " " + "cfacpr" + ")")
  {
    DailyTable(field, table);
    var adjs := AdjustorFields[SecurityDaily];
    assert FirstLine(field, adjs) == Line(field, adjs[0]);
  }

  /** A volume or share field is multiplied by the share factor `cfacshr`:
      the line reads `f = f * cfacshr`. */
  lemma ShareFieldsMultiplied(field: string, table: string)
    requires Lower(table) == SecurityDaily && field in ShareFields
    ensures AdjustField(field, table) == Ok(field + " = " + field + " " + "*" + " " + "cfacshr")
  {
    DailyTable(field, table);
    var adjs := AdjustorFields[SecurityDaily];
    assert field !in adjs[0].fields;
    assert FirstLine(field, adjs) == FirstLine(field, adjs[1..]) == Line(field, adjs[1]);
  }

  /** Exactly the fields the table lists get a line; every other field gets
      the empty line. */
  lemma OtherFieldsUntouched(field: string, table: string)
    requires Lower(table) == SecurityDaily
    ensures AdjustField(field, table) == Ok("") <==> !Adjustable(field)
  {
    DailyTable(field, table);
    var adjs := AdjustorFields[SecurityDaily];
    assert adjs[0].fields == PriceFields && adjs[1].fields == ShareFields;
  }

  /** Joining with a non-empty separator gives the empty string only for no
      parts or a single empty part. */
  function Join(sep: string, parts: seq<string>): (s: string)
    ensures sep != "" ==> (s == "" <==> |parts| == 0 || (|parts| == 1 && parts[0] == ""))
  {
    if |parts| == 0 then ""
    else if |parts| == 1 then parts[0]
    else Join(sep, parts[..|parts| - 1]) + sep + parts[|parts| - 1]
  }

  /** One line per column, in column order, as `_adjust_field` produces them. */
  function Lines(cols: seq<string>): (lines: seq<string>)
    ensures |lines| == |cols|
    ensures forall i :: 0 <= i < |cols| ==> (lines[i] == "" <==> !Adjustable(cols[i]))
  {
    SecurityDailyKnown();
    forall i | 0 <= i < |cols| ensures AdjustField(cols[i], SecurityDaily).Ok? && (AdjustField(cols[i], SecurityDaily).value == "" <==> !Adjustable(cols[i])) {
      OtherFieldsUntouched(cols[i], SecurityDaily);
    }
    seq(|cols|, i requires 0 <= i < |cols| => AdjustField(cols[i], SecurityDaily).value)
  }

  /** What adjusting a frame amounts to: its columns lower-cased, and either
      left as they are or handed to the evaluator with a script. */
  datatype CrspResult = Unchanged(columns: seq<string>) | Evaluated(columns: seq<string>, script: string)

  /** `adjust_crsp_data(frame)` on the frame's column names, as written: the
      frame is returned untouched only when the joined script is empty, which
      happens for no columns or a single column that is not adjustable. */
  function AdjustCrspData(columns: seq<string>): (r: CrspResult)
    ensures r.columns == LowerAll(columns)
    ensures r.Unchanged? <==> |columns| == 0 || (|columns| == 1 && !Adjustable(Lower(columns[0])))
    ensures r.Evaluated? ==> r.script == Join("\n", Lines(r.columns))
  {
    var cols := LowerAll(columns);
    var script := Join("\n", Lines(cols));
    if script == "" then Unchanged(cols) else Evaluated(cols, script)
  }

  /** Two columns, neither adjustable: every line is empty, yet the joined
      script is a lone newline, so the frame is handed to the evaluator
      instead of being returned as it is. */
  lemma BlankScriptIsEvaluated()
    ensures AdjustCrspData(["PERMNO", "date"]) == Evaluated(["permno", "date"], "\n")
    ensures AdjustCrspDataIntended(["PERMNO", "date"]) == Unchanged(["permno", "date"])
  {
    var cols := LowerAll(["PERMNO", "date"]);
    assert Lower("PERMNO") == "permno" && Lower("date") == "date";
    assert cols == ["permno", "date"];
    var lines := Lines(cols);
    assert lines == ["", ""];
    assert Join("\n", lines) == Join("\n", [""]) + "\n" + "";
    assert NonEmpty(lines) == NonEmpty([""]);
  }

  /** The non-empty strings of `s`, in order. */
  function NonEmpty(s: seq<string>): (r: seq<string>)
    ensures forall j :: 0 <= j < |r| ==> r[j] != ""
    ensures forall x :: x in r <==> x in s && x != ""
  {
    if s == [] then []
    else
      var n := |s| - 1;
      var init := NonEmpty(s[..n]);
      assert forall x :: x in s <==> x in s[..n] || x == s[n];
      if s[n] == "" then init else init + [s[n]]
  }

  /** `adjust_crsp_data` as intended: the script keeps only the lines of
      adjustable columns, and a frame with no adjustable column is returned
      as it is. */
  function AdjustCrspDataIntended(columns: seq<string>): (r: CrspResult)
    ensures r.columns == LowerAll(columns)
    ensures r.Unchanged? <==> forall i :: 0 <= i < |columns| ==> !Adjustable(Lower(columns[i]))
    ensures r.Evaluated? ==>
      && r.script == Join("\n", NonEmpty(Lines(r.columns)))
      && forall x :: x in NonEmpty(Lines(r.columns)) <==>
           exists i :: 0 <= i < |columns| && Adjustable(Lower(columns[i])) && x == Lines(r.columns)[i]
  {
    var cols := LowerAll(columns);
    var lines := Lines(cols);
    var kept := NonEmpty(lines);
    assert kept == [] <==> forall i :: 0 <= i < |columns| ==> !Adjustable(Lower(columns[i])) by {
      if kept == [] {
        forall i | 0 <= i < |columns| ensures !Adjustable(Lower(columns[i])) {
          assert lines[i] !in kept;
        }
      } else {
        assert kept[0] in kept;
        var i :| 0 <= i < |lines| && lines[i] == kept[0];
        assert Adjustable(Lower(columns[i]));
      }
    }
    forall x ensures x in kept <==>
      exists i :: 0 <= i < |columns| && Adjustable(Lower(columns[i])) && x == lines[i]
    {
      if x in kept {
        var i :| 0 <= i < |lines| && lines[i] == x;
      }
    }
    if kept == [] then Unchanged(cols) else Evaluated(cols, Join("\n", kept))
  }
}
