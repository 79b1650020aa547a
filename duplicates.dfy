/**
 * The duplicate-key policy: count the rows whose key already occurred earlier
 * and then raise, warn, or warn and keep only the first row of every key.
 */
module Duplicates {
  import opened Frames
  import opened Columns

  /** How many entries repeat a key that occurred earlier (`duplicated().sum()`). */
  function DupCount<K(==)>(keys: seq<K>): (n: nat)
    ensures n <= |keys|
  {
    if keys == [] then 0
    else
      var init := keys[..|keys| - 1];
      DupCount(init) + if keys[|keys| - 1] in init then 1 else 0
  }

  /** The positions of the first occurrence of every key, ascending
      (the rows `drop_duplicates(keep='first')` keeps). */
  function KeepFirst<K(==)>(keys: seq<K>): (idx: seq<nat>)
    ensures |idx| + DupCount(keys) == |keys|
    ensures forall j :: 0 <= j < |idx| ==> idx[j] < |keys| && IsFirst(keys, idx[j])
    ensures forall i, j :: 0 <= i < j < |idx| ==> idx[i] < idx[j]
    ensures forall i :: 0 <= i < |keys| && IsFirst(keys, i) ==> i in idx
  {
    if keys == [] then []
    else
      var n := |keys| - 1;
      var prev := KeepFirst(keys[..n]);
      FirstInPrefix(keys, n);
      if keys[n] in keys[..n] then prev else prev + [n]
  }

  /** Position `i` holds the first occurrence of its key. */
  predicate IsFirst<K(==)>(keys: seq<K>, i: nat)
    requires i < |keys|
  {
    keys[i] !in keys[..i]
  }

  /** Being a first occurrence does not depend on what follows. */
  lemma FirstInPrefix<K>(keys: seq<K>, n: nat)
    requires n <= |keys|
    ensures forall i :: 0 <= i < n ==> (IsFirst(keys[..n], i) <==> IsFirst(keys, i))
  {
    forall i | 0 <= i < n ensures IsFirst(keys[..n], i) <==> IsFirst(keys, i) {
      assert keys[..n][..i] == keys[..i];
    }
  }

  /** A sequence without repeated keys has no duplicates to count, and conversely. */
  lemma {:induction false} NoDuplicatesIffDistinct<K>(keys: seq<K>)
    ensures DupCount(keys) == 0 <==> Distinct(keys)
  {
    if keys != [] {
      var n := |keys| - 1;
      var init := keys[..n];
      NoDuplicatesIffDistinct(init);
      if Distinct(keys) {
        assert Distinct(init) by {
          forall i, j | 0 <= i < j < |init| ensures init[i] != init[j] {
            assert init[i] == keys[i] && init[j] == keys[j];
          }
        }
        assert keys[n] !in init by {
          forall i | 0 <= i < n ensures init[i] != keys[n] {
            assert init[i] == keys[i];
          }
        }
      }
      if DupCount(keys) == 0 {
        assert keys[n] !in init;
        forall i, j | 0 <= i < j < |keys| ensures keys[i] != keys[j] {
          if j < n {
            assert init[i] == keys[i] && init[j] == keys[j];
          } else {
            assert keys[i] == init[i];
          }
        }
      }
    }
  }

  /** A key that occurs twice is counted as a duplicate. */
  lemma RepeatedKeyCounted<K>(keys: seq<K>, i: nat, j: nat)
    requires i < j < |keys| && keys[i] == keys[j]
    ensures DupCount(keys) > 0
  {
    NoDuplicatesIffDistinct(keys);
  }

  /** Keeping the first occurrences keeps every key exactly once. */
  lemma KeptKeysDistinct<K>(keys: seq<K>)
    ensures Distinct(Select(keys, KeepFirst(keys)))
    ensures forall x :: x in keys <==> x in Select(keys, KeepFirst(keys))
  {
    var idx := KeepFirst(keys);
    var kept := Select(keys, idx);
    forall i, j | 0 <= i < j < |kept| ensures kept[i] != kept[j] {
      assert idx[i] < idx[j];
      assert IsFirst(keys, idx[j]);
      assert keys[idx[i]] in keys[..idx[j]];
    }
    forall x | x in keys ensures x in kept {
      var i := FirstIndex(keys, x);
      assert IsFirst(keys, i);
      assert i in idx;
      var j :| 0 <= j < |idx| && idx[j] == i;
      assert kept[j] == x;
    }
  }

  /** Position of the first occurrence of `x`. */
  function FirstIndex<K(==)>(keys: seq<K>, x: K): (i: nat)
    requires x in keys
    ensures i < |keys| && keys[i] == x && x !in keys[..i]
  {
    if keys[0] == x then 0
    else
      assert x in keys[1..];
      var k := FirstIndex(keys[1..], x);
      assert keys[..k + 1] == [keys[0]] + keys[1..][..k];
      k + 1
  }

  /** Without duplicates every position is a first occurrence. */
  lemma {:induction false} KeepFirstAll<K>(keys: seq<K>)
    requires DupCount(keys) == 0
    ensures KeepFirst(keys) == seq(|keys|, i => i)
  {
    if keys != [] {
      var n := |keys| - 1;
      KeepFirstAll(keys[..n]);
      assert seq(|keys|, i => i) == seq(n, i => i) + [n];
    }
  }

  /** Every label of `subset` is a column of `f`. */
  predicate SubsetPresent(f: Frame, subset: seq<string>)
  {
    forall j :: 0 <= j < |subset| ==> subset[j] in f.columns
  }

  /** The key of every row: its cells in the `subset` columns. */
  function Keys(f: Frame, subset: seq<string>): (keys: seq<Row>)
    requires Rectangular(f) && SubsetPresent(f, subset)
    ensures |keys| == |f.rows|
    ensures forall k :: 0 <= k < |f.rows| ==> keys[k] == Select(f.rows[k], Positions(f, subset))
  {
    var pos := Positions(f, subset);
    seq(|f.rows|, k requires 0 <= k < |f.rows| =>
      assert f.rows[k] in f.rows;
      Select(f.rows[k], pos))
  }

  /** `drop_duplicates(subset=subset, keep='first')`. */
  function DropDuplicates(f: Frame, subset: seq<string>): (r: Frame)
    requires Rectangular(f) && SubsetPresent(f, subset)
    ensures r.indexNames == f.indexNames && r.columns == f.columns
    ensures Rectangular(r) && SubsetPresent(r, subset)
    // the kept rows are the first row of every key, in their original order
    ensures r.rows == Select(f.rows, KeepFirst(Keys(f, subset)))
    ensures |r.rows| == |f.rows| - DupCount(Keys(f, subset))
    // one row per key, and every key survives
    ensures Distinct(Keys(r, subset))
    ensures forall x :: x in Keys(f, subset) <==> x in Keys(r, subset)
    // nothing to drop: the frame comes back unchanged
    ensures DupCount(Keys(f, subset)) == 0 ==> r == f
  {
    DropFacts(f, subset);
    Frame(f.indexNames, f.columns, Select(f.rows, KeepFirst(Keys(f, subset))))
  }

  /** Any selection of a rectangular frame's rows is rectangular. */
  lemma SelectedRectangular(f: Frame, idx: seq<nat>)
    requires Rectangular(f) && forall j :: 0 <= j < |idx| ==> idx[j] < |f.rows|
    ensures Rectangular(Frame(f.indexNames, f.columns, Select(f.rows, idx)))
  {
    var rows := Select(f.rows, idx);
    forall row | row in rows ensures |row| == |f.indexNames| + |f.columns| {
      var j :| 0 <= j < |rows| && rows[j] == row;
      assert f.rows[idx[j]] in f.rows;
    }
  }

  /** What keeping the first row of every key does to a frame. */
  lemma DropFacts(f: Frame, subset: seq<string>)
    requires Rectangular(f) && SubsetPresent(f, subset)
    ensures
      var keys := Keys(f, subset);
      var r := Frame(f.indexNames, f.columns, Select(f.rows, KeepFirst(keys)));
      && Rectangular(r)
      && Keys(r, subset) == Select(keys, KeepFirst(keys))
      && Distinct(Keys(r, subset))
      && (forall x :: x in keys <==> x in Keys(r, subset))
      && (DupCount(keys) == 0 ==> r == f)
  {
    var keys := Keys(f, subset);
    var idx := KeepFirst(keys);
    var r := Frame(f.indexNames, f.columns, Select(f.rows, idx));
    SelectedRectangular(f, idx);
    assert Keys(r, subset) == Select(keys, idx);
    KeptKeysDistinct(keys);
    if DupCount(keys) == 0 {
      KeepFirstAll(keys);
      assert r.rows == f.rows;
    }
  }

  /** `_handle_duplicates(df, outType, name, drop, subset)`. */
  function HandleDuplicates(df: Frame, outType: string, name: string, drop: bool, subset: seq<string>)
    : (r: Result<Option<Frame>>)
    requires Rectangular(df)
    // a key column that is not a column of the frame is a lookup error
    ensures !SubsetPresent(df, subset) <==> r.Err? && r.error.MissingSubset?
    ensures SubsetPresent(df, subset) ==>
      var n := DupCount(Keys(df, subset));
      // failure only when there are duplicates and the policy is not a warning
      && (r.Err? <==> n > 0 && outType != "Warning")
      && (outType == "ValueError" && n > 0 ==> r == Err(DuplicateRows(name, n, |df.rows|)))
      && (outType != "ValueError" && r.Err? ==> r == Err(UnknownOutType(outType)))
      // a frame comes back exactly when dropping was asked for
      && (r.Ok? ==> (r.value.Some? <==> drop))
      // with no duplicates it is the input itself
      && (n == 0 && drop ==> r == Ok(Some(df)))
      // otherwise the first row of every key
      && (r.Ok? && drop ==> r.value.value == DropDuplicates(df, subset))
  {
    match FirstMissing(subset, df.columns)
    case Some(j) => Err(MissingSubset(subset[j]))
    case None =>
      var n := DupCount(Keys(df, subset));
      if n > 0 && outType == "Warning" then
        // `Warning(...)` only builds an exception object: nothing is raised
        if drop then Ok(Some(DropDuplicates(df, subset))) else Ok(None)
      else if n > 0 && outType == "ValueError" then
        Err(DuplicateRows(name, n, |df.rows|))
      else if n > 0 then
        Err(UnknownOutType(outType))
      else if drop then Ok(Some(df))
      else Ok(None)
  }
}
