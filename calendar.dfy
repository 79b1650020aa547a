/**
 * The trading calendar and label slicing on it. The calendar is the ordered
 * list of valid trading days (as day ordinals) between the build's start and
 * end dates; `cal.loc[lo:hi]` on such a sorted index is the contiguous run of
 * days between the left search position of `lo` and the right one of `hi`.
 */
module Calendar {
  import opened Frames

  /** Strictly increasing: sorted and free of repeats, as a trading calendar is. */
  predicate Increasing(cal: seq<int>)
  {
    forall i, j :: 0 <= i < j < |cal| ==> cal[i] < cal[j]
  }

  /** `searchsorted(x, side='left')`: the number of leading days before `x`. */
  function SearchLeft(cal: seq<int>, x: int): (i: nat)
    ensures i <= |cal|
    ensures forall j :: 0 <= j < i ==> cal[j] < x
    ensures i < |cal| ==> cal[i] >= x
  {
    if cal == [] || cal[0] >= x then 0 else 1 + SearchLeft(cal[1..], x)
  }

  /** `searchsorted(x, side='right')`: the number of leading days not after `x`. */
  function SearchRight(cal: seq<int>, x: int): (i: nat)
    ensures i <= |cal|
    ensures forall j :: 0 <= j < i ==> cal[j] <= x
    ensures i < |cal| ==> cal[i] > x
  {
    if cal == [] || cal[0] > x then 0 else 1 + SearchRight(cal[1..], x)
  }

  /** A slice label: a day, or a missing date (`NaT`). The calendar holds no
      `NaT`, so looking one up falls back to the sorted search, which orders
      dates as datetime64 values: `NaT` sorts after every day. */
  datatype Label = NaT | On(day: int)

  /** The left search position of a label. */
  function LeftPos(cal: seq<int>, l: Label): nat
  {
    if l.NaT? then |cal| else SearchLeft(cal, l.day)
  }

  /** The right search position of a label. */
  function RightPos(cal: seq<int>, l: Label): nat
  {
    if l.NaT? then |cal| else SearchRight(cal, l.day)
  }

  /** Day `d` is not before the label (no day is at or after `NaT`). */
  predicate NotBefore(d: int, l: Label)
  {
    l.On? && l.day <= d
  }

  /** Day `d` is not after the label (every day is before `NaT`). */
  predicate NotAfter(d: int, l: Label)
  {
    l.NaT? || d <= l.day
  }

  /** `cal.loc[lo:hi]`, or `cal.loc[lo:]` when `hi` is `None`. A start past the
      end gives an empty slice, as Python slicing does; nothing is rejected. */
  function Loc(cal: seq<int>, lo: Label, hi: Option<Label>): seq<int>
  {
    var a := LeftPos(cal, lo);
    var b := if hi.Some? then RightPos(cal, hi.value) else |cal|;
    if a <= b <= |cal| then cal[a..b] else []
  }

  /** The slice holds exactly the calendar days in `[lo, hi]` (in `[lo, ∞)`
      without `hi`), in calendar order; an inverted interval or a missing
      lower label gives nothing, a missing upper label runs to the last day. */
  lemma LocMembers(cal: seq<int>, lo: Label, hi: Option<Label>)
    requires Increasing(cal)
    ensures Increasing(Loc(cal, lo, hi))
    ensures forall d :: d in Loc(cal, lo, hi) <==>
      d in cal && NotBefore(d, lo) && (hi.Some? ==> NotAfter(d, hi.value))
    ensures lo.NaT? ==> Loc(cal, lo, hi) == []
    ensures hi.Some? && hi.value.On? && lo.On? && hi.value.day < lo.day ==> Loc(cal, lo, hi) == []
  {
    forall d ensures d in Loc(cal, lo, hi) <==> d in cal && NotBefore(d, lo) && (hi.Some? ==> NotAfter(d, hi.value)) {
      if d in Loc(cal, lo, hi) {
        LocSound(cal, lo, hi, d);
      }
      if d in cal && NotBefore(d, lo) && (hi.Some? ==> NotAfter(d, hi.value)) {
        LocComplete(cal, lo, hi, d);
      }
    }
    if Loc(cal, lo, hi) != [] {
      assert Loc(cal, lo, hi)[0] in Loc(cal, lo, hi);
    }
  }

  /** A day of the slice is a calendar day in the window. */
  lemma LocSound(cal: seq<int>, lo: Label, hi: Option<Label>, d: int)
    requires Increasing(cal)
    requires d in Loc(cal, lo, hi)
    ensures d in cal && NotBefore(d, lo) && (hi.Some? ==> NotAfter(d, hi.value))
  {
    var a := LeftPos(cal, lo);
    var b := if hi.Some? then RightPos(cal, hi.value) else |cal|;
    var s := Loc(cal, lo, hi);
    var k :| 0 <= k < |s| && s[k] == d;
    assert a <= b && d == cal[a + k];
    assert cal[a] <= cal[a + k];
  }

  /** A calendar day in the window is in the slice. */
  lemma LocComplete(cal: seq<int>, lo: Label, hi: Option<Label>, d: int)
    requires Increasing(cal)
    requires d in cal && NotBefore(d, lo) && (hi.Some? ==> NotAfter(d, hi.value))
    ensures d in Loc(cal, lo, hi)
  {
    var a := LeftPos(cal, lo);
    var b := if hi.Some? then RightPos(cal, hi.value) else |cal|;
    var k :| 0 <= k < |cal| && cal[k] == d;
    assert a <= k by {
      if lo.On? {
        LeftOf(cal, lo.day, k);
      }
    }
    assert k < b <= |cal| by {
      if hi.Some? && hi.value.On? {
        RightOf(cal, hi.value.day, k);
      }
    }
    var s := cal[a..b];
    assert s[k - a] == d;
    assert Loc(cal, lo, hi) == s;
  }

  /** A day not before `x` is at or after the left search position of `x`. */
  lemma LeftOf(cal: seq<int>, x: int, k: nat)
    requires k < |cal| && cal[k] >= x
    ensures SearchLeft(cal, x) <= k
  {
  }

  /** On an increasing calendar, a day not after `x` is before the right
      search position of `x`. */
  lemma RightOf(cal: seq<int>, x: int, k: nat)
    requires Increasing(cal) && k < |cal| && cal[k] <= x
    ensures k < SearchRight(cal, x)
  {
  }

  /** A row's factor slice `cal.loc[lo:hi]` is a prefix of its pricing slice `cal.loc[lo:]`. */
  lemma FactorSlicePrefix(cal: seq<int>, lo: Label, hi: Label)
    ensures Loc(cal, lo, Some(hi)) <= Loc(cal, lo, None)
  {
    var a := LeftPos(cal, lo);
    var b := RightPos(cal, hi);
    if a <= b <= |cal| {
      assert cal[a..b] == cal[a..][..b - a];
    }
  }
}
