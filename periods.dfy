/**
 * The period index and the compare-mode window resolver (app.py, section 9).
 *
 * A period is a calendar month written as one integer (year * 12 + month - 1),
 * so that month order is integer order and "n months earlier" is subtraction.
 * The period index is the ascending, de-duplicated list of months the data
 * covers; the resolver works purely on positions in that list.
 */
module Periods {
  import opened Wrappers

  type Period = int

  /** The month id of a calendar month, `month` in 1..12. */
  function MonthId(year: int, month: int): Period
    requires 1 <= month <= 12
  {
    year * 12 + (month - 1)
  }

  predicate StrictlyIncreasing(s: seq<int>) {
    forall i, j :: 0 <= i < j < |s| ==> s[i] < s[j]
  }

  function Min(a: int, b: int): int { if a <= b then a else b }
  function Max(a: int, b: int): int { if a <= b then b else a }

  // ---------------------------------------------------------------------------
  // Building the index: sort ascending, drop duplicates
  // ---------------------------------------------------------------------------

  /** Inserts `x` into an ascending duplicate-free list, keeping it so. */
  function InsertUnique(s: seq<int>, x: int): (r: seq<int>)
    requires StrictlyIncreasing(s)
    ensures StrictlyIncreasing(r)
    ensures forall y :: y in r <==> y in s || y == x
    ensures |r| > 0 && (r[0] == x || (|s| > 0 && r[0] == s[0]))
  {
    if |s| == 0 then [x]
    else if x < s[0] then [x] + s
    else if x == s[0] then s
    else
      var rest := InsertUnique(s[1..], x);
      assert s[0] < rest[0] by { if |s| > 1 { assert s[0] < s[1]; } }
      [s[0]] + rest
  }

  /** The list of months `ts` sorted ascending with duplicates removed. */
  function SortedUnique(ts: seq<int>): (r: seq<int>)
    ensures StrictlyIncreasing(r)
    ensures forall y :: y in r <==> y in ts
  {
    if |ts| == 0 then []
    else InsertUnique(SortedUnique(ts[..|ts| - 1]), ts[|ts| - 1])
  }

  lemma HeadIsMember(s: seq<int>)
    requires |s| > 0
    ensures s[0] in s
  {
  }

  /**
   * An ascending duplicate-free list is determined by its elements, so the
   * index built by SortedUnique is THE sorted, de-duplicated list of the
   * months: it does not depend on the order in which they were found.
   */
  lemma {:induction false} StrictlyIncreasingDeterminedByElements(a: seq<int>, b: seq<int>)
    requires StrictlyIncreasing(a) && StrictlyIncreasing(b)
    requires forall y :: y in a <==> y in b
    ensures a == b
  {
    if |a| == 0 || |b| == 0 {
      // a head of either list would have to be in the other, empty one
      if |a| > 0 { HeadIsMember(a); }
      if |b| > 0 { HeadIsMember(b); }
    } else {
      HeadsAgree(a, b);
      TailsAgree(a, b);
      StrictlyIncreasingDeterminedByElements(a[1..], b[1..]);
      assert a == [a[0]] + a[1..] && b == [b[0]] + b[1..];
    }
  }

  /** Both heads are the least element of the same set. */
  lemma HeadsAgree(a: seq<int>, b: seq<int>)
    requires StrictlyIncreasing(a) && StrictlyIncreasing(b) && |a| > 0 && |b| > 0
    requires forall y :: y in a <==> y in b
    ensures a[0] == b[0]
  {
    assert a[0] in a && a[0] in b;
    assert b[0] in b && b[0] in a;
    var i :| 0 <= i < |b| && b[i] == a[0];
    var j :| 0 <= j < |a| && a[j] == b[0];
    assert a[0] <= a[j] && b[0] <= b[i];
  }

  /** With the heads equal and gone, the tails hold the same elements. */
  lemma TailsAgree(a: seq<int>, b: seq<int>)
    requires StrictlyIncreasing(a) && StrictlyIncreasing(b) && |a| > 0 && |b| > 0 && a[0] == b[0]
    requires forall y :: y in a <==> y in b
    ensures forall y :: y in a[1..] <==> y in b[1..]
  {
    forall y ensures y in a[1..] ==> y in b[1..] {
      if y in a[1..] {
        var k :| 1 <= k < |a| && a[k] == y;
        assert y in b && y != b[0];
      }
    }
    forall y ensures y in b[1..] ==> y in a[1..] {
      if y in b[1..] {
        var k :| 1 <= k < |b| && b[k] == y;
        assert y in a && y != a[0];
      }
    }
  }

  /** Two month lists with the same elements yield the same index. */
  lemma SortedUniqueDeterministic(ts: seq<int>, us: seq<int>)
    requires forall y :: y in ts <==> y in us
    ensures SortedUnique(ts) == SortedUnique(us)
  {
    StrictlyIncreasingDeterminedByElements(SortedUnique(ts), SortedUnique(us));
  }

  // ---------------------------------------------------------------------------
  // Window resolver
  // ---------------------------------------------------------------------------

  /** Position of the first occurrence of `x` in `s`, as Python's list.index. */
  function IndexOf(s: seq<int>, x: int): (r: Option<nat>)
    ensures r.None? <==> x !in s
    ensures r.Some? ==> r.value < |s| && s[r.value] == x
    ensures r.Some? ==> forall j :: 0 <= j < r.value ==> s[j] != x
  {
    if |s| == 0 then None
    else if s[0] == x then Some(0)
    else match IndexOf(s[1..], x)
      case None => None
      case Some(i) => Some(i + 1)
  }

  /** A closed range of months, first..last. */
  datatype Window = Window(first: Period, last: Period)

  /**
   * The window of the same number of index positions that ends just before
   * the selected one, or None when an endpoint is not in the index or there
   * is not enough history before the selection.
   */
  function PreviousPeriodWindow(periods: seq<Period>, startP: Period, endP: Period): (w: Option<Window>)
    ensures startP !in periods || endP !in periods ==> w.None?
    ensures startP in periods && endP in periods ==>
      var a := IndexOf(periods, startP).value;
      var b := IndexOf(periods, endP).value;
      var lo := Min(a, b);
      var len := Max(a, b) - lo + 1;
      (w.Some? <==> len <= lo) &&
      (w.Some? ==> w.value == Window(periods[lo - len], periods[lo - 1]))
  {
    match (IndexOf(periods, startP), IndexOf(periods, endP))
    case (Some(i0), Some(i1)) =>
      var (i0, i1) := if i1 < i0 then (i1 as int, i0 as int) else (i0 as int, i1 as int);
      var length := (i1 - i0) + 1;
      var prevEndIdx := i0 - 1;
      var prevStartIdx := prevEndIdx - (length - 1);
      if prevStartIdx < 0 then None
      else Some(Window(periods[prevStartIdx], periods[prevEndIdx]))
    case _ => None
  }

  /** Selecting (end, start) resolves to the same window as (start, end). */
  lemma PreviousPeriodWindowSymmetric(periods: seq<Period>, s: Period, e: Period)
    ensures PreviousPeriodWindow(periods, s, e) == PreviousPeriodWindow(periods, e, s)
  {
  }

  // ---------------------------------------------------------------------------
  // The window in terms of months rather than positions
  // ---------------------------------------------------------------------------

  /** How many months of `s` lie before `x`. */
  function CountBelow(s: seq<int>, x: int): nat {
    if |s| == 0 then 0
    else (if s[0] < x then 1 else 0) + CountBelow(s[1..], x)
  }

  /** How many months of `s` lie in the closed range lo..hi. */
  function CountIn(s: seq<int>, lo: int, hi: int): nat {
    if |s| == 0 then 0
    else (if lo <= s[0] <= hi then 1 else 0) + CountIn(s[1..], lo, hi)
  }

  lemma {:induction false} CountInByCountBelow(s: seq<int>, lo: int, hi: int)
    requires lo <= hi + 1
    ensures CountIn(s, lo, hi) == CountBelow(s, hi + 1) - CountBelow(s, lo)
    ensures CountBelow(s, lo) <= CountBelow(s, hi + 1)
  {
    if |s| > 0 {
      CountInByCountBelow(s[1..], lo, hi);
    }
  }

  /** In an ascending list, the months below `x` are exactly the first k when x falls after s[k-1] and no later than s[k]. */
  lemma {:induction false} CountBelowAt(s: seq<int>, k: nat, x: int)
    requires StrictlyIncreasing(s)
    requires k <= |s|
    requires k == 0 || s[k - 1] < x
    requires k == |s| || x <= s[k]
    ensures CountBelow(s, x) == k
  {
    if |s| > 0 {
      if k == 0 {
        assert x <= s[0];
        CountBelowAt(s[1..], 0, x);
        assert forall i :: 0 <= i < |s[1..]| ==> s[1..][i] == s[i + 1];
      } else {
        assert s[0] < x by { if k - 1 > 0 { assert s[0] < s[k - 1]; } }
        CountBelowAt(s[1..], k - 1, x);
      }
    }
  }

  /** Months of an ascending list between positions i and j, inclusive, number j - i + 1. */
  lemma CountInPositions(s: seq<int>, i: nat, j: nat)
    requires StrictlyIncreasing(s)
    requires i <= j < |s|
    ensures CountIn(s, s[i], s[j]) == j - i + 1
  {
    CountInByCountBelow(s, s[i], s[j]);
    CountBelowAt(s, i, s[i]);
    CountBelowAt(s, j + 1, s[j] + 1);
  }

  /** The positions lo-len .. lo-1 hold as many months as lo .. hi, and nothing lies between lo-1 and lo. */
  lemma WindowCounts(periods: seq<Period>, lo: nat, hi: nat)
    requires StrictlyIncreasing(periods)
    requires lo <= hi < |periods| && hi - lo + 1 <= lo
    ensures CountIn(periods, periods[lo - (hi - lo + 1)], periods[lo - 1]) == CountIn(periods, periods[lo], periods[hi])
    ensures CountIn(periods, periods[lo - 1] + 1, periods[lo] - 1) == 0
  {
    CountInPositions(periods, lo - (hi - lo + 1), lo - 1);
    CountInPositions(periods, lo, hi);
    CountInByCountBelow(periods, periods[lo - 1] + 1, periods[lo] - 1);
    CountBelowAt(periods, lo, periods[lo]);
    CountBelowAt(periods, lo, periods[lo - 1] + 1);
  }

  /** In an ascending index, a month's first position is its only position. */
  lemma IndexOfIncreasing(s: seq<int>, k: nat)
    requires StrictlyIncreasing(s) && k < |s|
    ensures IndexOf(s, s[k]) == Some(k)
  {
  }

  /** The positions of a resolved selection: lo..hi, with the previous window at lo-len..lo-1. */
  lemma ResolvedPositions(periods: seq<Period>, s: Period, e: Period) returns (lo: nat, hi: nat)
    requires StrictlyIncreasing(periods)
    requires PreviousPeriodWindow(periods, s, e).Some?
    ensures lo <= hi < |periods| && hi - lo + 1 <= lo
    ensures periods[lo] == Min(s, e) && periods[hi] == Max(s, e)
    ensures PreviousPeriodWindow(periods, s, e).value == Window(periods[lo - (hi - lo + 1)], periods[lo - 1])
  {
    var a := IndexOf(periods, s).value;
    var b := IndexOf(periods, e).value;
    lo, hi := Min(a, b), Max(a, b);
  }

  /**
   * A resolved previous window holds as many months of the index as the
   * selection, lies entirely before it, and no month of the index falls
   * between the two.
   */
  lemma PreviousWindowAdjacentSameLength(periods: seq<Period>, s: Period, e: Period)
    requires StrictlyIncreasing(periods)
    requires PreviousPeriodWindow(periods, s, e).Some?
    ensures var w := PreviousPeriodWindow(periods, s, e).value;
      && w.first <= w.last < Min(s, e)
      && CountIn(periods, w.first, w.last) == CountIn(periods, Min(s, e), Max(s, e))
      && CountIn(periods, w.last + 1, Min(s, e) - 1) == 0
  {
    var lo, hi := ResolvedPositions(periods, s, e);
    WindowCounts(periods, lo, hi);
  }

  /**
   * For a selection inside the index, there is no previous window exactly
   * when fewer months precede the selection than the selection holds.
   */
  lemma PreviousWindowAbsentIffShortHistory(periods: seq<Period>, s: Period, e: Period)
    requires StrictlyIncreasing(periods)
    requires s in periods && e in periods
    ensures PreviousPeriodWindow(periods, s, e).None? <==>
      CountBelow(periods, Min(s, e)) < CountIn(periods, Min(s, e), Max(s, e))
  {
    var a := IndexOf(periods, s).value;
    var b := IndexOf(periods, e).value;
    var lo, hi := Min(a, b), Max(a, b);
    assert periods[lo] == Min(s, e) && periods[hi] == Max(s, e);
    CountInPositions(periods, lo, hi);
    CountBelowAt(periods, lo, periods[lo]);
  }

  /** Twelve consecutive months: the last six compare with the first six; the first three have no history. */
  lemma TwelveMonthExample()
    ensures var p := seq(12, i => MonthId(2025, 1) + i);
      && PreviousPeriodWindow(p, p[6], p[11]) == Some(Window(p[0], p[5]))
      && PreviousPeriodWindow(p, p[0], p[2]) == None
  {
    var p := seq(12, i => MonthId(2025, 1) + i);
    IndexOfIncreasing(p, 6);
    IndexOfIncreasing(p, 11);
    IndexOfIncreasing(p, 0);
    IndexOfIncreasing(p, 2);
  }
}
