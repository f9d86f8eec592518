/**
 * The streak engine of utils/habitUtils.ts (`calculateStreak`).
 *
 * A habit's entry list is reduced to its completed days. The current streak
 * counts completed days backwards from an anchor (today when today is
 * completed, else yesterday when yesterday is); the longest streak is the
 * longest run of consecutive days in the ascending list of completed days.
 */
module Streaks {
  import opened Wrappers
  import opened HabitTypes

  // ---------------------------------------------------------------------
  // Sorting (the `sort` library call on the completed dates)
  // ---------------------------------------------------------------------

  predicate Sorted(s: seq<Day>)
  {
    forall i, j :: 0 <= i < j < |s| ==> s[i] <= s[j]
  }

  predicate Distinct(s: seq<Day>)
  {
    forall i, j :: 0 <= i < j < |s| ==> s[i] != s[j]
  }

  function Insert(x: Day, s: seq<Day>): (r: seq<Day>)
    requires Sorted(s)
    ensures |r| == |s| + 1
    ensures r[0] == if s == [] || x <= s[0] then x else s[0]
    ensures Sorted(r)
    ensures multiset(r) == multiset(s) + multiset{x}
  {
    if s == [] || x <= s[0] then
      [x] + s
    else
      var tail := s[1..];
      assert s == [s[0]] + tail;
      var t := Insert(x, tail);
      ConsSorted(s[0], t);
      ConsMultiset(s[0], tail, t, x);
      [s[0]] + t
  }

  /** A day no later than the head of a sorted list keeps it sorted in front. */
  lemma ConsSorted(d: Day, t: seq<Day>)
    requires Sorted(t) && t != [] && d <= t[0]
    ensures Sorted([d] + t)
  {
    assert forall j :: 0 <= j < |t| ==> d <= t[j];
  }

  lemma ConsMultiset(d: Day, tail: seq<Day>, t: seq<Day>, x: Day)
    requires multiset(t) == multiset(tail) + multiset{x}
    ensures multiset([d] + t) == multiset([d] + tail) + multiset{x}
  {
  }

  /** The days in ascending order (the order `localeCompare` gives ISO dates). */
  function Sort(s: seq<Day>): (r: seq<Day>)
    ensures |r| == |s|
    ensures Sorted(r)
    ensures multiset(r) == multiset(s)
  {
    if s == [] then
      []
    else
      assert s == [s[0]] + s[1..];
      Insert(s[0], Sort(s[1..]))
  }

  lemma SortedTail(s: seq<Day>)
    requires Sorted(s) && s != []
    ensures Sorted(s[1..])
  {
  }

  lemma MultisetTail(s: seq<Day>)
    requires s != []
    ensures multiset(s[1..]) == multiset(s) - multiset{s[0]}
  {
    assert s == [s[0]] + s[1..];
  }

  lemma MinimumOfSorted(s: seq<Day>, x: Day)
    requires Sorted(s) && x in multiset(s)
    ensures s != [] && s[0] <= x
  {
    assert x in s;
  }

  lemma SameHeadSameTail(a: seq<Day>, b: seq<Day>)
    requires a != [] && b != [] && a[0] == b[0] && a[1..] == b[1..]
    ensures a == b
  {
    assert a == [a[0]] + a[1..] && b == [b[0]] + b[1..];
  }

  /** A list of days is determined by its multiset once it is sorted. */
  lemma {:induction false} SortedUnique(a: seq<Day>, b: seq<Day>)
    requires Sorted(a) && Sorted(b)
    requires multiset(a) == multiset(b)
    ensures a == b
  {
    if a != [] {
      assert a[0] in multiset(b);
      MinimumOfSorted(b, a[0]);
      assert b[0] in multiset(a);
      MinimumOfSorted(a, b[0]);
      MultisetTail(a);
      MultisetTail(b);
      SortedTail(a);
      SortedTail(b);
      SortedUnique(a[1..], b[1..]);
      SameHeadSameTail(a, b);
    }
  }

  lemma SortOfSorted(s: seq<Day>)
    requires Sorted(s)
    ensures Sort(s) == s
  {
    SortedUnique(Sort(s), s);
  }

  // ---------------------------------------------------------------------
  // Current streak
  // ---------------------------------------------------------------------

  /** The completed days on or before `d`: a measure that shrinks as `d` steps back. */
  function DaysUpTo(ds: seq<Day>, d: Day): set<Day>
  {
    set x | x in ds && x <= d
  }

  lemma DaysUpToShrinks(ds: seq<Day>, d: Day)
    requires d in ds
    ensures |DaysUpTo(ds, d - 1)| < |DaysUpTo(ds, d)|
  {
    assert DaysUpTo(ds, d) == DaysUpTo(ds, d - 1) + {d};
    assert d !in DaysUpTo(ds, d - 1);
  }

  /**
   * The number of consecutive completed days ending at `d`: every day in
   * `(d - n, d]` is completed and day `d - n` is not.
   */
  function CountBack(ds: seq<Day>, d: Day): (n: nat)
    ensures forall x :: d - n < x <= d ==> x in ds
    ensures d - n !in ds
    decreases |DaysUpTo(ds, d)|
  {
    if d in ds then
      DaysUpToShrinks(ds, d);
      1 + CountBack(ds, d - 1)
    else
      0
  }

  /** The day the current streak is counted back from. */
  function Anchor(ds: seq<Day>, today: Day): Option<Day>
  {
    if today in ds then Some(today)
    else if today - 1 in ds then Some(today - 1)
    else None
  }

  /** `currentStreak`: zero exactly when neither today nor yesterday is completed. */
  function CurrentStreak(ds: seq<Day>, today: Day): (n: nat)
    ensures n == 0 <==> today !in ds && today - 1 !in ds
  {
    match Anchor(ds, today)
    case Some(a) => CountBack(ds, a)
    case None => 0
  }

  /**
   * The current streak counts back from today when today is completed and
   * from yesterday otherwise; it covers the days ending at that anchor and
   * stops at the first day that is not completed.
   */
  lemma CurrentStreakMeaning(ds: seq<Day>, today: Day)
    ensures today in ds ==> CurrentStreak(ds, today) == CountBack(ds, today)
    ensures today !in ds && today - 1 in ds ==> CurrentStreak(ds, today) == CountBack(ds, today - 1)
    ensures forall a :: Anchor(ds, today) == Some(a) ==>
      (forall x :: a - CurrentStreak(ds, today) < x <= a ==> x in ds) &&
      a - CurrentStreak(ds, today) !in ds
  {
  }

  // ---------------------------------------------------------------------
  // Longest streak
  // ---------------------------------------------------------------------

  /** `s[j..j+k]` is a run of `k` consecutive days. */
  predicate IsRun(s: seq<Day>, j: nat, k: nat)
  {
    j + k <= |s| && forall m :: j <= m < j + k ==> s[m] == s[j] + (m - j)
  }

  /** The length of the run counter after the scan has reached position `i`. */
  function RunEndingAt(s: seq<Day>, i: nat): (n: nat)
    requires i < |s|
    ensures 1 <= n <= i + 1
    ensures IsRun(s, i + 1 - n, n)
  {
    if i > 0 && s[i] - s[i - 1] == 1 then RunEndingAt(s, i - 1) + 1 else 1
  }

  /** The largest value of the run counter over the first `n` positions. */
  function LongestRun(s: seq<Day>, n: nat): nat
    requires n <= |s|
  {
    if n == 0 then 0
    else
      var r := RunEndingAt(s, n - 1);
      var m := LongestRun(s, n - 1);
      if m < r then r else m
  }

  /**
   * `longestStreak`: the longest run over the ascending dates; 0 with no
   * completions, otherwise between 1 and the number of completed days.
   */
  function LongestStreak(ds: seq<Day>): (n: nat)
    ensures ds == [] ==> n == 0
    ensures ds != [] ==> 1 <= n <= |ds|
  {
    LongestRunIsLongest(Sort(ds));
    LongestRun(Sort(ds), |ds|)
  }

  lemma {:induction false} RunEndingAtIsMaximal(s: seq<Day>, j: nat, k: nat)
    requires IsRun(s, j, k) && k >= 1
    ensures RunEndingAt(s, j + k - 1) >= k
  {
    if k > 1 {
      assert IsRun(s, j, k - 1);
      RunEndingAtIsMaximal(s, j, k - 1);
      assert s[j + k - 1] == s[j + k - 2] + 1;
    }
  }

  lemma {:induction false} LongestRunBounds(s: seq<Day>, n: nat)
    requires n <= |s|
    ensures forall i :: 0 <= i < n ==> RunEndingAt(s, i) <= LongestRun(s, n)
    ensures LongestRun(s, n) <= n
    ensures n > 0 ==> LongestRun(s, n) >= 1
  {
    if n > 0 {
      LongestRunBounds(s, n - 1);
    }
  }

  lemma {:induction false} LongestRunAttained(s: seq<Day>, n: nat)
    requires n <= |s|
    ensures exists j: nat :: IsRun(s, j, LongestRun(s, n))
  {
    if n == 0 {
      assert LongestRun(s, 0) == 0 && IsRun(s, 0, 0);
    } else {
      LongestRunAttained(s, n - 1);
      var r := RunEndingAt(s, n - 1);
      var m := LongestRun(s, n - 1);
      if m < r {
        assert LongestRun(s, n) == r;
        assert IsRun(s, n - r, r);
      } else {
        var j: nat :| IsRun(s, j, m);
        assert IsRun(s, j, LongestRun(s, n));
      }
    }
  }

  /**
   * The scan finds the longest run: some run has exactly that length and no
   * run of the sorted days is longer.
   */
  lemma LongestRunIsLongest(s: seq<Day>)
    ensures exists j: nat :: IsRun(s, j, LongestRun(s, |s|))
    ensures forall j: nat, k: nat :: IsRun(s, j, k) ==> k <= LongestRun(s, |s|)
    ensures s != [] ==> 1 <= LongestRun(s, |s|) <= |s|
  {
    LongestRunBounds(s, |s|);
    LongestRunAttained(s, |s|);
    forall j: nat, k: nat | IsRun(s, j, k)
      ensures k <= LongestRun(s, |s|)
    {
      if k >= 1 {
        RunEndingAtIsMaximal(s, j, k);
      }
    }
  }

  // ---------------------------------------------------------------------
  // Order independence and the bound current <= longest
  // ---------------------------------------------------------------------

  /** The count back from a day is determined by which days are completed. */
  lemma CountBackDependsOnMembership(ds1: seq<Day>, ds2: seq<Day>, d: Day)
    requires forall x :: x in ds1 <==> x in ds2
    ensures CountBack(ds1, d) == CountBack(ds2, d)
  {
  }

  /** Both streaks depend only on the multiset of completed days, not on their order. */
  lemma StreaksDependOnlyOnCompletedDays(ds1: seq<Day>, ds2: seq<Day>, today: Day)
    requires multiset(ds1) == multiset(ds2)
    ensures CurrentStreak(ds1, today) == CurrentStreak(ds2, today)
    ensures LongestStreak(ds1) == LongestStreak(ds2)
  {
    forall x
      ensures x in ds1 <==> x in ds2
    {
      assert x in ds1 <==> x in multiset(ds1);
      assert x in ds2 <==> x in multiset(ds2);
    }
    CountBackDependsOnMembership(ds1, ds2, today);
    CountBackDependsOnMembership(ds1, ds2, today - 1);
    SortedUnique(Sort(ds1), Sort(ds2));
    assert |ds1| == |multiset(ds1)| == |multiset(ds2)| == |ds2|;
  }

  /** Reordering a habit's entries does not change its streaks. */
  lemma StreaksOfReorderedEntries(e1: seq<HabitEntry>, e2: seq<HabitEntry>, today: Day)
    requires multiset(e1) == multiset(e2)
    ensures CurrentStreak(CompletedDates(e1), today) == CurrentStreak(CompletedDates(e2), today)
    ensures LongestStreak(CompletedDates(e1)) == LongestStreak(CompletedDates(e2))
  {
    CompletedDatesOfPermutation(e1, e2);
    StreaksDependOnlyOnCompletedDays(CompletedDates(e1), CompletedDates(e2), today);
  }

  predicate StrictlyIncreasing(s: seq<Day>)
  {
    forall i, j :: 0 <= i < j < |s| ==> s[i] < s[j]
  }

  lemma {:induction false} DistinctCountsAtMostOne(s: seq<Day>, x: Day)
    requires Distinct(s)
    ensures multiset(s)[x] <= 1
  {
    if s != [] {
      assert s == [s[0]] + s[1..];
      DistinctCountsAtMostOne(s[1..], x);
      if x == s[0] {
        assert x !in s[1..];
      }
    }
  }

  lemma RepeatedValueCountsTwice(s: seq<Day>, i: nat, j: nat)
    requires i < j < |s| && s[i] == s[j]
    ensures multiset(s)[s[i]] >= 2
  {
    assert s == s[..j] + s[j..];
    assert s[i] in s[..j] && s[j] in s[j..];
  }

  lemma SortOfDistinctIncreases(ds: seq<Day>)
    requires Distinct(ds)
    ensures StrictlyIncreasing(Sort(ds))
  {
    var s := Sort(ds);
    forall i, j | 0 <= i < j < |s|
      ensures s[i] < s[j]
    {
      if s[i] == s[j] {
        RepeatedValueCountsTwice(s, i, j);
        DistinctCountsAtMostOne(ds, s[i]);
      }
    }
  }

  lemma IncreasingIndexOrder(s: seq<Day>, a: nat, b: nat)
    requires StrictlyIncreasing(s) && a < |s| && b < |s| && s[a] < s[b]
    ensures a < b
  {
  }

  /** In a strictly increasing list the day after `s[a]`, when present, sits right after it. */
  lemma NextDaySitsNext(s: seq<Day>, a: nat, p: nat)
    requires StrictlyIncreasing(s) && a < |s| && p < |s| && s[p] == s[a] + 1
    ensures p == a + 1
  {
    IncreasingIndexOrder(s, a, p);
    assert s[a] < s[a + 1] <= s[p];
  }

  /** A run followed by the next day somewhere in a strictly increasing list extends by that day. */
  lemma ExtendRun(s: seq<Day>, j: nat, k: nat, p: nat)
    requires StrictlyIncreasing(s) && k >= 1 && IsRun(s, j, k)
    requires p < |s| && s[p] == s[j] + k
    ensures IsRun(s, j, k + 1)
  {
    assert s[j + k - 1] == s[j] + k - 1;
    NextDaySitsNext(s, j + k - 1, p);
  }

  /** `c` consecutive days all present in a strictly increasing list sit next to each other in it. */
  lemma {:induction false} ConsecutiveDaysFormRun(s: seq<Day>, lo: Day, c: nat)
    requires StrictlyIncreasing(s) && c >= 1
    requires forall x :: lo <= x < lo + c ==> x in s
    ensures exists j: nat :: j < |s| && s[j] == lo && IsRun(s, j, c)
  {
    if c == 1 {
      assert lo in s;
      var j :| 0 <= j < |s| && s[j] == lo;
      assert IsRun(s, j, 1);
    } else {
      ConsecutiveDaysFormRun(s, lo, c - 1);
      var j: nat :| j < |s| && s[j] == lo && IsRun(s, j, c - 1);
      assert lo + c - 1 in s;
      var p :| 0 <= p < |s| && s[p] == lo + c - 1;
      ExtendRun(s, j, c - 1, p);
    }
  }

  /**
   * When no day is completed twice, the current streak never exceeds the
   * longest one, and the longest never exceeds the number of completed days.
   */
  lemma CurrentDaysAreSorted(ds: seq<Day>, today: Day)
    requires CurrentStreak(ds, today) > 0
    ensures var a := Anchor(ds, today).value;
      forall x :: a - CurrentStreak(ds, today) + 1 <= x < a + 1 ==> x in Sort(ds)
  {
    var a := Anchor(ds, today).value;
    var c := CurrentStreak(ds, today);
    forall x | a - c + 1 <= x < a + 1
      ensures x in Sort(ds)
    {
      assert x in ds;
      assert x in multiset(ds);
    }
  }

  lemma CurrentAtMostLongest(ds: seq<Day>, today: Day)
    requires Distinct(ds)
    ensures CurrentStreak(ds, today) <= LongestStreak(ds) <= |ds|
  {
    var c := CurrentStreak(ds, today);
    var s := Sort(ds);
    LongestRunIsLongest(s);
    if c > 0 {
      var a := Anchor(ds, today).value;
      CurrentDaysAreSorted(ds, today);
      SortOfDistinctIncreases(ds);
      ConsecutiveDaysFormRun(s, a - c + 1, c);
    }
  }

  /** With one entry per day, for a habit: current <= longest <= completed entries. */
  lemma StreakBoundsForHabit(entries: seq<HabitEntry>, today: Day)
    requires UniqueDates(entries)
    ensures CurrentStreak(CompletedDates(entries), today)
      <= LongestStreak(CompletedDates(entries))
      <= |CompletedDates(entries)|
  {
    CompletedDatesDistinct(entries);
    CurrentAtMostLongest(CompletedDates(entries), today);
  }

  // ---------------------------------------------------------------------
  // Worked examples (day numbers stand for consecutive calendar days)
  // ---------------------------------------------------------------------

  /** The count back from `d` is the `n` that its characterisation singles out. */
  lemma CountBackIs(ds: seq<Day>, d: Day, n: nat)
    requires forall x :: d - n < x <= d ==> x in ds
    requires d - n !in ds
    ensures CountBack(ds, d) == n
  {
  }

  /** For a list of completed entries, the completed dates are its dates. */
  lemma {:induction false} CompletedDatesOfList(es: seq<HabitEntry>)
    requires forall i :: 0 <= i < |es| ==> es[i].completed
    ensures CompletedDates(es) == seq(|es|, i requires 0 <= i < |es| => es[i].date)
  {
    if es != [] {
      CompletedDatesOfList(es[..|es| - 1]);
    }
  }

  /** The window of the last `n` days as completed days: current streak `n`. */
  lemma WindowCurrent(n: nat, today: Day)
    ensures CurrentStreak(DayWindow(n, today), today) == n
  {
    var ds := DayWindow(n, today);
    DayWindowShape(n, today);
    CountBackIs(ds, today, n);
    if n == 0 {
      assert today !in ds && today - 1 !in ds;
    }
  }

  /** The window of the last `n` days as completed days: longest streak `n`. */
  lemma WindowLongest(n: nat, today: Day)
    ensures LongestStreak(DayWindow(n, today)) == n
  {
    var ds := DayWindow(n, today);
    assert LongestRun(ds, n) == n by {
      assert IsRun(ds, 0, n);
      LongestRunBounds(ds, n);
      if n > 0 {
        RunEndingAtIsMaximal(ds, 0, n);
      }
    }
    assert Sorted(ds);
    SortOfSorted(ds);
  }

  /**
   * `n` consecutive completed days ending today, one entry each, give a
   * current and a longest streak of `n`.
   */
  lemma ConsecutiveDaysEndingToday(entries: seq<HabitEntry>, today: Day, n: nat)
    requires |entries| == n
    requires forall i :: 0 <= i < n ==> entries[i] == HabitEntry(today - (n - 1 - i), true)
    ensures CurrentStreak(CompletedDates(entries), today) == n
    ensures LongestStreak(CompletedDates(entries)) == n
  {
    CompletedDatesOfList(entries);
    var ds := CompletedDates(entries);
    assert |ds| == n;
    forall i | 0 <= i < n
      ensures ds[i] == DayWindow(n, today)[i]
    {
      assert ds[i] == entries[i].date;
    }
    assert ds == DayWindow(n, today);
    WindowCurrent(n, today);
    WindowLongest(n, today);
  }

  /** Five completed days ending today: current and longest streak 5. */
  lemma FiveDaysEndingToday(entries: seq<HabitEntry>, today: Day)
    requires entries == [HabitEntry(today - 4, true), HabitEntry(today - 3, true),
                         HabitEntry(today - 2, true), HabitEntry(today - 1, true), HabitEntry(today, true)]
    ensures CurrentStreak(CompletedDates(entries), today) == 5
    ensures LongestStreak(CompletedDates(entries)) == 5
  {
    ConsecutiveDaysEndingToday(entries, today, 5);
  }

  lemma LongestOfThree(ds: seq<Day>, today: Day)
    requires ds == [today - 5, today - 4, today - 1]
    ensures LongestStreak(ds) == 2
  {
    assert LongestRun(ds, 3) == 2 by {
      assert RunEndingAt(ds, 0) == 1;
      assert RunEndingAt(ds, 1) == 2;
      assert RunEndingAt(ds, 2) == 1;
      assert LongestRun(ds, 1) == 1;
      assert LongestRun(ds, 2) == 2;
    }
    SortOfSorted(ds);
  }

  /**
   * Completed five days ago, four days ago and yesterday: yesterday anchors
   * the current streak, which is 1; the longest is 2.
   */
  lemma AnchoredAtYesterday(entries: seq<HabitEntry>, today: Day)
    requires entries == [HabitEntry(today - 5, true), HabitEntry(today - 4, true), HabitEntry(today - 1, true)]
    ensures CurrentStreak(CompletedDates(entries), today) == 1
    ensures LongestStreak(CompletedDates(entries)) == 2
  {
    var ds := [today - 5, today - 4, today - 1];
    CompletedDatesOfList(entries);
    assert CompletedDates(entries) == ds;
    assert today !in ds;
    CountBackIs(ds, today - 1, 1);
    LongestOfThree(ds, today);
  }

  lemma LongestWithRepeat(ds: seq<Day>, today: Day)
    requires ds == [today - 2, today - 1, today - 1, today]
    ensures LongestStreak(ds) == 2
  {
    assert LongestRun(ds, 4) == 2 by {
      assert RunEndingAt(ds, 0) == 1;
      assert RunEndingAt(ds, 1) == 2;
      assert RunEndingAt(ds, 2) == 1;
      assert RunEndingAt(ds, 3) == 2;
      assert LongestRun(ds, 1) == 1;
      assert LongestRun(ds, 2) == 2;
      assert LongestRun(ds, 3) == 2;
    }
    SortOfSorted(ds);
  }

  /**
   * Two completed entries for one day end a run in the ascending scan
   * (their difference is 0), so the current streak can exceed the longest.
   */
  lemma DuplicateDayBreaksLongest(entries: seq<HabitEntry>, today: Day)
    requires entries == [HabitEntry(today - 2, true), HabitEntry(today - 1, true),
                         HabitEntry(today - 1, true), HabitEntry(today, true)]
    ensures CurrentStreak(CompletedDates(entries), today) == 3
    ensures LongestStreak(CompletedDates(entries)) == 2
  {
    var ds := [today - 2, today - 1, today - 1, today];
    CompletedDatesOfList(entries);
    assert CompletedDates(entries) == ds;
    CountBackIs(ds, today, 3);
    LongestWithRepeat(ds, today);
  }

  // ---------------------------------------------------------------------
  // The operation
  // ---------------------------------------------------------------------

  function Max(a: nat, b: nat): nat
  {
    if a < b then b else a
  }

  /**
   * The backwards count of `calculateStreak`: from `start`, step back one
   * day at a time while the day is completed.
   */
  method CountCurrent(ds: seq<Day>, start: Day) returns (current: nat)
    ensures current == CountBack(ds, start)
  {
    current := 0;
    var d := start;
    while d in ds
      invariant current + CountBack(ds, d) == CountBack(ds, start)
      decreases |DaysUpTo(ds, d)|
    {
      DaysUpToShrinks(ds, d);
      current := current + 1;
      d := d - 1;
    }
  }

  /**
   * The ascending scan of `calculateStreak`: a run counter that grows while
   * consecutive days differ by exactly one, and the largest value it takes.
   */
  method ScanLongest(sortedAsc: seq<Day>) returns (longest: nat)
    ensures longest == LongestRun(sortedAsc, |sortedAsc|)
  {
    longest := 0;
    var tempStreak := 0;
    var lastDate: Option<Day> := None;
    for i := 0 to |sortedAsc|
      invariant lastDate == if i == 0 then None else Some(sortedAsc[i - 1])
      invariant tempStreak == if i == 0 then 0 else RunEndingAt(sortedAsc, i - 1)
      invariant longest == LongestRun(sortedAsc, i)
    {
      var currentDate := sortedAsc[i];
      if lastDate.None? {
        tempStreak := 1;
      } else {
        var diff := currentDate - lastDate.value;
        if diff == 1 {
          tempStreak := tempStreak + 1;
        } else {
          tempStreak := 1;
        }
      }
      longest := Max(longest, tempStreak);
      lastDate := Some(currentDate);
    }
  }

  /**
   * `calculateStreak(entries)` with the current date passed in as `today`.
   * The descending sort of the source feeds only membership tests, which do
   * not depend on order, so the completed dates are used as they come.
   */
  method CalculateStreak(entries: seq<HabitEntry>, today: Day) returns (current: nat, longest: nat)
    ensures current == CurrentStreak(CompletedDates(entries), today)
    ensures longest == LongestStreak(CompletedDates(entries))
    ensures CompletedDates(entries) == [] ==> current == 0 && longest == 0
  {
    if |entries| == 0 {
      return 0, 0;
    }
    var sortedDates := CompletedDates(entries);
    if |sortedDates| == 0 {
      return 0, 0;
    }
    current := 0;
    var yesterday := today - 1;
    var checkDate := if today in sortedDates then Some(today)
                     else if yesterday in sortedDates then Some(yesterday)
                     else None;
    if checkDate.Some? {
      current := CountCurrent(sortedDates, checkDate.value);
    }
    longest := ScanLongest(Sort(sortedDates));
  }
}
