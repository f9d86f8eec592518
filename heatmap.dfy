/**
 * The consistency map of components/Heatmap.tsx: a window of 91 days, the
 * number of habits completed on each day, and the four colour buckets.
 */
module Heatmap {
  import opened HabitTypes
  import App

  /** `daysToShow` */
  const DaysToShow: nat := 91

  /** The background shades of a square, lightest first. */
  datatype Shade = Slate100 | Blue200 | Blue400 | Blue600

  /** `dates`: the last 91 days, consecutive and oldest first, ending today. */
  function Dates(today: Day): (days: seq<Day>)
    ensures |days| == DaysToShow
    ensures days[DaysToShow - 1] == today
    ensures forall i :: 0 < i < DaysToShow ==> days[i] == days[i - 1] + 1
  {
    DayWindowShape(DaysToShow, today);
    DayWindow(DaysToShow, today)
  }

  /** The window holds exactly the days from 90 days ago to today. */
  lemma DatesWindow(today: Day)
    ensures forall d :: d in Dates(today) <==> today - 90 <= d <= today
  {
    DayWindowShape(DaysToShow, today);
  }

  /** `getCompletionCount(date)`: how many habits have a completed entry on `date`. */
  function GetCompletionCount(habits: seq<Habit>, date: Day): (n: nat)
    ensures n <= |habits|
  {
    CompletedCount(habits, date)
  }

  /** `getColor(count)`: a square is left blank exactly when nothing was completed that day. */
  function GetColor(count: int): (shade: Shade)
    ensures count >= 0 ==> (shade == Slate100 <==> count == 0)
    ensures count >= 3 ==> shade == Blue600
  {
    if count == 0 then Slate100
    else if count == 1 then Blue200
    else if count == 2 then Blue400
    else if count >= 3 then Blue600
    else Slate100
  }

  /** The count for a day is zero exactly when no habit was completed on it. */
  lemma {:induction false} CountZeroIffNone(habits: seq<Habit>, date: Day)
    ensures GetCompletionCount(habits, date) == 0 <==>
      forall i :: 0 <= i < |habits| ==> !CompletedOn(habits[i].entries, date)
  {
    if habits != [] {
      var init := habits[..|habits| - 1];
      CountZeroIffNone(init, date);
      assert forall i :: 0 <= i < |init| ==> init[i] == habits[i];
    }
  }

  /** A square of the grid is blank exactly when no habit was completed on its day. */
  lemma BlankIffNothingCompleted(habits: seq<Habit>, date: Day)
    ensures GetColor(GetCompletionCount(habits, date)) == Slate100 <==>
      forall i :: 0 <= i < |habits| ==> !CompletedOn(habits[i].entries, date)
  {
    CountZeroIffNone(habits, date);
  }

  /** Position of a shade on the "Less ... More" legend. */
  function Intensity(s: Shade): nat
  {
    match s
    case Slate100 => 0
    case Blue200 => 1
    case Blue400 => 2
    case Blue600 => 3
  }

  /**
   * A count that is not negative lands in bucket min(count, 3): 0, 1, 2 and
   * "3 or more" get four different shades, darker for more, and the final
   * fallback of the chain is reached only by negative counts.
   */
  lemma ColorBuckets(count: int)
    ensures count >= 0 ==> Intensity(GetColor(count)) == if count < 3 then count else 3
    ensures count < 0 ==> GetColor(count) == Slate100
  {
  }

  /** A darker square never means fewer completions. */
  lemma ColorMonotone(a: nat, b: nat)
    requires a <= b
    ensures Intensity(GetColor(a)) <= Intensity(GetColor(b))
  {
    ColorBuckets(a);
    ColorBuckets(b);
  }

  lemma {:induction false} CountAppend(a: seq<Habit>, b: seq<Habit>, date: Day)
    ensures CompletedCount(a + b, date) == CompletedCount(a, date) + CompletedCount(b, date)
  {
    if b == [] {
      assert a + b == a;
    } else {
      var binit := b[..|b| - 1];
      assert (a + b)[..|a + b| - 1] == a + binit;
      CountAppend(a, binit, date);
    }
  }

  /** The count for a day depends only on whether each habit is completed that day. */
  lemma {:induction false} CountDependsOnDayOnly(hs1: seq<Habit>, hs2: seq<Habit>, date: Day)
    requires |hs1| == |hs2|
    requires forall i :: 0 <= i < |hs1| ==> CompletedOn(hs1[i].entries, date) == CompletedOn(hs2[i].entries, date)
    ensures GetCompletionCount(hs1, date) == GetCompletionCount(hs2, date)
  {
    if hs1 != [] {
      CountDependsOnDayOnly(hs1[..|hs1| - 1], hs2[..|hs2| - 1], date);
    }
  }

  /** Toggling a habit on another day does not change the count shown for `date`. */
  lemma CountIgnoresOtherDays(habits: seq<Habit>, habitId: string, toggled: Day, date: Day)
    requires toggled != date
    ensures GetCompletionCount(App.ToggledHabits(habits, habitId, toggled), date) == GetCompletionCount(habits, date)
  {
    var after := App.ToggledHabits(habits, habitId, toggled);
    forall i | 0 <= i < |habits|
      ensures CompletedOn(habits[i].entries, date) == CompletedOn(after[i].entries, date)
    {
      App.ToggleKeepsOtherDays(habits[i].entries, toggled, date);
    }
    CountDependsOnDayOnly(habits, after, date);
  }

  function Indicator(h: Habit, date: Day): nat
  {
    if CompletedOn(h.entries, date) then 1 else 0
  }

  lemma CountRemoveAt(hs: seq<Habit>, k: nat, date: Day)
    requires k < |hs|
    ensures CompletedCount(hs, date) == CompletedCount(hs[..k] + hs[k + 1..], date) + Indicator(hs[k], date)
  {
    assert hs == hs[..k] + ([hs[k]] + hs[k + 1..]);
    CountAppend(hs[..k], [hs[k]] + hs[k + 1..], date);
    CountAppend([hs[k]], hs[k + 1..], date);
    CountAppend(hs[..k], hs[k + 1..], date);
    assert [hs[k]][..0] == [];
  }

  lemma MultisetRemoveAt(hs: seq<Habit>, k: nat)
    requires k < |hs|
    ensures multiset(hs[..k] + hs[k + 1..]) == multiset(hs) - multiset{hs[k]}
  {
    assert hs == hs[..k] + [hs[k]] + hs[k + 1..];
  }

  /** Removing from `hs2` a habit equal to the last one of `hs1` leaves two lists with equal multisets. */
  lemma RemoveMatchingLast(hs1: seq<Habit>, hs2: seq<Habit>) returns (k: nat)
    requires hs1 != [] && multiset(hs1) == multiset(hs2)
    ensures k < |hs2| && hs2[k] == hs1[|hs1| - 1]
    ensures multiset(hs1[..|hs1| - 1]) == multiset(hs2[..k] + hs2[k + 1..])
  {
    var last := |hs1| - 1;
    assert hs1[last] in multiset(hs2);
    k :| 0 <= k < |hs2| && hs2[k] == hs1[last];
    MultisetRemoveAt(hs1, last);
    MultisetRemoveAt(hs2, k);
    assert hs1[..last] + hs1[last + 1..] == hs1[..last];
  }

  /** The count does not depend on the order of the habits. */
  lemma {:induction false} CountIgnoresOrder(hs1: seq<Habit>, hs2: seq<Habit>, date: Day)
    requires multiset(hs1) == multiset(hs2)
    ensures GetCompletionCount(hs1, date) == GetCompletionCount(hs2, date)
    decreases |hs1|
  {
    if hs1 != [] {
      var k := RemoveMatchingLast(hs1, hs2);
      CountIgnoresOrder(hs1[..|hs1| - 1], hs2[..k] + hs2[k + 1..], date);
      CountRemoveAt(hs2, k, date);
    }
  }
}
