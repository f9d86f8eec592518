/**
 * The entities of the habit tracker (types.ts) and the two queries on an
 * entry list that several parts of the application share.
 *
 * A calendar day is an integer day number: day `d - 1` is the day before
 * day `d`. An ISO `YYYY-MM-DD` string in the application corresponds to one
 * such number.
 */
module HabitTypes {
  import opened Wrappers

  type Day = int

  datatype Category = Health | Productivity | Learning | Mindfulness | Social | Other

  datatype HabitEntry = HabitEntry(date: Day, completed: bool)

  datatype Habit = Habit(
    id: string,
    name: string,
    category: Category,
    description: Option<string>,
    entries: seq<HabitEntry>,
    createdAt: string,
    targetPerWeek: int)

  datatype AIInsight = AIInsight(
    summary: string,
    suggestions: seq<string>,
    motivationalQuote: string,
    predictedSuccess: real)

  /** At most one entry per calendar day: the invariant toggling keeps. */
  predicate UniqueDates(entries: seq<HabitEntry>)
  {
    forall i, j :: 0 <= i < j < |entries| ==> entries[i].date != entries[j].date
  }

  /** `entries.some(e => e.date === day && e.completed)` */
  predicate CompletedOn(entries: seq<HabitEntry>, day: Day)
  {
    exists i :: 0 <= i < |entries| && entries[i].date == day && entries[i].completed
  }

  /** `entries.filter(e => e.completed).map(e => e.date)`: the completed days, in entry order. */
  function CompletedDates(entries: seq<HabitEntry>): (ds: seq<Day>)
    ensures |ds| <= |entries|
    ensures forall k :: 0 <= k < |ds| ==> CompletedOn(entries, ds[k])
  {
    if entries == [] then
      []
    else
      var last := entries[|entries| - 1];
      CompletedDates(entries[..|entries| - 1]) + (if last.completed then [last.date] else [])
  }

  /** A day is among the completed dates exactly when some entry for it is completed. */
  lemma {:induction false} CompletedDatesMembership(entries: seq<HabitEntry>, day: Day)
    ensures day in CompletedDates(entries) <==> CompletedOn(entries, day)
  {
    if entries != [] {
      var init := entries[..|entries| - 1];
      CompletedDatesMembership(init, day);
      if CompletedOn(init, day) {
        var i :| 0 <= i < |init| && init[i].date == day && init[i].completed;
        assert entries[i] == init[i];
      }
    }
  }

  /** Distinct entry dates give distinct completed dates. */
  lemma {:induction false} CompletedDatesDistinct(entries: seq<HabitEntry>)
    requires UniqueDates(entries)
    ensures forall i, j :: 0 <= i < j < |CompletedDates(entries)| ==>
      CompletedDates(entries)[i] != CompletedDates(entries)[j]
  {
    if entries != [] {
      var init := entries[..|entries| - 1];
      var last := entries[|entries| - 1];
      CompletedDatesDistinct(init);
      if last.completed {
        var ds := CompletedDates(entries);
        assert ds == CompletedDates(init) + [last.date];
        forall i | 0 <= i < |CompletedDates(init)|
          ensures CompletedDates(init)[i] != last.date
        {
          CompletedDatesMembership(init, last.date);
        }
      }
    }
  }

  /** Each completed day occurs among the completed dates as often as a completed entry for it occurs in the list. */
  lemma {:induction false} CompletedDatesCount(entries: seq<HabitEntry>, day: Day)
    ensures multiset(CompletedDates(entries))[day] == multiset(entries)[HabitEntry(day, true)]
  {
    if entries != [] {
      var init := entries[..|entries| - 1];
      assert entries == init + [entries[|entries| - 1]];
      CompletedDatesCount(init, day);
    }
  }

  /** Reordering the entries reorders the completed dates and nothing more. */
  lemma CompletedDatesOfPermutation(e1: seq<HabitEntry>, e2: seq<HabitEntry>)
    requires multiset(e1) == multiset(e2)
    ensures multiset(CompletedDates(e1)) == multiset(CompletedDates(e2))
  {
    forall day
      ensures multiset(CompletedDates(e1))[day] == multiset(CompletedDates(e2))[day]
    {
      CompletedDatesCount(e1, day);
      CompletedDatesCount(e2, day);
    }
  }

  /** `entries.findIndex(e => e.date === date)`: the position of the first entry for `date`, or -1. */
  function FindEntry(entries: seq<HabitEntry>, date: Day): (i: int)
    ensures -1 <= i < |entries|
    ensures 0 <= i ==> entries[i].date == date
    ensures 0 <= i ==> forall j :: 0 <= j < i ==> entries[j].date != date
    ensures i == -1 <==> forall j :: 0 <= j < |entries| ==> entries[j].date != date
  {
    if entries == [] then -1
    else if entries[0].date == date then 0
    else
      var i := FindEntry(entries[1..], date);
      if i == -1 then -1 else i + 1
  }

  /** The flag of the first entry for `date`, false when there is none. */
  function FlagOf(entries: seq<HabitEntry>, date: Day): (flag: bool)
    ensures flag ==> CompletedOn(entries, date)
  {
    var i := FindEntry(entries, date);
    i > -1 && entries[i].completed
  }

  /** With one entry per day, the flag of the day's entry says whether the day is completed. */
  lemma FlagOfUniqueDates(entries: seq<HabitEntry>, date: Day)
    requires UniqueDates(entries)
    ensures FlagOf(entries, date) == CompletedOn(entries, date)
  {
    var i := FindEntry(entries, date);
    if CompletedOn(entries, date) {
      var k :| 0 <= k < |entries| && entries[k].date == date && entries[k].completed;
      assert k == i;
    }
  }

  /** The `n` consecutive days ending at `today`, oldest first. */
  function DayWindow(n: nat, today: Day): (days: seq<Day>)
    ensures |days| == n
  {
    seq(n, i requires 0 <= i < n => today - (n - 1 - i))
  }

  /** The window ascends one day at a time and ends today. */
  lemma DayWindowShape(n: nat, today: Day)
    ensures n > 0 ==> DayWindow(n, today)[n - 1] == today
    ensures forall i :: 0 < i < n ==> DayWindow(n, today)[i] == DayWindow(n, today)[i - 1] + 1
    ensures forall d :: d in DayWindow(n, today) <==> today - n < d <= today
  {
    var w := DayWindow(n, today);
    forall d | today - n < d <= today
      ensures d in w
    {
      assert w[d - today + n - 1] == d;
    }
  }

  /** The number of habits with a completed entry on `day`. */
  function CompletedCount(habits: seq<Habit>, day: Day): (n: nat)
    ensures n <= |habits|
  {
    if habits == [] then 0
    else
      CompletedCount(habits[..|habits| - 1], day)
        + (if CompletedOn(habits[|habits| - 1].entries, day) then 1 else 0)
  }

  /** Every habit is completed on the day exactly when the count is the number of habits. */
  lemma {:induction false} CompletedCountFull(habits: seq<Habit>, day: Day)
    ensures CompletedCount(habits, day) == |habits| <==>
      forall i :: 0 <= i < |habits| ==> CompletedOn(habits[i].entries, day)
  {
    if habits != [] {
      var init := habits[..|habits| - 1];
      CompletedCountFull(init, day);
      assert forall i :: 0 <= i < |init| ==> init[i] == habits[i];
    }
  }
}
