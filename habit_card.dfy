/**
 * The derived values of components/HabitCard.tsx: whether the habit is
 * completed today and the strip of the last seven days. The weekday label
 * of each day is presentation and is not modelled.
 */
module HabitCard {
  import opened HabitTypes
  import App

  /** One square of the seven-day strip. */
  datatype DayCell = DayCell(date: Day, completed: bool)

  /** `habit.entries.some(e => e.date === today && e.completed)` */
  predicate IsCompletedToday(habit: Habit, today: Day)
    ensures IsCompletedToday(habit, today) <==> today in CompletedDates(habit.entries)
  {
    CompletedDatesMembership(habit.entries, today);
    CompletedOn(habit.entries, today)
  }

  /**
   * `last7Days`: the last seven days, each with the flag of its first entry
   * (false if none). The days are consecutive, ascending and end today.
   */
  function Last7Days(habit: Habit, today: Day): (cells: seq<DayCell>)
    ensures |cells| == 7
    ensures cells[6].date == today
    ensures forall i :: 0 < i < 7 ==> cells[i].date == cells[i - 1].date + 1
  {
    DayWindowShape(7, today);
    var days := DayWindow(7, today);
    seq(7, i requires 0 <= i < 7 => DayCell(days[i], FlagOf(habit.entries, days[i])))
  }

  /** A day of the strip is marked exactly when its first entry is completed. */
  lemma Last7DaysWindow(habit: Habit, today: Day)
    ensures var cells := Last7Days(habit, today);
      (forall i :: 0 <= i < 7 ==> (cells[i].completed <==>
        exists k :: 0 <= k < |habit.entries| && habit.entries[k].date == cells[i].date &&
          habit.entries[k].completed && forall j :: 0 <= j < k ==> habit.entries[j].date != cells[i].date))
  {
    DayWindowShape(7, today);
    var cells := Last7Days(habit, today);
    forall i | 0 <= i < 7
      ensures cells[i].completed <==>
        exists k :: 0 <= k < |habit.entries| && habit.entries[k].date == cells[i].date &&
          habit.entries[k].completed && forall j :: 0 <= j < k ==> habit.entries[j].date != cells[i].date
    {
      var k := FindEntry(habit.entries, cells[i].date);
      if exists k' :: 0 <= k' < |habit.entries| && habit.entries[k'].date == cells[i].date &&
          habit.entries[k'].completed && forall j :: 0 <= j < k' ==> habit.entries[j].date != cells[i].date
      {
        var k' :| 0 <= k' < |habit.entries| && habit.entries[k'].date == cells[i].date &&
          habit.entries[k'].completed && forall j :: 0 <= j < k' ==> habit.entries[j].date != cells[i].date;
        assert k == k';
      }
    }
  }

  /** A marked day is a completed day; with one entry per day the converse holds too. */
  lemma CellMarkedMeansCompleted(habit: Habit, today: Day, i: int)
    requires 0 <= i < 7
    ensures Last7Days(habit, today)[i].completed ==> CompletedOn(habit.entries, Last7Days(habit, today)[i].date)
    ensures UniqueDates(habit.entries) ==>
      Last7Days(habit, today)[i].completed == CompletedOn(habit.entries, Last7Days(habit, today)[i].date)
  {
    var d := Last7Days(habit, today)[i].date;
    if UniqueDates(habit.entries) {
      FlagOfUniqueDates(habit.entries, d);
    }
  }

  /** With one entry per day, today's square agrees with the "Done!" button. */
  lemma TodayCellMatchesButton(habit: Habit, today: Day)
    requires UniqueDates(habit.entries)
    ensures Last7Days(habit, today)[6].date == today
    ensures Last7Days(habit, today)[6].completed == IsCompletedToday(habit, today)
  {
    DayWindowShape(7, today);
    FlagOfUniqueDates(habit.entries, today);
  }

  /**
   * With two entries for today, the first not completed, the square stays
   * blank while the button says "Done!".
   */
  lemma DuplicateTodayDisagrees(habit: Habit, today: Day)
    requires habit.entries == [HabitEntry(today, false), HabitEntry(today, true)]
    ensures IsCompletedToday(habit, today)
    ensures !Last7Days(habit, today)[6].completed
  {
    DayWindowShape(7, today);
    assert habit.entries[1].date == today && habit.entries[1].completed;
  }

  /**
   * The main button toggles today (HabitCard.tsx:91), and the "+10 XP" hint
   * it shows while today is not completed is exactly the bonus the store
   * pays for that toggle, as long as there is one entry per day.
   */
  lemma BonusHintMatchesReward(habit: Habit, today: Day)
    requires UniqueDates(habit.entries)
    ensures !IsCompletedToday(habit, today) <==> App.Rewarded(habit.entries, today, today)
  {
    FlagOfUniqueDates(habit.entries, today);
  }
}
