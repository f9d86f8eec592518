/**
 * The habit store of App.tsx: the state (habits, experience points) and the
 * event handlers that change it (`toggleHabit`, `addHabit`, `deleteHabit`),
 * together with the counters the header derives from the habits.
 */
module App {
  import opened Wrappers
  import opened HabitTypes

  // ---------------------------------------------------------------------
  // Toggling one habit's entries (App.tsx:72-82)
  // ---------------------------------------------------------------------

  /**
   * The new entry list of a toggled habit: flip the first entry for `date`,
   * or append a completed one. No entry is removed and no entry's date
   * changes; afterwards `date` has an entry.
   */
  function ToggleEntries(entries: seq<HabitEntry>, date: Day): (r: seq<HabitEntry>)
    ensures |entries| <= |r| <= |entries| + 1
    ensures forall j :: 0 <= j < |entries| ==> r[j].date == entries[j].date
    ensures exists k :: 0 <= k < |r| && r[k].date == date
  {
    var i := FindEntry(entries, date);
    if i > -1 then entries[i := entries[i].(completed := !entries[i].completed)]
    else
      var r := entries + [HabitEntry(date, true)];
      assert r[|entries|].date == date;
      r
  }

  /**
   * Toggling a day that has an entry negates that entry's flag and leaves
   * every other entry, and the length, as they were; toggling a day without
   * an entry appends a completed entry for it at the end.
   */
  lemma ToggleEntriesShape(entries: seq<HabitEntry>, date: Day)
    ensures var r := ToggleEntries(entries, date);
      var i := FindEntry(entries, date);
      if i > -1 then
        |r| == |entries| && r[i] == HabitEntry(date, !entries[i].completed) &&
        forall j :: 0 <= j < |entries| && j != i ==> r[j] == entries[j]
      else
        (forall j :: 0 <= j < |entries| ==> entries[j].date != date) &&
        r == entries + [HabitEntry(date, true)]
  {
  }

  /** Find-or-append keeps at most one entry per day. */
  lemma TogglePreservesUniqueDates(entries: seq<HabitEntry>, date: Day)
    requires UniqueDates(entries)
    ensures UniqueDates(ToggleEntries(entries, date))
  {
    var r := ToggleEntries(entries, date);
    if FindEntry(entries, date) == -1 {
      forall i, j | 0 <= i < j < |r|
        ensures r[i].date != r[j].date
      {
        if j == |entries| {
          assert r[i] == entries[i];
        }
      }
    }
  }

  /** With one entry per day, an entry's flag says whether its day is completed. */
  lemma CompletedOnAt(entries: seq<HabitEntry>, i: int)
    requires UniqueDates(entries) && 0 <= i < |entries|
    ensures CompletedOn(entries, entries[i].date) == entries[i].completed
  {
    if CompletedOn(entries, entries[i].date) {
      var k :| 0 <= k < |entries| && entries[k].date == entries[i].date && entries[k].completed;
      assert k == i;
    }
  }

  /** The first entry for a day depends only on the dates of the entries. */
  lemma FindEntrySameDates(a: seq<HabitEntry>, b: seq<HabitEntry>, date: Day)
    requires |a| == |b| && forall j :: 0 <= j < |a| ==> a[j].date == b[j].date
    ensures FindEntry(a, date) == FindEntry(b, date)
  {
    var x, y := FindEntry(a, date), FindEntry(b, date);
    if x >= 0 {
      assert b[x].date == date;
    }
    if y >= 0 {
      assert a[y].date == date;
    }
  }

  /** With one entry per day, toggling negates whether the day counts as completed. */
  lemma ToggleFlipsCompletion(entries: seq<HabitEntry>, date: Day)
    requires UniqueDates(entries)
    ensures CompletedOn(ToggleEntries(entries, date), date) == !CompletedOn(entries, date)
  {
    var r := ToggleEntries(entries, date);
    var i := FindEntry(entries, date);
    TogglePreservesUniqueDates(entries, date);
    if i > -1 {
      CompletedOnAt(entries, i);
      CompletedOnAt(r, i);
    } else {
      assert r[|entries|] == HabitEntry(date, true);
    }
  }

  /** Toggling the same day twice restores whether that day counts as completed. */
  lemma ToggleTwiceRestores(entries: seq<HabitEntry>, date: Day)
    ensures CompletedOn(ToggleEntries(ToggleEntries(entries, date), date), date) == CompletedOn(entries, date)
  {
    var once := ToggleEntries(entries, date);
    var twice := ToggleEntries(once, date);
    var i := FindEntry(entries, date);
    if i > -1 {
      FindEntrySameDates(entries, once, date);
      assert twice == entries;
    } else {
      assert once[|entries|].date == date;
      assert FindEntry(once, date) == |entries|;
      assert twice == entries + [HabitEntry(date, false)];
    }
  }

  /** Toggling one day leaves the completion of every other day alone. */
  lemma ToggleKeepsOtherDays(entries: seq<HabitEntry>, date: Day, other: Day)
    requires other != date
    ensures CompletedOn(ToggleEntries(entries, date), other) == CompletedOn(entries, other)
  {
    var r := ToggleEntries(entries, date);
    if CompletedOn(entries, other) {
      var k :| 0 <= k < |entries| && entries[k].date == other && entries[k].completed;
      assert r[k] == entries[k];
    }
    if CompletedOn(r, other) {
      var k :| 0 <= k < |r| && r[k].date == other && r[k].completed;
      assert k < |entries| && entries[k] == r[k];
    }
  }

  /**
   * Toggling negates the flag of the first entry for `date`, whatever other
   * entries for that day follow it.
   */
  lemma ToggleNegatesFlag(entries: seq<HabitEntry>, date: Day)
    ensures FlagOf(ToggleEntries(entries, date), date) == !FlagOf(entries, date)
  {
    var r := ToggleEntries(entries, date);
    if FindEntry(entries, date) > -1 {
      FindEntrySameDates(entries, r[..|entries|], date);
      assert r == r[..|entries|];
    } else {
      assert r[|entries|] == HabitEntry(date, true);
    }
  }

  /**
   * Whether toggling `date` earns the 10-point bonus: today, and not
   * completed before. A rewarded toggle always leaves the day completed.
   */
  predicate Rewarded(entries: seq<HabitEntry>, date: Day, today: Day)
    ensures Rewarded(entries, date, today) ==> date == today && FlagOf(ToggleEntries(entries, date), date)
  {
    ToggleNegatesFlag(entries, date);
    !FlagOf(entries, date) && date == today
  }

  /**
   * With one entry per day the bonus is paid exactly when today goes from
   * not completed to completed.
   */
  lemma RewardedMeansCompletedToday(entries: seq<HabitEntry>, date: Day, today: Day)
    requires UniqueDates(entries)
    ensures Rewarded(entries, date, today) <==>
      date == today && !CompletedOn(entries, today) && CompletedOn(ToggleEntries(entries, date), today)
  {
    ToggleFlipsCompletion(entries, date);
    var i := FindEntry(entries, date);
    if CompletedOn(entries, date) {
      var k :| 0 <= k < |entries| && entries[k].date == date && entries[k].completed;
      assert k == i;
    }
  }

  // ---------------------------------------------------------------------
  // Toggling in the habit list (App.tsx:66-91)
  // ---------------------------------------------------------------------

  function ToggleHabitEntries(h: Habit, habitId: string, date: Day): Habit
  {
    if h.id != habitId then h else h.(entries := ToggleEntries(h.entries, date))
  }

  /** `prev.map(...)`: every habit with `habitId` is toggled, the others are kept as they are. */
  function ToggledHabits(habits: seq<Habit>, habitId: string, date: Day): (r: seq<Habit>)
    ensures |r| == |habits|
    ensures forall i :: 0 <= i < |habits| ==> r[i].id == habits[i].id
  {
    seq(|habits|, i requires 0 <= i < |habits| => ToggleHabitEntries(habits[i], habitId, date))
  }

  /**
   * Habits with another id come back unchanged and in place; a habit with
   * `habitId` keeps every field but its entries, which are toggled.
   */
  lemma ToggledHabitsShape(habits: seq<Habit>, habitId: string, date: Day)
    ensures |ToggledHabits(habits, habitId, date)| == |habits|
    ensures forall i :: 0 <= i < |habits| && habits[i].id != habitId ==>
      ToggledHabits(habits, habitId, date)[i] == habits[i]
    ensures forall i :: 0 <= i < |habits| && habits[i].id == habitId ==>
      ToggledHabits(habits, habitId, date)[i] == habits[i].(entries := ToggleEntries(habits[i].entries, date))
  {
  }

  /**
   * How many bonuses a toggle pays: one per habit with `habitId` whose toggle
   * of today was rewarded. No habit with the id, no bonus.
   */
  function Rewards(habits: seq<Habit>, habitId: string, date: Day, today: Day): (n: nat)
    ensures n <= |habits|
    ensures (forall i :: 0 <= i < |habits| ==> habits[i].id != habitId) ==> n == 0
  {
    if habits == [] then 0
    else
      var h := habits[|habits| - 1];
      Rewards(habits[..|habits| - 1], habitId, date, today)
        + (if h.id == habitId && Rewarded(h.entries, date, today) then 1 else 0)
  }

  /** Only a toggle of today can pay a bonus. */
  lemma {:induction false} RewardsOnlyForToday(habits: seq<Habit>, habitId: string, date: Day, today: Day)
    requires date != today
    ensures Rewards(habits, habitId, date, today) == 0
  {
    if habits != [] {
      RewardsOnlyForToday(habits[..|habits| - 1], habitId, date, today);
    }
  }

  /** Some habit with `habitId` is in the list and its toggle of `date` is rewarded. */
  predicate RewardedToggle(habits: seq<Habit>, habitId: string, date: Day, today: Day)
  {
    exists i :: 0 <= i < |habits| && habits[i].id == habitId && Rewarded(habits[i].entries, date, today)
  }

  lemma RewardedToggleAppend(init: seq<Habit>, h: Habit, habitId: string, date: Day, today: Day)
    ensures RewardedToggle(init + [h], habitId, date, today) <==>
      RewardedToggle(init, habitId, date, today) || (h.id == habitId && Rewarded(h.entries, date, today))
  {
    var hs := init + [h];
    assert forall i :: 0 <= i < |init| ==> hs[i] == init[i];
    assert hs[|init|] == h;
  }

  /**
   * With unique ids at most one habit is toggled, so at most one bonus is
   * paid, and one is paid exactly when the habit with `habitId` exists and
   * its toggle is rewarded.
   */
  lemma {:induction false} RewardsAtMostOne(habits: seq<Habit>, habitId: string, date: Day, today: Day)
    requires forall i, j :: 0 <= i < j < |habits| ==> habits[i].id != habits[j].id
    ensures Rewards(habits, habitId, date, today) <= 1
    ensures Rewards(habits, habitId, date, today) == 1 <==> RewardedToggle(habits, habitId, date, today)
  {
    if habits != [] {
      var n := |habits| - 1;
      var init := habits[..n];
      var last := habits[n];
      RewardsAtMostOne(init, habitId, date, today);
      assert habits == init + [last];
      RewardedToggleAppend(init, last, habitId, date, today);
      if RewardedToggle(init, habitId, date, today) {
        var i :| 0 <= i < |init| && init[i].id == habitId && Rewarded(init[i].entries, date, today);
        assert habits[i] == init[i];
        assert last.id != habitId;
      }
    }
  }

  /** Extending the handled prefix by one habit extends the toggled list and the bonus count by that habit's share. */
  lemma ToggledHabitsStep(habits: seq<Habit>, k: nat, habitId: string, date: Day, today: Day)
    requires k < |habits|
    ensures ToggledHabits(habits[..k + 1], habitId, date)
      == ToggledHabits(habits[..k], habitId, date) + [ToggleHabitEntries(habits[k], habitId, date)]
    ensures Rewards(habits[..k + 1], habitId, date, today)
      == Rewards(habits[..k], habitId, date, today)
         + (if habits[k].id == habitId && Rewarded(habits[k].entries, date, today) then 1 else 0)
  {
    assert habits[..k + 1][..k] == habits[..k];
  }

  /** No two habits share an id. */
  ghost predicate DistinctIds(habits: seq<Habit>)
  {
    forall i, j :: 0 <= i < j < |habits| ==> habits[i].id != habits[j].id
  }

  /** Toggling keeps every id in its place, so distinct ids stay distinct. */
  lemma ToggledHabitsKeepDistinctIds(habits: seq<Habit>, habitId: string, date: Day)
    requires DistinctIds(habits)
    ensures DistinctIds(ToggledHabits(habits, habitId, date))
  {
  }

  /** Every habit's entries keep at most one entry per day. */
  ghost predicate AllUniqueDates(habits: seq<Habit>)
  {
    forall i :: 0 <= i < |habits| ==> UniqueDates(habits[i].entries)
  }

  lemma ToggledHabitsPreserveUniqueDates(habits: seq<Habit>, habitId: string, date: Day)
    requires AllUniqueDates(habits)
    ensures AllUniqueDates(ToggledHabits(habits, habitId, date))
  {
    forall i | 0 <= i < |habits|
      ensures UniqueDates(ToggledHabits(habits, habitId, date)[i].entries)
    {
      TogglePreservesUniqueDates(habits[i].entries, date);
    }
  }

  // ---------------------------------------------------------------------
  // Names (App.tsx:42): `!name.trim()`
  // ---------------------------------------------------------------------

  /** The characters `String.prototype.trim` removes: ECMAScript white space and line terminators. */
  predicate IsWhitespace(c: char)
  {
    var n := c as int;
    n == 0x0009 || n == 0x000B || n == 0x000C || n == 0x0020 || n == 0x00A0 || n == 0xFEFF
    || n == 0x1680 || 0x2000 <= n <= 0x200A || n == 0x202F || n == 0x205F || n == 0x3000
    || n == 0x000A || n == 0x000D || n == 0x2028 || n == 0x2029
  }

  /** Drops the leading white space: what is left is a suffix that is empty or starts with a non-white-space character. */
  function TrimStart(s: string): (r: string)
    ensures |r| <= |s| && r == s[|s| - |r|..]
    ensures r != [] ==> !IsWhitespace(r[0])
  {
    if s != [] && IsWhitespace(s[0]) then TrimStart(s[1..]) else s
  }

  /** Drops the trailing white space: what is left is a prefix that is empty or ends with a non-white-space character. */
  function TrimEnd(s: string): (r: string)
    ensures |r| <= |s| && r == s[..|r|]
    ensures r != [] ==> !IsWhitespace(r[|r| - 1])
  {
    if s != [] && IsWhitespace(s[|s| - 1]) then TrimEnd(s[..|s| - 1]) else s
  }

  /** `String.prototype.trim`: the result neither starts nor ends with white space. */
  function Trim(s: string): (r: string)
    ensures |r| <= |s|
    ensures r != [] ==> !IsWhitespace(r[0]) && !IsWhitespace(r[|r| - 1])
  {
    TrimEnd(TrimStart(s))
  }

  /** A name is blank when it holds white space only. */
  predicate IsBlank(name: string)
  {
    forall i :: 0 <= i < |name| ==> IsWhitespace(name[i])
  }

  lemma BlankAfterWhitespace(s: string)
    requires s != [] && IsWhitespace(s[0])
    ensures IsBlank(s) <==> IsBlank(s[1..])
  {
    if IsBlank(s[1..]) {
      forall i | 0 <= i < |s|
        ensures IsWhitespace(s[i])
      {
        if i > 0 {
          assert s[i] == s[1..][i - 1];
        }
      }
    }
  }

  lemma {:induction false} TrimStartEmpty(s: string)
    ensures TrimStart(s) == [] <==> IsBlank(s)
  {
    if s != [] && IsWhitespace(s[0]) {
      TrimStartEmpty(s[1..]);
      BlankAfterWhitespace(s);
      assert TrimStart(s) == TrimStart(s[1..]);
    } else if s != [] {
      assert TrimStart(s) == s;
      assert !IsWhitespace(s[0]);
    }
  }

  lemma {:induction false} TrimEndKeepsNonBlank(s: string)
    requires s != [] && !IsWhitespace(s[0])
    ensures TrimEnd(s) != []
  {
    if IsWhitespace(s[|s| - 1]) {
      TrimEndKeepsNonBlank(s[..|s| - 1]);
    }
  }

  /** Trimming leaves nothing exactly when the name is blank. */
  lemma TrimEmptyIffBlank(name: string)
    ensures Trim(name) == [] <==> IsBlank(name)
  {
    TrimStartEmpty(name);
    var t := TrimStart(name);
    if t != [] {
      TrimEndKeepsNonBlank(t);
    }
  }

  // ---------------------------------------------------------------------
  // Deleting (App.tsx:60): `prev.filter(h => h.id !== id)`
  // ---------------------------------------------------------------------

  /** `prev.filter(h => h.id !== id)`: no habit with the id is left. */
  function WithoutId(habits: seq<Habit>, id: string): (r: seq<Habit>)
    ensures |r| <= |habits|
    ensures forall k :: 0 <= k < |r| ==> r[k].id != id
  {
    if habits == [] then []
    else
      var h := habits[|habits| - 1];
      WithoutId(habits[..|habits| - 1], id) + (if h.id != id then [h] else [])
  }

  /** The habits left are exactly the habits whose id differs. */
  lemma {:induction false} WithoutIdMembers(habits: seq<Habit>, id: string, h: Habit)
    ensures h in WithoutId(habits, id) <==> h in habits && h.id != id
  {
    if habits != [] {
      var init := habits[..|habits| - 1];
      WithoutIdMembers(init, id, h);
      assert habits == init + [habits[|habits| - 1]];
    }
  }

  /** Filtering keeps the order: it distributes over concatenation. */
  lemma {:induction false} WithoutIdAppend(a: seq<Habit>, b: seq<Habit>, id: string)
    ensures WithoutId(a + b, id) == WithoutId(a, id) + WithoutId(b, id)
  {
    if b == [] {
      assert a + b == a;
    } else {
      var binit := b[..|b| - 1];
      assert (a + b)[..|a + b| - 1] == a + binit;
      WithoutIdAppend(a, binit, id);
    }
  }

  /** Deleting keeps distinct ids distinct. */
  lemma {:induction false} WithoutIdKeepsDistinctIds(habits: seq<Habit>, id: string)
    requires DistinctIds(habits)
    ensures DistinctIds(WithoutId(habits, id))
  {
    if habits != [] {
      var init := habits[..|habits| - 1];
      var last := habits[|habits| - 1];
      WithoutIdKeepsDistinctIds(init, id);
      var kept := WithoutId(init, id);
      forall k | 0 <= k < |kept|
        ensures kept[k].id != last.id
      {
        WithoutIdMembers(init, id, kept[k]);
        var j :| 0 <= j < |init| && init[j] == kept[k];
        assert habits[j] == init[j];
      }
    }
  }

  /** A list without the id is left exactly as it was. */
  lemma {:induction false} WithoutAbsentId(habits: seq<Habit>, id: string)
    requires forall i :: 0 <= i < |habits| ==> habits[i].id != id
    ensures WithoutId(habits, id) == habits
  {
    if habits != [] {
      WithoutAbsentId(habits[..|habits| - 1], id);
    }
  }

  // ---------------------------------------------------------------------
  // Header counters (App.tsx:94-97, 122-123)
  // ---------------------------------------------------------------------

  /** `habits.filter(h => h.entries.some(e => e.date === today && e.completed)).length` */
  function DailyCompletions(habits: seq<Habit>, today: Day): (n: nat)
    ensures n <= |habits|
    ensures n == |habits| <==> forall i :: 0 <= i < |habits| ==> CompletedOn(habits[i].entries, today)
  {
    CompletedCountFull(habits, today);
    CompletedCount(habits, today)
  }

  /** `habits.length > 0 ? habits.length : 1` */
  function DailyGoal(habits: seq<Habit>): (n: nat)
    ensures n >= 1
  {
    if |habits| > 0 then |habits| else 1
  }

  /** The celebration test: there are habits and every one is completed today. */
  predicate AllDoneToday(habits: seq<Habit>, today: Day)
    ensures AllDoneToday(habits, today) ==> DailyCompletions(habits, today) == DailyGoal(habits)
  {
    |habits| > 0 && forall i :: 0 <= i < |habits| ==> CompletedOn(habits[i].entries, today)
  }

  /** The completions of the day never exceed the habits, nor the goal shown beside them. */
  lemma DailyCounterBounds(habits: seq<Habit>, today: Day)
    ensures 0 <= DailyCompletions(habits, today) <= |habits|
    ensures DailyCompletions(habits, today) <= DailyGoal(habits)
    ensures |habits| > 0 ==> DailyGoal(habits) == |habits|
  {
  }

  /**
   * The celebration fires exactly when the list is non-empty and the day's
   * completions reach the goal, that is, every habit is completed today.
   */
  lemma AllDoneMeansGoalReached(habits: seq<Habit>, today: Day)
    ensures AllDoneToday(habits, today) <==> |habits| > 0 && DailyCompletions(habits, today) == DailyGoal(habits)
  {
    CompletedCountFull(habits, today);
  }

  // ---------------------------------------------------------------------
  // The store
  // ---------------------------------------------------------------------

  /**
   * On a list with distinct ids and one entry per day, a toggle keeps both
   * properties and pays one bonus exactly when the toggled habit's toggle is
   * rewarded, and none otherwise.
   */
  lemma ToggleKeepsStoreInvariant(habits: seq<Habit>, habitId: string, date: Day, today: Day)
    requires DistinctIds(habits) && AllUniqueDates(habits)
    ensures DistinctIds(ToggledHabits(habits, habitId, date))
    ensures AllUniqueDates(ToggledHabits(habits, habitId, date))
    ensures Rewards(habits, habitId, date, today) <= 1
    ensures Rewards(habits, habitId, date, today) == 1 <==> RewardedToggle(habits, habitId, date, today)
  {
    ToggledHabitsPreserveUniqueDates(habits, habitId, date);
    ToggledHabitsKeepDistinctIds(habits, habitId, date);
    RewardsAtMostOne(habits, habitId, date, today);
  }

  /**
   * The body of the `prev.map` callback for the habit being toggled
   * (App.tsx:72-88): find the entry for `date`, flip it or append a
   * completed one, and report whether the 10-point bonus is due.
   */
  method ToggleOne(h: Habit, date: Day, today: Day) returns (toggled: Habit, rewarded: bool)
    ensures toggled == h.(entries := ToggleEntries(h.entries, date))
    ensures rewarded == Rewarded(h.entries, date, today)
  {
    var existingEntryIdx := FindEntry(h.entries, date);
    var wasCompleted: bool;
    var newEntries: seq<HabitEntry>;
    if existingEntryIdx > -1 {
      wasCompleted := h.entries[existingEntryIdx].completed;
      newEntries := h.entries[existingEntryIdx := h.entries[existingEntryIdx].(completed := !wasCompleted)];
    } else {
      wasCompleted := false;
      newEntries := h.entries + [HabitEntry(date, true)];
    }
    rewarded := !wasCompleted && date == today;
    toggled := h.(entries := newEntries);
  }

  /**
   * The `prev.map` pass of `toggleHabit` (App.tsx:69-89): every habit with
   * `habitId` is toggled, the others are kept, and 10 points are gained for
   * each rewarded toggle.
   */
  method ToggleAll(prev: seq<Habit>, habitId: string, date: Day, today: Day)
    returns (next: seq<Habit>, gained: int)
    ensures next == ToggledHabits(prev, habitId, date)
    ensures gained == 10 * Rewards(prev, habitId, date, today)
  {
    next := [];
    gained := 0;
    for k := 0 to |prev|
      invariant next == ToggledHabits(prev[..k], habitId, date)
      invariant gained == 10 * Rewards(prev[..k], habitId, date, today)
    {
      var h := prev[k];
      ToggledHabitsStep(prev, k, habitId, date, today);
      if h.id != habitId {
        next := next + [h];
      } else {
        var toggled, rewarded := ToggleOne(h, date, today);
        if rewarded {
          gained := gained + 10;
        }
        next := next + [toggled];
      }
    }
    assert prev[..|prev|] == prev;
  }

  /** The state of App.tsx: the habit list and the experience points. */
  class HabitStore {
    var habits: seq<Habit>
    var xp: int

    /**
     * Experience is never negative, no two habits share an id, and every
     * habit keeps at most one entry per day.
     */
    ghost predicate Valid()
      reads this
    {
      xp >= 0 && DistinctIds(habits) && AllUniqueDates(habits)
    }

    /** Starts from the stored habits and experience, or from none and 0 when nothing was stored. */
    constructor (savedHabits: Option<seq<Habit>>, savedXp: Option<int>)
      ensures habits == if savedHabits.Some? then savedHabits.value else []
      ensures xp == if savedXp.Some? then savedXp.value else 0
      ensures savedHabits.None? && savedXp.None? ==> Valid()
    {
      habits := if savedHabits.Some? then savedHabits.value else [];
      xp := if savedXp.Some? then savedXp.value else 0;
    }

    /**
     * `toggleHabit(habitId, date)`: toggles the entry for `date` in every
     * habit with `habitId` and adds 10 experience for each toggle that
     * completes today for the first time.
     */
    method ToggleHabit(habitId: string, date: Day, today: Day)
      modifies this
      ensures habits == ToggledHabits(old(habits), habitId, date)
      ensures xp == old(xp) + 10 * Rewards(old(habits), habitId, date, today)
      ensures xp >= old(xp)
      ensures old(Valid()) ==> Valid()
      ensures old(Valid()) ==> xp == old(xp) || xp == old(xp) + 10
      ensures old(Valid()) ==> (xp == old(xp) + 10 <==> RewardedToggle(old(habits), habitId, date, today))
    {
      var next, gained := ToggleAll(habits, habitId, date, today);
      if Valid() {
        ToggleKeepsStoreInvariant(habits, habitId, date, today);
      }
      habits := next;
      xp := xp + gained;
    }

    /**
     * `addHabit`: a blank name is ignored; otherwise a habit with the fresh
     * id, no entries and the given fields is put in front of the list. The
     * id comes from a random UUID, so no habit has it yet.
     */
    method AddHabit(name: string, category: Category, target: int, freshId: string, createdAt: string)
      requires forall i :: 0 <= i < |habits| ==> habits[i].id != freshId
      modifies this
      ensures IsBlank(name) ==> habits == old(habits)
      ensures !IsBlank(name) ==>
        habits == [Habit(freshId, name, category, None, [], createdAt, target)] + old(habits)
      ensures xp == old(xp)
      ensures old(Valid()) ==> Valid()
    {
      TrimEmptyIffBlank(name);
      if Trim(name) == [] {
        return;
      }
      var habit := Habit(freshId, name, category, None, [], createdAt, target);
      habits := [habit] + habits;
    }

    /** `deleteHabit(id)`: once confirmed, every habit with `id` is removed. */
    method DeleteHabit(id: string, confirmed: bool)
      modifies this
      ensures habits == if confirmed then WithoutId(old(habits), id) else old(habits)
      ensures xp == old(xp)
      ensures old(Valid()) ==> Valid()
    {
      if confirmed {
        var kept := WithoutId(habits, id);
        if old(Valid()) {
          WithoutIdKeepsDistinctIds(habits, id);
        }
        forall i | 0 <= i < |kept|
          ensures UniqueDates(kept[i].entries) || !old(Valid())
        {
          WithoutIdMembers(habits, id, kept[i]);
        }
        habits := kept;
      }
    }
  }
}
