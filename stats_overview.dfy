/**
 * The "Activity by Category" totals of components/StatsOverview.tsx: a fold
 * over the habits into an object keyed by category, whose keys keep the
 * order in which they were first set, then listed as (name, value) bars.
 */
module StatsOverview {
  import opened HabitTypes

  /** `habit.entries.filter(e => e.completed).length` */
  function Completions(h: Habit): nat
  {
    |CompletedDates(h.entries)|
  }

  /** The accumulator object: its keys in insertion order and the value under each key. */
  datatype Tally = Tally(keys: seq<Category>, values: map<Category, nat>)

  /** The keys are listed once each, and they are exactly the keys that hold a value. */
  predicate WellFormed(t: Tally)
  {
    (forall i, j :: 0 <= i < j < |t.keys| ==> t.keys[i] != t.keys[j]) &&
    (forall c :: c in t.values <==> c in t.keys)
  }

  /** One step of the reduce: `acc[habit.category] = (acc[habit.category] || 0) + completions`. */
  function AddToTally(acc: Tally, habit: Habit): (r: Tally)
    requires WellFormed(acc)
    ensures WellFormed(r)
    ensures |acc.keys| <= |r.keys| <= |acc.keys| + 1 && r.keys[..|acc.keys|] == acc.keys
    ensures habit.category in r.values && r.values[habit.category] >= Completions(habit)
    ensures forall c :: c in acc.values && c != habit.category ==> c in r.values && r.values[c] == acc.values[c]
  {
    var c := habit.category;
    if c in acc.values then
      Tally(acc.keys, acc.values[c := acc.values[c] + Completions(habit)])
    else
      Tally(acc.keys + [c], acc.values[c := 0 + Completions(habit)])
  }

  /** `categoryStats`: the reduce over the habits, from an empty object. */
  function CategoryStats(habits: seq<Habit>): (t: Tally)
    ensures WellFormed(t)
  {
    if habits == [] then Tally([], map[])
    else AddToTally(CategoryStats(habits[..|habits| - 1]), habits[|habits| - 1])
  }

  /** One bar of the chart. */
  datatype Bar = Bar(name: Category, value: nat)

  /** `Object.entries(...).map(([name, value]) => ({ name, value }))`: the entries in key order. */
  function BarsOf(keys: seq<Category>, values: map<Category, nat>): (bars: seq<Bar>)
    requires forall k :: k in keys ==> k in values
  {
    seq(|keys|, i requires 0 <= i < |keys| => Bar(keys[i], values[keys[i]]))
  }

  /** `data`: one bar per key of `categoryStats`. */
  function Data(habits: seq<Habit>): (bars: seq<Bar>)
    ensures forall i, j :: 0 <= i < j < |bars| ==> bars[i].name != bars[j].name
  {
    var t := CategoryStats(habits);
    BarsOf(t.keys, t.values)
  }

  // ---------------------------------------------------------------------
  // Reference definitions
  // ---------------------------------------------------------------------

  /** The completed entries of the habits in category `c`. */
  function CategoryTotal(habits: seq<Habit>, c: Category): nat
  {
    if habits == [] then 0
    else
      var h := habits[|habits| - 1];
      CategoryTotal(habits[..|habits| - 1], c) + (if h.category == c then Completions(h) else 0)
  }

  /** The completed entries of all the habits. */
  function TotalCompletions(habits: seq<Habit>): nat
  {
    if habits == [] then 0
    else TotalCompletions(habits[..|habits| - 1]) + Completions(habits[|habits| - 1])
  }

  /** Whether some habit has category `c`. */
  predicate HasCategory(habits: seq<Habit>, c: Category)
  {
    exists i :: 0 <= i < |habits| && habits[i].category == c
  }

  /** The position of the first habit in category `c`, or -1. */
  function FirstIndex(habits: seq<Habit>, c: Category): (i: int)
    ensures -1 <= i < |habits|
    ensures 0 <= i ==> habits[i].category == c && forall j :: 0 <= j < i ==> habits[j].category != c
    ensures i == -1 <==> !HasCategory(habits, c)
  {
    if habits == [] then -1
    else if habits[0].category == c then 0
    else
      var i := FirstIndex(habits[1..], c);
      if i == -1 then -1 else i + 1
  }

  /** The sum of the values under `keys`. */
  function SumValues(keys: seq<Category>, values: map<Category, nat>): nat
    requires forall k :: k in keys ==> k in values
  {
    if keys == [] then 0
    else SumValues(keys[..|keys| - 1], values) + values[keys[|keys| - 1]]
  }

  // ---------------------------------------------------------------------
  // What the totals mean
  // ---------------------------------------------------------------------

  lemma HasCategoryAppend(habits: seq<Habit>, h: Habit, c: Category)
    ensures HasCategory(habits + [h], c) <==> HasCategory(habits, c) || h.category == c
  {
    var ext := habits + [h];
    if HasCategory(habits, c) {
      var i :| 0 <= i < |habits| && habits[i].category == c;
      assert ext[i] == habits[i];
    }
    if h.category == c {
      assert ext[|habits|] == h;
    }
    if HasCategory(ext, c) && h.category != c {
      var i :| 0 <= i < |ext| && ext[i].category == c;
      assert ext[i] == habits[i];
    }
  }

  lemma {:induction false} CategoryTotalAbsent(habits: seq<Habit>, c: Category)
    requires !HasCategory(habits, c)
    ensures CategoryTotal(habits, c) == 0
  {
    if habits != [] {
      var init := habits[..|habits| - 1];
      var h := habits[|habits| - 1];
      assert habits == init + [h];
      HasCategoryAppend(init, h, c);
      CategoryTotalAbsent(init, c);
    }
  }

  /** One step of the reduce keeps each category's total equal to its reference total. */
  lemma AddToTallyPerCategory(t: Tally, habits: seq<Habit>, h: Habit, c: Category)
    requires WellFormed(t)
    requires c in t.values <==> HasCategory(habits, c)
    requires c in t.values ==> t.values[c] == CategoryTotal(habits, c)
    ensures c in AddToTally(t, h).values <==> HasCategory(habits + [h], c)
    ensures c in AddToTally(t, h).values ==> AddToTally(t, h).values[c] == CategoryTotal(habits + [h], c)
  {
    var ext := habits + [h];
    assert ext[..|ext| - 1] == habits;
    assert CategoryTotal(ext, c) == CategoryTotal(habits, c) + (if h.category == c then Completions(h) else 0);
    HasCategoryAppend(habits, h, c);
    if h.category == c && c !in t.values {
      CategoryTotalAbsent(habits, c);
    }
  }

  /**
   * A category has a total exactly when some habit has that category (even
   * with no completions), and its total is the completions of the habits in
   * that category.
   */
  lemma {:induction false} StatsPerCategory(habits: seq<Habit>, c: Category)
    ensures c in CategoryStats(habits).values <==> HasCategory(habits, c)
    ensures c in CategoryStats(habits).values ==> CategoryStats(habits).values[c] == CategoryTotal(habits, c)
  {
    if habits != [] {
      var init := habits[..|habits| - 1];
      var h := habits[|habits| - 1];
      assert init + [h] == habits;
      var t := CategoryStats(init);
      assert CategoryStats(habits) == AddToTally(t, h);
      StatsPerCategory(init, c);
      AddToTallyPerCategory(t, init, h, c);
    }
  }

  lemma {:induction false} SumValuesIgnoresOtherKeys(keys: seq<Category>, values: map<Category, nat>, c: Category, n: nat)
    requires forall k :: k in keys ==> k in values
    requires c !in keys
    ensures SumValues(keys, values[c := n]) == SumValues(keys, values)
  {
    if keys != [] {
      SumValuesIgnoresOtherKeys(keys[..|keys| - 1], values, c, n);
    }
  }

  lemma {:induction false} SumValuesAdd(keys: seq<Category>, values: map<Category, nat>, c: Category, n: nat)
    requires forall k :: k in keys ==> k in values
    requires forall i, j :: 0 <= i < j < |keys| ==> keys[i] != keys[j]
    requires c in keys
    ensures SumValues(keys, values[c := values[c] + n]) == SumValues(keys, values) + n
  {
    var init := keys[..|keys| - 1];
    var last := keys[|keys| - 1];
    if last == c {
      assert c !in init;
      SumValuesIgnoresOtherKeys(init, values, c, values[c] + n);
    } else {
      assert c in init;
      SumValuesAdd(init, values, c, n);
    }
  }

  /** One step of the reduce adds the habit's completions to the sum of the values. */
  lemma AddToTallySum(t: Tally, h: Habit)
    requires WellFormed(t)
    ensures SumValues(AddToTally(t, h).keys, AddToTally(t, h).values) == SumValues(t.keys, t.values) + Completions(h)
  {
    var c := h.category;
    var n := Completions(h);
    if c in t.values {
      SumValuesAdd(t.keys, t.values, c, n);
    } else {
      var keys := t.keys + [c];
      assert keys[..|keys| - 1] == t.keys;
      assert SumValues(keys, t.values[c := n]) == SumValues(t.keys, t.values[c := n]) + n;
      SumValuesIgnoresOtherKeys(t.keys, t.values, c, n);
    }
  }

  /** The bars add up to the completed entries of all the habits. */
  lemma {:induction false} StatsSumToTotal(habits: seq<Habit>)
    ensures SumValues(CategoryStats(habits).keys, CategoryStats(habits).values) == TotalCompletions(habits)
  {
    if habits != [] {
      var init := habits[..|habits| - 1];
      var h := habits[|habits| - 1];
      StatsSumToTotal(init);
      AddToTallySum(CategoryStats(init), h);
    }
  }

  /** The keys are listed in the order in which their categories first appear among the habits. */
  predicate InFirstAppearanceOrder(keys: seq<Category>, habits: seq<Habit>)
  {
    (forall i :: 0 <= i < |keys| ==> FirstIndex(habits, keys[i]) >= 0) &&
    (forall i, j :: 0 <= i < j < |keys| ==> FirstIndex(habits, keys[i]) < FirstIndex(habits, keys[j]))
  }

  lemma FirstIndexAppend(habits: seq<Habit>, h: Habit, c: Category)
    ensures HasCategory(habits, c) ==> FirstIndex(habits + [h], c) == FirstIndex(habits, c)
    ensures !HasCategory(habits, c) && h.category == c ==> FirstIndex(habits + [h], c) == |habits|
  {
    var ext := habits + [h];
    var i := FirstIndex(habits, c);
    var e := FirstIndex(ext, c);
    HasCategoryAppend(habits, h, c);
    if HasCategory(habits, c) {
      assert ext[i].category == c;
    }
    if !HasCategory(habits, c) && h.category == c {
      assert ext[|habits|].category == c;
    }
  }

  /** Appending a habit leaves the first position of every category already present unchanged. */
  lemma ExistingKeysKeepPositions(t: Tally, habits: seq<Habit>, h: Habit)
    requires WellFormed(t)
    requires forall c :: c in t.values ==> HasCategory(habits, c)
    ensures forall i :: 0 <= i < |t.keys| ==>
      0 <= FirstIndex(habits + [h], t.keys[i]) == FirstIndex(habits, t.keys[i]) < |habits|
  {
    forall i | 0 <= i < |t.keys|
      ensures 0 <= FirstIndex(habits + [h], t.keys[i]) == FirstIndex(habits, t.keys[i]) < |habits|
    {
      assert t.keys[i] in t.values;
      FirstIndexAppend(habits, h, t.keys[i]);
    }
  }

  /** A category seen for the first time goes last, and the keys stay in order of first appearance. */
  lemma NewKeyOrder(t: Tally, habits: seq<Habit>, h: Habit)
    requires WellFormed(t)
    requires forall c :: c in t.values ==> HasCategory(habits, c)
    requires !HasCategory(habits, h.category)
    requires InFirstAppearanceOrder(t.keys, habits)
    ensures InFirstAppearanceOrder(t.keys + [h.category], habits + [h])
  {
    var ext := habits + [h];
    var keys := t.keys + [h.category];
    ExistingKeysKeepPositions(t, habits, h);
    FirstIndexAppend(habits, h, h.category);
    assert forall i :: 0 <= i < |t.keys| ==> keys[i] == t.keys[i];
    assert keys[|t.keys|] == h.category;
  }

  /** One step of the reduce keeps the keys in order of first appearance. */
  lemma AddToTallyOrder(t: Tally, habits: seq<Habit>, h: Habit)
    requires WellFormed(t)
    requires forall c :: c in t.values ==> HasCategory(habits, c)
    requires h.category !in t.values ==> !HasCategory(habits, h.category)
    requires InFirstAppearanceOrder(t.keys, habits)
    ensures InFirstAppearanceOrder(AddToTally(t, h).keys, habits + [h])
  {
    if h.category !in t.values {
      NewKeyOrder(t, habits, h);
    } else {
      ExistingKeysKeepPositions(t, habits, h);
    }
  }

  lemma {:induction false} StatsKeyOrder(habits: seq<Habit>)
    ensures InFirstAppearanceOrder(CategoryStats(habits).keys, habits)
  {
    if habits != [] {
      var init := habits[..|habits| - 1];
      var h := habits[|habits| - 1];
      assert habits == init + [h];
      var t := CategoryStats(init);
      StatsKeyOrder(init);
      forall c | c in t.values
        ensures HasCategory(init, c)
      {
        StatsPerCategory(init, c);
      }
      StatsPerCategory(init, h.category);
      AddToTallyOrder(t, init, h);
    }
  }

  /** The sum of the bar values. */
  function BarTotal(bars: seq<Bar>): nat
  {
    if bars == [] then 0 else BarTotal(bars[..|bars| - 1]) + bars[|bars| - 1].value
  }

  lemma {:induction false} BarsOfSum(keys: seq<Category>, values: map<Category, nat>)
    requires forall k :: k in keys ==> k in values
    ensures BarTotal(BarsOf(keys, values)) == SumValues(keys, values)
  {
    if keys != [] {
      var init := keys[..|keys| - 1];
      assert BarsOf(keys, values)[..|keys| - 1] == BarsOf(init, values);
      BarsOfSum(init, values);
    }
  }

  /**
   * There is one bar per category that some habit has, and its value is the
   * completed entries of the habits in that category; there are no bars
   * exactly when there are no habits.
   */
  lemma DataCategories(habits: seq<Habit>)
    ensures forall c :: (exists i :: 0 <= i < |Data(habits)| && Data(habits)[i].name == c) <==> HasCategory(habits, c)
    ensures forall i :: 0 <= i < |Data(habits)| ==> Data(habits)[i].value == CategoryTotal(habits, Data(habits)[i].name)
    ensures Data(habits) == [] <==> habits == []
  {
    var t := CategoryStats(habits);
    var d := Data(habits);
    forall c
      ensures (exists i :: 0 <= i < |d| && d[i].name == c) <==> HasCategory(habits, c)
    {
      StatsPerCategory(habits, c);
      if c in t.keys {
        var i :| 0 <= i < |t.keys| && t.keys[i] == c;
        assert d[i].name == c;
      }
    }
    forall i | 0 <= i < |d|
      ensures d[i].value == CategoryTotal(habits, d[i].name)
    {
      StatsPerCategory(habits, d[i].name);
    }
    if habits != [] {
      StatsPerCategory(habits, habits[0].category);
    }
  }

  /** The bars come in the order in which their categories first appear, each once. */
  lemma DataOrder(habits: seq<Habit>)
    ensures forall i, j :: 0 <= i < j < |Data(habits)| ==>
      0 <= FirstIndex(habits, Data(habits)[i].name) < FirstIndex(habits, Data(habits)[j].name)
  {
    var t := CategoryStats(habits);
    var d := Data(habits);
    StatsKeyOrder(habits);
    forall i, j | 0 <= i < j < |d|
      ensures 0 <= FirstIndex(habits, d[i].name) < FirstIndex(habits, d[j].name)
    {
      assert d[i].name == t.keys[i] && d[j].name == t.keys[j];
    }
  }

  /** The bars add up to the completed entries of all the habits. */
  lemma DataTotal(habits: seq<Habit>)
    ensures BarTotal(Data(habits)) == TotalCompletions(habits)
  {
    var t := CategoryStats(habits);
    StatsSumToTotal(habits);
    BarsOfSum(t.keys, t.values);
  }
}
