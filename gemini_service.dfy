/**
 * The pure part of services/geminiService.ts: the per-habit summary that is
 * sent with the prompt, and the way `analyzeHabits` reports the outcome of
 * the call. The model call itself (client, prompt text, network, JSON
 * parsing) is a parameter.
 */
module GeminiService {
  import opened Wrappers
  import opened HabitTypes

  /** One record of `habitDataSummary`. */
  datatype HabitSummary = HabitSummary(name: string, category: Category, completionDates: seq<Day>, target: int)

  /** `habitDataSummary`: `habits.map(h => ({ name, category, completionDates, target }))`. */
  function Summarize(habits: seq<Habit>): (summary: seq<HabitSummary>)
    ensures |summary| == |habits|
    ensures forall i :: 0 <= i < |habits| ==>
      summary[i] == HabitSummary(habits[i].name, habits[i].category, CompletedDates(habits[i].entries), habits[i].targetPerWeek)
  {
    seq(|habits|, i requires 0 <= i < |habits| =>
      var h := habits[i];
      HabitSummary(h.name, h.category, CompletedDates(h.entries), h.targetPerWeek))
  }

  /**
   * The summary follows the habit list record by record: summarising two
   * lists one after the other is summarising their concatenation.
   */
  lemma SummarizeAppend(a: seq<Habit>, b: seq<Habit>)
    ensures Summarize(a + b) == Summarize(a) + Summarize(b)
  {
  }

  /** The positions of the completed entries, in ascending order. */
  function CompletedPositions(entries: seq<HabitEntry>): (ps: seq<int>)
    ensures |ps| == |CompletedDates(entries)|
    ensures forall k :: 0 <= k < |ps| ==> 0 <= ps[k] < |entries|
  {
    if entries == [] then []
    else
      var n := |entries| - 1;
      CompletedPositions(entries[..n]) + (if entries[n].completed then [n] else [])
  }

  lemma {:induction false} CompletedPositionsIncrease(entries: seq<HabitEntry>)
    ensures forall k, l :: 0 <= k < l < |CompletedPositions(entries)| ==>
      CompletedPositions(entries)[k] < CompletedPositions(entries)[l]
  {
    if entries != [] {
      var n := |entries| - 1;
      CompletedPositionsIncrease(entries[..n]);
      var ps := CompletedPositions(entries);
      var ps0 := CompletedPositions(entries[..n]);
      assert ps == ps0 + (if entries[n].completed then [n] else []);
      forall k, l | 0 <= k < l < |ps|
        ensures ps[k] < ps[l]
      {
        assert ps[k] == ps0[k];
        if l < |ps0| {
          assert ps[l] == ps0[l];
        } else {
          assert ps[l] == n;
        }
      }
    }
  }

  lemma {:induction false} CompletedPositionsMatchDates(entries: seq<HabitEntry>)
    ensures var ps := CompletedPositions(entries);
      forall k :: 0 <= k < |ps| ==> entries[ps[k]].completed && CompletedDates(entries)[k] == entries[ps[k]].date
  {
    if entries != [] {
      var n := |entries| - 1;
      var init := entries[..n];
      CompletedPositionsMatchDates(init);
      var ps := CompletedPositions(entries);
      var ps0 := CompletedPositions(init);
      forall k | 0 <= k < |ps|
        ensures entries[ps[k]].completed && CompletedDates(entries)[k] == entries[ps[k]].date
      {
        if k < |ps0| {
          assert ps[k] == ps0[k] && entries[ps[k]] == init[ps0[k]];
          assert CompletedDates(entries)[k] == CompletedDates(init)[k];
        }
      }
    }
  }

  lemma {:induction false} CompletedPositionsCover(entries: seq<HabitEntry>)
    ensures forall i :: 0 <= i < |entries| && entries[i].completed ==> i in CompletedPositions(entries)
  {
    if entries != [] {
      var n := |entries| - 1;
      var init := entries[..n];
      CompletedPositionsCover(init);
      var tail := if entries[n].completed then [n] else [];
      assert CompletedPositions(entries) == CompletedPositions(init) + tail;
      forall i | 0 <= i < n && entries[i].completed
        ensures i in CompletedPositions(entries)
      {
        assert init[i] == entries[i];
        assert i in CompletedPositions(init);
      }
      if entries[n].completed {
        assert CompletedPositions(entries)[|CompletedPositions(init)|] == n;
      }
    }
  }

  /**
   * `completionDates` lists the dates of the completed entries and nothing
   * else, in the order of the entries: the k-th date is that of the k-th
   * completed entry.
   */
  lemma CompletionDatesInEntryOrder(entries: seq<HabitEntry>)
    ensures var ps := CompletedPositions(entries);
      (forall k, l :: 0 <= k < l < |ps| ==> ps[k] < ps[l]) &&
      (forall k :: 0 <= k < |ps| ==>
        entries[ps[k]].completed && CompletedDates(entries)[k] == entries[ps[k]].date) &&
      (forall i :: 0 <= i < |entries| && entries[i].completed ==> i in ps)
  {
    CompletedPositionsIncrease(entries);
    CompletedPositionsMatchDates(entries);
    CompletedPositionsCover(entries);
  }

  /** Entries that are not completed do not reach the summary. */
  lemma {:induction false} CompletedDatesOfCompleted(entries: seq<HabitEntry>)
    ensures CompletedDates(entries) == CompletedDates(OnlyCompleted(entries))
  {
    if entries != [] {
      var n := |entries| - 1;
      CompletedDatesOfCompleted(entries[..n]);
      var kept := OnlyCompleted(entries[..n]);
      if entries[n].completed {
        var all := kept + [entries[n]];
        assert OnlyCompleted(entries) == all;
        assert all[..|all| - 1] == kept;
        assert CompletedDates(all) == CompletedDates(kept) + [entries[n].date];
        assert CompletedDates(entries) == CompletedDates(entries[..n]) + [entries[n].date];
      } else {
        assert OnlyCompleted(entries) == kept;
        assert CompletedDates(entries) == CompletedDates(entries[..n]);
      }
    }
  }

  /** `entries.filter(e => e.completed)` */
  function OnlyCompleted(entries: seq<HabitEntry>): (kept: seq<HabitEntry>)
    ensures |kept| <= |entries|
    ensures forall k :: 0 <= k < |kept| ==> kept[k].completed
  {
    if entries == [] then []
    else
      var n := |entries| - 1;
      OnlyCompleted(entries[..n]) + (if entries[n].completed then [entries[n]] else [])
  }

  /**
   * The summary sees only the name, category, target and completed entries:
   * habits that agree on those (whatever their id, description, creation date
   * or entries not completed) are summarised alike.
   */
  lemma SummaryIgnoresOtherFields(h1: Habit, h2: Habit)
    requires h1.name == h2.name && h1.category == h2.category && h1.targetPerWeek == h2.targetPerWeek
    requires OnlyCompleted(h1.entries) == OnlyCompleted(h2.entries)
    ensures Summarize([h1]) == Summarize([h2])
  {
    CompletedDatesOfCompleted(h1.entries);
    CompletedDatesOfCompleted(h2.entries);
  }

  /** The one message every failure of the analysis is reported with. */
  const AnalysisFailed: string := "Failed to analyze habits. Please try again later."

  /**
   * `analyzeHabits(habits)`: `generate` stands for the request with the
   * summary in its prompt and the parsing of the reply. Whatever goes wrong
   * in the request or the parse is reported as the fixed message; a reply
   * that parses is returned as it is, with no check of its fields.
   */
  function AnalyzeHabits(habits: seq<Habit>, generate: seq<HabitSummary> -> Result<AIInsight, string>): (r: Result<AIInsight, string>)
    ensures r.Failure? <==> generate(Summarize(habits)).Failure?
    ensures r.Failure? ==> r.error == AnalysisFailed
    ensures r.Success? ==> r.value == generate(Summarize(habits)).value
  {
    match generate(Summarize(habits))
    case Success(insight) => Success(insight)
    case Failure(_) => Failure(AnalysisFailed)
  }

  /** The analysis depends on the habits only through their summary. */
  lemma AnalysisSeesOnlySummary(hs1: seq<Habit>, hs2: seq<Habit>, generate: seq<HabitSummary> -> Result<AIInsight, string>)
    requires Summarize(hs1) == Summarize(hs2)
    ensures AnalyzeHabits(hs1, generate) == AnalyzeHabits(hs2, generate)
  {
  }

  /**
   * The reply is not validated: a parsed insight with a score outside 0..100
   * and no suggestions comes back as a success.
   */
  lemma ReplyIsNotValidated(habits: seq<Habit>, generate: seq<HabitSummary> -> Result<AIInsight, string>)
    requires generate(Summarize(habits)) == Success(AIInsight("", [], "", 250.0))
    ensures AnalyzeHabits(habits, generate).Success?
    ensures AnalyzeHabits(habits, generate).value.predictedSuccess == 250.0
    ensures AnalyzeHabits(habits, generate).value.suggestions == []
  {
  }
}
