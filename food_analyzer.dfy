/** The analyzer panel (components/FoodAnalyzer.tsx): a free-text safety
    check, a meal-plan generator, recent-search chips and the score gauge. */
module FoodAnalyzer {
  import opened Wrappers
  import opened Seqs
  import opened Text
  import opened Types
  import Gemini
  import LabelScanner

  datatype Tab = AnalyzeTab | PlanTab

  // ---------------------------------------------------------------------
  // Pure parts
  // ---------------------------------------------------------------------

  predicate IsSafe(item: IntoleranceItem) {
    item.level == Normal
  }

  function FoodOf(item: IntoleranceItem): string {
    item.food
  }

  /** The number shown as "safe foods": the count of `normal` items. */
  function SafeCount(items: seq<IntoleranceItem>): nat {
    |Filter(IsSafe, items)|
  }

  /** The meal planner's input: the names of the `normal` items. */
  function SafeFoods(items: seq<IntoleranceItem>): (r: seq<string>)
    ensures |r| == SafeCount(items)
    ensures forall f :: f in r <==> exists i :: 0 <= i < |items| && items[i].level == Normal && items[i].food == f
  {
    var safe := Filter(IsSafe, items);
    forall f | f in Map(FoodOf, safe)
      ensures exists i :: 0 <= i < |items| && items[i].level == Normal && items[i].food == f
    {
      var k :| 0 <= k < |safe| && Map(FoodOf, safe)[k] == f;
      assert safe[k] in items;
    }
    forall f | exists i :: 0 <= i < |items| && items[i].level == Normal && items[i].food == f
      ensures f in Map(FoodOf, safe)
    {
      var i :| 0 <= i < |items| && items[i].level == Normal && items[i].food == f;
      assert items[i] in safe;
      var k :| 0 <= k < |safe| && safe[k] == items[i];
      assert Map(FoodOf, safe)[k] == f;
    }
    Map(FoodOf, safe)
  }

  /** The safe foods keep profile order: the list of two parts is the two
      lists one after the other, and one item contributes its name exactly
      when it is `normal`. */
  lemma SafeFoodsOrder(a: seq<IntoleranceItem>, b: seq<IntoleranceItem>, item: IntoleranceItem)
    ensures SafeFoods(a + b) == SafeFoods(a) + SafeFoods(b)
    ensures SafeFoods([item]) == if item.level == Normal then [item.food] else []
  {
    FilterAppend(IsSafe, a, b);
    MapAppend(FoodOf, Filter(IsSafe, a), Filter(IsSafe, b));
    assert [item][1..] == [];
  }

  /** Every item is either safe (sent to the planner) or a problem (sent to
      the analysis prompts), never both. */
  lemma SafeAndProblemPartition(items: seq<IntoleranceItem>)
    ensures SafeCount(items) + |Filter(Gemini.IsProblem, items)| == |items|
  {
    FilterComplement(IsSafe, Gemini.IsProblem, items);
  }

  datatype GaugeLabel = Safe | Caution | Unsafe

  /** The label under the score gauge. */
  function GaugeLabelOf(score: real): (l: GaugeLabel)
    ensures l == Safe <==> score >= 8.0
    ensures l == Caution <==> 5.0 <= score < 8.0
    ensures l == Unsafe <==> score < 5.0
  {
    if score >= 8.0 then Safe else if score >= 5.0 then Caution else Unsafe
  }

  /** The gauge and the scanner's verdict card agree on whole-number scores
      but not in between: 7.5 is "Caution" on the gauge and in the safe band
      on the card, 4.5 is "Unsafe" on the gauge and in the caution band. */
  lemma GaugeAndVerdictBands(n: int)
    ensures GaugeLabelOf(n as real) == Safe <==> LabelScanner.VerdictBand(n as real) == LabelScanner.SafeBand
    ensures GaugeLabelOf(n as real) == Caution <==> LabelScanner.VerdictBand(n as real) == LabelScanner.CautionBand
    ensures GaugeLabelOf(n as real) == Unsafe <==> LabelScanner.VerdictBand(n as real) == LabelScanner.UnsafeBand
    ensures GaugeLabelOf(7.5) == Caution && LabelScanner.VerdictBand(7.5) == LabelScanner.SafeBand
    ensures GaugeLabelOf(4.5) == Unsafe && LabelScanner.VerdictBand(4.5) == LabelScanner.CautionBand
  {
  }

  /** The recent-search chips: the three newest entries, shown only on the
      analyze tab, while there is no result and the history is not empty. */
  function HistoryChips(tab: Tab, result: Option<AnalysisResult>, history: seq<HistoryItem>): (chips: seq<HistoryItem>)
    ensures |chips| <= 3
    ensures chips != [] <==> tab == AnalyzeTab && result.None? && history != []
    ensures |chips| <= |history| && chips == history[..|chips|]
    ensures tab == AnalyzeTab && result.None? ==> |chips| == Min(|history|, 3)
  {
    if tab == AnalyzeTab && result.None? && |history| > 0 then history[..Min(|history|, 3)] else []
  }

  /** The check button: disabled while loading or for a blank query. */
  function CheckDisabled(loading: bool, query: string): (disabled: bool)
    ensures !disabled <==> !loading && exists i :: 0 <= i < |query| && !IsSpace(query[i])
  {
    loading || Trim(query) == ""
  }

  /** The generate button: disabled while loading, so a plan is never
      requested while another request is in flight. */
  function GenerateDisabled(loading: bool): (disabled: bool)
    ensures !disabled <==> !loading
  {
    loading
  }

  /** The entry recorded for a search: a `search` entry with the query, the
      score and the summary, whose id reads back as its timestamp. */
  function SearchEntry(query: string, result: AnalysisResult, now: nat): (r: HistoryItem)
    ensures r.kind == Search && r.query == query && r.timestamp == now
    ensures r.safetyScore == result.safetyScore && r.summary == result.summary
    ensures r.id == DecimalString(now) && DecimalValue(r.id) == r.timestamp
  {
    DecimalRoundTrip(now);
    HistoryItem(DecimalString(now), Search, query, now, result.safetyScore, result.summary)
  }

  // ---------------------------------------------------------------------
  // The panel
  // ---------------------------------------------------------------------

  class Analyzer {
    var query: string
    var loading: bool
    var result: Option<AnalysisResult>
    var mealPlan: Option<MealPlan>
    var activeTab: Tab

    constructor ()
      ensures query == "" && !loading && result.None? && mealPlan.None? && activeTab == AnalyzeTab
    {
      query := "";
      loading := false;
      result := None;
      mealPlan := None;
      activeTab := AnalyzeTab;
    }

    /** Typing in the search box. */
    method SetQuery(text: string)
      modifies this
      ensures query == text
      ensures loading == old(loading) && result == old(result) && mealPlan == old(mealPlan) && activeTab == old(activeTab)
    {
      query := text;
    }

    /** A tab button. */
    method SelectTab(tab: Tab)
      modifies this
      ensures activeTab == tab
      ensures query == old(query) && loading == old(loading) && result == old(result) && mealPlan == old(mealPlan)
    {
      activeTab := tab;
    }

    /** The synchronous half of `handleCheck` (button or Enter key): a blank
        query changes nothing and requests nothing; otherwise loading starts,
        both result and plan are cleared and the request is returned. */
    method BeginCheck(items: seq<IntoleranceItem>, health: HealthProfile)
      returns (request: Option<Gemini.SafetyRequest>)
      modifies this
      ensures query == old(query) && activeTab == old(activeTab)
      ensures request.Some? <==> Trim(old(query)) != ""
      ensures request.None? ==>
                loading == old(loading) && result == old(result) && mealPlan == old(mealPlan)
      ensures request.Some? ==>
                loading && result.None? && mealPlan.None? &&
                request.value == Gemini.FoodSafetyRequest(query, items, health)
    {
      var text := query;
      if Trim(text) == "" {
        return None;
      }
      var made := Gemini.FoodSafetyRequest(text, items, health);
      loading, result, mealPlan := true, None, None;
      request := Some(made);
    }

    /** The asynchronous half: a decoded result is shown and recorded as a
        search for the query the request was made with (untrimmed); a
        failure records nothing. Loading ends either way. */
    method CompleteCheck(request: Gemini.SafetyRequest, outcome: Result<AnalysisResult, string>, now: nat)
      returns (entry: Option<HistoryItem>)
      modifies this
      ensures !loading && mealPlan == old(mealPlan)
      ensures query == old(query) && activeTab == old(activeTab)
      ensures outcome.Success? ==>
                result == Some(outcome.value) && entry == Some(SearchEntry(request.query, outcome.value, now))
      ensures outcome.Failure? ==> result == old(result) && entry.None?
    {
      entry := None;
      if outcome.Success? {
        result := Some(outcome.value);
        entry := Some(SearchEntry(request.query, outcome.value, now));
      }
      loading := false;
    }

    /** A history chip pre-fills the query and does nothing else. */
    method HistoryClick(item: HistoryItem)
      modifies this
      ensures query == item.query
      ensures loading == old(loading) && result == old(result) && mealPlan == old(mealPlan) && activeTab == old(activeTab)
    {
      query := item.query;
    }

    /** The synchronous half of `handleGeneratePlan`: loading starts, both
        result and plan are cleared, and the planner gets the safe foods. */
    method BeginPlan(items: seq<IntoleranceItem>, health: HealthProfile) returns (request: Gemini.MealPlanRequest)
      modifies this
      ensures loading && result.None? && mealPlan.None?
      ensures query == old(query) && activeTab == old(activeTab)
      ensures request == Gemini.MealPlanRequest(SafeFoods(items), health.condition, health.preference)
    {
      loading := true;
      result := None;
      mealPlan := None;
      request := Gemini.MealPlanRequest(SafeFoods(items), health.condition, health.preference);
    }

    /** The asynchronous half: a plan is shown on success. */
    method CompletePlan(outcome: Result<MealPlan, string>)
      modifies this
      ensures !loading && result == old(result)
      ensures query == old(query) && activeTab == old(activeTab)
      ensures outcome.Success? ==> mealPlan == Some(outcome.value)
      ensures outcome.Failure? ==> mealPlan == old(mealPlan)
    {
      if outcome.Success? {
        mealPlan := Some(outcome.value);
      }
      loading := false;
    }

    /** "Generate New Plan" drops the shown plan. */
    method NewPlan()
      modifies this
      ensures mealPlan.None?
      ensures query == old(query) && loading == old(loading) && result == old(result) && activeTab == old(activeTab)
    {
      mealPlan := None;
    }
  }
}
