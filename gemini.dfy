/** The AI gateway (services/gemini.ts): everything around the four model
    calls. The hosted model is a parameter (`CallOutcome`) and so is
    `JSON.parse` (`parse: string -> Option<T>`, `None` meaning it threw). */
module Gemini {
  import opened Wrappers
  import opened Seqs
  import opened Text
  import opened Types
  import OrderedMap

  // ---------------------------------------------------------------------
  // What the model returns
  // ---------------------------------------------------------------------

  datatype WebChunk = WebChunk(title: Option<string>, uri: Option<string>)

  /** One grounding chunk; `web` is absent for non-web grounding. */
  datatype GroundingChunk = GroundingChunk(web: Option<WebChunk>)

  /** `response.text` and `response.candidates?.[0]?.groundingMetadata?.groundingChunks`. */
  datatype ModelResponse = ModelResponse(text: Option<string>, groundingChunks: Option<seq<GroundingChunk>>)

  /** A call either yields a response or rejects (network or model failure). */
  datatype CallOutcome = Responded(response: ModelResponse) | CallFailed

  /** A food in the report the model decoded (`{food, level}`); the response
      schema restricts `level` to the three enum values. */
  datatype ParsedFood = ParsedFood(food: string, level: IntoleranceLevel)

  /** The decoded report object; `foods` is absent when the JSON lacks the key. */
  datatype Report = Report(foods: Option<seq<ParsedFood>>)

  const ReportError := "Failed to analyze report document."
  const FoodAnalysisError := "Failed to analyze food. Please try again."
  const MealPlanError := "Failed to generate meal plan."
  const LabelError := "Failed to scan label."

  /** The JSON text parsed when the report response has no text. */
  const EmptyReportJson := "{\"foods\": []}"
  /** The JSON text parsed when the meal-plan or label response has no text. */
  const EmptyObjectJson := "{}"

  /** JavaScript's `s || fallback` on an optional string: an absent or empty
      string is replaced. */
  function Or(s: Option<string>, fallback: string): (r: string)
    ensures r == fallback <==> s.None? || s.value == "" || s.value == fallback
    ensures s.Some? && s.value != "" ==> r == s.value
  {
    if s.Some? && s.value != "" then s.value else fallback
  }

  // ---------------------------------------------------------------------
  // The intolerances a prompt mentions
  // ---------------------------------------------------------------------

  predicate IsProblem(item: IntoleranceItem) {
    item.level != Normal
  }

  /** `${food} (${level})` */
  function Describe(item: IntoleranceItem): (r: string)
    ensures |r| >= 9
  {
    item.food + " (" + LevelName(item.level) + ")"
  }

  /** The non-`normal` items, each described, joined by ", ". */
  function ProblemFoods(items: seq<IntoleranceItem>): (r: string)
    ensures r == "" <==> forall i :: 0 <= i < |items| ==> items[i].level == Normal
    ensures r != "" ==> |r| >= 9
  {
    var problems := Filter(IsProblem, items);
    assert (forall i :: 0 <= i < |items| ==> items[i].level == Normal) <==> problems == [] by {
      if problems == [] {
        forall i | 0 <= i < |items| ensures items[i].level == Normal {
          assert items[i] in items;
        }
      } else {
        assert problems[0] in items;
        var k :| 0 <= k < |items| && items[k] == problems[0];
        assert items[k].level != Normal;
      }
    }
    var described := Map(Describe, problems);
    JoinEmpty(described, ", ");
    Join(described, ", ")
  }

  /** A single item is listed exactly when it is not `normal`. */
  lemma ProblemFoodsSingle(item: IntoleranceItem)
    ensures ProblemFoods([item]) == if item.level == Normal then "" else Describe(item)
  {
    assert [item][1..] == [];
  }

  /** The list of two parts is the two lists joined: the items appear in
      input order and are separated by exactly one ", ". */
  lemma ProblemFoodsAppend(a: seq<IntoleranceItem>, b: seq<IntoleranceItem>)
    ensures ProblemFoods(a) == "" ==> ProblemFoods(a + b) == ProblemFoods(b)
    ensures ProblemFoods(b) == "" ==> ProblemFoods(a + b) == ProblemFoods(a)
    ensures ProblemFoods(a) != "" && ProblemFoods(b) != "" ==>
              ProblemFoods(a + b) == ProblemFoods(a) + ", " + ProblemFoods(b)
  {
    var fa, fb := Filter(IsProblem, a), Filter(IsProblem, b);
    FilterAppend(IsProblem, a, b);
    MapAppend(Describe, fa, fb);
    if fa != [] && fb != [] {
      JoinAppend(Map(Describe, fa), Map(Describe, fb), ", ");
    }
    if ProblemFoods(a) == "" {
      assert Map(Describe, fa) + Map(Describe, fb) == Map(Describe, fb);
    }
    if ProblemFoods(b) == "" {
      assert Map(Describe, fa) + [] == Map(Describe, fa);
    }
    if ProblemFoods(a) != "" {
      assert fa != [];
    }
    if ProblemFoods(b) != "" {
      assert fb != [];
    }
  }

  /** `${problemFoods || 'None'}` in the food-safety prompt. */
  function PromptIntolerances(items: seq<IntoleranceItem>): (r: string)
    ensures r == "None" <==> forall i :: 0 <= i < |items| ==> items[i].level == Normal
    ensures r != "None" ==> r == ProblemFoods(items)
  {
    Or(Some(ProblemFoods(items)), "None")
  }

  // ---------------------------------------------------------------------
  // What the requests carry (the prompt wording is not modelled)
  // ---------------------------------------------------------------------

  datatype ReportRequest = ReportRequest(data: Option<string>, mimeType: string)
  datatype SafetyRequest = SafetyRequest(query: string, intolerances: string, condition: string, preference: string)
  datatype MealPlanRequest = MealPlanRequest(safeFoods: seq<string>, condition: string, preference: string)
  datatype LabelRequest = LabelRequest(image: Option<string>, intolerances: string)

  /** analyzeFoodSafety's prompt inputs: the query, the problem foods (or
      "None") and both health settings. */
  function FoodSafetyRequest(query: string, items: seq<IntoleranceItem>, health: HealthProfile): (r: SafetyRequest)
    ensures r.query == query && r.condition == health.condition && r.preference == health.preference
    ensures r.intolerances == PromptIntolerances(items)
    ensures r.intolerances == "None" <==> forall i :: 0 <= i < |items| ==> items[i].level == Normal
  {
    SafetyRequest(query, PromptIntolerances(items), health.condition, health.preference)
  }

  /** analyzeProductLabel's prompt inputs: unlike the food-safety prompt, an
      all-`normal` profile leaves the intolerance list empty. */
  function ProductLabelRequest(image: Option<string>, items: seq<IntoleranceItem>): (r: LabelRequest)
    ensures r.image == image
    ensures r.intolerances == ProblemFoods(items)
    ensures r.intolerances == "" <==> forall i :: 0 <= i < |items| ==> items[i].level == Normal
  {
    LabelRequest(image, ProblemFoods(items))
  }

  // ---------------------------------------------------------------------
  // Locating the JSON in a free-text answer
  // ---------------------------------------------------------------------

  const JsonOpen := "```json\n"
  const PlainOpen := "```\n"
  const FenceClose := "\n```"

  /** `text.match(/OPEN([\s\S]*?)\n```/)?.[1]` as a backtracking matcher runs
      it: try each start position in turn; where OPEN occurs, the lazy group
      grows until the first closing fence. */
  function FenceMatchFrom(text: string, open: string, i: nat): Option<string>
    decreases |text| - i
  {
    if i + |open| > |text| then None
    else if StartsAt(text, open, i) && FindFrom(text, FenceClose, i + |open|).Some? then
      Some(text[i + |open|..FindFrom(text, FenceClose, i + |open|).value])
    else FenceMatchFrom(text, open, i + 1)
  }

  /** Reference reading: the body between the first opening fence at or after
      `i` and the first closing fence after it, if both exist. */
  function FirstFence(text: string, open: string, i: nat): Option<string> {
    match FindFrom(text, open, i)
    case None => None
    case Some(p) =>
      match FindFrom(text, FenceClose, p + |open|)
      case None => None
      case Some(q) => Some(text[p + |open|..q])
  }

  /** The matcher finds the first opening fence: if that fence is never
      closed, no later one is either. */
  lemma {:induction false} FenceMatchIsFirstFence(text: string, open: string, i: nat)
    ensures FenceMatchFrom(text, open, i) == FirstFence(text, open, i)
    decreases |text| - i
  {
    if i + |open| <= |text| {
      FenceMatchIsFirstFence(text, open, i + 1);
      if StartsAt(text, open, i) {
        if FindFrom(text, FenceClose, i + |open|).None? {
          match FindFrom(text, open, i + 1)
          case None =>
          case Some(p) =>
            assert FindFrom(text, FenceClose, p + |open|).None?;
        }
      }
    }
  }

  /** The text handed to `JSON.parse`: the body of the first ```json fence,
      else of the first plain ``` fence, else the whole text; an empty body
      also falls back to the whole text. */
  function JsonCandidate(text: string): string {
    var m := match FenceMatchFrom(text, JsonOpen, 0)
             case Some(b) => Some(b)
             case None => FenceMatchFrom(text, PlainOpen, 0);
    if m.Some? && m.value != "" then m.value else text
  }

  lemma JsonCandidateChoice(text: string)
    ensures FirstFence(text, JsonOpen, 0) == Some("") ==> JsonCandidate(text) == text
    ensures FirstFence(text, JsonOpen, 0).Some? && FirstFence(text, JsonOpen, 0).value != "" ==>
              JsonCandidate(text) == FirstFence(text, JsonOpen, 0).value
    ensures FirstFence(text, JsonOpen, 0).None? && FirstFence(text, PlainOpen, 0).Some? ==>
              JsonCandidate(text) == Or(FirstFence(text, PlainOpen, 0), text)
    ensures FirstFence(text, JsonOpen, 0).None? && FirstFence(text, PlainOpen, 0).None? ==>
              JsonCandidate(text) == text
  {
    FenceMatchIsFirstFence(text, JsonOpen, 0);
    FenceMatchIsFirstFence(text, PlainOpen, 0);
  }

  /** A text that is exactly one ```json fence around a one-line body yields
      that body. */
  lemma FencedJsonCandidate(body: string)
    requires body != "" && '\n' !in body
    ensures JsonCandidate(JsonOpen + body + FenceClose) == body
  {
    var text := JsonOpen + body + FenceClose;
    var n := |JsonOpen|;
    assert StartsAt(text, JsonOpen, 0) by {
      assert text[0..n] == JsonOpen;
    }
    assert FindFrom(text, JsonOpen, 0) == Some(0);
    assert StartsAt(text, FenceClose, n + |body|) by {
      assert text[n + |body|..n + |body| + 4] == FenceClose;
    }
    forall j | n <= j < n + |body| ensures !StartsAt(text, FenceClose, j) {
      assert text[j] == body[j - n];
      assert text[j] != '\n';
    }
    assert FindFrom(text, FenceClose, n) == Some(n + |body|);
    assert text[n..n + |body|] == body;
    JsonCandidateChoice(text);
  }

  /** A text without backquotes is parsed as a whole. */
  lemma UnfencedCandidate(text: string)
    requires '`' !in text
    ensures JsonCandidate(text) == text
  {
    forall open: string, j: nat | open != "" && open[0] == '`' && j < |text| ensures !StartsAt(text, open, j) {
      assert text[j] in text;
    }
    assert FindFrom(text, JsonOpen, 0).None? by {
      assert JsonOpen[0] == '`';
    }
    assert FindFrom(text, PlainOpen, 0).None? by {
      assert PlainOpen[0] == '`';
    }
    JsonCandidateChoice(text);
  }

  // ---------------------------------------------------------------------
  // The degraded result
  // ---------------------------------------------------------------------

  const FallbackNote := "Could not parse structured analysis. Please read the summary."

  /** The object substituted when the candidate is not JSON: a mid score, no
      allergens, the fixed note, and the first 300 characters as summary. */
  function FallbackResult(text: string): (r: AnalysisResult)
    ensures r.safetyScore == 5.0 && r.foundAllergens == [] && r.healthNote == Some(FallbackNote)
    ensures |r.summary| == Min(|text|, 300) + 3
    ensures |r.summary| >= 3 && r.summary[..|r.summary| - 3] <= text && r.summary[|r.summary| - 3..] == "..."
    ensures r.webSources.None? && r.boundingBox.None? && r.glycemicScore.None?
  {
    AnalysisResult(
      safetyScore := 5.0,
      glycemicScore := None,
      summary := text[..Min(|text|, 300)] + "...",
      foundAllergens := [],
      ingredientsText := None,
      sources := None,
      webSources := None,
      healthNote := Some(FallbackNote),
      boundingBox := None)
  }

  // ---------------------------------------------------------------------
  // Grounding sources
  // ---------------------------------------------------------------------

  /** `{title: chunk.web?.title || 'Source', uri: chunk.web?.uri || ''}` */
  function ToWebSource(chunk: GroundingChunk): (r: WebSource)
    ensures r.title == "Source" <==> chunk.web.None? || Or(chunk.web.value.title, "Source") == "Source"
    ensures r.uri == "" <==> chunk.web.None? || chunk.web.value.uri.None? || chunk.web.value.uri.value == ""
    ensures chunk.web.Some? && chunk.web.value.uri.Some? ==> r.uri == chunk.web.value.uri.value
    ensures chunk.web.Some? && chunk.web.value.title.Some? && chunk.web.value.title.value != "" ==>
              r.title == chunk.web.value.title.value
  {
    match chunk.web
    case None => WebSource("Source", "")
    case Some(w) => WebSource(Or(w.title, "Source"), Or(w.uri, ""))
  }

  predicate HasUri(s: WebSource) {
    s.uri != ""
  }

  /** The chunks' sources, those without a uri dropped. */
  function CollectSources(chunks: seq<GroundingChunk>): (r: seq<WebSource>)
    ensures |r| <= |chunks|
    ensures forall s :: s in r <==> s.uri != "" && exists c :: c in chunks && ToWebSource(c) == s
  {
    var all := Map(ToWebSource, chunks);
    assert forall s :: s in all <==> exists c :: c in chunks && ToWebSource(c) == s by {
      forall s | s in all ensures exists c :: c in chunks && ToWebSource(c) == s {
        var k :| 0 <= k < |all| && all[k] == s;
        assert chunks[k] in chunks;
      }
      forall s | exists c :: c in chunks && ToWebSource(c) == s ensures s in all {
        var c :| c in chunks && ToWebSource(c) == s;
        var k :| 0 <= k < |chunks| && chunks[k] == c;
        assert all[k] == s;
      }
    }
    Filter(HasUri, all)
  }

  /** The sources keep chunk order and multiplicity: the sources of two runs
      of chunks are the two lists one after the other, and one chunk
      contributes its source exactly when that source has a uri. */
  lemma CollectSourcesOrder(a: seq<GroundingChunk>, b: seq<GroundingChunk>, c: GroundingChunk)
    ensures CollectSources(a + b) == CollectSources(a) + CollectSources(b)
    ensures CollectSources([c]) == if ToWebSource(c).uri != "" then [ToWebSource(c)] else []
  {
    MapAppend(ToWebSource, a, b);
    FilterAppend(HasUri, Map(ToWebSource, a), Map(ToWebSource, b));
    assert Map(ToWebSource, [c]) == [ToWebSource(c)];
    assert [ToWebSource(c)][1..] == [];
  }

  function Uri(s: WebSource): string {
    s.uri
  }

  function UriEntry(s: WebSource): (string, WebSource) {
    (s.uri, s)
  }

  /** `Array.from(new Map(sources.map(s => [s.uri, s])).values())` */
  function UniqueSources(sources: seq<WebSource>): seq<WebSource> {
    OrderedMap.Values(OrderedMap.FromEntries(Map(UriEntry, sources)))
  }

  /** Reference: the last source carrying `uri`. */
  function LastWithUri(sources: seq<WebSource>, uri: string): (r: Option<WebSource>)
    ensures r.Some? ==> r.value in sources && r.value.uri == uri
  {
    if sources == [] then None
    else if sources[|sources| - 1].uri == uri then Some(sources[|sources| - 1])
    else LastWithUri(sources[..|sources| - 1], uri)
  }

  lemma {:induction false} LastEntryIsLastSource(sources: seq<WebSource>, uri: string)
    ensures OrderedMap.LastValue(Map(UriEntry, sources), uri) == LastWithUri(sources, uri)
  {
    if sources != [] {
      var init := sources[..|sources| - 1];
      assert Map(UriEntry, sources)[..|sources| - 1] == Map(UriEntry, init);
      LastEntryIsLastSource(init, uri);
    }
  }

  /** Each deduplicated source is the value the `Map` holds under its uri,
      which is the last source carrying that uri. */
  lemma UniqueSourcesEntries(sources: seq<WebSource>)
    ensures var m := OrderedMap.FromEntries(Map(UriEntry, sources));
            |UniqueSources(sources)| == |m| &&
            forall i :: 0 <= i < |m| ==>
              UniqueSources(sources)[i] == m[i].1 && m[i].1.uri == m[i].0 &&
              LastWithUri(sources, m[i].0) == Some(m[i].1)
  {
    var es := Map(UriEntry, sources);
    var m := OrderedMap.FromEntries(es);
    OrderedMap.FromEntriesLast(es);
    forall i | 0 <= i < |m| ensures m[i].1.uri == m[i].0 && LastWithUri(sources, m[i].0) == Some(m[i].1) {
      LastEntryIsLastSource(sources, m[i].0);
    }
  }

  /** Deduplication keeps at most one source per uri. */
  lemma UniqueSourcesDistinct(sources: seq<WebSource>)
    ensures forall i, j :: 0 <= i < j < |UniqueSources(sources)| ==>
              UniqueSources(sources)[i].uri != UniqueSources(sources)[j].uri
  {
    var m := OrderedMap.FromEntries(Map(UriEntry, sources));
    UniqueSourcesEntries(sources);
    forall i, j | 0 <= i < j < |m| ensures m[i].0 != m[j].0 {
      assert OrderedMap.Keys(m)[i] != OrderedMap.Keys(m)[j];
    }
  }

  /** Deduplication loses no uri and invents none. */
  lemma UniqueSourcesCover(sources: seq<WebSource>)
    ensures forall u :: u in Map(Uri, UniqueSources(sources)) <==> u in Map(Uri, sources)
  {
    var es := Map(UriEntry, sources);
    var m := OrderedMap.FromEntries(es);
    var uris := Map(Uri, UniqueSources(sources));
    UniqueSourcesEntries(sources);
    assert uris == OrderedMap.Keys(m) by {
      forall i | 0 <= i < |m| ensures uris[i] == OrderedMap.Keys(m)[i] {
        assert uris[i] == UniqueSources(sources)[i].uri;
      }
    }
    assert OrderedMap.Keys(es) == Map(Uri, sources);
    OrderedMap.FromEntriesKeys(es);
  }

  /** For a repeated uri the title of the LAST chunk wins (a `Map` overwrites
      the value on every `set`). */
  lemma UniqueSourcesKeepLast(sources: seq<WebSource>)
    ensures forall i :: 0 <= i < |UniqueSources(sources)| ==>
              LastWithUri(sources, UniqueSources(sources)[i].uri) == Some(UniqueSources(sources)[i])
  {
    UniqueSourcesEntries(sources);
  }

  /** The uris keep the order of their FIRST appearance (a `Map` keeps a
      key's original position on overwrite). */
  lemma UniqueSourcesOrder(sources: seq<WebSource>)
    ensures forall i, j :: 0 <= i < j < |UniqueSources(sources)| ==>
              UniqueSources(sources)[i].uri in Map(Uri, sources) &&
              UniqueSources(sources)[j].uri in Map(Uri, sources) &&
              IndexOf(Map(Uri, sources), UniqueSources(sources)[i].uri)
                < IndexOf(Map(Uri, sources), UniqueSources(sources)[j].uri)
  {
    var es := Map(UriEntry, sources);
    assert OrderedMap.Keys(es) == Map(Uri, sources);
    OrderedMap.FromEntriesOrder(es);
    UniqueSourcesEntries(sources);
  }

  // ---------------------------------------------------------------------
  // The four API functions
  // ---------------------------------------------------------------------

  /** The chunks of a response, `[]` when absent. */
  function ChunksOf(response: ModelResponse): seq<GroundingChunk> {
    response.groundingChunks.GetOr([])
  }

  /** analyzeFoodSafety: fails only when the call itself fails. A candidate
      that does not parse is replaced by the degraded result; the grounding
      sources always replace any `webSources` the JSON carried. */
  function AnalyzeFoodSafety(outcome: CallOutcome, parse: string -> Option<AnalysisResult>): (r: Result<AnalysisResult, string>)
    ensures r.Failure? <==> outcome.CallFailed?
    ensures r.Failure? ==> r.error == FoodAnalysisError
    ensures r.Success? ==>
              r.value.webSources == Some(UniqueSources(CollectSources(ChunksOf(outcome.response))))
    ensures r.Success? ==>
              var text := Or(outcome.response.text, "");
              match parse(JsonCandidate(text))
              case Some(parsed) => r.value.(webSources := parsed.webSources) == parsed
              case None => r.value.(webSources := None) == FallbackResult(text)
  {
    match outcome
    case CallFailed => Failure(FoodAnalysisError)
    case Responded(response) =>
      var text := Or(response.text, "");
      var parsed := match parse(JsonCandidate(text))
                    case Some(json) => json
                    case None => FallbackResult(text);
      Success(parsed.(webSources := Some(UniqueSources(CollectSources(ChunksOf(response))))))
  }

  /** A fenced JSON answer without grounding decodes to the JSON object
      itself, with an empty source list. */
  lemma FencedAnswerWithoutSources(body: string, parse: string -> Option<AnalysisResult>, json: AnalysisResult)
    requires body != "" && '\n' !in body
    requires parse(body) == Some(json)
    ensures AnalyzeFoodSafety(Responded(ModelResponse(Some(JsonOpen + body + FenceClose), None)), parse)
            == Success(json.(webSources := Some([])))
  {
    FencedJsonCandidate(body);
    assert UniqueSources([]) == [];
  }

  /** A refusal in plain prose is not an error: it becomes the degraded
      result, whose summary starts with the prose. */
  lemma ProseAnswerDegrades(text: string, chunks: Option<seq<GroundingChunk>>, parse: string -> Option<AnalysisResult>)
    requires text != "" && '`' !in text
    requires parse(text).None?
    ensures var r := AnalyzeFoodSafety(Responded(ModelResponse(Some(text), chunks)), parse);
            r.Success? && r.value.safetyScore == 5.0 && r.value.foundAllergens == []
            && r.value.summary == text[..Min(|text|, 300)] + "..."
  {
    UnfencedCandidate(text);
  }

  /** The other three calls: the response text (or a fixed JSON literal when
      it is missing) is parsed; a rejected call or a parse error becomes the
      operation's fixed message. */
  function ParseOr<T>(outcome: CallOutcome, default: string, parse: string -> Option<T>, error: string): (r: Result<T, string>)
    ensures r.Failure? ==> r.error == error
    ensures r.Success? <==> outcome.Responded? && parse(Or(outcome.response.text, default)).Some?
    ensures r.Success? ==> Some(r.value) == parse(Or(outcome.response.text, default))
  {
    match outcome
    case CallFailed => Failure(error)
    case Responded(response) =>
      match parse(Or(response.text, default))
      case None => Failure(error)
      case Some(v) => Success(v)
  }

  /** parseReportDocument: a missing text reads as `{"foods": []}`. */
  function ParseReportDocument(outcome: CallOutcome, parse: string -> Option<Report>): (r: Result<Report, string>)
    ensures r.Failure? ==> r.error == ReportError
    ensures r.Success? <==> outcome.Responded? && parse(Or(outcome.response.text, EmptyReportJson)).Some?
    ensures r.Success? ==> Some(r.value) == parse(Or(outcome.response.text, EmptyReportJson))
  {
    ParseOr(outcome, EmptyReportJson, parse, ReportError)
  }

  /** generateMealPlan: a missing text reads as `{}`. */
  function GenerateMealPlan(outcome: CallOutcome, parse: string -> Option<MealPlan>): (r: Result<MealPlan, string>)
    ensures r.Failure? ==> r.error == MealPlanError
    ensures r.Success? <==> outcome.Responded? && parse(Or(outcome.response.text, EmptyObjectJson)).Some?
    ensures r.Success? ==> Some(r.value) == parse(Or(outcome.response.text, EmptyObjectJson))
  {
    ParseOr(outcome, EmptyObjectJson, parse, MealPlanError)
  }

  /** analyzeProductLabel: a missing text reads as `{}`; unlike the food
      check, an unparsable answer is an error, not a degraded result. */
  function AnalyzeProductLabel(outcome: CallOutcome, parse: string -> Option<AnalysisResult>): (r: Result<AnalysisResult, string>)
    ensures r.Failure? ==> r.error == LabelError
    ensures r.Success? <==> outcome.Responded? && parse(Or(outcome.response.text, EmptyObjectJson)).Some?
    ensures r.Success? ==> Some(r.value) == parse(Or(outcome.response.text, EmptyObjectJson))
  {
    ParseOr(outcome, EmptyObjectJson, parse, LabelError)
  }

  /** A report response without text is an empty food list, not an error
      (for any `JSON.parse` that reads the literal `{"foods": []}` correctly). */
  lemma MissingReportTextIsEmpty(chunks: Option<seq<GroundingChunk>>, parse: string -> Option<Report>)
    requires parse(EmptyReportJson) == Some(Report(Some([])))
    ensures ParseReportDocument(Responded(ModelResponse(None, chunks)), parse) == Success(Report(Some([])))
    ensures ParseReportDocument(Responded(ModelResponse(Some(""), chunks)), parse) == Success(Report(Some([])))
  {
  }
}
