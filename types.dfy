/** The records of the application's domain model. Numbers that the
    interface compares against fractional thresholds (scores, bounding-box
    percentages) are `real`; millisecond timestamps are `nat`. */
module Types {
  import opened Wrappers

  /** How strongly a user reacts to a food. */
  datatype IntoleranceLevel = Normal | Borderline | Elevated

  /** The enum's string value, as it appears in prompts and JSON. */
  function LevelName(level: IntoleranceLevel): string {
    match level
    case Normal => "normal"
    case Borderline => "borderline"
    case Elevated => "elevated"
  }

  datatype IntoleranceItem = IntoleranceItem(id: string, food: string, level: IntoleranceLevel)

  datatype HealthProfile = HealthProfile(condition: string, preference: string)

  /** The `type` field of a history entry: `'scan' | 'search'`. */
  datatype HistoryKind = Scan | Search

  datatype HistoryItem = HistoryItem(
    id: string,
    kind: HistoryKind,
    query: string,
    timestamp: nat,
    safetyScore: real,
    summary: string)

  /** The persisted profile. `history` is optional because a profile stored
      by an older version may lack it; readers treat it as empty. */
  datatype UserProfile = UserProfile(
    intolerances: seq<IntoleranceItem>,
    health: HealthProfile,
    isOnboarded: bool,
    history: Option<seq<HistoryItem>>)

  datatype WebSource = WebSource(title: string, uri: string)

  /** A decoded analysis; the optional fields are the ones the model may omit. */
  datatype AnalysisResult = AnalysisResult(
    safetyScore: real,
    glycemicScore: Option<real>,
    summary: string,
    foundAllergens: seq<string>,
    ingredientsText: Option<string>,
    sources: Option<seq<string>>,
    webSources: Option<seq<WebSource>>,
    healthNote: Option<string>,
    boundingBox: Option<seq<real>>)

  datatype MealPlan = MealPlan(breakfast: string, lunch: string, dinner: string, explanation: string)
}
