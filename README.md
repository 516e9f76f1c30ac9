# Allergy Guard, modelled in Dafny

Allergy Guard is a browser application. It keeps a personal "health passport" of food intolerances (`normal`, `borderline`, `elevated`) together with health settings. It asks a hosted generative model three kinds of question:

- whether a food is safe for the passport;
- what a scanned product label contains;
- what a safe day of meals would be.

A fourth call reads a medical report during onboarding. This project models the deterministic logic around those calls and proves what it promises. The model calls and `JSON.parse` are parameters.

| file | source | what it holds |
|---|---|---|
| `gemini.dfy` | `services/gemini.ts` | the gateway (module `Gemini`) |
| `app.dfy` | `App.tsx` | the profile transitions of the application shell |
| `onboarding.dfy` | `components/Onboarding.tsx` | the three-step wizard (class `Wizard`) |
| `label_scanner.dfy` | `components/LabelScanner.tsx` | the label scanner (class `Scanner`) |
| `food_analyzer.dfy` | `components/FoodAnalyzer.tsx` | the analyzer panel (class `Analyzer`) |
| `profile_card.dfy` | `components/ProfileCard.tsx` | the passport card (class `Card`) |
| `types.dfy` | `types.ts` | the records |

The gateway module holds:

- the "problem foods" string;
- the fenced-JSON extraction;
- the degraded fallback result;
- the grounding-source collection and its uri deduplication;
- the error wrapping of all four calls.

Supporting modules:

- `wrappers.dfy`: `Option` and `Result`.
- `seqs.dfy`: `filter`, `map` and `join`.
- `text.dfy`: `toString`, `trim`, ASCII `toLowerCase`, `indexOf` and `split(sep)[1]`.
- `ordered_map.dfy`: a JavaScript `Map` as an insertion-ordered entry list.

The profile shell replaces one state cell wholesale, so its handlers are functions from profile to profile. The three panels update several state cells step by step, so each is a class whose methods change those fields. Each asynchronous handler is split into two methods:

- a synchronous "start" method, which returns the request the gateway receives;
- a "finish" method, which takes the gateway outcome as a `Result`.

Time (`Date.now()`) is a `nat` parameter. Where the onboarding wizard reads the clock once per built item, the readings are a function `clock: nat -> nat` from item index to timestamp. Scores and bounding-box numbers are `real`, so the scanner's thresholds (`> 7`, `> 4`) and the gauge's thresholds (`>= 8`, `>= 5`) can be compared on fractional scores.

Three behaviours of the code are easy to misread:

- **Source deduplication.** A `Map` keeps each uri at the position of its first occurrence but overwrites the value, so the title kept is that of the last chunk with the uri (`Gemini.UniqueSourcesKeepLast`).
- **Onboarding transitions.** There is no backward transition: the step only moves 1→2 (Continue) and 2→3 (Review or a successful upload).
- **Missing report text.** A report response without text is not an error. It parses the literal `{"foods": []}` (`Gemini.MissingReportTextIsEmpty`).

## Model

| member | source | states |
|---|---|---|
| Gemini.Or | services/gemini.ts:110 | `s \|\| fallback` is the string itself when it is present and non-empty, and the fallback when it is absent or empty |
| Gemini.Describe | services/gemini.ts:69 | an item is rendered `food (level)`, which is at least nine characters |
| Gemini.ProblemFoods | services/gemini.ts:67-70 | the problem-foods string is empty exactly when every item is `normal` |
| Gemini.ProblemFoodsSingle | services/gemini.ts:67-70 | a single item contributes `food (level)` exactly when its level is not `normal` |
| Gemini.ProblemFoodsAppend | services/gemini.ts:67-70 | the string for a concatenated list is the two strings joined by exactly one ", ", or the non-empty one alone: input order is kept |
| Gemini.PromptIntolerances | services/gemini.ts:81 | the food-safety prompt lists the problem foods, or says "None" exactly when every item is `normal` |
| Gemini.FoodSafetyRequest | services/gemini.ts:62-81 | the safety request carries the query, both health settings and the prompt's intolerance text, which is "None" exactly for an all-`normal` profile |
| Gemini.ProductLabelRequest | services/gemini.ts:190-193 | the label request carries the image and the problem-foods string, which is empty exactly for an all-`normal` profile |
| Gemini.FenceMatchIsFirstFence | services/gemini.ts:111 | the lazy fence regex (`FenceMatchFrom`) returns the body between the first opening fence and the first closing fence after it |
| Gemini.JsonCandidateChoice | services/gemini.ts:111-115 | the parsed text (`JsonCandidate`) is the first ```` ```json ```` body if non-empty, else the first plain ```` ``` ```` body if non-empty, else the whole text |
| Gemini.FencedJsonCandidate | services/gemini.ts:111 | a text that is one ```` ```json ```` fence around a one-line body yields exactly that body |
| Gemini.UnfencedCandidate | services/gemini.ts:111-115 | a text without backquotes is parsed whole |
| Gemini.FallbackResult | services/gemini.ts:114-125 | the degraded result has score 5, no allergens and the fixed note; its summary is the first min(length, 300) characters of the text followed by "..." |
| Gemini.ToWebSource | services/gemini.ts:130-133 | title defaults to "Source" and uri to "" when absent or empty; a present non-empty title and a present uri are kept |
| Gemini.CollectSources | services/gemini.ts:129-134 | the sources are exactly the chunk sources with a non-empty uri |
| Gemini.CollectSourcesOrder | services/gemini.ts:129-134 | the sources keep chunk order and multiplicity: two runs of chunks give the two source lists one after the other, and one chunk gives its source exactly when it has a uri |
| OrderedMap.Set | services/gemini.ts:137 | `Map.set` on a present key overwrites its value in place and keeps the key order; on a new key it appends the entry at the end; keys stay distinct |
| OrderedMap.FromEntries | services/gemini.ts:137 | `new Map(entries)` has pairwise distinct keys |
| OrderedMap.FromEntriesKeys | services/gemini.ts:137 | the map's keys are exactly the keys of the entries |
| OrderedMap.FromEntriesLast | services/gemini.ts:137 | the value held under each key is the value of the last entry with that key |
| OrderedMap.FromEntriesOrder | services/gemini.ts:137 | the map's keys are ordered by the first appearance of each key among the entries |
| Gemini.LastWithUri | services/gemini.ts:137 | reference definition: the last source carrying a uri, which is one of the sources |
| Gemini.LastEntryIsLastSource | services/gemini.ts:137 | the value a `Map` holds for a uri after the entries are set is the last source with that uri |
| Gemini.UniqueSourcesEntries | services/gemini.ts:137 | each source `UniqueSources` keeps is the `Map` value under its own uri |
| Gemini.UniqueSourcesDistinct | services/gemini.ts:137 | after deduplication the uris are pairwise distinct |
| Gemini.UniqueSourcesCover | services/gemini.ts:137 | deduplication keeps every input uri and invents none |
| Gemini.UniqueSourcesKeepLast | services/gemini.ts:137 | for a repeated uri, the source kept is the last one with that uri |
| Gemini.UniqueSourcesOrder | services/gemini.ts:137 | deduplicated sources follow the order of each uri's first appearance |
| Gemini.AnalyzeFoodSafety | services/gemini.ts:62-148 | fails only when the call fails, with the fixed message; `webSources` always comes from the grounding chunks; every other field is the parsed JSON, or the degraded result when it does not parse |
| Gemini.FencedAnswerWithoutSources | services/gemini.ts:110-142 | a fenced JSON answer without grounding yields the JSON object with an empty source list |
| Gemini.ProseAnswerDegrades | services/gemini.ts:114-125 | a prose answer does not throw; it becomes the degraded result whose summary begins with the prose |
| Gemini.ParseOr | services/gemini.ts:179-183 | succeeds exactly when the call responded and its text (or the default literal) parses; otherwise fails with the operation's fixed message |
| Gemini.ParseReportDocument | services/gemini.ts:55-59 | the report call fails with "Failed to analyze report document." unless the response text, or `{"foods": []}` when missing, parses; on success the value is the parsed report |
| Gemini.GenerateMealPlan | services/gemini.ts:179-183 | the meal-plan call fails with "Failed to generate meal plan." unless the response text, or `{}`, parses; on success the value is the parsed plan |
| Gemini.AnalyzeProductLabel | services/gemini.ts:236-240 | the label call fails with "Failed to scan label." unless the response text, or `{}`, parses; on success the value is the parsed result |
| Gemini.MissingReportTextIsEmpty | services/gemini.ts:55 | a report response with missing or empty text gives an empty food list, not an error |
| App.HistoryOf | App.tsx:89 | a missing history reads as the empty list |
| App.ScreenOf | App.tsx:65-67 | the onboarding screen is shown exactly when the profile is not onboarded |
| App.CompleteOnboarding | App.tsx:20-27 | health and intolerances are replaced, the profile is onboarded, history is unchanged |
| App.AddIntolerance | App.tsx:29-39 | exactly one item `{id: now, food, level}` is appended; earlier items and the rest of the profile are unchanged |
| App.RemoveIntolerance | App.tsx:41-46 | no item with the id remains, every other item stays, nothing else in the profile changes |
| App.KeepsAllOthers | App.tsx:44 | the remove filter keeps a list in which nobody carries the id as it is |
| App.RemoveAbsentId | App.tsx:44 | removing an id nobody carries leaves the profile equal to before |
| App.RemoveMiddle | App.tsx:44 | removing the id of an item nobody else carries cuts out that item and keeps the others in order |
| App.RemoveExactlyOne | App.tsx:41-46 | with unique ids, removing item k's id yields the list without item k, the others in order |
| App.AddThenRemove | App.tsx:29-46 | adding under a fresh id and then removing that id restores the profile |
| App.FilterKeepsUniqueIds | App.tsx:44 | filtering by id keeps ids unique |
| App.UniqueIdsPreserved | App.tsx:29-46 | remove keeps ids unique; add does when the timestamp is fresh |
| App.AddToHistory | App.tsx:48-53 | the new entry is first, the length is between 1 and 20, the rest is the first min(n, 19) old entries; a missing history counts as empty |
| App.RecordAllKeepsNewest | App.tsx:48-53 | after a run of entries the history is that run newest first, then the old history, cut at 20 |
| App.CapStep | App.tsx:51 | cutting the history at 20 before putting a new entry in front and cutting again equals one cut of the whole list |
| App.Logout | App.tsx:55-63 | logout installs the storage default profile: no intolerances, no history, not onboarded, back to onboarding |
| Onboarding.WordEnd | components/Onboarding.tsx:43 | `\w+` taken greedily: the longest run of word characters |
| Onboarding.SubtypeEnd | components/Onboarding.tsx:43 | `[\w-+\d.]+` taken greedily: the longest run of subtype characters |
| Onboarding.MediaTypeAt | components/Onboarding.tsx:43 | a match of the media-type pattern contains a '/' and has at least four characters |
| Onboarding.FirstMediaType | components/Onboarding.tsx:43 | the leftmost match, when any, has the same shape |
| Onboarding.FirstMediaTypeLeftmost | components/Onboarding.tsx:43 | a match found is the one at the first position where the pattern matches |
| Onboarding.FirstMediaTypeNone | components/Onboarding.tsx:43 | no match found means the pattern matches at no position |
| Onboarding.MediaType | components/Onboarding.tsx:43 | the media type is the leftmost match of the pattern, or "image/jpeg" when it matches nowhere |
| Onboarding.ReportRequestOf | components/Onboarding.tsx:43-46 | the payload is absent exactly when there is no comma; otherwise it is the text after the first comma up to the next comma or the end; the media type sent is `MediaType` of the data URL |
| Onboarding.MatchAtType | components/Onboarding.tsx:43 | the pattern matches from the first character of the type to the `;` or `,` behind the subtype |
| Onboarding.NoMatchInScheme | components/Onboarding.tsx:43 | nothing matches inside the `data:` scheme |
| Onboarding.DataUrlShape | components/Onboarding.tsx:43 | a `data:<type>/<subtype>;…` url has the prefix, the type's word characters, the slash, the subtype's characters and the `;` at the positions the pattern walks |
| Onboarding.DataUrlMediaType | components/Onboarding.tsx:43 | for `data:<type>/<subtype>;…` with a type of two or more characters, the media type is `<type>/<subtype>` |
| Onboarding.Base64DataUrl | components/Onboarding.tsx:43-44 | a base64 data URL yields its payload and its media type |
| Onboarding.NoSlashDefaultsToJpeg | components/Onboarding.tsx:43 | without a '/', the media type defaults to "image/jpeg" |
| Onboarding.NoSlashNoMatch | components/Onboarding.tsx:43 | without a '/', the pattern matches nowhere |
| Onboarding.IndexedIdsDiffer | components/Onboarding.tsx:49 | ids built from one prefix differ when the indices differ, whatever the two timestamps |
| Onboarding.DashSplits | components/Onboarding.tsx:49 | an id `<prefix><stamp>-<index>` with a stamp free of '-' splits in exactly one way |
| Onboarding.IdsDistinct | components/Onboarding.tsx:79 | two `manual-` ids (`ManualId`), or two `auto-` ids (`AutoId`), with different indices differ, even when the clock moved between them |
| Onboarding.AutoIsNotManual | components/Onboarding.tsx:49 | a parsed id never equals a manual id, whatever the timestamps |
| Onboarding.AutoItems | components/Onboarding.tsx:48-52 | each parsed entry becomes an item with the same food and level, in the same order, with id `auto-<t>-<i>` where `t` is the clock reading for that item |
| Onboarding.FinishItems | components/Onboarding.tsx:76-85 | the parsed items come first, then one `elevated` item per pick in pick order with id `manual-<t>-<i>` where `t` is the clock reading for that pick |
| Onboarding.FinishIdsUnique | components/Onboarding.tsx:76-85 | finishing after an upload hands the shell a list with unique ids, however the clock moves while the lists are built |
| Onboarding.Toggled | components/Onboarding.tsx:66-74 | toggling flips the membership of that label only |
| Onboarding.ToggleRemovesInPlace | components/Onboarding.tsx:66-74 | deleting a picked label cuts it out where it stands; the other picks keep their insertion order |
| Onboarding.CutPick | components/Onboarding.tsx:69 | filtering out a label that occurs once leaves the picks before and after it, in order |
| Onboarding.KeepsOtherPicks | components/Onboarding.tsx:69 | filtering out a label nobody holds keeps the picks as they are |
| Onboarding.ReviewEnabled | components/Onboarding.tsx:222 | Review is enabled exactly when something was picked, something was parsed, or an upload is in flight |
| Onboarding.ToggledDistinct | components/Onboarding.tsx:66-74 | the picks never hold a label twice |
| Onboarding.ToggleTwice | components/Onboarding.tsx:66-74 | toggling twice restores every label's membership |
| Onboarding.ToggleAddsLast | components/Onboarding.tsx:66-74 | an added label goes last, also when it is removed and added again |
| Onboarding.Wizard.constructor | components/Onboarding.tsx:22-26 | the wizard starts in step 1 with condition "none", preference "balanced", nothing parsed or picked |
| Onboarding.Wizard.SetCondition | components/Onboarding.tsx:125 | only the condition changes |
| Onboarding.Wizard.SetPreference | components/Onboarding.tsx:146 | only the preference changes |
| Onboarding.Wizard.Continue | components/Onboarding.tsx:162 | step 1 moves to step 2 and nothing else changes |
| Onboarding.Wizard.Review | components/Onboarding.tsx:220-222 | an enabled Review moves step 2 to step 3 and nothing else changes |
| Onboarding.Wizard.ToggleSelection | components/Onboarding.tsx:66-74 | the picks become the toggled picks and stay duplicate-free |
| Onboarding.Wizard.StartUpload | components/Onboarding.tsx:29-46 | no file or a file over 20·1024·1024 bytes changes nothing and requests nothing; otherwise processing starts and the report request is returned |
| Onboarding.Wizard.FinishUpload | components/Onboarding.tsx:46-61 | a decoded food list replaces the parsed foods and moves to step 3; any failure keeps step and foods; processing ends either way and the step never decreases |
| Onboarding.Wizard.Finish | components/Onboarding.tsx:76-85 | the shell receives the health settings and the merged item list |
| LabelScanner.Escape | components/LabelScanner.tsx:54 | an allergen without metacharacters is left as it is |
| LabelScanner.Alternatives | components/LabelScanner.tsx:55 | reference reading of a literal-alternatives pattern: at least one alternative |
| LabelScanner.AlternativesCons | components/LabelScanner.tsx:54-55 | one escaped character in front of a pattern joins its first alternative |
| LabelScanner.EscapeCons | components/LabelScanner.tsx:54 | escaping works character by character |
| LabelScanner.EscapeReadsBack | components/LabelScanner.tsx:54 | an escaped allergen reads back as that literal allergen |
| LabelScanner.EscapeStep | components/LabelScanner.tsx:54 | escaping one more character in front adds exactly that character to the first alternative read back |
| LabelScanner.PatternCons | components/LabelScanner.tsx:54-55 | the pattern of a list is the first escaped allergen, a bar, and the pattern of the rest |
| LabelScanner.PatternReadsBack | components/LabelScanner.tsx:54-55 | the escaped, joined pattern reads back as exactly the allergen list, in order: metacharacters match literally |
| LabelScanner.MatchAt | components/LabelScanner.tsx:55-58 | a match found at a position ends inside the text and not before that position |
| LabelScanner.MatchAtSpec | components/LabelScanner.tsx:55-58 | a match at a position is, ignoring case, one of the allergens; no match means none fits there |
| LabelScanner.ConcatAppend | components/LabelScanner.tsx:58 | concatenation distributes over list append |
| LabelScanner.SplitFromConcat | components/LabelScanner.tsx:58 | the pieces of the split (`SplitFrom`, `Split`), concatenated, give back the text |
| LabelScanner.MatchIsAllergen | components/LabelScanner.tsx:55-58 | the matched text equals an allergen ignoring case |
| LabelScanner.SplitFromOdd | components/LabelScanner.tsx:58 | the split yields an odd number of pieces |
| LabelScanner.SplitFromMatches | components/LabelScanner.tsx:55-58 | every odd-indexed piece is an allergen |
| LabelScanner.OddPiecesStep | components/LabelScanner.tsx:58 | one step of the split loop keeps the odd pieces allergens |
| LabelScanner.GapIsNotAllergen | components/LabelScanner.tsx:58-61 | a stretch at whose start nothing matches is not an allergen |
| LabelScanner.SplitFromGaps | components/LabelScanner.tsx:58-61 | without empty allergens, no even-indexed piece is an allergen |
| LabelScanner.Highlight | components/LabelScanner.tsx:50-70 | a missing or empty list leaves the text whole; a piece is marked exactly when it equals an allergen ignoring case |
| LabelScanner.HighlightKeepsText | components/LabelScanner.tsx:50-70 | the highlighted pieces spell out the ingredients text exactly |
| LabelScanner.HighlightAlternates | components/LabelScanner.tsx:55-61 | with non-empty allergens, exactly the odd-indexed pieces are marked |
| LabelScanner.VerdictBand | components/LabelScanner.tsx:159-165 | safe band above 7, caution band above 4 up to 7, unsafe band otherwise |
| LabelScanner.ShowsCheckIcon | components/LabelScanner.tsx:168 | the check icon shows exactly in the safe band |
| LabelScanner.OverlayOf | components/LabelScanner.tsx:87-147 | the overlay shows exactly when a preview is shown, no scan is loading and a box is present; top/left are ymin/xmin and bottom/right land on ymax/xmax |
| LabelScanner.InvertedBoxNotClamped | components/LabelScanner.tsx:145 | an inverted box is drawn with a negative height: nothing clamps it |
| LabelScanner.Scanner.constructor | components/LabelScanner.tsx:13-15 | the scanner starts without preview, result or loading |
| LabelScanner.Scanner.StartScan | components/LabelScanner.tsx:17-30 | without a file nothing changes; otherwise preview is set, loading starts, the result is cleared and the label request gets the part after the first comma |
| LabelScanner.Scanner.FinishScan | components/LabelScanner.tsx:30-45 | success shows the result and records a "scan" entry with query "Label Scan", the score and the summary; failure records nothing; loading ends |
| LabelScanner.Scanner.Close | components/LabelScanner.tsx:125 | preview and result are cleared, loading is untouched |
| FoodAnalyzer.SafeFoods | components/FoodAnalyzer.tsx:58-60 | the planner input holds exactly the names of the `normal` items; its length is the displayed count |
| FoodAnalyzer.SafeFoodsOrder | components/FoodAnalyzer.tsx:58-60 | safe foods keep profile order: concatenation maps to concatenation, one item contributes its name exactly when `normal` |
| FoodAnalyzer.SafeAndProblemPartition | components/FoodAnalyzer.tsx:58-60 | every item goes either to the planner or to the analysis prompts, never both |
| FoodAnalyzer.GaugeLabelOf | components/FoodAnalyzer.tsx:76-88 | "Safe" from 8, "Caution" from 5 below 8, "Unsafe" below 5 |
| FoodAnalyzer.GaugeAndVerdictBands | components/FoodAnalyzer.tsx:80-88 | the gauge and the scanner card agree on whole scores but not on 7.5 or 4.5 |
| FoodAnalyzer.HistoryChips | components/FoodAnalyzer.tsx:136-173 | at most the first three entries, shown exactly on the analyze tab when there is no result and history is not empty |
| FoodAnalyzer.CheckDisabled | components/FoodAnalyzer.tsx:161 | the check button is enabled exactly when not loading and the query has a non-space character |
| FoodAnalyzer.GenerateDisabled | components/FoodAnalyzer.tsx:294 | the generate button is enabled exactly when nothing is loading |
| FoodAnalyzer.SearchEntry | components/FoodAnalyzer.tsx:32-39 | the recorded entry is a `search` entry with the query as typed, the result's score and summary, and an id that reads back as its timestamp |
| FoodAnalyzer.Analyzer.constructor | components/FoodAnalyzer.tsx:17-21 | empty query, not loading, no result or plan, analyze tab |
| FoodAnalyzer.Analyzer.SetQuery | components/FoodAnalyzer.tsx:153 | only the query changes |
| FoodAnalyzer.Analyzer.SelectTab | components/FoodAnalyzer.tsx:114 | only the tab changes |
| FoodAnalyzer.Analyzer.BeginCheck | components/FoodAnalyzer.tsx:23-29 | a blank query changes nothing and requests nothing; otherwise loading starts, result and plan are cleared and the safety request is returned |
| FoodAnalyzer.Analyzer.CompleteCheck | components/FoodAnalyzer.tsx:30-45 | success shows the result and records one "search" entry with the untrimmed query; failure records nothing; loading ends |
| FoodAnalyzer.Analyzer.HistoryClick | components/FoodAnalyzer.tsx:48-51 | a chip sets the query and nothing else |
| FoodAnalyzer.Analyzer.BeginPlan | components/FoodAnalyzer.tsx:53-62 | loading starts, result and plan are cleared, the planner gets the safe foods and health settings |
| FoodAnalyzer.Analyzer.CompletePlan | components/FoodAnalyzer.tsx:62-68 | a plan is shown on success; loading ends either way |
| FoodAnalyzer.Analyzer.NewPlan | components/FoodAnalyzer.tsx:327 | the plan is dropped and nothing else changes |
| ProfileCard.HeaderLabel | components/ProfileCard.tsx:70 | "General Profile" for condition "none", the condition itself otherwise |
| ProfileCard.ItemsAt | components/ProfileCard.tsx:49-51 | a level's list holds exactly the items at that level |
| ProfileCard.ItemsAtAppend | components/ProfileCard.tsx:49-51 | the level lists keep profile order |
| ProfileCard.LevelsPartition | components/ProfileCard.tsx:49-51 | every item is in its own level's list and no other; the three counts add up to the number of intolerances |
| ProfileCard.ItemsAtMiddle | components/ProfileCard.tsx:49-51 | an item in the middle of the profile sits in its level's list between the items around it |
| ProfileCard.BadgeRemove | components/ProfileCard.tsx:40 | with unique ids, a badge's remove button shortens its own list by one and leaves the other two as they were |
| ProfileCard.CutOne | components/ProfileCard.tsx:49-51 | cutting one item out shortens its own level's list by one and leaves the other lists unchanged |
| ProfileCard.Card.constructor | components/ProfileCard.tsx:13-16 | empty input, default level `elevated`, form closed, card collapsed |
| ProfileCard.Card.OpenForm | components/ProfileCard.tsx:142 | only the form opens |
| ProfileCard.Card.CancelForm | components/ProfileCard.tsx:159 | only the form closes |
| ProfileCard.Card.SetNewFood | components/ProfileCard.tsx:154 | only the input changes |
| ProfileCard.Card.SetNewLevel | components/ProfileCard.tsx:166 | only the level changes |
| ProfileCard.Card.ToggleExpanded | components/ProfileCard.tsx:59 | only the expansion flips |
| ProfileCard.Card.HandleAdd | components/ProfileCard.tsx:18-24 | a blank name adds nothing and changes nothing; otherwise the trimmed, non-empty name is added at the chosen level, the input is cleared and the form closes |

## Left out

- The hosted model calls and the prompt wording. Each call is a `CallOutcome` parameter; only the prompt inputs the code computes are modelled.
- `JSON.parse` is a parameter `string -> Option<T>`. A parsed `level` is assumed to be one of the three enum values, which the response schema requests.
- `Gemini.AnalyzeFoodSafety`: an object spread that adds keys absent from the record type is not modelled. The parsed JSON is an `AnalysisResult`.
- Asynchronous ordering and stale responses. Each handler is one start step and one finish step. Interleavings (for example a plan finishing during a check) are allowed but not analysed.
- The analyzer and scanner read `Date.now()` twice for one history entry. The model uses one timestamp for both id and time.
- `FileReader`, file inputs, `alert`, `console` and ReactMarkdown are browser I/O. A chosen file is its size and data URL.
- Persisting the profile to `localStorage` (App.tsx:16-18) and clearing it on logout (`clearProfile()`, App.tsx:56) are I/O. services/storage.ts enters only as the default profile constant.
- components/Layout.tsx, JSX, CSS and animations are presentation and are not part of this model.
- The gauge's SVG arc uses `Math.PI` floating point and is presentation only.
- `App.AddIntolerance`: id uniqueness across adds is not promised, because two adds in one millisecond share an id. The lemmas that need unique ids take it as a precondition.
- `Text.Lower` folds ASCII letters only, not full Unicode `toLowerCase`. String lengths count code points, not UTF-16 units, so `slice(0, 300)` is modelled on code points.
- `LabelScanner.Alternatives` reads only literal characters, escaped metacharacters and `|`. Other regular-expression constructs are not modelled, and none can arise from escaped allergens.
- `LabelScanner.OverlayOf`: a box with fewer than four numbers renders with undefined styles. It is the `Malformed` overlay, without modelling the browser's handling of `NaN%`.
- Render conditions become requires: Continue is only rendered in step 1, and Review only in step 2 (its disabled state is `ReviewEnabled`).
- `Onboarding.Wizard.StartUpload`: the upload zone is rendered only in step 2 and ignores clicks while a report is processing (Onboarding.tsx:198). The model accepts an upload in any step and during processing, so it allows more runs than the interface does.
