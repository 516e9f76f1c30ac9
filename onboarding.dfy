/** The three-step onboarding wizard (components/Onboarding.tsx): step 1
    collects health settings, step 2 offers a report upload and quick
    allergen picks, step 3 reviews and finishes. */
module Onboarding {
  import opened Wrappers
  import opened Seqs
  import opened Text
  import opened Types
  import App
  import Gemini

  /** Uploads above 20 MiB are refused before anything is read. */
  const MaxUploadBytes: nat := 20 * 1024 * 1024

  /** The media type used when the data URL does not name one. */
  const DefaultMediaType := "image/jpeg"

  /** The quick-pick labels offered in step 2. */
  const CommonAllergens := ["Gluten", "Dairy", "Peanuts", "Tree Nuts", "Shellfish", "Soy", "Eggs", "Fish"]

  /** A chosen file: its size and the data URL the browser reads from it. */
  datatype FileInfo = FileInfo(size: nat, dataUrl: string)

  // ---------------------------------------------------------------------
  // The data URL
  // ---------------------------------------------------------------------

  /** `\w`: ASCII letters, digits and underscore. */
  predicate IsWordChar(c: char) {
    ('a' <= c <= 'z') || ('A' <= c <= 'Z') || ('0' <= c <= '9') || c == '_'
  }

  /** The subtype class `[\w-+\d.]`: word characters, '-', '+' and '.'. */
  predicate IsSubtypeChar(c: char) {
    IsWordChar(c) || c == '-' || c == '+' || c == '.'
  }

  /** End of the longest run of word characters starting at `i`. */
  function WordEnd(s: string, i: nat): (r: nat)
    requires i <= |s|
    ensures i <= r <= |s|
    ensures forall k :: i <= k < r ==> IsWordChar(s[k])
    ensures r == |s| || !IsWordChar(s[r])
    decreases |s| - i
  {
    if i == |s| || !IsWordChar(s[i]) then i else WordEnd(s, i + 1)
  }

  /** End of the longest run of subtype characters starting at `i`. */
  function SubtypeEnd(s: string, i: nat): (r: nat)
    requires i <= |s|
    ensures i <= r <= |s|
    ensures forall k :: i <= k < r ==> IsSubtypeChar(s[k])
    ensures r == |s| || !IsSubtypeChar(s[r])
    decreases |s| - i
  {
    if i == |s| || !IsSubtypeChar(s[i]) then i else SubtypeEnd(s, i + 1)
  }

  /** `/[^:]\w+\/[\w-+\d.]+(?=;|,)/` tried at position `i`. Neither run can
      contain the character that must follow it, so backtracking never
      helps: each run is taken whole. */
  function MediaTypeAt(s: string, i: nat): (r: Option<string>)
    requires i < |s|
    ensures r.Some? ==> |r.value| >= 4 && '/' in r.value
  {
    if s[i] == ':' then None
    else
      var slash := WordEnd(s, i + 1);
      if slash == i + 1 || slash == |s| || s[slash] != '/' then None
      else
        var stop := SubtypeEnd(s, slash + 1);
        if stop == slash + 1 || stop == |s| || (s[stop] != ';' && s[stop] != ',') then None
        else
          assert s[i..stop][slash - i] == '/';
          Some(s[i..stop])
  }

  /** The leftmost match at or after `i`. */
  function FirstMediaType(s: string, i: nat): (r: Option<string>)
    ensures r.Some? ==> |r.value| >= 4 && '/' in r.value
    decreases |s| - i
  {
    if i >= |s| then None
    else match MediaTypeAt(s, i)
         case Some(t) => Some(t)
         case None => FirstMediaType(s, i + 1)
  }

  /** A match found at or after `i` is the one at the first position
      where the pattern matches. */
  lemma {:induction false} FirstMediaTypeLeftmost(s: string, i: nat)
    ensures FirstMediaType(s, i).Some? ==>
              exists j :: i <= j < |s| && MediaTypeAt(s, j) == FirstMediaType(s, i) &&
                          forall k :: i <= k < j ==> MediaTypeAt(s, k).None?
    decreases |s| - i
  {
    if i < |s| {
      var here := MediaTypeAt(s, i);
      if here.None? {
        FirstMediaTypeLeftmost(s, i + 1);
        if FirstMediaType(s, i + 1).Some? {
          var j :| i + 1 <= j < |s| && MediaTypeAt(s, j) == FirstMediaType(s, i + 1) &&
                   forall k :: i + 1 <= k < j ==> MediaTypeAt(s, k).None?;
          assert MediaTypeAt(s, j) == FirstMediaType(s, i);
        }
      } else {
        assert MediaTypeAt(s, i) == FirstMediaType(s, i);
      }
    }
  }

  /** No match at or after `i` means the pattern matches at no position
      there. */
  lemma {:induction false} FirstMediaTypeNone(s: string, i: nat)
    ensures FirstMediaType(s, i).None? ==> forall k :: i <= k < |s| ==> MediaTypeAt(s, k).None?
    decreases |s| - i
  {
    if i < |s| {
      FirstMediaTypeNone(s, i + 1);
    }
  }

  /** `match(...)?.[0] || 'image/jpeg'`: the leftmost match, or the default
      when the pattern matches nowhere. */
  function MediaType(dataUrl: string): (r: string)
    ensures (r == DefaultMediaType && forall k :: 0 <= k < |dataUrl| ==> MediaTypeAt(dataUrl, k).None?) ||
            exists j :: 0 <= j < |dataUrl| && MediaTypeAt(dataUrl, j) == Some(r) &&
                        forall k :: 0 <= k < j ==> MediaTypeAt(dataUrl, k).None?
  {
    FirstMediaTypeLeftmost(dataUrl, 0);
    FirstMediaTypeNone(dataUrl, 0);
    FirstMediaType(dataUrl, 0).GetOr(DefaultMediaType)
  }

  /** The report request built from a data URL: as payload the field after
      the first comma (up to a second comma, if any), and the media type. */
  function ReportRequestOf(dataUrl: string): (r: Gemini.ReportRequest)
    ensures r.data.None? <==> ',' !in dataUrl
    ensures r.data.Some? ==> ',' !in r.data.value
    ensures r.data.Some? ==> var start := IndexOf(dataUrl, ',') + 1;
              start + |r.data.value| <= |dataUrl| && dataUrl[start..start + |r.data.value|] == r.data.value
              && (start + |r.data.value| == |dataUrl| || dataUrl[start + |r.data.value|] == ',')
    ensures r.mimeType == MediaType(dataUrl)
  {
    Gemini.ReportRequest(SecondField(dataUrl, ','), MediaType(dataUrl))
  }

  /** The pattern matches at the first character of the type, running to
      the `;` or `,` behind the subtype. */
  lemma MatchAtType(url: string, slash: nat, stop: nat)
    requires 5 < slash - 1 && slash < stop - 1 && stop < |url|
    requires forall k :: 5 <= k < slash ==> IsWordChar(url[k])
    requires url[slash] == '/'
    requires forall k :: slash < k < stop ==> IsSubtypeChar(url[k])
    requires url[stop] == ';' || url[stop] == ','
    ensures MediaTypeAt(url, 5) == Some(url[5..stop])
  {
    assert WordEnd(url, 6) == slash;
    assert SubtypeEnd(url, slash + 1) == stop;
  }

  /** Nothing matches inside the `data:` scheme. */
  lemma NoMatchInScheme(url: string)
    requires |url| > 5 && url[..5] == "data:"
    ensures FirstMediaType(url, 0) == FirstMediaType(url, 5)
  {
    assert url[0] == 'd' && url[1] == 'a' && url[2] == 't' && url[3] == 'a' && url[4] == ':';
    assert WordEnd(url, 4) == 4;
    assert WordEnd(url, 3) == 4;
    assert WordEnd(url, 2) == 4;
    assert WordEnd(url, 1) == 4;
    assert MediaTypeAt(url, 4).None?;
    assert MediaTypeAt(url, 3).None?;
    assert MediaTypeAt(url, 2).None?;
    assert MediaTypeAt(url, 1).None?;
    assert MediaTypeAt(url, 0).None?;
    assert FirstMediaType(url, 4) == FirstMediaType(url, 5);
    assert FirstMediaType(url, 3) == FirstMediaType(url, 4);
    assert FirstMediaType(url, 2) == FirstMediaType(url, 3);
    assert FirstMediaType(url, 1) == FirstMediaType(url, 2);
    assert FirstMediaType(url, 0) == FirstMediaType(url, 1);
  }

  /** For a data URL `data:<type>/<subtype>;...` whose type has at least two
      characters, the media type is `<type>/<subtype>`. (A one-letter type is
      not matched, because the pattern's first character may not be the
      colon.) */
  lemma DataUrlMediaType(kind: string, subtype: string, rest: string)
    requires |kind| >= 2 && forall k :: 0 <= k < |kind| ==> IsWordChar(kind[k])
    requires |subtype| >= 1 && forall k :: 0 <= k < |subtype| ==> IsSubtypeChar(subtype[k])
    ensures MediaType("data:" + kind + "/" + subtype + ";" + rest) == kind + "/" + subtype
  {
    var url := "data:" + kind + "/" + subtype + ";" + rest;
    var slash := 5 + |kind|;
    var stop := slash + 1 + |subtype|;
    DataUrlShape(kind, subtype, rest);
    MatchAtType(url, slash, stop);
    NoMatchInScheme(url);
  }

  /** Where the pieces of such a data URL stand. */
  lemma DataUrlShape(kind: string, subtype: string, rest: string)
    requires |kind| >= 2 && forall k :: 0 <= k < |kind| ==> IsWordChar(kind[k])
    requires |subtype| >= 1 && forall k :: 0 <= k < |subtype| ==> IsSubtypeChar(subtype[k])
    ensures var url := "data:" + kind + "/" + subtype + ";" + rest;
            var slash := 5 + |kind|;
            var stop := slash + 1 + |subtype|;
            stop < |url| && url[..5] == "data:" && url[5..stop] == kind + "/" + subtype &&
            (forall k :: 5 <= k < slash ==> IsWordChar(url[k])) && url[slash] == '/' &&
            (forall k :: slash < k < stop ==> IsSubtypeChar(url[k])) && url[stop] == ';'
  {
    var url := "data:" + kind + "/" + subtype + ";" + rest;
    var slash := 5 + |kind|;
    var stop := slash + 1 + |subtype|;
    forall k | 5 <= k < slash ensures IsWordChar(url[k]) {
      assert url[k] == kind[k - 5];
    }
    forall k | slash < k < stop ensures IsSubtypeChar(url[k]) {
      assert url[k] == subtype[k - slash - 1];
    }
    assert url[slash] == '/' && url[stop] == ';';
    assert url[..5] == "data:";
    assert url[5..stop] == kind + "/" + subtype;
  }

  /** For a base64 data URL `data:<type>/<subtype>;base64,<payload>`, the
      request carries the payload and `<type>/<subtype>`. */
  lemma Base64DataUrl(kind: string, subtype: string, payload: string)
    requires |kind| >= 2 && forall k :: 0 <= k < |kind| ==> IsWordChar(kind[k])
    requires |subtype| >= 1 && forall k :: 0 <= k < |subtype| ==> IsSubtypeChar(subtype[k])
    requires ',' !in payload
    ensures var url := "data:" + kind + "/" + subtype + ";base64," + payload;
            ReportRequestOf(url) == Gemini.ReportRequest(Some(payload), kind + "/" + subtype)
  {
    var head := "data:" + kind + "/" + subtype + ";base64";
    var url := "data:" + kind + "/" + subtype + ";base64," + payload;
    assert url == head + [','] + payload;
    assert url == "data:" + kind + "/" + subtype + ";" + ("base64," + payload);
    forall k | 0 <= k < |head| ensures head[k] != ',' {
      if 5 <= k < 5 + |kind| {
        assert head[k] == kind[k - 5];
      } else if 6 + |kind| <= k < 6 + |kind| + |subtype| {
        assert head[k] == subtype[k - 6 - |kind|];
      }
    }
    assert ',' !in head;
    SecondFieldOfPair(head, ',', payload);
    DataUrlMediaType(kind, subtype, "base64," + payload);
  }

  /** Without a `/`, nothing matches and the default media type is used. */
  lemma NoSlashDefaultsToJpeg(dataUrl: string)
    requires '/' !in dataUrl
    ensures MediaType(dataUrl) == DefaultMediaType
  {
    NoSlashNoMatch(dataUrl, 0);
  }

  lemma {:induction false} NoSlashNoMatch(s: string, i: nat)
    requires '/' !in s
    ensures FirstMediaType(s, i).None?
    decreases |s| - i
  {
    if i < |s| {
      var slash := WordEnd(s, i + 1);
      if slash < |s| {
        assert s[slash] in s;
      }
      NoSlashNoMatch(s, i + 1);
    }
  }

  // ---------------------------------------------------------------------
  // Ids and the merged list
  // ---------------------------------------------------------------------

  /** `auto-${now}-${i}` */
  function AutoId(now: nat, i: nat): string {
    "auto-" + DecimalString(now) + "-" + DecimalString(i)
  }

  /** `manual-${now}-${i}` */
  function ManualId(now: nat, i: nat): string {
    "manual-" + DecimalString(now) + "-" + DecimalString(i)
  }

  /** Two ids built from the same prefix differ when the indices do,
      whatever the two timestamps: a timestamp has no '-', so the first '-'
      after the prefix separates it from the index. */
  lemma IndexedIdsDiffer(prefix: string, t1: nat, i: nat, t2: nat, j: nat)
    requires i != j
    ensures prefix + DecimalString(t1) + "-" + DecimalString(i) != prefix + DecimalString(t2) + "-" + DecimalString(j)
  {
    var a, b := DecimalString(t1), DecimalString(t2);
    assert '-' !in a && '-' !in b;
    DashSplits(prefix, a, DecimalString(i), b, DecimalString(j));
    if DecimalString(i) == DecimalString(j) {
      DecimalInjective(i, j);
    }
  }

  /** A '-' after the prefix that neither stamp contains splits an id in
      exactly one way. */
  lemma DashSplits(prefix: string, a: string, d1: string, b: string, d2: string)
    requires '-' !in a && '-' !in b
    ensures prefix + a + "-" + d1 == prefix + b + "-" + d2 ==> a == b && d1 == d2
  {
    var x := prefix + a + "-" + d1;
    var y := prefix + b + "-" + d2;
    var n := |prefix|;
    assert x == prefix + a + ("-" + d1) && y == prefix + b + ("-" + d2);
    if |a| < |b| {
      assert b[|a|] in b;
      assert x[n + |a|] != y[n + |a|];
    } else if |b| < |a| {
      assert a[|b|] in a;
      assert x[n + |b|] != y[n + |b|];
    } else {
      assert x[n..n + |a|] == a && y[n..n + |b|] == b;
      assert x[n + |a| + 1..] == d1 && y[n + |b| + 1..] == d2;
    }
  }

  /** Manual ids within one finish are distinct, as are the ids of one
      parsed report, even when the clock moves between two items. */
  lemma IdsDistinct(t1: nat, i: nat, t2: nat, j: nat)
    requires i != j
    ensures ManualId(t1, i) != ManualId(t2, j)
    ensures AutoId(t1, i) != AutoId(t2, j)
  {
    IndexedIdsDiffer("manual-", t1, i, t2, j);
    IndexedIdsDiffer("auto-", t1, i, t2, j);
  }

  /** A parsed id never equals a manual id, whatever the timestamps. */
  lemma AutoIsNotManual(t1: nat, i: nat, t2: nat, j: nat)
    ensures AutoId(t1, i) != ManualId(t2, j)
  {
    assert AutoId(t1, i)[0] == 'a' && ManualId(t2, j)[0] == 'm';
  }

  /** The decoded report's entries as profile items, same food, same level,
      same order, each with an `auto-` id. The clock is read once per item:
      `clock(i)` is the reading taken while building item `i`. */
  function AutoItems(foods: seq<Gemini.ParsedFood>, clock: nat -> nat): (r: seq<IntoleranceItem>)
    ensures |r| == |foods|
    ensures forall i :: 0 <= i < |foods| ==>
              r[i].food == foods[i].food && r[i].level == foods[i].level && r[i].id == AutoId(clock(i), i)
  {
    seq(|foods|, i requires 0 <= i < |foods| => IntoleranceItem(AutoId(clock(i), i), foods[i].food, foods[i].level))
  }

  /** What finish hands to the shell: the parsed items, then one `elevated`
      item per quick pick, in pick order, with one clock reading per pick. */
  function FinishItems(parsed: seq<IntoleranceItem>, manual: seq<string>, clock: nat -> nat): (r: seq<IntoleranceItem>)
    ensures |r| == |parsed| + |manual|
    ensures r[..|parsed|] == parsed
    ensures forall i :: 0 <= i < |manual| ==>
              r[|parsed| + i] == IntoleranceItem(ManualId(clock(i), i), manual[i], Elevated)
  {
    parsed + seq(|manual|, i requires 0 <= i < |manual| => IntoleranceItem(ManualId(clock(i), i), manual[i], Elevated))
  }

  /** Finishing after a report upload yields unique ids, however the clock
      moves while the two lists are built. */
  lemma FinishIdsUnique(foods: seq<Gemini.ParsedFood>, c1: nat -> nat, manual: seq<string>, c2: nat -> nat)
    ensures App.UniqueIds(FinishItems(AutoItems(foods, c1), manual, c2))
  {
    var parsed := AutoItems(foods, c1);
    var r := FinishItems(parsed, manual, c2);
    forall i, j | 0 <= i < j < |r| ensures r[i].id != r[j].id {
      if j < |parsed| {
        assert r[i] == parsed[i] && r[j] == parsed[j];
        IdsDistinct(c1(i), i, c1(j), j);
      } else if i < |parsed| {
        assert r[i] == parsed[i];
        AutoIsNotManual(c1(i), i, c2(j - |parsed|), j - |parsed|);
      } else {
        IdsDistinct(c2(i - |parsed|), i - |parsed|, c2(j - |parsed|), j - |parsed|);
      }
    }
  }

  // ---------------------------------------------------------------------
  // Quick picks: an insertion-ordered set
  // ---------------------------------------------------------------------

  /** The test "is not this label" that `Set.delete` applies. */
  function OtherPick(pick: string): string -> bool {
    (x: string) => x != pick
  }

  /** `toggleSelection`: delete the label if present, otherwise add it at
      the end. */
  function Toggled(picks: seq<string>, pick: string): (r: seq<string>)
    ensures forall x :: x in r <==> (if x == pick then pick !in picks else x in picks)
  {
    if pick in picks then Filter(OtherPick(pick), picks) else picks + [pick]
  }

  /** Deleting a label cuts it out where it stands: the other picks keep
      their insertion order, which is the order `finish` numbers them in. */
  lemma ToggleRemovesInPlace(picks: seq<string>, pick: string, k: nat)
    requires Distinct(picks) && k < |picks| && picks[k] == pick
    ensures Toggled(picks, pick) == picks[..k] + picks[k + 1..]
  {
    var before, after := picks[..k], picks[k + 1..];
    assert picks == before + [pick] + after;
    assert pick in picks;
    assert pick !in before by {
      forall i | 0 <= i < |before| ensures before[i] != pick {
        assert before[i] == picks[i];
      }
    }
    assert pick !in after by {
      forall i | 0 <= i < |after| ensures after[i] != pick {
        assert after[i] == picks[k + 1 + i];
      }
    }
    CutPick(before, pick, after);
  }

  /** Filtering out a label that occurs once leaves what stood around it. */
  lemma CutPick(before: seq<string>, pick: string, after: seq<string>)
    requires pick !in before && pick !in after
    ensures Filter(OtherPick(pick), before + [pick] + after) == before + after
  {
    var f := OtherPick(pick);
    assert Filter(f, before + [pick]) == before by {
      FilterAppend(f, before, [pick]);
      KeepsOtherPicks(before, pick);
      assert Filter(f, [pick]) == [] by {
        assert [pick][1..] == [];
      }
    }
    assert Filter(f, after) == after by {
      KeepsOtherPicks(after, pick);
    }
    FilterAppend(f, before + [pick], after);
  }

  /** Filtering out a label nobody holds keeps the picks as they are. */
  lemma KeepsOtherPicks(picks: seq<string>, pick: string)
    requires pick !in picks
    ensures Filter(OtherPick(pick), picks) == picks
  {
    forall x | x in picks ensures OtherPick(pick)(x) {
    }
    FilterKeepsAll(OtherPick(pick), picks);
  }

  /** The picks never hold a label twice. */
  lemma ToggledDistinct(picks: seq<string>, pick: string)
    requires Distinct(picks)
    ensures Distinct(Toggled(picks, pick))
  {
    if pick in picks {
      FilterDistinct(OtherPick(pick), picks);
    }
  }

  /** Toggling twice restores the membership of every label. */
  lemma ToggleTwice(picks: seq<string>, pick: string)
    ensures forall x :: x in Toggled(Toggled(picks, pick), pick) <==> x in picks
  {
  }

  /** An absent label is added last; a present one that is toggled off and
      on again moves to the end. */
  lemma ToggleAddsLast(picks: seq<string>, pick: string)
    ensures pick !in picks ==> Toggled(picks, pick) == picks + [pick]
    ensures pick in picks ==> var again := Toggled(Toggled(picks, pick), pick);
                              again[|again| - 1] == pick
  {
  }

  // ---------------------------------------------------------------------
  // The wizard
  // ---------------------------------------------------------------------

  /** Review is disabled only when nothing was picked, nothing was parsed
      and no upload is in flight. */
  function ReviewEnabled(picks: seq<string>, parsed: seq<IntoleranceItem>, processing: bool): (enabled: bool)
    ensures enabled <==> picks != [] || parsed != [] || processing
  {
    !(|picks| == 0 && |parsed| == 0 && !processing)
  }

  class Wizard {
    var step: nat
    var health: HealthProfile
    var isProcessing: bool
    var parsedFoods: seq<IntoleranceItem>
    var manualSelections: seq<string>

    ghost predicate Valid()
      reads this
    {
      1 <= step <= 3 && Distinct(manualSelections)
    }

    constructor ()
      ensures Valid()
      ensures step == 1 && health == HealthProfile("none", "balanced") && !isProcessing
      ensures parsedFoods == [] && manualSelections == []
    {
      step := 1;
      health := HealthProfile("none", "balanced");
      isProcessing := false;
      parsedFoods := [];
      manualSelections := [];
    }

    /** The condition select of step 1. */
    method SetCondition(condition: string)
      requires Valid()
      modifies this
      ensures Valid() && health == old(health).(condition := condition)
      ensures step == old(step) && isProcessing == old(isProcessing)
      ensures parsedFoods == old(parsedFoods) && manualSelections == old(manualSelections)
    {
      health := health.(condition := condition);
    }

    /** The preference select of step 1. */
    method SetPreference(preference: string)
      requires Valid()
      modifies this
      ensures Valid() && health == old(health).(preference := preference)
      ensures step == old(step) && isProcessing == old(isProcessing)
      ensures parsedFoods == old(parsedFoods) && manualSelections == old(manualSelections)
    {
      health := health.(preference := preference);
    }

    /** The Continue button, rendered only in step 1. */
    method Continue()
      requires Valid() && step == 1
      modifies this
      ensures Valid() && step == 2
      ensures health == old(health) && isProcessing == old(isProcessing)
      ensures parsedFoods == old(parsedFoods) && manualSelections == old(manualSelections)
    {
      step := 2;
    }

    /** The Review button of step 2, usable only when enabled. */
    method Review()
      requires Valid() && step == 2 && ReviewEnabled(manualSelections, parsedFoods, isProcessing)
      modifies this
      ensures Valid() && step == 3
      ensures health == old(health) && isProcessing == old(isProcessing)
      ensures parsedFoods == old(parsedFoods) && manualSelections == old(manualSelections)
    {
      step := 3;
    }

    /** A quick-pick chip of step 2. */
    method ToggleSelection(pick: string)
      requires Valid()
      modifies this
      ensures Valid() && manualSelections == Toggled(old(manualSelections), pick)
      ensures step == old(step) && health == old(health) && isProcessing == old(isProcessing)
      ensures parsedFoods == old(parsedFoods)
    {
      ToggledDistinct(manualSelections, pick);
      manualSelections := Toggled(manualSelections, pick);
    }

    /** The synchronous half of `handleFileUpload`: no file or an oversized
        file changes nothing and requests nothing; otherwise processing
        starts and the report request is returned. */
    method StartUpload(file: Option<FileInfo>) returns (request: Option<Gemini.ReportRequest>)
      requires Valid()
      modifies this
      ensures Valid()
      ensures file.None? || file.value.size > MaxUploadBytes ==>
                request.None? && isProcessing == old(isProcessing)
      ensures file.Some? && file.value.size <= MaxUploadBytes ==>
                request == Some(ReportRequestOf(file.value.dataUrl)) && isProcessing
      ensures step == old(step) && health == old(health)
      ensures parsedFoods == old(parsedFoods) && manualSelections == old(manualSelections)
    {
      if file.None? {
        return None;
      }
      if file.value.size > MaxUploadBytes {
        return None;
      }
      isProcessing := true;
      request := Some(ReportRequestOf(file.value.dataUrl));
    }

    /** The asynchronous half: a decoded report with a food list replaces the
        parsed foods and moves to step 3; a failed call, a parse error or a
        report without `foods` (whose `map` throws) changes only the
        processing flag. Processing ends either way. */
    method FinishUpload(outcome: Result<Gemini.Report, string>, clock: nat -> nat)
      requires Valid()
      modifies this
      ensures Valid() && !isProcessing && step >= old(step)
      ensures outcome.Success? && outcome.value.foods.Some? ==>
                parsedFoods == AutoItems(outcome.value.foods.value, clock) && step == 3
      ensures !(outcome.Success? && outcome.value.foods.Some?) ==>
                parsedFoods == old(parsedFoods) && step == old(step)
      ensures health == old(health) && manualSelections == old(manualSelections)
    {
      if outcome.Success? && outcome.value.foods.Some? {
        parsedFoods := AutoItems(outcome.value.foods.value, clock);
        step := 3;
      }
      isProcessing := false;
    }

    /** The Finish button of step 3: the health settings and the merged list
        handed to the shell. */
    method Finish(clock: nat -> nat) returns (h: HealthProfile, items: seq<IntoleranceItem>)
      requires Valid()
      ensures h == health
      ensures |items| == |parsedFoods| + |manualSelections|
      ensures items == FinishItems(parsedFoods, manualSelections, clock)
    {
      h := health;
      items := FinishItems(parsedFoods, manualSelections, clock);
    }
  }
}
