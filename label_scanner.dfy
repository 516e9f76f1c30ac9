/** The label scanner panel (components/LabelScanner.tsx): the scan
    handler's state changes, the allergen highlighter, the verdict bands
    and the bounding-box overlay. */
module LabelScanner {
  import opened Wrappers
  import opened Seqs
  import opened Text
  import opened Types
  import Gemini

  // ---------------------------------------------------------------------
  // Building the highlight pattern
  // ---------------------------------------------------------------------

  /** The characters the highlighter escapes: `[.*+?^${}()|[\]\\]`. */
  predicate IsMeta(c: char) {
    c in ".*+?^${}()|[]\\"
  }

  /** `a.replace(/[.*+?^${}()|[\]\\]/g, '\\$&')`: a backslash before every
      metacharacter. */
  function Escape(a: string): (r: string)
    ensures (forall k :: 0 <= k < |a| ==> !IsMeta(a[k])) ==> r == a
  {
    if a == [] then []
    else EscapeChar(a[0]) + Escape(a[1..])
  }

  /** The pattern body `escaped.join('|')`. */
  function Pattern(allergens: seq<string>): string {
    Join(Map(Escape, allergens), "|")
  }

  /** How a regular-expression engine reads a pattern made of literal
      characters, escaped metacharacters and `|`: the list of literal
      alternatives, or `None` for any other construct. */
  function Alternatives(p: string): (r: Option<seq<string>>)
    ensures r.Some? ==> |r.value| >= 1
  {
    if p == [] then Some([""])
    else if p[0] == '|' then
      match Alternatives(p[1..])
      case None => None
      case Some(rest) => Some([""] + rest)
    else if p[0] == '\\' then
      if |p| >= 2 && IsMeta(p[1]) then
        match Alternatives(p[2..])
        case None => None
        case Some(rest) => Some([[p[1]] + rest[0]] + rest[1..])
      else None
    else if IsMeta(p[0]) then None
    else
      match Alternatives(p[1..])
      case None => None
      case Some(rest) => Some([[p[0]] + rest[0]] + rest[1..])
  }

  /** The pattern text for one character: escaped if it is a metacharacter. */
  function EscapeChar(c: char): string {
    if IsMeta(c) then ['\\', c] else [c]
  }

  /** One (escaped) character in front of a pattern joins the first
      alternative. */
  lemma AlternativesCons(c: char, x: string)
    requires Alternatives(x).Some?
    ensures Alternatives(EscapeChar(c) + x)
            == Some([[c] + Alternatives(x).value[0]] + Alternatives(x).value[1..])
  {
    var p := EscapeChar(c) + x;
    if IsMeta(c) {
      assert p[0] == '\\' && p[1] == c && p[2..] == x;
    } else {
      assert p[0] == c && p[1..] == x;
    }
  }

  lemma EscapeCons(a: string, tail: string)
    requires a != []
    ensures Escape(a) + tail == EscapeChar(a[0]) + (Escape(a[1..]) + tail)
  {
  }

  /** An escaped allergen is read back as that allergen, prefixed to the
      first alternative of whatever follows. */
  lemma {:induction false} EscapeReadsBack(a: string, tail: string)
    requires Alternatives(tail).Some?
    ensures Alternatives(Escape(a) + tail)
            == Some([a + Alternatives(tail).value[0]] + Alternatives(tail).value[1..])
  {
    var alts := Alternatives(tail).value;
    if a == [] {
      assert Escape(a) + tail == tail;
      assert a + alts[0] == alts[0];
      assert [alts[0]] + alts[1..] == alts;
    } else {
      EscapeReadsBack(a[1..], tail);
      EscapeCons(a, tail);
      EscapeStep(a[0], a[1..], Escape(a[1..]) + tail, alts);
      assert [a[0]] + a[1..] == a;
    }
  }

  /** One escaped character in front of an escaped rest extends the rest's
      first alternative by that character. */
  lemma EscapeStep(c: char, rest: string, x: string, alts: seq<string>)
    requires |alts| >= 1
    requires Alternatives(x) == Some([rest + alts[0]] + alts[1..])
    ensures Alternatives(EscapeChar(c) + x) == Some([[c] + rest + alts[0]] + alts[1..])
  {
    var r := Alternatives(x).value;
    AlternativesCons(c, x);
    assert r[0] == rest + alts[0] && r[1..] == alts[1..];
    assert [c] + r[0] == [c] + rest + alts[0];
  }

  /** The pattern of a longer list: the first escaped allergen, a bar,
      and the pattern of the rest. */
  lemma PatternCons(allergens: seq<string>)
    requires |allergens| >= 2
    ensures Pattern(allergens) == Escape(allergens[0]) + ("|" + Pattern(allergens[1..]))
  {
    var escaped := Map(Escape, allergens);
    assert escaped[1..] == Map(Escape, allergens[1..]);
  }

  /** The escaped, joined pattern stands for exactly the allergens, each
      matched literally and in list order. */
  lemma {:induction false} PatternReadsBack(allergens: seq<string>)
    requires allergens != []
    ensures Alternatives(Pattern(allergens)) == Some(allergens)
  {
    if |allergens| == 1 {
      assert Pattern(allergens) == Escape(allergens[0]) + "";
      assert Alternatives("") == Some([""]);
      EscapeReadsBack(allergens[0], "");
      assert allergens[0] + "" == allergens[0];
      assert [allergens[0]] + [""][1..] == allergens;
    } else {
      var rest := allergens[1..];
      PatternReadsBack(rest);
      PatternCons(allergens);
      var tail := "|" + Pattern(rest);
      assert tail[0] == '|' && tail[1..] == Pattern(rest);
      assert Alternatives(tail) == Some([""] + rest);
      EscapeReadsBack(allergens[0], tail);
      assert ([""] + rest)[0] == "" && ([""] + rest)[1..] == rest;
      assert allergens[0] + "" == allergens[0];
      assert [allergens[0]] + rest == allergens;
    }
  }

  // ---------------------------------------------------------------------
  // Splitting with the pattern
  // ---------------------------------------------------------------------

  /** The pattern tried at `q` (sticky, case-insensitive): the end of the
      match of the first alternative, in list order, that matches there. */
  function MatchAt(text: string, alts: seq<string>, q: nat): (r: Option<nat>)
    requires q <= |text|
    ensures r.Some? ==> q <= r.value <= |text|
  {
    if alts == [] then None
    else if q + |alts[0]| <= |text| && SameIgnoringCase(text[q..q + |alts[0]|], alts[0]) then
      Some(q + |alts[0]|)
    else MatchAt(text, alts[1..], q)
  }

  /** A match ends one allergen's length after `q`, and what it covers
      equals that allergen ignoring case; no match means no allergen fits
      at `q`. */
  lemma {:induction false} MatchAtSpec(text: string, alts: seq<string>, q: nat)
    requires q <= |text|
    ensures MatchAt(text, alts, q).Some? ==>
              exists i :: 0 <= i < |alts| && MatchAt(text, alts, q).value == q + |alts[i]| &&
                          SameIgnoringCase(text[q..MatchAt(text, alts, q).value], alts[i])
    ensures MatchAt(text, alts, q).None? ==> forall i :: 0 <= i < |alts| ==>
              !(q + |alts[i]| <= |text| && SameIgnoringCase(text[q..q + |alts[i]|], alts[i]))
  {
    if alts != [] {
      MatchAtSpec(text, alts[1..], q);
      var r := MatchAt(text, alts, q);
      if !(q + |alts[0]| <= |text| && SameIgnoringCase(text[q..q + |alts[0]|], alts[0])) {
        assert r == MatchAt(text, alts[1..], q);
        if r.Some? {
          var i :| 0 <= i < |alts[1..]| && r.value == q + |alts[1..][i]| &&
                   SameIgnoringCase(text[q..r.value], alts[1..][i]);
          assert alts[1..][i] == alts[i + 1];
        } else {
          forall i | 0 <= i < |alts|
            ensures !(q + |alts[i]| <= |text| && SameIgnoringCase(text[q..q + |alts[i]|], alts[i]))
          {
            if i > 0 {
              assert alts[i] == alts[1..][i - 1];
            }
          }
        }
      }
    }
  }

  /** The main loop of `String.prototype.split` with a regular expression
      (section 22.2.6.14 of ECMA-262): `p` is where the current piece
      starts, `q` where the next match is tried. A match ending at `p`
      (an empty match at the piece start) is skipped; otherwise the piece
      and the captured match are emitted. */
  function SplitFrom(text: string, alts: seq<string>, p: nat, q: nat): seq<string>
    requires p <= q <= |text|
    decreases |text| - q, if p == q then 0 else 1
  {
    if q == |text| then [text[p..]]
    else match MatchAt(text, alts, q)
      case None => SplitFrom(text, alts, p, q + 1)
      case Some(e) =>
        if e == p then SplitFrom(text, alts, p, q + 1)
        else [text[p..q], text[q..e]] + SplitFrom(text, alts, e, e)
  }

  /** `text.split(pattern)`; on an empty text the result is empty exactly
      when the pattern matches there. */
  function Split(text: string, alts: seq<string>): seq<string> {
    if text == [] then
      if MatchAt(text, alts, 0).Some? then [] else [""]
    else SplitFrom(text, alts, 0, 0)
  }

  function Concat(parts: seq<string>): string {
    if parts == [] then "" else parts[0] + Concat(parts[1..])
  }

  lemma {:induction false} ConcatAppend(a: seq<string>, b: seq<string>)
    ensures Concat(a + b) == Concat(a) + Concat(b)
  {
    if a == [] {
      assert a + b == b;
    } else {
      assert (a + b)[0] == a[0];
      assert (a + b)[1..] == a[1..] + b;
      ConcatAppend(a[1..], b);
    }
  }

  /** The pieces, put back together, are the text from `p` on. */
  lemma {:induction false} SplitFromConcat(text: string, alts: seq<string>, p: nat, q: nat)
    requires p <= q <= |text|
    ensures Concat(SplitFrom(text, alts, p, q)) == text[p..]
    decreases |text| - q, if p == q then 0 else 1
  {
    if q == |text| {
      assert Concat([text[p..]]) == text[p..] + Concat([]);
    } else {
      match MatchAt(text, alts, q)
      case None => SplitFromConcat(text, alts, p, q + 1);
      case Some(e) =>
        if e == p {
          SplitFromConcat(text, alts, p, q + 1);
        } else {
          SplitFromConcat(text, alts, e, e);
          var rest := SplitFrom(text, alts, e, e);
          ConcatAppend([text[p..q], text[q..e]], rest);
          assert Concat([text[p..q], text[q..e]]) == text[p..q] + (text[q..e] + "");
          assert text[p..] == text[p..q] + text[q..e] + text[e..];
        }
    }
  }

  /** `part` case-insensitively equals one of `alts`. */
  predicate IsAllergen(alts: seq<string>, part: string) {
    exists i :: 0 <= i < |alts| && SameIgnoringCase(alts[i], part)
  }

  /** What the pattern matches is, ignoring case, one of the allergens. */
  lemma MatchIsAllergen(text: string, alts: seq<string>, q: nat)
    requires q <= |text| && MatchAt(text, alts, q).Some?
    ensures IsAllergen(alts, text[q..MatchAt(text, alts, q).value])
  {
    MatchAtSpec(text, alts, q);
    var e := MatchAt(text, alts, q).value;
    var i :| 0 <= i < |alts| && e == q + |alts[i]| && SameIgnoringCase(text[q..e], alts[i]);
  }

  /** The pieces alternate between text and matches: their number is odd. */
  lemma {:induction false} SplitFromOdd(text: string, alts: seq<string>, p: nat, q: nat)
    requires p <= q <= |text|
    ensures |SplitFrom(text, alts, p, q)| % 2 == 1
    decreases |text| - q, if p == q then 0 else 1
  {
    if q < |text| {
      var m := MatchAt(text, alts, q);
      if m.None? || m.value == p {
        SplitFromOdd(text, alts, p, q + 1);
      } else {
        SplitFromOdd(text, alts, m.value, m.value);
      }
    }
  }

  /** Every odd-indexed piece is a match of some allergen. */
  lemma {:induction false} SplitFromMatches(text: string, alts: seq<string>, p: nat, q: nat)
    requires p <= q <= |text|
    ensures forall i :: 0 <= i < |SplitFrom(text, alts, p, q)| && i % 2 == 1 ==>
              IsAllergen(alts, SplitFrom(text, alts, p, q)[i])
    decreases |text| - q, if p == q then 0 else 1
  {
    if q < |text| {
      var m := MatchAt(text, alts, q);
      if m.None? || m.value == p {
        SplitFromMatches(text, alts, p, q + 1);
      } else {
        var e := m.value;
        SplitFromMatches(text, alts, e, e);
        MatchIsAllergen(text, alts, q);
        OddPiecesStep(text[p..q], text[q..e], SplitFrom(text, alts, e, e), alts);
      }
    }
  }

  /** One step of the split loop keeps odd pieces matches. */
  lemma OddPiecesStep(gap: string, hit: string, rest: seq<string>, alts: seq<string>)
    requires IsAllergen(alts, hit)
    requires forall i :: 0 <= i < |rest| && i % 2 == 1 ==> IsAllergen(alts, rest[i])
    ensures forall i :: 0 <= i < |[gap, hit] + rest| && i % 2 == 1 ==> IsAllergen(alts, ([gap, hit] + rest)[i])
  {
    var parts := [gap, hit] + rest;
    forall i | 0 <= i < |parts| && i % 2 == 1 ensures IsAllergen(alts, parts[i]) {
      if i >= 2 {
        assert parts[i] == rest[i - 2];
      }
    }
  }

  predicate NoEmptyAllergen(alts: seq<string>) {
    forall i :: 0 <= i < |alts| ==> alts[i] != ""
  }

  /** A non-empty stretch at whose start no allergen matches is not itself
      an allergen. */
  lemma GapIsNotAllergen(text: string, alts: seq<string>, p: nat, q: nat)
    requires NoEmptyAllergen(alts)
    requires p <= q <= |text|
    requires p < q ==> MatchAt(text, alts, p).None?
    ensures !IsAllergen(alts, text[p..q])
  {
    if p < q {
      MatchAtSpec(text, alts, p);
    }
  }

  /** Without empty allergens, the even-indexed pieces are never allergens:
      the loop only emits a piece after trying every position in it. */
  lemma {:induction false} SplitFromGaps(text: string, alts: seq<string>, p: nat, q: nat)
    requires NoEmptyAllergen(alts)
    requires p <= q <= |text|
    requires p < q ==> MatchAt(text, alts, p).None?
    ensures forall i :: 0 <= i < |SplitFrom(text, alts, p, q)| && i % 2 == 0 ==>
              !IsAllergen(alts, SplitFrom(text, alts, p, q)[i])
    decreases |text| - q, if p == q then 0 else 1
  {
    var parts := SplitFrom(text, alts, p, q);
    if q == |text| {
      GapIsNotAllergen(text, alts, p, q);
    } else {
      match MatchAt(text, alts, q)
      case None => SplitFromGaps(text, alts, p, q + 1);
      case Some(e) =>
        MatchAtSpec(text, alts, q);
        assert e != q;
        SplitFromGaps(text, alts, e, e);
        var rest := SplitFrom(text, alts, e, e);
        GapIsNotAllergen(text, alts, p, q);
        forall i | 0 <= i < |parts| && i % 2 == 0 ensures !IsAllergen(alts, parts[i]) {
          if i >= 2 {
            assert parts[i] == rest[i - 2];
          }
        }
    }
  }

  // ---------------------------------------------------------------------
  // The highlighter
  // ---------------------------------------------------------------------

  /** A rendered piece: plain text, or a red badge. */
  datatype Segment = Plain(text: string) | Marked(text: string)

  function Mark(allergens: seq<string>, part: string): Segment {
    if IsAllergen(allergens, part) then Marked(part) else Plain(part)
  }

  function SegmentText(s: Segment): string {
    s.text
  }

  /** `highlightIngredients`: a missing or empty allergen list leaves the
      text as it is; otherwise the text is split by the allergens and each
      piece equal (ignoring case) to an allergen is marked. */
  function Highlight(text: string, allergens: Option<seq<string>>): (r: seq<Segment>)
    ensures allergens.None? || allergens.value == [] ==> r == [Plain(text)]
    ensures forall i :: 0 <= i < |r| ==> (r[i].Marked? <==> IsAllergen(allergens.GetOr([]), r[i].text))
  {
    match allergens
    case None => [Plain(text)]
    case Some(list) =>
      if list == [] then [Plain(text)]
      else Map(part => Mark(list, part), Split(text, list))
  }

  /** Nothing is lost or reordered: the pieces spell out the text. */
  lemma HighlightKeepsText(text: string, allergens: Option<seq<string>>)
    ensures Concat(Map(SegmentText, Highlight(text, allergens))) == text
  {
    var r := Highlight(text, allergens);
    if allergens.Some? && allergens.value != [] {
      var parts := Split(text, allergens.value);
      assert Map(SegmentText, r) == parts;
      if text != [] {
        SplitFromConcat(text, allergens.value, 0, 0);
      }
    } else {
      assert Map(SegmentText, r) == [text];
      assert Concat([text]) == text + Concat([]);
    }
  }

  /** With non-empty allergens, exactly the odd-indexed pieces are marked,
      and each of them matches an allergen. */
  lemma HighlightAlternates(text: string, allergens: seq<string>)
    requires allergens != [] && NoEmptyAllergen(allergens)
    ensures var r := Highlight(text, Some(allergens));
            |r| % 2 == 1 &&
            forall i :: 0 <= i < |r| ==> (r[i].Marked? <==> i % 2 == 1)
  {
    if text != [] {
      SplitFromOdd(text, allergens, 0, 0);
      SplitFromMatches(text, allergens, 0, 0);
      SplitFromGaps(text, allergens, 0, 0);
    } else {
      MatchAtSpec(text, allergens, 0);
      GapIsNotAllergen(text, allergens, 0, 0);
    }
  }

  // ---------------------------------------------------------------------
  // Verdict and overlay
  // ---------------------------------------------------------------------

  datatype Band = SafeBand | CautionBand | UnsafeBand

  /** The colour band of the verdict card. */
  function VerdictBand(score: real): (b: Band)
    ensures b == SafeBand <==> score > 7.0
    ensures b == CautionBand <==> 4.0 < score <= 7.0
    ensures b == UnsafeBand <==> score <= 4.0
  {
    if score > 7.0 then SafeBand else if score > 4.0 then CautionBand else UnsafeBand
  }

  /** The check icon (otherwise a cross) next to the verdict. */
  function ShowsCheckIcon(score: real): (shown: bool)
    ensures shown <==> VerdictBand(score) == SafeBand
  {
    score > 7.0
  }

  /** The overlay drawn over the preview, in percent of the image. A box
      with fewer than four numbers still renders, with undefined styles. */
  datatype Overlay = NoOverlay | Rect(top: real, left: real, height: real, width: real) | Malformed

  /** `[ymin, xmin, ymax, xmax]` drawn as a rectangle, without clamping.
      The rectangle lives inside the preview pane, so without a preview
      (the upload area is shown instead) there is no overlay. */
  function OverlayOf(preview: Option<string>, loading: bool, result: Option<AnalysisResult>): (o: Overlay)
    ensures o != NoOverlay <==> preview.Some? && !loading && result.Some? && result.value.boundingBox.Some?
    ensures o.Rect? ==> var b := result.value.boundingBox.value;
              |b| >= 4 && o.top == b[0] && o.left == b[1] &&
              o.top + o.height == b[2] && o.left + o.width == b[3]
    ensures o.Malformed? ==> |result.value.boundingBox.value| < 4
  {
    if preview.None? || loading || result.None? || result.value.boundingBox.None? then NoOverlay
    else
      var b := result.value.boundingBox.value;
      if |b| < 4 then Malformed else Rect(b[0], b[1], b[2] - b[0], b[3] - b[1])
  }

  /** An inverted box is drawn with a negative height: nothing clamps it. */
  lemma InvertedBoxNotClamped(image: string, result: AnalysisResult)
    requires result.boundingBox == Some([60.0, 10.0, 20.0, 90.0])
    ensures OverlayOf(Some(image), false, Some(result)) == Rect(60.0, 10.0, -40.0, 80.0)
  {
  }

  // ---------------------------------------------------------------------
  // The panel
  // ---------------------------------------------------------------------

  /** The query recorded for every scan. */
  const ScanQuery := "Label Scan"

  class Scanner {
    var loading: bool
    var preview: Option<string>
    var result: Option<AnalysisResult>

    /** While a scan is in flight no result is shown. */
    ghost predicate Valid()
      reads this
    {
      loading ==> result.None?
    }

    constructor ()
      ensures Valid() && !loading && preview.None? && result.None?
    {
      loading := false;
      preview := None;
      result := None;
    }

    /** The synchronous half of `handleFileChange`: without a file nothing
        happens; otherwise the image is previewed, loading starts, the old
        result is cleared and the label request is returned. */
    method StartScan(dataUrl: Option<string>, intolerances: seq<IntoleranceItem>)
      returns (request: Option<Gemini.LabelRequest>)
      requires Valid()
      modifies this
      ensures Valid()
      ensures dataUrl.None? ==>
                request.None? && loading == old(loading) && preview == old(preview) && result == old(result)
      ensures dataUrl.Some? ==>
                loading && preview == dataUrl && result.None? &&
                request == Some(Gemini.ProductLabelRequest(SecondField(dataUrl.value, ','), intolerances))
    {
      if dataUrl.None? {
        return None;
      }
      preview := dataUrl;
      loading := true;
      result := None;
      request := Some(Gemini.ProductLabelRequest(SecondField(dataUrl.value, ','), intolerances));
    }

    /** The asynchronous half: a decoded result is shown and recorded as a
        scan in the history; a failure records nothing and leaves the result
        as it was. Loading ends either way. */
    method FinishScan(outcome: Result<AnalysisResult, string>, now: nat)
      returns (entry: Option<HistoryItem>)
      requires Valid()
      modifies this
      ensures Valid() && !loading && preview == old(preview)
      ensures outcome.Success? ==>
                result == Some(outcome.value) &&
                entry == Some(HistoryItem(DecimalString(now), Scan, ScanQuery, now,
                                          outcome.value.safetyScore, outcome.value.summary))
      ensures outcome.Failure? ==> result == old(result) && entry.None?
    {
      entry := None;
      if outcome.Success? {
        result := Some(outcome.value);
        entry := Some(HistoryItem(DecimalString(now), Scan, ScanQuery, now,
                                  outcome.value.safetyScore, outcome.value.summary));
      }
      loading := false;
    }

    /** The close button over the preview. */
    method Close()
      requires Valid()
      modifies this
      ensures Valid() && preview.None? && result.None? && loading == old(loading)
    {
      preview := None;
      result := None;
    }
  }
}
