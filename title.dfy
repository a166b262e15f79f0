/**
 * `process_text`: score every paragraph, take the three best, clean them,
 * find a year and assemble the proposed file name.
 */
module Title {
  import opened Wrappers
  import opened PyStr
  import opened Sanitize
  import opened Paragraphs
  import opened Scoring
  import opened Ranking
  import opened Year

  /** Appended to every proposed name; marks a file as already renamed. */
  const Marker: string := " ★"

  /** The hard-coded limit on the name before the marker. */
  const LengthLimit: nat := 200

  /** What `process_text` gives back: it raises when there are no paragraphs
      (`max` of an empty sequence), returns None when no title is found,
      and otherwise returns the name. */
  datatype Outcome = EmptyInput | NoTitleFound | Filename(name: string)

  function Texts(ps: seq<TextParagraph>): (r: seq<string>)
    ensures |r| == |ps| && forall k :: 0 <= k < |ps| ==> r[k] == ps[k].text
  {
    seq(|ps|, k requires 0 <= k < |ps| => ps[k].text)
  }

  function Points(ps: seq<TextParagraph>): (r: seq<int>)
    reads ps
    ensures |r| == |ps| && forall k :: 0 <= k < |ps| ==> r[k] == ps[k].points
  {
    if ps == [] then [] else [ps[0].points] + Points(ps[1..])
  }

  // ---------------------------------------------------------------------------
  // The pure steps
  // ---------------------------------------------------------------------------

  /** `[clean_filename(p.text) for p in sorted_paras[:3]]`: the cleaned
      texts of the (up to) three best-ranked paragraphs. */
  function BestCleaned(texts: seq<string>, scores: seq<int>): (r: seq<string>)
    requires |texts| == |scores|
    ensures |r| == if |texts| < 3 then |texts| else 3
  {
    var order := SortedByScore(scores);
    var n := if |texts| < 3 then |texts| else 3;
    seq(n, k requires 0 <= k < n => CleanFilename(texts[order[k]]))
  }

  /** What the padding loop leaves: the list followed by "" up to three entries. */
  function Padded(xs: seq<string>): (r: seq<string>)
    requires |xs| <= 3
    ensures |r| == 3
    ensures r[..|xs|] == xs && forall k :: |xs| <= k < 3 ==> r[k] == ""
  {
    xs + seq(3 - |xs|, _ => "")
  }

  /** `top_texts` once padded. */
  function TopTexts(texts: seq<string>, scores: seq<int>): (r: seq<string>)
    requires |texts| == |scores|
    ensures |r| == 3
    ensures forall k :: |texts| <= k < 3 ==> r[k] == ""
  {
    Padded(BestCleaned(texts, scores))
  }

  /** `year_str`: a space and the first year of the text, or "". */
  function YearSuffix(allText: string): (r: string)
    ensures r == "" <==> forall i :: !YearAt(allText, i)
    ensures r != "" ==> exists i :: YearAt(allText, i) && r == " " + allText[i..i + 4]
                                   && forall j :: 0 <= j < i ==> !YearAt(allText, j)
  {
    match FindYear(allText, 0)
    case None => ""
    case Some(i) => " " + allText[i..i + 4]
  }

  /** The inner `create_filename`: main fragment, year, then the non-empty
      secondary fragments, each behind " - ", stripped. */
  function CreateFilename(main: string, secondaries: seq<string>, yearStr: string): (r: string)
    ensures NoEdgeSpace(r)
    ensures |r| <= |main| + |yearStr| + 3 + |JoinWith(" - ", NonEmpty(secondaries))|
  {
    Strip(main + yearStr + " - " + JoinWith(" - ", NonEmpty(secondaries)))
  }

  /** `s[:200]`. */
  function Truncate(s: string): (r: string)
    ensures r <= s && |r| == if |s| <= LengthLimit then |s| else LengthLimit
  {
    if |s| <= LengthLimit then s else s[..LengthLimit]
  }

  /** What `process_text` computes from the texts and the final scores. */
  function Synthesize(texts: seq<string>, scores: seq<int>): (r: Outcome)
    requires |texts| == |scores|
    ensures r != EmptyInput
    ensures r.Filename? ==> |Marker| <= |r.name| <= LengthLimit + |Marker| && r.name[|r.name| - |Marker|..] == Marker
  {
    var top := TopTexts(texts, scores);
    if top[0] == "" && top[1] == "" && top[2] == "" then
      NoTitleFound
    else
      Filename(Truncate(CreateFilename(top[0], top[1..3], YearSuffix(JoinWith("\n", texts)))) + Marker)
  }

  // ---------------------------------------------------------------------------
  // What the steps guarantee
  // ---------------------------------------------------------------------------

  /** Entry `k` of `top_texts` is the cleaned text of the paragraph in
      position `k` of the ranking, or "" past the last paragraph. */
  lemma TopTextsEntry(texts: seq<string>, scores: seq<int>, k: nat)
    requires |texts| == |scores| && k < 3
    ensures TopTexts(texts, scores)[k]
            == if k < |texts| then CleanFilename(texts[SortedByScore(scores)[k]]) else ""
  {
    var b := BestCleaned(texts, scores);
    if k < |b| {
      assert TopTexts(texts, scores)[k] == b[k];
    } else {
      assert TopTexts(texts, scores)[k] == "";
    }
  }

  /** Entry `k` of `top_texts` is the cleaned text of the paragraph that
      exactly `k` paragraphs outrank (higher score, or the same score and
      earlier), and "" past the last paragraph. */
  lemma TopTextsAreBest(texts: seq<string>, scores: seq<int>, k: nat)
    requires |texts| == |scores| && k < 3
    ensures k >= |texts| ==> TopTexts(texts, scores)[k] == ""
    ensures k < |texts| ==> exists i :: 0 <= i < |texts| && RankOf(scores, i) == k
                                        && TopTexts(texts, scores)[k] == CleanFilename(texts[i])
  {
    TopTextsEntry(texts, scores, k);
    if k < |texts| {
      var i := SortedByScore(scores)[k];
      SortedPositionIsRank(scores, k);
      assert RankOf(scores, i) == k;
    }
  }

  /** No title is found exactly when each of the (up to) three best-ranked
      paragraphs cleans to "". */
  lemma NoTitleIff(texts: seq<string>, scores: seq<int>)
    requires |texts| == |scores|
    ensures Synthesize(texts, scores) == NoTitleFound <==>
            forall k :: 0 <= k < 3 && k < |texts| ==> CleanFilename(texts[SortedByScore(scores)[k]]) == ""
  {
    NoTitleWhenTopEmpty(texts, scores);
    TopEmptyIff(texts, scores);
  }

  lemma NoTitleWhenTopEmpty(texts: seq<string>, scores: seq<int>)
    requires |texts| == |scores|
    ensures var top := TopTexts(texts, scores);
            Synthesize(texts, scores) == NoTitleFound <==> top[0] == "" && top[1] == "" && top[2] == ""
  {
  }

  lemma TopEmptyIff(texts: seq<string>, scores: seq<int>)
    requires |texts| == |scores|
    ensures var top := TopTexts(texts, scores);
            (top[0] == "" && top[1] == "" && top[2] == "") <==>
            forall k :: 0 <= k < 3 && k < |texts| ==> CleanFilename(texts[SortedByScore(scores)[k]]) == ""
  {
    var b := BestCleaned(texts, scores);
    PaddedEmptyIff(b);
    assert forall k :: 0 <= k < |b| ==> b[k] == CleanFilename(texts[SortedByScore(scores)[k]]);
  }

  /** The padded list is all "" exactly when the list was. */
  lemma PaddedEmptyIff(xs: seq<string>)
    requires |xs| <= 3
    ensures var p := Padded(xs);
            (p[0] == "" && p[1] == "" && p[2] == "") <==> forall k :: 0 <= k < |xs| ==> xs[k] == ""
  {
    var p := Padded(xs);
    assert forall k :: 0 <= k < |xs| ==> p[k] == xs[k];
    assert forall k :: |xs| <= k < 3 ==> p[k] == "";
    if p[0] == "" && p[1] == "" && p[2] == "" {
      forall k | 0 <= k < |xs| ensures xs[k] == "" {
        if k == 0 {} else if k == 1 {} else {}
      }
    }
  }

  lemma SafeConcat(a: string, b: string)
    requires SafeName(a) && SafeName(b)
    ensures SafeName(a + b)
  {
    assert forall k :: 0 <= k < |a + b| ==> (a + b)[k] == if k < |a| then a[k] else b[k - |a|];
  }

  lemma {:induction false} JoinSafe(sep: string, parts: seq<string>)
    requires SafeName(sep) && forall k :: 0 <= k < |parts| ==> SafeName(parts[k])
    ensures SafeName(JoinWith(sep, parts))
    decreases |parts|
  {
    if |parts| > 1 {
      JoinSafe(sep, parts[1..]);
      SafeConcat(parts[0], sep);
      SafeConcat(parts[0] + sep, JoinWith(sep, parts[1..]));
    }
  }

  /** The join of non-empty fragments without edge whitespace has none either. */
  lemma {:induction false} JoinNoEdgeSpace(sep: string, parts: seq<string>)
    requires forall k :: 0 <= k < |parts| ==> parts[k] != "" && NoEdgeSpace(parts[k])
    ensures parts != [] ==> JoinWith(sep, parts) != [] && NoEdgeSpace(JoinWith(sep, parts))
    decreases |parts|
  {
    if |parts| > 1 {
      JoinNoEdgeSpace(sep, parts[1..]);
      var rest := JoinWith(sep, parts[1..]);
      var j := parts[0] + sep + rest;
      assert j[0] == parts[0][0];
      assert j[|j| - 1] == rest[|rest| - 1];
    }
  }

  lemma NonEmptyKeepsEdges(parts: seq<string>)
    requires forall k :: 0 <= k < |parts| ==> NoEdgeSpace(parts[k])
    ensures forall k :: 0 <= k < |NonEmpty(parts)| ==> NonEmpty(parts)[k] != "" && NoEdgeSpace(NonEmpty(parts)[k])
  {
    var r := NonEmpty(parts);
    forall k | 0 <= k < |r| ensures NoEdgeSpace(r[k]) {
      assert r[k] in parts;
    }
  }

  /** The assembled name is the main fragment, the year, and " - " before the
      joined secondaries -- or a bare " -" when every secondary is empty
      (`" - " + ""` loses only its last space to `strip`). Without a main
      fragment `strip` also drops the space in front of the year, or in
      front of the dash when there is no year: "- B", "2023 - B". */
  lemma CreateFilenameLayout(main: string, secondaries: seq<string>, yearStr: string)
    requires NoEdgeSpace(main)
    requires yearStr == "" || !IsSpace(yearStr[|yearStr| - 1])
    requires forall k :: 0 <= k < |secondaries| ==> NoEdgeSpace(secondaries[k])
    ensures var joined := JoinWith(" - ", NonEmpty(secondaries));
            main != "" ==>
              CreateFilename(main, secondaries, yearStr)
              == main + yearStr + (if joined == "" then " -" else " - " + joined)
    ensures var joined := JoinWith(" - ", NonEmpty(secondaries));
            main == "" ==>
              CreateFilename(main, secondaries, yearStr)
              == LStrip(yearStr + " -") + (if joined == "" then "" else " " + joined)
  {
    NonEmptyKeepsEdges(secondaries);
    JoinNoEdgeSpace(" - ", NonEmpty(secondaries));
    if main != "" {
      StripAssembled(main, yearStr, JoinWith(" - ", NonEmpty(secondaries)));
    } else {
      NoMainLayout(secondaries, yearStr, JoinWith(" - ", NonEmpty(secondaries)));
    }
  }

  lemma NoMainLayout(secondaries: seq<string>, yearStr: string, joined: string)
    requires yearStr == "" || !IsSpace(yearStr[|yearStr| - 1])
    requires joined == JoinWith(" - ", NonEmpty(secondaries)) && NoEdgeSpace(joined)
    ensures CreateFilename("", secondaries, yearStr)
            == LStrip(yearStr + " -") + (if joined == "" then "" else " " + joined)
  {
    assert CreateFilename("", secondaries, yearStr) == Strip(yearStr + " - " + joined) by {
      assert "" + yearStr == yearStr;
    }
    NoMainAssembled(yearStr, joined);
  }

  lemma NoMainAssembled(yearStr: string, joined: string)
    requires yearStr == "" || !IsSpace(yearStr[|yearStr| - 1])
    requires NoEdgeSpace(joined)
    ensures Strip(yearStr + " - " + joined)
            == LStrip(yearStr + " -") + (if joined == "" then "" else " " + joined)
  {
    if joined == "" {
      NoMainNoSecondary(yearStr);
    } else {
      NoMainSecondary(yearStr, joined);
    }
  }

  lemma NoMainNoSecondary(yearStr: string)
    ensures Strip(yearStr + " - " + "") == LStrip(yearStr + " -")
  {
    StripIsLR(yearStr + " - " + "");
    DashOnly(yearStr);
  }

  lemma NoMainSecondary(yearStr: string, joined: string)
    requires joined != "" && NoEdgeSpace(joined)
    ensures Strip(yearStr + " - " + joined) == LStrip(yearStr + " -") + " " + joined
  {
    var dash := yearStr + " -";
    assert dash[|dash| - 1] == '-';
    StripIsLR(yearStr + " - " + joined);
    RStripJoined(yearStr, joined);
    DashSpace(yearStr, joined);
    LStripAppend(dash, " " + joined);
    assert dash + (" " + joined) == dash + " " + joined;
  }

  lemma DashSpace(yearStr: string, joined: string)
    ensures yearStr + (" - " + joined) == (yearStr + " -") + (" " + joined)
  {
    var l, r := yearStr + (" - " + joined), (yearStr + " -") + (" " + joined);
    assert |l| == |r|;
    forall i | 0 <= i < |l| ensures l[i] == r[i] {
      if i < |yearStr| {
      } else if i < |yearStr| + 3 {
      } else {
        assert l[i] == joined[i - |yearStr| - 3] == r[i];
      }
    }
  }

  /** Text after a non-blank character is never touched by lstrip. */
  lemma {:induction false} LStripAppend(a: string, b: string)
    requires a != [] && !IsSpace(a[|a| - 1])
    ensures LStrip(a + b) == LStrip(a) + b
    decreases |a|
  {
    if IsSpace(a[0]) {
      assert (a + b)[1..] == a[1..] + b;
      LStripAppend(a[1..], b);
    }
  }

  /** Only secondaries: the best paragraph cleaned to "", no year, so
      `strip` also drops the space before the dash: ["B", ""] gives "- B". */
  lemma NoMainNoYear(b: string)
    requires b != "" && NoEdgeSpace(b)
    ensures CreateFilename("", [b, ""], "") == "- " + b
  {
    assert NonEmpty([b, ""]) == [b] by {
      assert [b, ""][1..] == [""];
    }
    OneSecondaryNoYear([b, ""], b);
    LStripDash();
    assert "-" + " " + b == "- " + b;
  }

  /** A main fragment and two non-empty secondaries: both appear, in rank
      order, even when they are equal. */
  lemma TwoSecondaries(main: string, b: string, c: string, yearStr: string)
    requires main != "" && NoEdgeSpace(main)
    requires b != "" && NoEdgeSpace(b) && c != "" && NoEdgeSpace(c)
    requires yearStr == "" || !IsSpace(yearStr[|yearStr| - 1])
    ensures CreateFilename(main, [b, c], yearStr) == main + yearStr + " - " + b + " - " + c
  {
    var joined := b + " - " + c;
    assert JoinWith(" - ", NonEmpty([b, c])) == joined by {
      assert [b, c][1..] == [c];
      assert [c][1..] == [];
      assert NonEmpty([b, c]) == [b, c];
    }
    assert joined != "" by {
      assert |joined| == |b| + 3 + |c|;
    }
    CreateFilenameLayout(main, [b, c], yearStr);
    SecondariesAppended(main + yearStr, b, c);
  }

  lemma SecondariesAppended(head: string, b: string, c: string)
    ensures head + (" - " + (b + " - " + c)) == head + " - " + b + " - " + c
  {
  }

  lemma OneSecondaryNoYear(secondaries: seq<string>, b: string)
    requires NonEmpty(secondaries) == [b] && b != [] && NoEdgeSpace(b)
    ensures CreateFilename("", secondaries, "") == LStrip(" -") + " " + b
  {
    OneSecondary(secondaries, b, "");
    assert "" + " -" == " -";
  }

  lemma LStripDash()
    ensures LStrip(" -") == "-"
  {
    assert " -"[1..] == "-";
  }

  /** Only secondaries, with a year: the year loses its leading space, so
      ["B"] with the year 2023 gives "2023 - B". */
  lemma NoMainWithYear(b: string, year: string)
    requires b != "" && NoEdgeSpace(b)
    requires |year| == 4 && forall k :: 0 <= k < 4 ==> IsDigit(year[k])
    ensures CreateFilename("", [b], " " + year) == year + " - " + b
  {
    assert NonEmpty([b]) == [b] by {
      assert [b][1..] == [];
    }
    assert (" " + year)[4] == year[3];
    OneSecondary([b], b, " " + year);
    LStripYear(year);
    assert year + " -" + " " + b == year + " - " + b;
  }

  lemma LStripYear(year: string)
    requires |year| == 4 && IsDigit(year[0])
    ensures LStrip(" " + year + " -") == year + " -"
  {
    assert (" " + year + " -")[1..] == year + " -";
  }

  /** No main fragment and one non-empty secondary `b`. */
  lemma OneSecondary(secondaries: seq<string>, b: string, yearStr: string)
    requires NonEmpty(secondaries) == [b] && b != [] && NoEdgeSpace(b)
    requires yearStr == "" || !IsSpace(yearStr[|yearStr| - 1])
    ensures CreateFilename("", secondaries, yearStr) == LStrip(yearStr + " -") + " " + b
  {
    assert JoinWith(" - ", [b]) == b;
    NoMainLayout(secondaries, yearStr, b);
  }

  lemma StripAssembled(main: string, yearStr: string, joined: string)
    requires main != "" && NoEdgeSpace(main)
    requires yearStr == "" || !IsSpace(yearStr[|yearStr| - 1])
    requires NoEdgeSpace(joined)
    ensures Strip(main + yearStr + " - " + joined)
            == main + yearStr + (if joined == "" then " -" else " - " + joined)
  {
    var tail := yearStr + " - " + joined;
    var stripped := yearStr + (if joined == "" then " -" else " - " + joined);
    assert main + yearStr + " - " + joined == main + tail;
    assert main + yearStr + (if joined == "" then " -" else " - " + joined) == main + stripped;
    StripAfterWord(main, tail);
    RStripSecondaries(yearStr, joined);
  }

  lemma RStripSecondaries(yearStr: string, joined: string)
    requires yearStr == "" || !IsSpace(yearStr[|yearStr| - 1])
    requires NoEdgeSpace(joined)
    ensures RStrip(yearStr + " - " + joined) == yearStr + (if joined == "" then " -" else " - " + joined)
  {
    if joined == "" {
      DashOnly(yearStr);
    } else {
      RStripJoined(yearStr, joined);
    }
  }

  lemma RStripJoined(yearStr: string, joined: string)
    requires joined != "" && NoEdgeSpace(joined)
    ensures RStrip(yearStr + " - " + joined) == yearStr + (" - " + joined)
  {
    var s := yearStr + " - " + joined;
    assert s[|s| - 1] == joined[|joined| - 1];
    assert s == yearStr + (" - " + joined);
  }

  lemma DashOnly(yearStr: string)
    ensures yearStr + " - " + "" == (yearStr + " -") + " "
    ensures RStrip(yearStr + " - " + "") == yearStr + " -"
  {
    assert yearStr + " - " + "" == (yearStr + " -") + " ";
    RStripDash(yearStr + " -");
  }

  lemma RStripDash(s: string)
    requires s != [] && !IsSpace(s[|s| - 1])
    ensures RStrip(s + " ") == s
  {
    assert (s + " ")[..|s|] == s;
  }

  lemma YearSuffixSafe(allText: string)
    ensures SafeName(YearSuffix(allText))
    ensures YearSuffix(allText) == "" || !IsSpace(YearSuffix(allText)[|YearSuffix(allText)| - 1])
  {
    var y := YearSuffix(allText);
    if y != "" {
      var i :| YearAt(allText, i) && y == " " + allText[i..i + 4];
      forall k | 1 <= k < 5 ensures IsDigit(y[k]) {
        assert y[k] == allText[i + k - 1];
      }
      forall k | 0 <= k < 5 ensures !IsControl(y[k]) && !IsReserved(y[k]) {
        if k > 0 {
          DigitSafe(y[k]);
        }
      }
      DigitSafe(y[4]);
    }
  }

  lemma DigitSafe(c: char)
    requires IsDigit(c)
    ensures !IsControl(c) && !IsReserved(c) && !IsSpace(c)
  {
  }

  /** Every proposed name ends with the marker, is at most 202 characters
      long, holds no control or reserved character, and starts with the
      (truncated) main fragment. */
  lemma SynthesizedNameShape(texts: seq<string>, scores: seq<int>)
    requires |texts| == |scores|
    requires Synthesize(texts, scores).Filename?
    ensures var name := Synthesize(texts, scores).name;
            && |name| <= LengthLimit + |Marker|
            && name[|name| - |Marker|..] == Marker
            && SafeName(name)
            && Truncate(TopTexts(texts, scores)[0]) <= name
  {
    var top := TopTexts(texts, scores);
    var yearStr := YearSuffix(JoinWith("\n", texts));
    YearSuffixSafe(JoinWith("\n", texts));
    TopTextsClean(texts, scores);
    NameShape(top[0], top[1..3], yearStr);
  }

  /** The three entries of `top_texts` are safe and stripped. */
  lemma TopTextsClean(texts: seq<string>, scores: seq<int>)
    requires |texts| == |scores|
    ensures forall k :: 0 <= k < 3 ==> SafeName(TopTexts(texts, scores)[k]) && NoEdgeSpace(TopTexts(texts, scores)[k])
  {
    var top := TopTexts(texts, scores);
    forall k | 0 <= k < 3 ensures SafeName(top[k]) && NoEdgeSpace(top[k]) {
      TopTextsEntry(texts, scores, k);
    }
  }

  /** The name assembled from safe, stripped fragments and a year suffix. */
  lemma NameShape(main: string, secondaries: seq<string>, yearStr: string)
    requires SafeName(main) && NoEdgeSpace(main)
    requires forall k :: 0 <= k < |secondaries| ==> SafeName(secondaries[k]) && NoEdgeSpace(secondaries[k])
    requires SafeName(yearStr) && (yearStr == "" || !IsSpace(yearStr[|yearStr| - 1]))
    ensures var name := Truncate(CreateFilename(main, secondaries, yearStr)) + Marker;
            && |name| <= LengthLimit + |Marker|
            && name[|name| - |Marker|..] == Marker
            && SafeName(name)
            && Truncate(main) <= name
  {
    CreateFilenameSafe(main, secondaries, yearStr);
    MarkedName(CreateFilename(main, secondaries, yearStr));
    if main != "" {
      CreateFilenameLayout(main, secondaries, yearStr);
      TruncatePrefix(main, CreateFilename(main, secondaries, yearStr));
    }
  }

  /** Truncating a safe name and adding the marker keeps it safe. */
  lemma MarkedName(full: string)
    requires SafeName(full)
    ensures var name := Truncate(full) + Marker;
            && |name| <= LengthLimit + |Marker|
            && name[|name| - |Marker|..] == Marker
            && SafeName(name)
            && Truncate(full) <= name
  {
    SafeConcat(Truncate(full), Marker);
  }

  lemma CreateFilenameSafe(main: string, secondaries: seq<string>, yearStr: string)
    requires SafeName(main) && SafeName(yearStr)
    requires forall k :: 0 <= k < |secondaries| ==> SafeName(secondaries[k])
    ensures SafeName(CreateFilename(main, secondaries, yearStr))
  {
    var parts := NonEmpty(secondaries);
    var full := main + yearStr + " - " + JoinWith(" - ", parts);
    forall k | 0 <= k < |parts| ensures SafeName(parts[k]) {
      assert parts[k] in secondaries;
    }
    JoinSafe(" - ", parts);
    SafeConcat(main, yearStr);
    SafeConcat(main + yearStr, " - ");
    SafeConcat(main + yearStr + " - ", JoinWith(" - ", parts));
    StripChars(full);
  }

  lemma TruncatePrefix(a: string, b: string)
    requires a <= b
    ensures Truncate(a) <= Truncate(b)
  {
  }

  // ---------------------------------------------------------------------------
  // Worked cases
  // ---------------------------------------------------------------------------

  /** A year glued to a word is not a year: the first year of "v2023 2024"
      is 2024. */
  lemma WordBoundaryYear()
    ensures YearSuffix("v2023 2024") == " 2024"
  {
    var s := "v2023 2024";
    assert YearAt(s, 6);
    assert !YearAt(s, 1);
  }

  // ---------------------------------------------------------------------------
  // The imperative core
  // ---------------------------------------------------------------------------

  lemma MulStep(m: int, d: int)
    ensures m * d + d == (m + 1) * d
  {
  }

  /** The body of the scoring loop for one paragraph: its keyword,
      upper-case, font and centring points, added through AddPoints. */
  method ScoreParagraph(para: TextParagraph, matchKeywords: seq<string>,
                        ignoreKeywords: seq<string>, maxFontSize: nat)
    modifies para
    ensures para.points == old(para.points) + ScoreDelta(para, matchKeywords, ignoreKeywords, maxFontSize)
  {
    for j := 0 to |matchKeywords|
      invariant para.points == old(para.points) + MatchCount(para, matchKeywords[..j])
    {
      if para.MatchesKeyword(matchKeywords[j]) {
        para.AddPoints(1);
      }
      assert matchKeywords[..j + 1][..j] == matchKeywords[..j];
    }
    assert matchKeywords[..|matchKeywords|] == matchKeywords;
    ghost var afterMatch := para.points;
    for j := 0 to |ignoreKeywords|
      invariant para.points == afterMatch - MatchCount(para, ignoreKeywords[..j])
    {
      if para.MatchesKeyword(ignoreKeywords[j]) {
        para.AddPoints(-1);
      }
      assert ignoreKeywords[..j + 1][..j] == ignoreKeywords[..j];
    }
    assert ignoreKeywords[..|ignoreKeywords|] == ignoreKeywords;
    if para.isUppercase {
      para.AddPoints(2);
    }
    if para.HasMaxFontSize(maxFontSize) {
      para.AddPoints(2);
    }
    if para.isCentered {
      para.AddPoints(2);
    }
  }

  /** The scoring loop: every paragraph, in order, is scored once. A
      paragraph listed twice is scored twice. */
  method ScoreParagraphs(paragraphs: seq<TextParagraph>, matchKeywords: seq<string>,
                         ignoreKeywords: seq<string>, maxFontSize: nat)
    modifies paragraphs
    ensures forall p :: p in paragraphs ==>
              p.points == old(p.points)
                          + multiset(paragraphs)[p] * ScoreDelta(p, matchKeywords, ignoreKeywords, maxFontSize)
  {
    for i := 0 to |paragraphs|
      invariant forall p :: p in paragraphs ==>
                  p.points == old(p.points)
                              + multiset(paragraphs[..i])[p] * ScoreDelta(p, matchKeywords, ignoreKeywords, maxFontSize)
    {
      var para := paragraphs[i];
      ScoreParagraph(para, matchKeywords, ignoreKeywords, maxFontSize);
      assert paragraphs[..i + 1] == paragraphs[..i] + [para];
      MulStep(multiset(paragraphs[..i])[para], ScoreDelta(para, matchKeywords, ignoreKeywords, maxFontSize));
    }
    assert paragraphs[..|paragraphs|] == paragraphs;
  }

  /** How many of the fragments are "". */
  function CountEmpty(s: seq<string>): (r: nat)
    ensures r <= |s|
    ensures r == |s| <==> forall k :: 0 <= k < |s| ==> s[k] == ""
  {
    if s == [] then 0
    else CountEmpty(s[..|s| - 1]) + (if s[|s| - 1] == "" then 1 else 0)
  }

  /** The padding loop: `while len(top_texts) < 3: top_texts.append("")`. */
  method PadWithEmpty(xs: seq<string>) returns (r: seq<string>)
    requires |xs| <= 3
    ensures r == Padded(xs)
  {
    r := xs;
    while |r| < 3
      invariant |xs| <= |r| <= 3
      invariant r == xs + seq(|r| - |xs|, _ => "")
    {
      assert xs + seq(|r| + 1 - |xs|, _ => "") == r + [""];
      r := r + [""];
    }
  }

  /** `top_texts`, padded. */
  method PaddedTopTexts(texts: seq<string>, scores: seq<int>) returns (top: seq<string>)
    requires |texts| == |scores|
    ensures top == TopTexts(texts, scores)
  {
    top := BestCleaned(texts, scores);
    top := PadWithEmpty(top);
  }

  /** The `cnt_empty` loop. */
  method CountEmptyTexts(top: seq<string>) returns (cntEmpty: nat)
    ensures cntEmpty == CountEmpty(top)
  {
    cntEmpty := 0;
    for i := 0 to |top|
      invariant cntEmpty == CountEmpty(top[..i])
    {
      if top[i] == "" {
        cntEmpty := cntEmpty + 1;
      }
      assert top[..i + 1][..i] == top[..i];
    }
    assert top[..|top|] == top;
  }

  /** Take the three best, clean them, pad with "" and count the empties. */
  method SelectTopTexts(texts: seq<string>, scores: seq<int>) returns (top: seq<string>, allEmpty: bool)
    requires |texts| == |scores|
    ensures top == TopTexts(texts, scores)
    ensures allEmpty <==> top[0] == "" && top[1] == "" && top[2] == ""
  {
    top := PaddedTopTexts(texts, scores);
    var cntEmpty := CountEmptyTexts(top);
    allEmpty := cntEmpty == 3;
    assert allEmpty <==> forall k :: 0 <= k < 3 ==> top[k] == "";
  }

  /** Everything `process_text` does after scoring, on the texts and the
      final scores. */
  method ProposeName(texts: seq<string>, scores: seq<int>) returns (r: Outcome)
    requires |texts| == |scores|
    ensures r == Synthesize(texts, scores)
  {
    var top, allEmpty := SelectTopTexts(texts, scores);
    if allEmpty {
      return NoTitleFound;
    }
    var yearStr := YearSuffix(JoinWith("\n", texts));
    var filename := CreateFilename(top[0], top[1..3], yearStr);
    r := Filename(Truncate(filename) + Marker);
  }

  /** `process_text`. The paragraphs' scores accumulate: they are added to
      whatever the paragraphs held before. */
  method ProcessText(paragraphs: seq<TextParagraph>, matchKeywords: seq<string>, ignoreKeywords: seq<string>)
    returns (r: Outcome)
    modifies paragraphs
    ensures |paragraphs| == 0 ==> r == EmptyInput
    ensures |paragraphs| > 0 ==>
              forall p :: p in paragraphs ==>
                p.points == old(p.points)
                            + multiset(paragraphs)[p] * ScoreDelta(p, matchKeywords, ignoreKeywords, MaxFontSize(paragraphs))
    ensures |paragraphs| > 0 ==> r == Synthesize(Texts(paragraphs), Points(paragraphs))
  {
    if |paragraphs| == 0 {
      return EmptyInput;
    }
    var maxFontSize := MaxFontSize(paragraphs);
    ScoreParagraphs(paragraphs, matchKeywords, ignoreKeywords, maxFontSize);
    r := ProposeName(Texts(paragraphs), Points(paragraphs));
  }
}
