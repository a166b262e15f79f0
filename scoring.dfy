/**
 * The scoring rules: the document-wide maximum font size and the number of
 * half-points one scoring pass adds to one paragraph.
 */
module Scoring {
  import opened Wrappers
  import opened Paragraphs

  /** `p.font_size or 0`. */
  function FontOrZero(p: TextParagraph): (r: nat)
    ensures p.fontSize == None ==> r == 0
    ensures p.fontSize.Some? ==> r == p.fontSize.value
  {
    match p.fontSize
    case None => 0
    case Some(v) => v
  }

  /** `max((p.font_size or 0) for p in paragraphs)`, the first pass; Python's
      `max` raises on an empty list, hence the precondition. */
  function MaxFontSize(ps: seq<TextParagraph>): (m: nat)
    requires |ps| > 0
    ensures forall k :: 0 <= k < |ps| ==> FontOrZero(ps[k]) <= m
    ensures exists k :: 0 <= k < |ps| && FontOrZero(ps[k]) == m
  {
    if |ps| == 1 then
      FontOrZero(ps[0])
    else
      var rest := MaxFontSize(ps[1..]);
      assert forall k :: 0 <= k < |ps[1..]| ==> ps[1..][k] == ps[k + 1];
      if FontOrZero(ps[0]) >= rest then FontOrZero(ps[0]) else rest
  }

  /** How many entries of `keywords` the paragraph matches, duplicates counted. */
  function MatchCount(p: TextParagraph, keywords: seq<string>): (n: nat)
    ensures n <= |keywords|
  {
    if keywords == [] then 0
    else
      var last := keywords[|keywords| - 1];
      MatchCount(p, keywords[..|keywords| - 1]) + (if p.MatchesKeyword(last) then 1 else 0)
  }

  /** Half-points one pass adds: +1 per matched and -1 per ignored keyword,
      +2 each for upper case, the maximum font size and centring. */
  function ScoreDelta(p: TextParagraph, matchKeywords: seq<string>, ignoreKeywords: seq<string>,
                      maxFontSize: nat): (r: int)
    ensures p.isUppercase && p.isCentered && p.HasMaxFontSize(maxFontSize) ==>
      r == MatchCount(p, matchKeywords) - MatchCount(p, ignoreKeywords) + 6
    ensures !p.isUppercase && !p.isCentered && !p.HasMaxFontSize(maxFontSize) ==>
      r == MatchCount(p, matchKeywords) - MatchCount(p, ignoreKeywords)
  {
    MatchCount(p, matchKeywords) - MatchCount(p, ignoreKeywords)
    + (if p.isUppercase then 2 else 0)
    + (if p.HasMaxFontSize(maxFontSize) then 2 else 0)
    + (if p.isCentered then 2 else 0)
  }

  /** One pass moves a score by at most the number of keywords plus the three
      two-half-point bonuses; without keywords only the bonuses count. */
  lemma ScoreDeltaBounds(p: TextParagraph, matchKeywords: seq<string>, ignoreKeywords: seq<string>,
                         maxFontSize: nat)
    ensures -|ignoreKeywords| <= ScoreDelta(p, matchKeywords, ignoreKeywords, maxFontSize) <= |matchKeywords| + 6
    ensures matchKeywords == [] && ignoreKeywords == [] ==>
      ScoreDelta(p, matchKeywords, ignoreKeywords, maxFontSize) in {0, 2, 4, 6}
  {
  }

  /** Keyword lists count additively, so a repeated keyword counts twice. */
  lemma {:induction false} MatchCountAppend(p: TextParagraph, a: seq<string>, b: seq<string>)
    ensures MatchCount(p, a + b) == MatchCount(p, a) + MatchCount(p, b)
    decreases |b|
  {
    if b == [] {
      assert a + b == a;
    } else {
      var b' := b[..|b| - 1];
      assert (a + b)[..|a + b| - 1] == a + b';
      assert (a + b)[|a + b| - 1] == b[|b| - 1];
      MatchCountAppend(p, a, b');
    }
  }

  /** An empty keyword matches every paragraph. */
  lemma EmptyKeywordMatches(p: TextParagraph, keywords: seq<string>)
    requires "" in keywords
    ensures MatchCount(p, keywords) >= 1
    decreases |keywords|
  {
    var last := keywords[|keywords| - 1];
    if last != "" {
      var init := keywords[..|keywords| - 1];
      assert keywords == init + [last];
      EmptyKeywordMatches(p, init);
    }
  }

  /** When some paragraph reports a font size, some paragraph earns the font point. */
  lemma FontPointAwarded(ps: seq<TextParagraph>)
    requires |ps| > 0
    requires exists k :: 0 <= k < |ps| && ps[k].fontSize != None
    ensures exists k :: 0 <= k < |ps| && ps[k].HasMaxFontSize(MaxFontSize(ps))
  {
    var m := MaxFontSize(ps);
    var j :| 0 <= j < |ps| && FontOrZero(ps[j]) == m;
    if ps[j].fontSize.None? {
      var k :| 0 <= k < |ps| && ps[k].fontSize != None;
      assert FontOrZero(ps[k]) <= m == 0;
      assert ps[k].HasMaxFontSize(m);
    }
  }

  /** When no paragraph reports a font size, nobody earns the font point,
      although the maximum is then 0: `None == 0` is false. */
  lemma NoFontDataNoFontPoint(ps: seq<TextParagraph>)
    requires |ps| > 0
    requires forall k :: 0 <= k < |ps| ==> ps[k].fontSize == None
    ensures MaxFontSize(ps) == 0
    ensures forall k :: 0 <= k < |ps| ==> !ps[k].HasMaxFontSize(MaxFontSize(ps))
  {
  }
}
