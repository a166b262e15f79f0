/**
 * One extracted paragraph and its layout facts, with the score that the
 * synthesiser accumulates on it. Scores are kept in half-points: the
 * source's 0.5 is 1 here and its 1 is 2.
 */
module Paragraphs {
  import opened Wrappers
  import opened PyStr

  class TextParagraph {
    const text: string
    /** The accumulated score, in half-points; changed only by AddPoints. */
    var points: int
    const isUppercase: bool
    const isCentered: bool
    /** The reader's font size, or None when it reported none. */
    const fontSize: Option<nat>

    /** The text is kept stripped; upper case is judged on the raw text. */
    constructor (rawText: string, fontSize: Option<nat>, isCentered: bool)
      ensures text == Strip(rawText) && points == 0
      ensures isUppercase == IsUpper(rawText)
      ensures this.isCentered == isCentered && this.fontSize == fontSize
    {
      text := Strip(rawText);
      points := 0;
      isUppercase := IsUpper(rawText);
      this.isCentered := isCentered;
      this.fontSize := fontSize;
    }

    method AddPoints(delta: int)
      modifies this`points
      ensures points == old(points) + delta
    {
      points := points + delta;
    }

    /** The keyword occurs in the text, ignoring case. */
    function MatchesKeyword(keyword: string): (r: bool)
      ensures r <==> exists i :: OccursAt(Lower(text), Lower(keyword), i)
      ensures keyword == [] ==> r
    {
      assert OccursAt(Lower(text), Lower(keyword), 0) <== keyword == [];
      Contains(Lower(text), Lower(keyword))
    }

    /** Exact equality with the given maximum; a missing size never equals it. */
    function HasMaxFontSize(maxFontSize: nat): (r: bool)
      ensures r ==> fontSize != None
    {
      fontSize.Some? && fontSize.value == maxFontSize
    }
  }
}
