/**
 * Year detection: the first match of `\b(20\d{2})\b` in the document text.
 */
module Year {
  import opened Wrappers

  predicate IsDigit(c: char) { '0' <= c <= '9' }

  /** `\w` on ASCII: letters, digits and the underscore. */
  predicate IsWordChar(c: char) {
    IsDigit(c) || 'a' <= c <= 'z' || 'A' <= c <= 'Z' || c == '_'
  }

  /** The pattern `\b20\d\d\b` matches at position `i` of `s`. */
  predicate YearAt(s: string, i: int) {
    0 <= i && i + 4 <= |s|
    && s[i] == '2' && s[i + 1] == '0' && IsDigit(s[i + 2]) && IsDigit(s[i + 3])
    && (i == 0 || !IsWordChar(s[i - 1]))
    && (i + 4 == |s| || !IsWordChar(s[i + 4]))
  }

  /** `re.search` from position `from`: the leftmost match, if any. */
  function FindYear(s: string, from: nat): (r: Option<nat>)
    ensures r.Some? ==> from <= r.value && YearAt(s, r.value)
    ensures r.Some? ==> forall j :: from <= j < r.value ==> !YearAt(s, j)
    ensures r.None? ==> forall j :: from <= j ==> !YearAt(s, j)
    decreases |s| - from
  {
    if from + 4 > |s| then None
    else if YearAt(s, from) then Some(from)
    else FindYear(s, from + 1)
  }
}
