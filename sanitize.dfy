/**
 * The two sanitisers of the synthesiser: `clean_filename`, which makes a
 * fragment safe as part of a file name, and `clean_text`, which keeps the
 * printable ASCII characters, newlines and tabs.
 */
module Sanitize {
  import opened PyStr

  /** Deleted by the first substitution of `clean_filename`, `[\x00-\x1F]`. */
  predicate IsControl(c: char) { c as int <= 0x1F }

  /** Deleted by the second substitution, `[<>:"/\\|?*\n\r\t\f\v]`. */
  predicate IsReserved(c: char) {
    c == '<' || c == '>' || c == ':' || c == '"' || c == '/' || c == '\\' || c == '|'
    || c == '?' || c == '*' || c == '\n' || c == '\r' || c == '\t'
    || c as int == 0x0C || c as int == 0x0B
  }

  predicate NotControl(c: char) { !IsControl(c) }

  predicate NotReserved(c: char) { !IsReserved(c) }

  /** No control character and no character that file systems reserve. */
  predicate SafeName(s: string) {
    forall k :: 0 <= k < |s| ==> SafeChar(s[k])
  }

  /** Survives both substitutions. */
  predicate SafeChar(c: char) { !IsControl(c) && !IsReserved(c) }

  /** `clean_filename`: delete control and reserved characters, then strip.
      The two substitutions are done as one deletion here; CleanFilenameTwoPasses
      shows that this is the same. */
  function CleanFilename(s: string): (r: string)
    ensures SafeName(r)
    ensures NoEdgeSpace(r)
    ensures |r| <= |s|
  {
    var kept := Keep(s, SafeChar);
    StripChars(kept);
    Strip(kept)
  }

  /** What `clean_filename` keeps: every safe character, in order, except
      the whitespace at the two ends of what remains after the deletion. */
  lemma CleanFilenameKeeps(s: string)
    ensures exists i :: StripCut(Keep(s, SafeChar), CleanFilename(s), i)
  {
    var kept := Keep(s, SafeChar);
    assert CleanFilename(s) == Strip(kept);
    StripExact(kept);
  }

  /** Deleting the control characters and then the reserved ones, as the
      source does in two `re.sub` calls, gives the same fragment. */
  lemma CleanFilenameTwoPasses(s: string)
    ensures CleanFilename(s) == Strip(Keep(Keep(s, NotControl), NotReserved))
  {
    KeepTwice(s, NotControl, NotReserved, SafeChar);
  }

  /** A fragment that is already safe and stripped is left as it is. */
  lemma CleanFilenameNoop(s: string)
    requires SafeName(s) && NoEdgeSpace(s)
    ensures CleanFilename(s) == s
  {
    KeepAll(s, SafeChar);
    StripNoop(s);
  }

  /** Cleaning a cleaned fragment changes nothing. */
  lemma CleanFilenameIdempotent(s: string)
    ensures CleanFilename(CleanFilename(s)) == CleanFilename(s)
  {
    CleanFilenameNoop(CleanFilename(s));
  }

  /** Kept by `clean_text`: the complement of `[^\x20-\x7E\n\t]`. */
  predicate IsTextChar(c: char) {
    (0x20 <= c as int <= 0x7E) || c == '\n' || c == '\t'
  }

  /** `clean_text`: the input with every other character deleted, in order. */
  function CleanText(s: string): (r: string)
    ensures forall k :: 0 <= k < |r| ==> IsTextChar(r[k])
    ensures forall c :: IsTextChar(c) ==> multiset(r)[c] == multiset(s)[c]
    ensures IsSubsequence(r, s)
  {
    KeepDeletesExactly(s, IsTextChar);
    Keep(s, IsTextChar)
  }

  /** Those three properties determine `clean_text` completely. */
  lemma CleanTextDetermined(s: string, r: string)
    requires IsSubsequence(r, s)
    requires forall k :: 0 <= k < |r| ==> IsTextChar(r[k])
    requires forall c :: IsTextChar(c) ==> multiset(r)[c] == multiset(s)[c]
    ensures r == CleanText(s)
  {
    KeepUnique(s, IsTextChar, r);
  }
}
