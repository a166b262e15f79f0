/**
 * The Python `str` operations the filename synthesiser is built from:
 * `strip`, `lower`, `isupper`, the `in` substring test, `join`, `str(int)`
 * and the character deletion a regular-expression `sub` with a character
 * class performs. Strings are sequences of Unicode code points, as in Python.
 */
module PyStr {

  // ---------------------------------------------------------------------------
  // Whitespace and strip()
  // ---------------------------------------------------------------------------

  /** `c.isspace()`: the characters that `str.strip()` with no argument removes. */
  predicate IsSpace(c: char) {
    var n := c as int;
    n == 0x20 || 0x09 <= n <= 0x0D || 0x1C <= n <= 0x1F || n == 0x85 || n == 0xA0
    || n == 0x1680 || 0x2000 <= n <= 0x200A || n == 0x2028 || n == 0x2029
    || n == 0x202F || n == 0x205F || n == 0x3000
  }

  /** Neither the first nor the last character is whitespace. */
  predicate NoEdgeSpace(s: string) {
    s == [] || (!IsSpace(s[0]) && !IsSpace(s[|s| - 1]))
  }

  /** `s.lstrip()`: the longest suffix of `s` that does not start with whitespace. */
  function LStrip(s: string): (r: string)
    ensures r == [] || !IsSpace(r[0])
  {
    if |s| > 0 && IsSpace(s[0]) then LStrip(s[1..]) else s
  }

  /** `s.rstrip()`: the longest prefix of `s` that does not end with whitespace. */
  function RStrip(s: string): (r: string)
    ensures r == [] || !IsSpace(r[|r| - 1])
  {
    if |s| > 0 && IsSpace(s[|s| - 1]) then RStrip(s[..|s| - 1]) else s
  }

  /** What lstrip keeps is a suffix of its argument, and what it drops is
      whitespace. */
  lemma {:induction false} LStripSuffix(s: string)
    ensures |LStrip(s)| <= |s| && LStrip(s) == s[|s| - |LStrip(s)|..]
    ensures forall k :: 0 <= k < |s| - |LStrip(s)| ==> IsSpace(s[k])
    decreases |s|
  {
    if |s| > 0 && IsSpace(s[0]) {
      LStripSuffix(s[1..]);
    }
  }

  /** What rstrip keeps is a prefix of its argument, and what it drops is
      whitespace. */
  lemma {:induction false} RStripPrefix(s: string)
    ensures |RStrip(s)| <= |s| && RStrip(s) == s[..|RStrip(s)|]
    ensures forall k :: |RStrip(s)| <= k < |s| ==> IsSpace(s[k])
    decreases |s|
  {
    if |s| > 0 && IsSpace(s[|s| - 1]) {
      RStripPrefix(s[..|s| - 1]);
    }
  }

  /** `s.strip()`: whitespace removed from both ends, nothing else touched. */
  function Strip(s: string): (r: string)
    ensures NoEdgeSpace(r)
    ensures exists i :: OccursAt(s, r, i)
  {
    var t := RStrip(s);
    var r := LStrip(t);
    StripFacts(s, t, r);
    r
  }

  lemma StripFacts(s: string, t: string, r: string)
    requires t == RStrip(s) && r == LStrip(t)
    ensures NoEdgeSpace(r)
    ensures OccursAt(s, r, |t| - |r|)
  {
    RStripPrefix(s);
    LStripSuffix(t);
    StripEdges(t, r);
    PieceOfPrefix(s, t, r);
  }

  lemma StripEdges(t: string, r: string)
    requires r == LStrip(t) && (t == [] || !IsSpace(t[|t| - 1]))
    requires |r| <= |t| && r == t[|t| - |r|..]
    ensures NoEdgeSpace(r)
  {
    assert r != [] ==> r[|r| - 1] == t[|t| - 1];
  }

  lemma PieceOfPrefix(s: string, t: string, r: string)
    requires |t| <= |s| && t == s[..|t|]
    requires |r| <= |t| && r == t[|t| - |r|..]
    ensures OccursAt(s, r, |t| - |r|)
  {
    assert s[|t| - |r|..|t|] == r;
  }

  /** `strip` is `lstrip` after `rstrip`. */
  lemma StripIsLR(s: string)
    ensures Strip(s) == LStrip(RStrip(s))
  {
  }

  /** Strip removes whitespace at the two ends and nothing else: what lies
      before and after the piece it keeps is all whitespace. */
  lemma StripExact(s: string)
    ensures exists i :: StripCut(s, Strip(s), i)
  {
    var t := RStrip(s);
    var r := LStrip(t);
    StripFacts(s, t, r);
    RStripPrefix(s);
    LStripSuffix(t);
    var i := |t| - |r|;
    assert Strip(s) == r;
    assert s[..|t|] == t;
    forall k | 0 <= k < i ensures IsSpace(s[k]) {
      assert s[k] == t[k];
    }
    forall k | i + |r| <= k < |s| ensures IsSpace(s[k]) {
    }
    assert OccursAt(s, r, i);
    assert StripCut(s, r, i);
  }

  /** `r` is the piece of `s` at `i`, and everything around it is whitespace. */
  ghost predicate StripCut(s: string, r: string, i: int) {
    && OccursAt(s, r, i)
    && (forall k :: 0 <= k < i ==> IsSpace(s[k]))
    && (forall k :: i + |r| <= k < |s| ==> IsSpace(s[k]))
  }

  /** Those facts and the absence of edge whitespace determine strip. */
  lemma StripDetermined(s: string, r: string, i: int)
    requires NoEdgeSpace(r) && StripCut(s, r, i)
    ensures r == Strip(s)
  {
    StripExact(s);
    var r' := Strip(s);
    var i' :| StripCut(s, r', i');
    CutFacts(s, r, i);
    CutFacts(s, r', i');
    if r != [] && r' != [] {
      assert i == i';
      assert |r| == |r'|;
      assert r == s[i..i + |r|] == r';
    }
  }

  /** A piece cut out of `s` by whitespace alone, with none at its own ends,
      is empty exactly when `s` is all whitespace, and otherwise begins and
      ends on a character that is not whitespace. */
  lemma CutFacts(s: string, r: string, i: int)
    requires NoEdgeSpace(r) && StripCut(s, r, i)
    ensures r == [] <==> forall k :: 0 <= k < |s| ==> IsSpace(s[k])
    ensures r != [] ==> !IsSpace(s[i]) && !IsSpace(s[i + |r| - 1])
  {
    if r != [] {
      assert s[i] == r[0];
      assert s[i + |r| - 1] == r[|r| - 1];
    }
  }

  /** A string without edge whitespace is its own strip. */
  lemma StripNoop(s: string)
    requires NoEdgeSpace(s)
    ensures Strip(s) == s
  {
  }

  /** Every character of a piece of `s` is a character of `s`. */
  lemma PieceChars(s: string, r: string, i: int)
    requires OccursAt(s, r, i)
    ensures forall k :: 0 <= k < |r| ==> r[k] in s
  {
    forall k | 0 <= k < |r| ensures r[k] in s {
      assert r[k] == s[i + k];
    }
  }

  /** Strip only removes characters. */
  lemma StripChars(s: string)
    ensures forall k :: 0 <= k < |Strip(s)| ==> Strip(s)[k] in s
  {
    var i :| OccursAt(s, Strip(s), i);
    PieceChars(s, Strip(s), i);
  }

  /** Stripping a string that begins and ends with a non-space character
      `a` followed by anything strips only the tail. */
  lemma {:induction false} StripAfterWord(a: string, b: string)
    requires a != [] && NoEdgeSpace(a)
    ensures Strip(a + b) == a + RStrip(b)
  {
    RStripAfterWord(a, b);
    var t := a + RStrip(b);
    assert t[0] == a[0];
    assert LStrip(t) == t;
  }

  lemma {:induction false} RStripAfterWord(a: string, b: string)
    requires a != [] && !IsSpace(a[|a| - 1])
    ensures RStrip(a + b) == a + RStrip(b)
    decreases |b|
  {
    if |b| > 0 && IsSpace(b[|b| - 1]) {
      assert (a + b)[..|a + b| - 1] == a + b[..|b| - 1];
      RStripAfterWord(a, b[..|b| - 1]);
    } else {
      assert b == [] ==> a + b == a;
    }
  }

  // ---------------------------------------------------------------------------
  // Case: lower() and isupper()
  // ---------------------------------------------------------------------------

  predicate IsLowerChar(c: char) { 'a' <= c <= 'z' }

  predicate IsUpperChar(c: char) { 'A' <= c <= 'Z' }

  /** A character that has a case at all. */
  predicate IsCasedChar(c: char) { IsLowerChar(c) || IsUpperChar(c) }

  function LowerChar(c: char): char {
    if IsUpperChar(c) then (c as int + 32) as char else c
  }

  /** `s.lower()`. */
  function Lower(s: string): (r: string)
    ensures |r| == |s|
    ensures forall k :: 0 <= k < |s| ==> r[k] == LowerChar(s[k])
    ensures forall k :: 0 <= k < |r| ==> !IsUpperChar(r[k])
  {
    seq(|s|, k requires 0 <= k < |s| => LowerChar(s[k]))
  }

  /** `s.isupper()`: at least one cased character and no lower-case one,
      so a string of digits or punctuation is not upper-case. */
  predicate IsUpper(s: string)
    ensures IsUpper(s) ==> exists k :: 0 <= k < |s| && IsUpperChar(s[k])
    ensures IsUpper(s) ==> Lower(s) != s
  {
    (exists k :: 0 <= k < |s| && IsCasedChar(s[k]))
    && forall k :: 0 <= k < |s| ==> !IsLowerChar(s[k])
  }

  // ---------------------------------------------------------------------------
  // Substring test: `needle in hay`
  // ---------------------------------------------------------------------------

  ghost predicate OccursAt(hay: string, needle: string, i: int) {
    0 <= i && i + |needle| <= |hay| && hay[i..i + |needle|] == needle
  }

  /** `needle in hay`, as a left-to-right search. */
  function Contains(hay: string, needle: string): (r: bool)
    ensures r <==> exists i :: OccursAt(hay, needle, i)
    decreases |hay|
  {
    if |needle| > |hay| then
      false
    else if hay[..|needle|] == needle then
      assert OccursAt(hay, needle, 0);
      true
    else
      ContainsStep(hay, needle);
      Contains(hay[1..], needle)
  }

  /** An occurrence that is not at position 0 is an occurrence in the tail. */
  lemma ContainsStep(hay: string, needle: string)
    requires |needle| <= |hay| && hay[..|needle|] != needle
    ensures (exists i :: OccursAt(hay, needle, i)) <==> (exists i :: OccursAt(hay[1..], needle, i))
  {
    if i :| OccursAt(hay, needle, i) {
      assert i != 0;
      assert hay[1..][i - 1..i - 1 + |needle|] == hay[i..i + |needle|];
      assert OccursAt(hay[1..], needle, i - 1);
    }
    if i :| OccursAt(hay[1..], needle, i) {
      assert hay[1..][i..i + |needle|] == hay[i + 1..i + 1 + |needle|];
      assert OccursAt(hay, needle, i + 1);
    }
  }

  // ---------------------------------------------------------------------------
  // Deleting characters: re.sub(r'[...]', '', s)
  // ---------------------------------------------------------------------------

  /** The characters of `s` that satisfy `keep`, in order. */
  function Keep(s: string, keep: char -> bool): (r: string)
    ensures |r| <= |s|
    ensures forall k :: 0 <= k < |r| ==> keep(r[k])
  {
    if s == [] then [] else (if keep(s[0]) then [s[0]] else []) + Keep(s[1..], keep)
  }

  /** Deleting nothing changes nothing. */
  lemma {:induction false} KeepAll(s: string, keep: char -> bool)
    requires forall k :: 0 <= k < |s| ==> keep(s[k])
    ensures Keep(s, keep) == s
    decreases |s|
  {
    if s != [] {
      KeepAll(s[1..], keep);
    }
  }

  /** Two deletions in a row are one deletion of both kinds of character. */
  lemma {:induction false} KeepTwice(s: string, p: char -> bool, q: char -> bool, both: char -> bool)
    requires forall c :: both(c) == (p(c) && q(c))
    ensures Keep(Keep(s, p), q) == Keep(s, both)
    decreases |s|
  {
    if s != [] {
      KeepTwice(s[1..], p, q, both);
      var head := if p(s[0]) then [s[0]] else [];
      assert Keep(s, p) == head + Keep(s[1..], p);
      KeepAppend(head, Keep(s[1..], p), q);
    }
  }

  lemma {:induction false} KeepAppend(a: string, b: string, keep: char -> bool)
    ensures Keep(a + b, keep) == Keep(a, keep) + Keep(b, keep)
    decreases |a|
  {
    if a != [] {
      KeepAppend(a[1..], b, keep);
      assert (a + b)[0] == a[0] && (a + b)[1..] == a[1..] + b;
    } else {
      assert a + b == b;
    }
  }

  /** `a` can be obtained from `b` by deleting characters. */
  ghost predicate IsSubsequence(a: string, b: string)
    decreases |b|
  {
    if a == [] then true
    else if b == [] then false
    else if a[0] == b[0] then IsSubsequence(a[1..], b[1..])
    else IsSubsequence(a, b[1..])
  }

  /** Keep deletes exactly the rejected characters: every kept character
      occurs as often as in the input, and the order is the input's. */
  lemma {:induction false} KeepDeletesExactly(s: string, keep: char -> bool)
    ensures forall c :: keep(c) ==> multiset(Keep(s, keep))[c] == multiset(s)[c]
    ensures forall c :: !keep(c) ==> multiset(Keep(s, keep))[c] == 0
    ensures IsSubsequence(Keep(s, keep), s)
  {
    if s != [] {
      KeepDeletesExactly(s[1..], keep);
      assert s == [s[0]] + s[1..];
      var head: string := if keep(s[0]) then [s[0]] else [];
      assert multiset(s) == multiset{s[0]} + multiset(s[1..]);
      assert Keep(s, keep) == head + Keep(s[1..], keep);
      assert multiset(Keep(s, keep)) == multiset(head) + multiset(Keep(s[1..], keep));
      if keep(s[0]) {
        assert Keep(s, keep)[0] == s[0];
        assert Keep(s, keep)[1..] == Keep(s[1..], keep);
      } else {
        assert !keep(s[0]) ==> Keep(s, keep) == Keep(s[1..], keep);
        SubsequenceSkip(Keep(s[1..], keep), s);
      }
    }
  }

  /** Putting a character in front keeps a subsequence a subsequence. */
  lemma {:induction false} SubsequenceSkip(a: string, b: string)
    requires b != [] && IsSubsequence(a, b[1..])
    ensures IsSubsequence(a, b)
    decreases |b|, 1
  {
    if a != [] && a[0] == b[0] {
      SubsequenceTail(a, b[1..]);
    }
  }

  /** Dropping the first character of a subsequence keeps it a subsequence. */
  lemma {:induction false} SubsequenceTail(a: string, b: string)
    requires a != [] && IsSubsequence(a, b)
    ensures IsSubsequence(a[1..], b)
    decreases |b|, 2
  {
    if a[1..] != [] {
      if a[0] != b[0] {
        SubsequenceTail(a, b[1..]);
      }
      SubsequenceSkip(a[1..], b);
    }
  }

  /** A subsequence never holds a character more often than the whole. */
  lemma {:induction false} SubsequenceCounts(a: string, b: string)
    requires IsSubsequence(a, b)
    ensures multiset(a) <= multiset(b)
    decreases |b|
  {
    if a != [] {
      assert b == [b[0]] + b[1..];
      assert multiset(b) == multiset{b[0]} + multiset(b[1..]);
      if a[0] == b[0] {
        SubsequenceCounts(a[1..], b[1..]);
        assert a == [a[0]] + a[1..];
        assert multiset(a) == multiset{a[0]} + multiset(a[1..]);
      } else {
        SubsequenceCounts(a, b[1..]);
      }
    }
  }

  /** Keep is the ONLY way to delete the rejected characters: any
      subsequence of `s` made of kept characters, holding each kept
      character as often as `s` does, is `Keep(s, keep)`. */
  lemma {:induction false} KeepUnique(s: string, keep: char -> bool, r: string)
    requires IsSubsequence(r, s)
    requires forall k :: 0 <= k < |r| ==> keep(r[k])
    requires forall c :: keep(c) ==> multiset(r)[c] == multiset(s)[c]
    ensures r == Keep(s, keep)
    decreases |s|
  {
    if s == [] {
      assert r == [];
    } else {
      var x := s[0];
      assert s == [x] + s[1..];
      assert multiset(s) == multiset{x} + multiset(s[1..]);
      if keep(x) {
        assert multiset(r)[x] >= 1;
        assert r != [];
        if r[0] == x {
          assert r == [x] + r[1..];
          assert multiset(r) == multiset{x} + multiset(r[1..]);
          KeepUnique(s[1..], keep, r[1..]);
        } else {
          SubsequenceCounts(r, s[1..]);
          assert false;
        }
      } else {
        assert r != [] ==> r[0] != x;
        assert IsSubsequence(r, s[1..]);
        KeepUnique(s[1..], keep, r);
      }
    }
  }

  // ---------------------------------------------------------------------------
  // sep.join(parts) and str(n)
  // ---------------------------------------------------------------------------

  /** `sep.join(parts)`. */
  function JoinWith(sep: string, parts: seq<string>): (r: string)
    ensures parts != [] ==> parts[0] <= r && |r| == TotalLength(parts) + |sep| * (|parts| - 1)
    ensures parts == [] ==> r == ""
    decreases |parts|
  {
    if |parts| == 0 then ""
    else if |parts| == 1 then parts[0]
    else parts[0] + sep + JoinWith(sep, parts[1..])
  }

  /** The summed lengths of `parts`. */
  function TotalLength(parts: seq<string>): nat {
    if parts == [] then 0 else |parts[0]| + TotalLength(parts[1..])
  }

  /** The strings of `parts` that are not empty (`t for t in parts if t`). */
  function NonEmpty(parts: seq<string>): (r: seq<string>)
    ensures forall k :: 0 <= k < |r| ==> r[k] != "" && r[k] in parts
    ensures forall k :: 0 <= k < |parts| && parts[k] != "" ==> parts[k] in r
    ensures |r| <= |parts|
    ensures r == [] <==> forall k :: 0 <= k < |parts| ==> parts[k] == ""
  {
    if parts == [] then []
    else (if parts[0] != "" then [parts[0]] else []) + NonEmpty(parts[1..])
  }

  /** Filtering keeps every non-empty entry as often as it occurs and drops
      every "". */
  lemma {:induction false} NonEmptyCounts(parts: seq<string>)
    ensures forall t :: t != "" ==> multiset(NonEmpty(parts))[t] == multiset(parts)[t]
    ensures multiset(NonEmpty(parts))[""] == 0
  {
    if parts != [] {
      NonEmptyCounts(parts[1..]);
      assert parts == [parts[0]] + parts[1..];
      assert multiset(parts) == multiset{parts[0]} + multiset(parts[1..]);
    }
  }

  /** Filtering a concatenation filters each half and keeps them in order,
      so entries stay in their input order. */
  lemma {:induction false} NonEmptyAppend(a: seq<string>, b: seq<string>)
    ensures NonEmpty(a + b) == NonEmpty(a) + NonEmpty(b)
    decreases |a|
  {
    if a == [] {
      assert a + b == b;
    } else {
      var head := if a[0] != "" then [a[0]] else [];
      assert (a + b)[0] == a[0];
      assert (a + b)[1..] == a[1..] + b;
      NonEmptyAppend(a[1..], b);
      assert head + (NonEmpty(a[1..]) + NonEmpty(b)) == (head + NonEmpty(a[1..])) + NonEmpty(b);
    }
  }

  function DigitChar(d: nat): char
    requires d < 10
  {
    ('0' as int + d) as char
  }

  /** `str(n)` for a non-negative integer: decimal, no leading zeros. */
  function NatToString(n: nat): (r: string)
    ensures |r| >= 1
    ensures |r| == 1 <==> n < 10
  {
    if n < 10 then [DigitChar(n)] else NatToString(n / 10) + [DigitChar(n % 10)]
  }

  /** Different numbers print differently. */
  lemma {:induction false} NatToStringInjective(a: nat, b: nat)
    requires NatToString(a) == NatToString(b)
    ensures a == b
  {
    if a >= 10 && b >= 10 {
      var sa, sb := NatToString(a), NatToString(b);
      assert sa[|sa| - 1] == DigitChar(a % 10);
      assert sb[|sb| - 1] == DigitChar(b % 10);
      assert sa[..|sa| - 1] == NatToString(a / 10);
      assert sb[..|sb| - 1] == NatToString(b / 10);
      NatToStringInjective(a / 10, b / 10);
    }
  }
}
