/**
 * The parts of Python's `posixpath` the renamer uses: `splitext`,
 * `dirname`/`basename` (that is, `split`) and two-argument `join`.
 * Paths are separated by '/' only.
 */
module PosixPath {

  /** `s.rfind(c)`: the last position of `c`, or -1. */
  function RFind(s: string, c: char): (r: int)
    ensures -1 <= r < |s|
    ensures r >= 0 ==> s[r] == c
    ensures forall k :: r < k < |s| ==> s[k] != c
  {
    if s == [] then -1
    else if s[|s| - 1] == c then |s| - 1
    else RFind(s[..|s| - 1], c)
  }

  /** Every character of `p` from `lo` up to `hi` is a '.'. */
  predicate AllDots(p: string, lo: int, hi: int)
    requires 0 <= lo && hi <= |p|
  {
    forall k :: lo <= k < hi ==> p[k] == '.'
  }

  /** `splitext(p)`: the extension starts at the last '.', provided that dot
      lies in the last path component and something other than dots comes
      before it there (so ".bashrc" and "..." have no extension). */
  function SplitExt(p: string): (r: (string, string))
    ensures r.0 + r.1 == p
    ensures r.1 == "" || r.1[0] == '.'
  {
    var sep := RFind(p, '/');
    var dot := RFind(p, '.');
    if dot > sep && !AllDots(p, sep + 1, dot) then
      assert p[..dot] + p[dot..] == p;
      (p[..dot], p[dot..])
    else
      (p, "")
  }

  /** Position `d` is where an extension of `p` begins: the last '.', with no
      '/' after it, and a character other than '.' and '/' earlier in the
      same path component. */
  ghost predicate IsExtSplit(p: string, d: int) {
    && 0 <= d < |p| && p[d] == '.'
    && (forall k :: d < k < |p| ==> p[k] != '.' && p[k] != '/')
    && (exists j :: 0 <= j < d && p[j] != '.' && p[j] != '/' && forall k :: j < k < d ==> p[k] != '/')
  }

  /** SplitExt cuts at the extension exactly when there is one. */
  lemma SplitExtCorrect(p: string)
    ensures SplitExt(p).1 != "" ==> IsExtSplit(p, |SplitExt(p).0|)
    ensures SplitExt(p).1 == "" ==> forall d :: !IsExtSplit(p, d)
  {
    var sep := RFind(p, '/');
    var dot := RFind(p, '.');
    if dot > sep && !AllDots(p, sep + 1, dot) {
      var i :| sep + 1 <= i < dot && p[i] != '.';
      assert IsExtSplit(p, dot);
    } else {
      forall d | 0 <= d < |p| ensures !IsExtSplit(p, d) {
        ExtSplitIsCut(p, d);
      }
    }
  }

  /** An extension can only begin where SplitExt cuts. */
  lemma ExtSplitIsCut(p: string, d: int)
    ensures IsExtSplit(p, d) ==> d == RFind(p, '.') && d > RFind(p, '/') && !AllDots(p, RFind(p, '/') + 1, d)
  {
    if IsExtSplit(p, d) {
      var sep := RFind(p, '/');
      var j :| 0 <= j < d && p[j] != '.' && p[j] != '/' && forall k :: j < k < d ==> p[k] != '/';
      assert sep < j;
    }
  }

  /** `s.rstrip('/')`. */
  function RStripSlash(s: string): (r: string)
    ensures |r| <= |s| && r == s[..|r|]
    ensures r == [] || r[|r| - 1] != '/'
    ensures forall k :: |r| <= k < |s| ==> s[k] == '/'
  {
    if s == [] || s[|s| - 1] != '/' then s else RStripSlash(s[..|s| - 1])
  }

  /** `split(p)`: everything up to the last '/' and the rest; the head keeps
      its trailing slashes only when it consists of slashes alone. */
  function Split(p: string): (r: (string, string))
    ensures '/' !in r.1
  {
    var i := RFind(p, '/') + 1;
    var head, tail := p[..i], p[i..];
    if head != "" && !(forall k :: 0 <= k < |head| ==> head[k] == '/') then
      (RStripSlash(head), tail)
    else
      (head, tail)
  }

  /** The head, the slashes dropped after it and the tail make up the path.
      The tail is all of `p` or starts right after a '/'; the head is empty,
      all slashes (and then nothing is dropped), or does not end in '/'. */
  lemma SplitParts(p: string)
    ensures |Split(p).0| + |Split(p).1| <= |p|
    ensures Split(p).0 == p[..|Split(p).0|] && Split(p).1 == p[|p| - |Split(p).1|..]
    ensures forall k :: |Split(p).0| <= k < |p| - |Split(p).1| ==> p[k] == '/'
    ensures |Split(p).1| == |p| || p[|p| - |Split(p).1| - 1] == '/'
    ensures (forall k :: 0 <= k < |Split(p).0| ==> Split(p).0[k] == '/') ==>
      |Split(p).0| + |Split(p).1| == |p|
    ensures Split(p).0 == [] || Split(p).0[|Split(p).0| - 1] != '/' ||
      forall k :: 0 <= k < |Split(p).0| ==> Split(p).0[k] == '/'
  {
    var i := RFind(p, '/') + 1;
    var head := p[..i];
    if head != "" && !(forall k :: 0 <= k < |head| ==> head[k] == '/') {
      var h := RStripSlash(head);
      var j :| 0 <= j < |head| && head[j] != '/';
      assert j < |h|;
      assert h[j] == head[j];
    }
  }

  /** `dirname(p)`: the head of `split(p)`, a prefix of `p`. */
  function Dirname(p: string): (r: string)
    ensures |r| <= |p| && r == p[..|r|]
  {
    Split(p).0
  }

  /** `basename(p)`: the tail of `split(p)`, the text after the last '/'. */
  function Basename(p: string): (r: string)
    ensures '/' !in r && |r| <= |p| && r == p[|p| - |r|..]
  {
    SplitParts(p);
    Split(p).1
  }

  /** `join(a, b)`: an absolute `b` replaces `a`, otherwise exactly one '/'
      is put between them unless `a` is empty or already ends in one. */
  function JoinPath(a: string, b: string): (r: string)
    ensures |r| >= |b|
  {
    if b != [] && b[0] == '/' then b
    else if a == [] || a[|a| - 1] == '/' then a + b
    else a + "/" + b
  }

  /** An absolute `b` wins; a relative one is appended to `a`, with a '/'
      in between only when `a` is non-empty and does not already end in one,
      so `join("", "x")` is "x" and `join("d/", "x")` is "d/x". */
  lemma JoinPathShape(a: string, b: string)
    ensures b != [] && b[0] == '/' ==> JoinPath(a, b) == b
    ensures (b == [] || b[0] != '/') && (a == [] || a[|a| - 1] == '/') ==> JoinPath(a, b) == a + b
    ensures (b == [] || b[0] != '/') && a != [] && a[|a| - 1] != '/' ==> JoinPath(a, b) == a + "/" + b
  {
  }

  /** Joining onto the same directory does not lose information about a
      relative name. */
  lemma JoinPathInjective(a: string, b: string, c: string)
    requires b != [] && b[0] != '/' && c != [] && c[0] != '/'
    requires JoinPath(a, b) == JoinPath(a, c)
    ensures b == c
  {
    var r := JoinPath(a, b);
    if a == [] || a[|a| - 1] == '/' {
      assert b == r[|a|..] == c;
    } else {
      assert b == r[|a| + 1..] == c;
    }
  }

  /** At most one position begins an extension. */
  lemma ExtSplitUnique(p: string, d: int, e: int)
    requires IsExtSplit(p, d) && IsExtSplit(p, e)
    ensures d == e
  {
  }

  /** Where an extension begins, SplitExt cuts. */
  lemma SplitExtAt(p: string, d: int)
    requires IsExtSplit(p, d)
    ensures SplitExt(p) == (p[..d], p[d..])
  {
    SplitExtCorrect(p);
    ExtSplitUnique(p, d, |SplitExt(p).0|);
    assert SplitExt(p).0 == p[..d];
  }

  /** The last component of `join(a, x)` is `x` when `x` is a plain name. */
  lemma BasenameOfJoin(a: string, x: string)
    requires x != [] && '/' !in x
    ensures Basename(JoinPath(a, x)) == x
  {
    var q := JoinPath(a, x);
    var i := RFind(q, '/') + 1;
    assert q[|q| - |x|..] == x;
    forall k | |q| - |x| <= k < |q| ensures q[k] != '/' {
      assert q[k] == x[k - (|q| - |x|)];
    }
    if a == [] {
      assert q == x;
    } else if a[|a| - 1] == '/' {
      assert q == a + x && q[|a| - 1] == '/';
    } else {
      assert q == a + "/" + x && q[|a|] == '/';
    }
    assert i == |q| - |x|;
  }
}
