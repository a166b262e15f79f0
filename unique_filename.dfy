/**
 * `get_unique_filename`: when a path is taken, try "name (1).ext",
 * "name (2).ext", ... in the same directory until one is free. The file
 * system is a snapshot: the set of paths that exist while the search runs.
 */
module UniqueFilename {
  import opened PyStr
  import opened PosixPath

  /** The name tried on round `k` of the search for `basePath`. */
  function Candidate(basePath: string, k: nat): (r: string)
    ensures Dirname(basePath) <= r
  {
    var parts := SplitExt(Basename(basePath));
    NameParts(basePath);
    JoinPath(Dirname(basePath), NumberedName(parts.0, k, parts.1))
  }

  /** `f"{name} ({k}){ext}"`. */
  function NumberedName(name: string, k: nat, ext: string): (r: string)
    ensures |r| > |name| + |ext| + 3
    ensures '/' !in name && '/' !in ext ==> '/' !in r
  {
    var n := NatToString(k);
    assert forall i :: 0 <= i < |n| ==> n[i] != '/' by { NatToStringChars(k); }
    name + " (" + n + ")" + ext
  }

  lemma {:induction false} NatToStringChars(k: nat)
    ensures forall i :: 0 <= i < |NatToString(k)| ==> '0' <= NatToString(k)[i] <= '9'
  {
    if k >= 10 {
      NatToStringChars(k / 10);
      assert NatToString(k) == NatToString(k / 10) + [DigitChar(k % 10)];
    }
  }

  lemma NumberedNameInjective(name: string, j: nat, k: nat, ext: string)
    requires NumberedName(name, j, ext) == NumberedName(name, k, ext)
    ensures j == k
  {
    var x := NumberedName(name, j, ext);
    var nj, nk := NatToString(j), NatToString(k);
    assert |nj| == |nk|;
    var lo := |name| + 2;
    assert x[lo..lo + |nj|] == nj;
    assert NumberedName(name, k, ext)[lo..lo + |nk|] == nk;
    NatToStringInjective(j, k);
  }

  /** Neither half of the split last component holds a '/'. */
  lemma NameParts(basePath: string)
    ensures '/' !in SplitExt(Basename(basePath)).0 && '/' !in SplitExt(Basename(basePath)).1
  {
    var base := Basename(basePath);
    var name, ext := SplitExt(base).0, SplitExt(base).1;
    assert base == name + ext;
    forall i | 0 <= i < |name| ensures name[i] != '/' { assert name[i] == base[i]; }
    forall i | 0 <= i < |ext| ensures ext[i] != '/' { assert ext[i] == base[|name| + i]; }
  }

  /** Different rounds try different paths, so the search cannot revisit a
      name. */
  lemma CandidateInjective(basePath: string, j: nat, k: nat)
    requires Candidate(basePath, j) == Candidate(basePath, k)
    ensures j == k
  {
    var parts := SplitExt(Basename(basePath));
    NameParts(basePath);
    var x, y := NumberedName(parts.0, j, parts.1), NumberedName(parts.0, k, parts.1);
    assert x[0] in x && y[0] in y;
    JoinPathInjective(Dirname(basePath), x, y);
    NumberedNameInjective(parts.0, j, k, parts.1);
  }

  /** A path without a directory has candidates without one: no "/" is
      put in front of the numbered name. */
  lemma CandidateNoDirectory(basePath: string, k: nat)
    requires Dirname(basePath) == ""
    ensures Candidate(basePath, k) == NumberedName(SplitExt(Basename(basePath)).0, k, SplitExt(Basename(basePath)).1)
  {
    var parts := SplitExt(Basename(basePath));
    NameParts(basePath);
    var x := NumberedName(parts.0, k, parts.1);
    assert x[0] in x;
    JoinPathShape("", x);
  }

  /** `get_unique_filename("report.docx")` tries "report (1).docx", then
      "report (2).docx". */
  lemma ReportCandidates()
    ensures Candidate("report.docx", 1) == "report (1).docx"
    ensures Candidate("report.docx", 2) == "report (2).docx"
  {
    ReportParts();
    CandidateNoDirectory("report.docx", 1);
    CandidateNoDirectory("report.docx", 2);
    ReportNumbered();
  }

  lemma ReportNumbered()
    ensures NumberedName("report", 1, ".docx") == "report (1).docx"
    ensures NumberedName("report", 2, ".docx") == "report (2).docx"
  {
    assert NatToString(1) == "1" && NatToString(2) == "2";
  }

  /** "report.docx" has no directory, and its extension is ".docx". */
  lemma ReportParts()
    ensures Dirname("report.docx") == "" && Basename("report.docx") == "report.docx"
    ensures SplitExt("report.docx") == ("report", ".docx")
  {
    var p := "report.docx";
    assert forall k :: 0 <= k < |p| ==> p[k] != '/';
    assert RFind(p, '/') == -1;
    assert p[..0] == "" && p[0..] == p;
    assert p[0] == 'r' && p[6] == '.';
    assert IsExtSplit(p, 6);
    SplitExtAt(p, 6);
    assert p[..6] == "report" && p[6..] == ".docx";
  }

  /** Numbering the stem of a name leaves its extension where it was. */
  lemma NumberedKeepsExt(name: string, k: nat, ext: string)
    requires ext != "" && IsExtSplit(name + ext, |name|)
    ensures SplitExt(NumberedName(name, k, ext)).1 == ext
  {
    var x := NumberedName(name, k, ext);
    var stem := name + " (" + NatToString(k) + ")";
    assert x == stem + ext;
    assert x[|stem| - 1] == ')';
    forall i | |stem| < i < |x| ensures x[i] != '.' && x[i] != '/' {
      assert x[i] == ext[i - |stem|] == (name + ext)[i - |stem| + |name|];
    }
    assert x[|stem|] == '.';
    assert IsExtSplit(x, |stem|);
    SplitExtAt(x, |stem|);
  }

  /** A numbered copy stays a plain name in the directory of the original and
      keeps its extension: "a/report.pdf" becomes "a/report (1).pdf". */
  lemma CandidateKeepsExtension(basePath: string, k: nat)
    ensures Basename(Candidate(basePath, k)) == NumberedName(SplitExt(Basename(basePath)).0, k, SplitExt(Basename(basePath)).1)
    ensures SplitExt(Basename(Candidate(basePath, k))).1 == SplitExt(Basename(basePath)).1
  {
    var base := Basename(basePath);
    var name, ext := SplitExt(base).0, SplitExt(base).1;
    NameParts(basePath);
    BasenameOfJoin(Dirname(basePath), NumberedName(name, k, ext));
    if ext != "" {
      SplitExtCorrect(base);
      NumberedKeepsExt(name, k, ext);
    } else {
      NumberedNoExt(name, k);
    }
  }

  /** A name without an extension gets none by numbering. */
  lemma NumberedNoExt(name: string, k: nat)
    requires SplitExt(name).1 == ""
    ensures SplitExt(NumberedName(name, k, "")).1 == ""
  {
    SplitExtCorrect(name);
    SplitExtCorrect(NumberedName(name, k, ""));
    forall d ensures !IsExtSplit(NumberedName(name, k, ""), d) {
      NumberedExtWasThere(name, k, d);
    }
  }

  /** Numbering adds no '.', so any extension of the numbered name was
      already one of the name. */
  lemma NumberedExtWasThere(name: string, k: nat, d: int)
    ensures IsExtSplit(NumberedName(name, k, ""), d) ==> IsExtSplit(name, d)
  {
    var x := NumberedName(name, k, "");
    if IsExtSplit(x, d) {
      var n := NatToString(k);
      NatToStringChars(k);
      assert x == name + " (" + n + ")";
      forall i | |name| <= i < |x| ensures x[i] != '.' {
        if |name| + 2 <= i < |x| - 1 {
          assert x[i] == n[i - |name| - 2];
        }
      }
      assert d < |name|;
      forall i | d < i < |name| ensures name[i] != '.' && name[i] != '/' {
        assert name[i] == x[i];
      }
      var j :| 0 <= j < d && x[j] != '.' && x[j] != '/' && forall i :: j < i < d ==> x[i] != '/';
      assert name[j] == x[j];
      assert forall i :: j < i < d ==> name[i] == x[i];
    }
  }

  /** The paths tried in rounds 1 .. n. */
  ghost function CandidateSet(basePath: string, n: nat): set<string> {
    set j | 1 <= j <= n :: Candidate(basePath, j)
  }

  lemma {:induction false} CandidateSetSize(basePath: string, n: nat)
    ensures |CandidateSet(basePath, n)| == n
  {
    if n > 0 {
      CandidateSetSize(basePath, n - 1);
      assert CandidateSet(basePath, n) == CandidateSet(basePath, n - 1) + {Candidate(basePath, n)};
      if Candidate(basePath, n) in CandidateSet(basePath, n - 1) {
        var j :| 1 <= j <= n - 1 && Candidate(basePath, j) == Candidate(basePath, n);
        CandidateInjective(basePath, j, n);
      }
    }
  }

  /** The candidates of rounds 1 .. n - 1 are all taken. */
  ghost predicate Taken(existing: set<string>, basePath: string, n: nat) {
    forall j :: 1 <= j < n ==> Candidate(basePath, j) in existing
  }

  /** One more taken round extends the run of taken rounds. */
  lemma TakenStep(existing: set<string>, basePath: string, n: nat)
    requires Taken(existing, basePath, n) && Candidate(basePath, n) in existing
    ensures Taken(existing, basePath, n + 1)
  {
  }

  /** The search stops: at most as many rounds find their path taken as
      there are paths. */
  lemma RoundsBounded(existing: set<string>, basePath: string, n: nat)
    requires forall j :: 1 <= j <= n ==> Candidate(basePath, j) in existing
    ensures n <= |existing|
  {
    CandidateSetSize(basePath, n);
    SubsetSize(CandidateSet(basePath, n), existing);
  }

  lemma {:induction false} SubsetSize(a: set<string>, b: set<string>)
    requires a <= b
    ensures |a| <= |b|
    decreases |a|
  {
    if a != {} {
      var x :| x in a;
      SubsetSize(a - {x}, b - {x});
    }
  }

  /** `get_unique_filename(base_path)`, with `existing` standing for
      `os.path.exists`: the path itself when it is free, otherwise the first
      numbered candidate that is free. */
  method GetUniqueFilename(existing: set<string>, basePath: string) returns (r: string)
    ensures r !in existing
    ensures basePath !in existing ==> r == basePath
    ensures basePath in existing ==>
      exists k :: k >= 1 && r == Candidate(basePath, k) &&
        forall j :: 1 <= j < k ==> Candidate(basePath, j) in existing
  {
    if basePath !in existing {
      return basePath;
    }
    var directory := Dirname(basePath);
    var filename := Basename(basePath);
    var name, ext := SplitExt(filename).0, SplitExt(filename).1;
    var counter := 1;
    r := basePath;
    while r in existing
      invariant counter >= 1
      invariant counter == 1 ==> r == basePath
      invariant counter > 1 ==> r == Candidate(basePath, counter - 1)
      invariant Taken(existing, basePath, counter - 1)
      decreases |existing| + 1 - counter
    {
      if counter > 1 {
        TakenStep(existing, basePath, counter - 1);
      }
      assert Taken(existing, basePath, counter);
      RoundsBounded(existing, basePath, counter - 1);
      var newName := NumberedName(name, counter, ext);
      r := JoinPath(directory, newName);
      assert r == Candidate(basePath, counter);
      counter := counter + 1;
    }
    assert counter > 1 && r == Candidate(basePath, counter - 1);
    assert Taken(existing, basePath, counter - 1);
  }
}
