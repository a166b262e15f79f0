/**
 * `create_new_filename`: put a prefix before a file name and a suffix
 * between its stem and its extension, as `splitext` divides them.
 */
module FileOperations {
  import opened PosixPath

  function CreateNewFilename(filename: string, prefix: string, suffix: string): (r: string)
    ensures |r| == |prefix| + |filename| + |suffix|
    ensures r[..|prefix|] == prefix
    ensures r[|r| - |suffix| - |SplitExt(filename).1|..] == suffix + SplitExt(filename).1
    ensures r[|prefix|..|r| - |suffix| - |SplitExt(filename).1|] == SplitExt(filename).0
  {
    var parts := SplitExt(filename);
    prefix + parts.0 + suffix + parts.1
  }

  /** Without a prefix or a suffix the name is unchanged. */
  lemma NoAffixesIdentity(filename: string)
    ensures CreateNewFilename(filename, "", "") == filename
  {
  }

  /** The new name keeps the old extension, and its stem is the old stem
      between prefix and suffix, as long as the suffix holds no '/'. */
  lemma ExtensionKept(filename: string, prefix: string, suffix: string)
    requires '/' !in suffix && SplitExt(filename).1 != ""
    ensures SplitExt(CreateNewFilename(filename, prefix, suffix)) ==
      (prefix + SplitExt(filename).0 + suffix, SplitExt(filename).1)
  {
    var name, ext := SplitExt(filename).0, SplitExt(filename).1;
    var stem := prefix + name + suffix;
    var r := CreateNewFilename(filename, prefix, suffix);
    assert r == stem + ext;
    SplitExtCorrect(filename);
    assert IsExtSplit(filename, |name|);
    var j :| 0 <= j < |name| && filename[j] != '.' && filename[j] != '/' &&
      forall k :: j < k < |name| ==> filename[k] != '/';
    assert r[|prefix| + j] == filename[j];
    forall k | |prefix| + j < k < |stem| ensures r[k] != '/' {
      if k < |prefix| + |name| {
        assert r[k] == filename[k - |prefix|];
      } else {
        assert r[k] == suffix[k - |prefix| - |name|];
      }
    }
    forall k | |stem| < k < |r| ensures r[k] != '.' && r[k] != '/' {
      assert r[k] == filename[k - |stem| + |name|];
    }
    assert r[|stem|] == filename[|name|];
    assert IsExtSplit(r, |stem|);
    SplitExtAt(r, |stem|);
  }

  /** Without its conditions ExtensionKept fails. A dotted prefix on a name
      without an extension creates one. */
  lemma PrefixCreatesExtension()
    ensures SplitExt("README").1 == ""
    ensures SplitExt(CreateNewFilename("README", "v1.", "")).1 == ".README"
  {
    var f := "README";
    SplitExtCorrect(f);
    assert forall d :: 0 <= d < |f| ==> f[d] != '.';
    var r := CreateNewFilename(f, "v1.", "");
    assert r == "v1.README";
    assert r[0] == 'v';
    assert IsExtSplit(r, 2);
    SplitExtAt(r, 2);
  }

  /** A '/' in the suffix moves the extension into a path component of its
      own, where it is a dot file with no extension. */
  lemma SlashSuffixDropsExtension()
    ensures SplitExt("a.txt").1 == ".txt"
    ensures SplitExt(CreateNewFilename("a.txt", "", "/")).1 == ""
  {
    var f := "a.txt";
    assert f[0] == 'a';
    assert IsExtSplit(f, 1);
    SplitExtAt(f, 1);
    var r := CreateNewFilename(f, "", "/");
    assert r == "a/.txt";
    SplitExtCorrect(r);
    forall d | 0 <= d < |r| ensures !IsExtSplit(r, d) {
      assert r[1] == '/' && r[2] == '.';
    }
  }
}
