/** `get_unique_output_file` of utils.py: the first file name of the form
    `base + suffix + ext`, `base + suffix + separator + "1" + ext`, ... that does
    not name an existing file. The file system is the finite set of existing paths. */
module OutputPaths {
  import opened Common
  import opened Strings

  predicate IsPathSeparator(c: char)
  {
    c == '\\' || c == '/'
  }

  /** Index just after the last path separator in `p[..k]`, 0 when there is none. */
  function NameStart(p: string, k: nat): (i: nat)
    requires k <= |p|
    ensures i <= k
    ensures i == 0 || IsPathSeparator(p[i - 1])
    ensures forall j :: i <= j < k ==> !IsPathSeparator(p[j])
    decreases k
  {
    if k == 0 then 0 else if IsPathSeparator(p[k - 1]) then k else NameStart(p, k - 1)
  }

  /** Index of the last '.' in `p[..k]`. */
  function LastDot(p: string, k: nat): (r: Option<nat>)
    requires k <= |p|
    ensures r.None? ==> forall j :: 0 <= j < k ==> p[j] != '.'
    ensures r.Some? ==> r.value < k && p[r.value] == '.' && forall j :: r.value < j < k ==> p[j] != '.'
    decreases k
  {
    if k == 0 then None else if p[k - 1] == '.' then Some(k - 1) else LastDot(p, k - 1)
  }

  /** Windows' `os.path.splitext`: the extension starts at the last '.' of the
      final path component, unless every character before that dot in the
      component is a dot too (so ".profile" and "..x" have no extension). */
  function SplitExt(p: string): (r: (string, string))
    ensures r.0 + r.1 == p
    ensures r.1 == [] || (r.1[0] == '.' && forall j :: 0 <= j < |r.1| ==> !IsPathSeparator(r.1[j]))
    ensures r.1 != [] ==> forall j :: 1 <= j < |r.1| ==> r.1[j] != '.'
  {
    var start := NameStart(p, |p|);
    match LastDot(p, |p|)
    case Some(dot) =>
      if dot >= start && exists j :: start <= j < dot && p[j] != '.' then
        assert p[..dot] + p[dot..] == p;
        (p[..dot], p[dot..])
      else (p, [])
    case None => (p, [])
  }

  /** A path whose last component is a stem that is not all dots, then '.', then
      a dot-free extension, splits at that dot. */
  lemma SplitExtFinds(dir: string, stem: string, e: string)
    requires dir == [] || IsPathSeparator(dir[|dir| - 1])
    requires forall j :: 0 <= j < |stem| ==> !IsPathSeparator(stem[j])
    requires forall j :: 0 <= j < |e| ==> !IsPathSeparator(e[j]) && e[j] != '.'
    requires exists j :: 0 <= j < |stem| && stem[j] != '.'
    ensures SplitExt(dir + stem + "." + e) == (dir + stem, "." + e)
  {
    var p := dir + stem + "." + e;
    var start := NameStart(p, |p|);
    var dot := |dir| + |stem|;
    assert forall j :: |dir| <= j < |p| ==> !IsPathSeparator(p[j]);
    assert dir != [] ==> IsPathSeparator(p[|dir| - 1]);
    assert start == |dir|;
    assert p[dot] == '.';
    assert LastDot(p, |p|) == Some(dot);
    var j0 :| 0 <= j0 < |stem| && stem[j0] != '.';
    assert p[|dir| + j0] != '.';
    assert p[..dot] == dir + stem;
    assert p[dot..] == "." + e;
    assert dot >= start && start <= |dir| + j0 < dot && p[|dir| + j0] != '.';
  }

  /** A path whose last component holds no '.' has no extension. */
  lemma SplitExtNone(p: string)
    requires forall j :: NameStart(p, |p|) <= j < |p| ==> p[j] != '.'
    ensures SplitExt(p) == (p, [])
  {
  }

  /** The `n`-th name tried: `base + suffix + ext` first, then `base + suffix + separator + str(n) + ext`. */
  function Candidate(base: string, suffix: string, separator: string, ext: string, n: nat): string
  {
    if n == 0 then base + suffix + ext else base + suffix + separator + NatToString(n) + ext
  }

  /** Different counters give different names, so the search always ends. */
  lemma CandidateDistinct(base: string, suffix: string, separator: string, ext: string, i: nat, j: nat)
    requires i != j
    ensures Candidate(base, suffix, separator, ext, i) != Candidate(base, suffix, separator, ext, j)
  {
    if i != 0 && j != 0 {
      var a := Candidate(base, suffix, separator, ext, i);
      var b := Candidate(base, suffix, separator, ext, j);
      if a == b {
        var lo := |base + suffix + separator|;
        var di := NatToString(i);
        var dj := NatToString(j);
        assert |di| == |dj|;
        assert a[lo..lo + |di|] == di;
        assert b[lo..lo + |dj|] == dj;
        NatToStringInjective(i, j);
      }
    }
  }

  /** `get_unique_output_file(base_file, suffix, separator)`, with `existing`
      the paths for which `os.path.exists` holds. */
  method GetUniqueOutputFile(baseFile: string, suffix: string, separator: string, existing: set<string>)
    returns (outputFile: string)
    ensures outputFile !in existing
    ensures var (base, ext) := SplitExt(baseFile);
      exists n: nat :: outputFile == Candidate(base, suffix, separator, ext, n) &&
        forall k: nat :: k < n ==> Candidate(base, suffix, separator, ext, k) in existing
    ensures StartsWith(outputFile, SplitExt(baseFile).0 + suffix)
    ensures |SplitExt(baseFile).1| <= |outputFile| &&
      outputFile[|outputFile| - |SplitExt(baseFile).1|..] == SplitExt(baseFile).1
    ensures SplitExt(baseFile).0 + suffix + SplitExt(baseFile).1 !in existing ==>
      outputFile == SplitExt(baseFile).0 + suffix + SplitExt(baseFile).1
  {
    var (base, ext) := SplitExt(baseFile);
    outputFile := base + suffix + ext;
    var counter: nat := 1;
    ghost var tried: set<string> := {};
    while outputFile in existing
      invariant outputFile == Candidate(base, suffix, separator, ext, counter - 1)
      invariant forall k: nat :: k < counter - 1 ==> Candidate(base, suffix, separator, ext, k) in tried
      invariant tried <= existing
      invariant |tried| == counter - 1
      invariant forall x :: x in tried ==> exists k: nat :: k < counter - 1 && x == Candidate(base, suffix, separator, ext, k)
      decreases |existing| - |tried|
    {
      forall k: nat | k < counter - 1
        ensures Candidate(base, suffix, separator, ext, k) != outputFile
      {
        CandidateDistinct(base, suffix, separator, ext, k, counter - 1);
      }
      assert outputFile !in tried;
      tried := tried + {outputFile};
      assert tried <= existing;
      SubsetSize(tried, existing);
      outputFile := base + suffix + separator + NatToString(counter) + ext;
      counter := counter + 1;
    }
    assert (base + suffix + separator + NatToString(counter - 1) + ext)[..|base + suffix|] == base + suffix;
    assert (base + suffix + ext)[..|base + suffix|] == base + suffix;
  }

  lemma SubsetSize(a: set<string>, b: set<string>)
    requires a <= b
    ensures |a| <= |b|
  {
    assert b == a + (b - a);
  }
}
