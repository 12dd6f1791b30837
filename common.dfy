/** Values shared by every part of the model: optional values, the errors the
    scripts raise, and the "deleted some elements, kept the order" relation. */
module Common {

  datatype Option<T> = None | Some(value: T)

  /** The two Python exceptions the modelled code can raise: a `KeyError` when a
      DataFrame column is read that does not exist, and the explicit `ValueError`
      raised when the reference sheet lacks its two required columns. */
  datatype Error = KeyError(column: string) | ValueError(message: string)

  datatype Result<T> = Ok(value: T) | Err(error: Error)

  /** `sub` is what is left of `s` after deleting some of its elements: the
      elements of `sub` appear in `s` in the same order. */
  predicate IsSubsequence<T(==)>(sub: seq<T>, s: seq<T>)
    decreases |s|
  {
    sub == [] ||
    (s != [] && ((sub[0] == s[0] && IsSubsequence(sub[1..], s[1..])) || IsSubsequence(sub, s[1..])))
  }

  lemma {:induction false} SubsequenceLength<T>(sub: seq<T>, s: seq<T>)
    requires IsSubsequence(sub, s)
    ensures |sub| <= |s|
    decreases |s|
  {
    if sub != [] {
      if sub[0] == s[0] && IsSubsequence(sub[1..], s[1..]) {
        SubsequenceLength(sub[1..], s[1..]);
      } else {
        SubsequenceLength(sub, s[1..]);
      }
    }
  }

  lemma {:induction false} SubsequenceSelf<T>(s: seq<T>)
    ensures IsSubsequence(s, s)
    decreases |s|
  {
    if s != [] {
      SubsequenceSelf(s[1..]);
    }
  }

  /** Deleting a whole prefix of `s` keeps a subsequence a subsequence. */
  lemma {:induction false} SubsequenceSkip<T>(sub: seq<T>, skipped: seq<T>, s: seq<T>)
    requires IsSubsequence(sub, s)
    ensures IsSubsequence(sub, skipped + s)
    decreases |skipped|
  {
    if skipped != [] {
      SubsequenceSkip(sub, skipped[1..], s);
      var t := skipped + s;
      assert t[1..] == skipped[1..] + s;
      assert IsSubsequence(sub, t[1..]);
    } else {
      assert skipped + s == s;
    }
  }

  lemma SubsequenceCons<T>(x: T, sub: seq<T>, s: seq<T>)
    requires IsSubsequence(sub, s)
    ensures IsSubsequence([x] + sub, [x] + s)
  {
    assert ([x] + sub)[1..] == sub;
    assert ([x] + s)[1..] == s;
  }

  /** Scanning steps over `s[p..]`: skipping to `e`, or keeping `s[p]`. */
  lemma SubsequenceAfterSkip<T>(sub: seq<T>, s: seq<T>, p: nat, e: nat)
    requires p <= e <= |s|
    requires IsSubsequence(sub, s[e..])
    ensures IsSubsequence(sub, s[p..])
  {
    SubsequenceSkip(sub, s[p..e], s[e..]);
    assert s[p..e] + s[e..] == s[p..];
  }

  lemma SubsequenceAfterKeep<T>(sub: seq<T>, s: seq<T>, p: nat)
    requires p < |s|
    requires IsSubsequence(sub, s[p + 1..])
    ensures IsSubsequence([s[p]] + sub, s[p..])
  {
    SubsequenceCons(s[p], sub, s[p + 1..]);
    assert [s[p]] + s[p + 1..] == s[p..];
  }

  /** Appending `x` to `s` keeps `sub` a subsequence, with or without `x` appended to it too. */
  lemma {:induction false} SubsequenceSnoc<T>(sub: seq<T>, s: seq<T>, x: T)
    requires IsSubsequence(sub, s)
    ensures IsSubsequence(sub, s + [x])
    ensures IsSubsequence(sub + [x], s + [x])
    decreases |s|
  {
    var t := s + [x];
    if s == [] {
      assert sub == [];
      assert (sub + [x])[1..] == [] && t[1..] == [];
    } else {
      assert t[1..] == s[1..] + [x];
      if sub == [] {
        SubsequenceSnoc(sub, s[1..], x);
        assert sub + [x] == [x];
        SubsequenceSkip([x], s, [x]);
      } else if sub[0] == s[0] && IsSubsequence(sub[1..], s[1..]) {
        SubsequenceSnoc(sub[1..], s[1..], x);
        assert (sub + [x])[1..] == sub[1..] + [x];
      } else {
        SubsequenceSnoc(sub, s[1..], x);
      }
    }
  }
}
