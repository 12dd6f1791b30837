/** The two regular-expression substitutions of `remove_via_notes`
    (PuretoResearchfish.py), written out as scanners over the text.

    `re.sub` looks for a match at each position from left to right; a match is
    deleted and the scan resumes where it ended, otherwise one character is kept.
    The first substitution (case-insensitive) has two alternatives, tried in order:
      1. `\s*\([^()]*via\s+[^\s()]+\s*[^()]*\)`: optional whitespace, then a
         parenthesised group with no parenthesis inside that contains "via",
         whitespace and a word. Every character between the brackets excludes
         parentheses, so such a match always ends at the first parenthesis after
         the opening one, which must be ')'.
      2. `\s*via\s+[^\s()]+\s*`: optional whitespace, "via", whitespace, a word
         and trailing whitespace. No part of it can give back characters to the
         next, so the greedy runs are the match.
    The second substitution, `\([^()]*\)`, deletes parenthesised groups with no
    parenthesis inside. */
module ViaNotes {
  import opened Common
  import opened Strings

  /** "via" at index `i`, in any mix of upper and lower case. */
  predicate ViaAt(s: string, i: nat)
  {
    i + 3 <= |s| && LowerChar(s[i]) == 'v' && LowerChar(s[i + 1]) == 'i' && LowerChar(s[i + 2]) == 'a'
  }

  predicate IsParen(c: char)
  {
    c == '(' || c == ')'
  }

  /** Index of the first parenthesis at or after `p`. */
  function NextParen(s: string, p: nat): (r: Option<nat>)
    requires p <= |s|
    ensures r.Some? ==> p <= r.value < |s| && IsParen(s[r.value])
    ensures forall k :: p <= k < (if r.Some? then r.value else |s|) ==> !IsParen(s[k])
    decreases |s| - p
  {
    if p == |s| then None
    else if IsParen(s[p]) then Some(p)
    else NextParen(s, p + 1)
  }

  /** Length of the run of characters from `p` that `[^\s()]` accepts. */
  function WordRun(s: string, p: nat): (n: nat)
    requires p <= |s|
    ensures p + n <= |s|
    ensures forall k :: p <= k < p + n ==> !IsSpace(s[k]) && !IsParen(s[k])
    ensures p + n == |s| || IsSpace(s[p + n]) || IsParen(s[p + n])
    decreases |s| - p
  {
    if p < |s| && !IsSpace(s[p]) && !IsParen(s[p]) then 1 + WordRun(s, p + 1) else 0
  }

  /** In the bracket-free stretch `s[i..hi]`: "via", whitespace, then a character
      that is not whitespace, which is what `via\s+[^\s()]+` needs. */
  predicate ViaWordFrom(s: string, i: nat, hi: nat)
    requires hi <= |s|
    decreases hi - i
  {
    i + 3 < hi &&
    ((ViaAt(s, i) && IsSpace(s[i + 3]) && i + 3 + SpaceRun(s, i + 3) < hi) || ViaWordFrom(s, i + 1, hi))
  }

  /** End of a match of alternative 1 starting at `p`. */
  function MatchParenNote(s: string, p: nat): (r: Option<nat>)
    requires p <= |s|
    ensures r.Some? ==> p < r.value <= |s|
  {
    var q := p + SpaceRun(s, p);
    if q < |s| && s[q] == '(' then
      match NextParen(s, q + 1)
      case Some(e) => if s[e] == ')' && ViaWordFrom(s, q + 1, e) then Some(e + 1) else None
      case None => None
    else None
  }

  /** End of a match of alternative 2 starting at `p`. */
  function MatchInlineNote(s: string, p: nat): (r: Option<nat>)
    requires p <= |s|
    ensures r.Some? ==> p < r.value <= |s|
  {
    var q := p + SpaceRun(s, p);
    if ViaAt(s, q) && q + 3 < |s| && IsSpace(s[q + 3]) then
      var x := q + 3 + SpaceRun(s, q + 3);
      var y := x + WordRun(s, x);
      if y > x then Some(y + SpaceRun(s, y)) else None
    else None
  }

  /** End of the match of the first substitution's pattern at `p`: alternative 1
      if it matches, else alternative 2. */
  function NoteAt(s: string, p: nat): (r: Option<nat>)
    requires p <= |s|
    ensures r.Some? ==> p < r.value <= |s|
  {
    match MatchParenNote(s, p)
    case Some(e) => Some(e)
    case None => MatchInlineNote(s, p)
  }

  /** The first substitution applied to `s[p..]`. */
  function DropViaNotes(s: string, p: nat): string
    requires p <= |s|
    decreases |s| - p
  {
    if p == |s| then []
    else match NoteAt(s, p)
      case Some(e) => DropViaNotes(s, e)
      case None => [s[p]] + DropViaNotes(s, p + 1)
  }

  /** End of a match of `\([^()]*\)` starting at `p`. */
  function MatchGroup(s: string, p: nat): (r: Option<nat>)
    requires p <= |s|
    ensures r.Some? ==> p < r.value <= |s|
  {
    if p < |s| && s[p] == '(' then
      match NextParen(s, p + 1)
      case Some(e) => if s[e] == ')' then Some(e + 1) else None
      case None => None
    else None
  }

  /** The second substitution applied to `s[p..]`. */
  function DropGroups(s: string, p: nat): string
    requires p <= |s|
    decreases |s| - p
  {
    if p == |s| then []
    else match MatchGroup(s, p)
      case Some(e) => DropGroups(s, e)
      case None => [s[p]] + DropGroups(s, p + 1)
  }

  /** Both substitutions, in the order `remove_via_notes` applies them. */
  function RemoveViaNotesText(s: string): string
  {
    DropGroups(DropViaNotes(s, 0), 0)
  }

  // ---------------------------------------------------------------------------
  // Only deletions

  lemma {:induction false} DropViaNotesDeletes(s: string, p: nat)
    requires p <= |s|
    ensures IsSubsequence(DropViaNotes(s, p), s[p..])
    decreases |s| - p
  {
    if p < |s| {
      match NoteAt(s, p)
      case Some(e) =>
        DropViaNotesDeletes(s, e);
        SubsequenceAfterSkip(DropViaNotes(s, e), s, p, e);
      case None =>
        DropViaNotesDeletes(s, p + 1);
        SubsequenceAfterKeep(DropViaNotes(s, p + 1), s, p);
    } else {
      assert DropViaNotes(s, p) == [];
    }
  }

  lemma {:induction false} DropGroupsDeletes(s: string, p: nat)
    requires p <= |s|
    ensures IsSubsequence(DropGroups(s, p), s[p..])
    decreases |s| - p
  {
    if p < |s| {
      match MatchGroup(s, p)
      case Some(e) =>
        DropGroupsDeletes(s, e);
        SubsequenceAfterSkip(DropGroups(s, e), s, p, e);
      case None =>
        DropGroupsDeletes(s, p + 1);
        SubsequenceAfterKeep(DropGroups(s, p + 1), s, p);
    } else {
      assert DropGroups(s, p) == [];
    }
  }

  lemma SubsequenceTrans<T>(a: seq<T>, b: seq<T>, c: seq<T>)
    requires IsSubsequence(a, b) && IsSubsequence(b, c)
    ensures IsSubsequence(a, c)
    decreases |c|
  {
    if a != [] && c != [] {
      if b[0] == c[0] && IsSubsequence(b[1..], c[1..]) {
        if a[0] == b[0] && IsSubsequence(a[1..], b[1..]) {
          SubsequenceTrans(a[1..], b[1..], c[1..]);
        } else {
          SubsequenceTrans(a, b[1..], c[1..]);
        }
      } else {
        SubsequenceTrans(a, b, c[1..]);
      }
    }
  }

  /** Removing via notes only ever deletes characters: what is left reads in the
      original order and is never longer. */
  lemma RemoveViaNotesDeletes(s: string)
    ensures IsSubsequence(RemoveViaNotesText(s), s)
    ensures |RemoveViaNotesText(s)| <= |s|
  {
    var mid := DropViaNotes(s, 0);
    DropViaNotesDeletes(s, 0);
    DropGroupsDeletes(mid, 0);
    assert s[0..] == s;
    assert mid[0..] == mid;
    SubsequenceTrans(RemoveViaNotesText(s), mid, s);
    SubsequenceLength(RemoveViaNotesText(s), s);
  }

  // ---------------------------------------------------------------------------
  // Stretches without a match are copied

  lemma DropViaNotesKeeps(s: string, p: nat)
    requires p < |s| && NoteAt(s, p).None?
    ensures DropViaNotes(s, p) == [s[p]] + DropViaNotes(s, p + 1)
  {
  }

  /** No match of the first substitution starts in `s[p..k]`. */
  predicate NoNoteIn(s: string, p: nat, k: nat)
    requires k <= |s|
    decreases k - p
  {
    p >= k || (NoteAt(s, p).None? && NoNoteIn(s, p + 1, k))
  }

  lemma {:induction false} NoNoteInFromAll(s: string, p: nat, k: nat)
    requires p <= k <= |s|
    requires forall i :: p <= i < k ==> NoteAt(s, i).None?
    ensures NoNoteIn(s, p, k)
    decreases k - p
  {
    if p < k {
      NoNoteInFromAll(s, p + 1, k);
    }
  }

  lemma {:induction false} DropViaNotesCopies(s: string, p: nat, k: nat)
    requires p <= k <= |s|
    requires NoNoteIn(s, p, k)
    ensures DropViaNotes(s, p) == s[p..k] + DropViaNotes(s, k)
    decreases k - p
  {
    if p < k {
      var rest := DropViaNotes(s, k);
      DropViaNotesKeeps(s, p);
      DropViaNotesCopies(s, p + 1, k);
      calc {
        DropViaNotes(s, p);
        [s[p]] + DropViaNotes(s, p + 1);
        [s[p]] + (s[p + 1..k] + rest);
        ([s[p]] + s[p + 1..k]) + rest;
        { assert [s[p]] + s[p + 1..k] == s[p..k]; }
        s[p..k] + rest;
      }
    } else {
      assert s[p..k] == [];
    }
  }

  lemma {:induction false} DropGroupsCopies(s: string, p: nat)
    requires p <= |s|
    requires forall i :: p <= i < |s| ==> s[i] != '('
    ensures DropGroups(s, p) == s[p..]
    decreases |s| - p
  {
    if p < |s| {
      DropGroupsCopies(s, p + 1);
      assert s[p..] == [s[p]] + s[p + 1..];
    }
  }

  /** Neither alternative can start where the text has no '(' and no "via"
      followed by whitespace. */
  lemma NoNoteNoMatch(s: string, i: nat)
    requires i <= |s|
    requires forall k :: 0 <= k < |s| ==> s[k] != '('
    requires forall k: nat :: ViaAt(s, k) && k + 3 < |s| ==> !IsSpace(s[k + 3])
    ensures NoteAt(s, i).None?
  {
  }

  /** A text with no '(' and no "via" (any case) followed by whitespace comes back unchanged. */
  lemma RemoveViaNotesKeepsPlainText(s: string)
    requires forall k :: 0 <= k < |s| ==> s[k] != '('
    requires forall k: nat :: ViaAt(s, k) && k + 3 < |s| ==> !IsSpace(s[k + 3])
    ensures RemoveViaNotesText(s) == s
  {
    forall i | 0 <= i < |s|
      ensures NoteAt(s, i).None?
    {
      NoNoteNoMatch(s, i);
    }
    NoNoteInFromAll(s, 0, |s|);
    DropViaNotesCopies(s, 0, |s|);
    assert s[0..|s|] == s;
    assert DropViaNotes(s, 0) == s;
    DropGroupsCopies(s, 0);
  }

  // ---------------------------------------------------------------------------
  // A reference followed by a via note loses the note

  /** A reference code: no whitespace, no parenthesis and no "via" in it. */
  predicate IsPlainCode(ref: string)
  {
    (forall k :: 0 <= k < |ref| ==> !IsSpace(ref[k]) && !IsParen(ref[k])) &&
    (forall k :: 0 <= k < |ref| ==> !ViaAt(ref, k))
  }

  /** A single word of an institution name: `[^\s()]+`. */
  predicate IsWord(w: string)
  {
    |w| > 0 && forall k :: 0 <= k < |w| ==> !IsSpace(w[k]) && !IsParen(w[k])
  }

  lemma CodeHasNoMatch(ref: string, note: string, i: nat)
    requires IsPlainCode(ref)
    requires |note| > 0 && note[0] == ' '
    requires i < |ref|
    ensures NoteAt(ref + note, i).None?
  {
    var s := ref + note;
    assert s[i] == ref[i];
    assert s[|ref|] == ' ';
    assert SpaceRun(s, i) == 0;
    if i + 3 <= |ref| {
      assert s[i + 1] == ref[i + 1] && s[i + 2] == ref[i + 2];
      assert !ViaAt(ref, i);
    }
    assert !ViaAt(s, i);
  }

  /** Scanning a plain code followed by a note that starts with a space copies the code. */
  lemma CodeCopied(ref: string, note: string)
    requires IsPlainCode(ref)
    requires |note| > 0 && note[0] == ' '
    ensures DropViaNotes(ref + note, 0) == ref + DropViaNotes(ref + note, |ref|)
  {
    var s := ref + note;
    forall i | 0 <= i < |ref|
      ensures NoteAt(s, i).None?
    {
      CodeHasNoMatch(ref, note, i);
    }
    NoNoteInFromAll(s, 0, |ref|);
    DropViaNotesCopies(s, 0, |ref|);
    assert s[0..|ref|] == ref;
  }

  /** " (via word)" is one match of alternative 1. */
  lemma ParenNoteMatches(ref: string, word: string)
    requires IsWord(word)
    ensures var s := ref + " (via " + word + ")"; MatchParenNote(s, |ref|) == Some(|s|)
  {
    var s := ref + " (via " + word + ")";
    var n := |ref|;
    assert s[n] == ' ' && s[n + 1] == '(';
    assert SpaceRun(s, n + 1) == 0;
    assert SpaceRun(s, n) == 1;
    var close := |s| - 1;
    assert s[close] == ')';
    forall k | n + 2 <= k < close
      ensures !IsParen(s[k])
    {
      if k >= n + 6 {
        assert s[k] == word[k - n - 6];
      }
    }
    NextParenFinds(s, n + 2, close);
    assert s[n + 2] == 'v' && s[n + 3] == 'i' && s[n + 4] == 'a' && s[n + 5] == ' ';
    assert s[n + 6] == word[0];
    assert SpaceRun(s, n + 6) == 0;
    assert SpaceRun(s, n + 5) == 1;
    assert ViaWordFrom(s, n + 2, close);
  }

  /** " via word" is one match of alternative 2 and none of alternative 1. */
  lemma InlineNoteMatches(ref: string, word: string)
    requires IsWord(word)
    ensures var s := ref + " via " + word; NoteAt(s, |ref|) == Some(|s|)
  {
    var s := ref + " via " + word;
    var n := |ref|;
    assert s[n] == ' ' && s[n + 1] == 'v' && s[n + 2] == 'i' && s[n + 3] == 'a' && s[n + 4] == ' ';
    assert SpaceRun(s, n + 1) == 0;
    assert SpaceRun(s, n) == 1;
    assert MatchParenNote(s, n).None?;
    assert s[n + 5] == word[0];
    assert SpaceRun(s, n + 5) == 0;
    assert SpaceRun(s, n + 4) == 1;
    forall k | n + 5 <= k < |s|
      ensures !IsSpace(s[k]) && !IsParen(s[k])
    {
      assert s[k] == word[k - n - 5];
    }
    WordRunAll(s, n + 5);
    assert SpaceRun(s, |s|) == 0;
  }

  /** `remove_via_notes` turns "CODE (via Word)" and "CODE via Word" into "CODE". */
  lemma ViaNoteAfterCodeRemoved(ref: string, word: string)
    requires IsPlainCode(ref) && IsWord(word)
    ensures RemoveViaNotesText(ref + " (via " + word + ")") == ref
    ensures RemoveViaNotesText(ref + " via " + word) == ref
  {
    var s1 := ref + " (via " + word + ")";
    var s2 := ref + " via " + word;
    assert s1 == ref + (" (via " + word + ")");
    assert s2 == ref + (" via " + word);
    CodeCopied(ref, " (via " + word + ")");
    CodeCopied(ref, " via " + word);
    ParenNoteMatches(ref, word);
    InlineNoteMatches(ref, word);
    assert DropViaNotes(s1, |ref|) == [];
    assert DropViaNotes(s2, |ref|) == [];
    assert ref + [] == ref;
    DropGroupsCopies(ref, 0);
    assert ref[0..] == ref;
  }

  lemma {:induction false} NextParenFinds(s: string, p: nat, e: nat)
    requires p <= e < |s| && IsParen(s[e])
    requires forall k :: p <= k < e ==> !IsParen(s[k])
    ensures NextParen(s, p) == Some(e)
    decreases e - p
  {
    if p < e {
      NextParenFinds(s, p + 1, e);
    }
  }

  lemma {:induction false} WordRunAll(s: string, p: nat)
    requires p <= |s|
    requires forall k :: p <= k < |s| ==> !IsSpace(s[k]) && !IsParen(s[k])
    ensures WordRun(s, p) == |s| - p
    decreases |s| - p
  {
    if p < |s| {
      WordRunAll(s, p + 1);
    }
  }
}
