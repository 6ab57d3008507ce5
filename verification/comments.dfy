/** Comment stripping of handler source code before it is scanned for `return`.

    Each of the three substitutions deletes, scanning left to right, every span
    that starts with an opener and ends with the first closer found after it:
    `'''.*?'''` and `""".*?"""` (with DOTALL, so the span may cross lines) and
    `#.*?\n` (`.` cannot match a newline, so the span ends at the first newline).
    An opener with no closer after it is kept, and the scan moves on by one
    character.
 */
module Comments {
  import opened Base
  import opened Text

  const SingleQuotes: string := "'''"
  const DoubleQuotes: string := "\"\"\""
  const Hash: string := "#"
  const Newline: string := "\n"

  /** The scan deletes a span starting at `k`: an opener there has a closer
      somewhere after it. */
  predicate Deletes(s: string, open: string, close: string, k: nat)
  {
    OccursAt(s, open, k) && IndexOf(s, close, k + |open|).Some?
  }

  /** One lazy-regex substitution, scanning `s` from index `p`: an opener at
      `p` with a closer starting at or after its end is deleted through the
      first such closer and the scan resumes after it; otherwise `s[p]` is
      kept and the scan moves on by one. */
  function RemoveFrom(s: string, open: string, close: string, p: nat): string
    requires |open| > 0
    decreases |s| - p
  {
    if p >= |s| then []
    else if Deletes(s, open, close, p) then RemoveFrom(s, open, close, IndexOf(s, close, p + |open|).value + |close|)
    else [s[p]] + RemoveFrom(s, open, close, p + 1)
  }

  /** The whole substitution, `re.sub(open + '.*?' + close, '', s)`. */
  function RemoveDelimited(s: string, open: string, close: string): string
    requires |open| > 0
  {
    RemoveFrom(s, open, close, 0)
  }

  /** The scan only deletes: what it keeps from index `p` on is a subsequence
      of `s[p..]`. */
  lemma {:induction false} RemoveFromSubsequence(s: string, open: string, close: string, p: nat)
    requires |open| > 0 && p <= |s|
    ensures IsSubsequence(RemoveFrom(s, open, close, p), s[p..])
    decreases |s| - p
  {
    if p < |s| {
      var r := RemoveFrom(s, open, close, p);
      if OccursAt(s, open, p) && IndexOf(s, close, p + |open|).Some? {
        var e := IndexOf(s, close, p + |open|).value + |close|;
        RemoveFromSubsequence(s, open, close, e);
        assert s[p..][e - p..] == s[e..];
        SubsequenceOfSuffix(r, s[p..], e - p);
      } else {
        RemoveFromSubsequence(s, open, close, p + 1);
        SubsequenceCons(s[p], RemoveFrom(s, open, close, p + 1), s[p + 1..]);
        assert s[p..] == [s[p]] + s[p + 1..];
      }
    } else {
      SubsequenceReflexive(s[p..]);
    }
  }

  /** The substitution only deletes: its result is a subsequence of its input. */
  lemma RemoveDelimitedSubsequence(s: string, open: string, close: string)
    requires |open| > 0
    ensures IsSubsequence(RemoveDelimited(s, open, close), s)
  {
    RemoveFromSubsequence(s, open, close, 0);
    assert s[0..] == s;
  }

  /** When no span starts at or after `p`, the scan keeps everything. */
  lemma {:induction false} RemoveFromKeepsAll(s: string, open: string, close: string, p: nat)
    requires |open| > 0 && p <= |s|
    requires forall k :: p <= k < |s| ==> !Deletes(s, open, close, k)
    ensures RemoveFrom(s, open, close, p) == s[p..]
    decreases |s| - p
  {
    if p < |s| {
      assert !Deletes(s, open, close, p);
      RemoveFromKeeps(s, open, close, p);
      RemoveFromKeepsAll(s, open, close, p + 1);
      SliceCons(s, p, |s|);
    }
  }

  lemma NoCloserAfterOpener(s: string, open: string, close: string, p: nat)
    requires forall k: nat, k': nat :: OccursAt(s, open, k) && k + |open| <= k' ==> !OccursAt(s, close, k')
    ensures !Deletes(s, open, close, p)
  {
    IndexOfFirst(s, close, p + |open|);
  }

  /** When no closer follows any opener, nothing is deleted. */
  lemma RemoveDelimitedKeepsAll(s: string, open: string, close: string)
    requires |open| > 0
    requires forall k: nat, k': nat :: OccursAt(s, open, k) && k + |open| <= k' ==> !OccursAt(s, close, k')
    ensures RemoveDelimited(s, open, close) == s
  {
    forall k | 0 <= k < |s|
      ensures !Deletes(s, open, close, k)
    {
      NoCloserAfterOpener(s, open, close, k);
    }
    RemoveFromKeepsAll(s, open, close, 0);
    assert s[0..] == s;
  }

  lemma SliceCons(s: string, p: nat, i: nat)
    requires p < i <= |s|
    ensures s[p..i] == [s[p]] + s[p + 1..i]
  {
  }

  /** A character that starts no opener, or an opener with no closer after
      it, is kept. */
  lemma RemoveFromKeeps(s: string, open: string, close: string, p: nat)
    requires |open| > 0 && p < |s|
    requires !(OccursAt(s, open, p) && IndexOf(s, close, p + |open|).Some?)
    ensures RemoveFrom(s, open, close, p) == [s[p]] + RemoveFrom(s, open, close, p + 1)
  {
  }

  /** An opener whose first closer starts at `j` is deleted through that closer. */
  lemma RemoveFromCloses(s: string, open: string, close: string, p: nat, j: nat)
    requires |open| > 0 && OccursAt(s, open, p) && IndexOf(s, close, p + |open|) == Some(j)
    ensures RemoveFrom(s, open, close, p) == RemoveFrom(s, open, close, j + |close|)
  {
  }

  /** The first opener at or after `p`, at `i`, closed by the first closer at
      `j`, is deleted together with everything between them; what precedes it
      is kept and the scan resumes after the closer. */
  lemma {:induction false} RemoveFromFirst(s: string, open: string, close: string, p: nat, i: nat, j: nat)
    requires |open| > 0 && p <= i
    requires OccursAt(s, open, i) && forall k :: p <= k < i ==> !OccursAt(s, open, k)
    requires i + |open| <= j && OccursAt(s, close, j)
    requires forall k :: i + |open| <= k < j ==> !OccursAt(s, close, k)
    ensures RemoveFrom(s, open, close, p) == s[p..i] + RemoveFrom(s, open, close, j + |close|)
    decreases i - p
  {
    if p == i {
      IndexOfFinds(s, close, i + |open|, j);
      RemoveFromCloses(s, open, close, p, j);
      assert s[p..i] == [];
    } else {
      RemoveFromKeeps(s, open, close, p);
      RemoveFromFirst(s, open, close, p + 1, i, j);
      SliceCons(s, p, i);
      var rest := RemoveFrom(s, open, close, j + |close|);
      assert [s[p]] + (s[p + 1..i] + rest) == ([s[p]] + s[p + 1..i]) + rest;
    }
  }

  /** `t` is `s` with its first `q` elements dropped, stated one element at a
      time. */
  predicate Shifted(t: string, s: string, q: nat)
    decreases |t|
  {
    q + |t| == |s| && (|t| == 0 || (t[0] == s[q] && Shifted(t[1..], s, q + 1)))
  }

  lemma {:induction false} SuffixShifted(s: string, q: nat)
    requires q <= |s|
    ensures Shifted(s[q..], s, q)
    decreases |s| - q
  {
    if q < |s| {
      SuffixShifted(s, q + 1);
      assert s[q..][1..] == s[q + 1..];
    }
  }

  lemma {:induction false} ShiftedAt(t: string, s: string, q: nat, k: nat)
    requires Shifted(t, s, q) && k < |t|
    ensures q + |t| == |s| && t[k] == s[q + k]
    decreases k
  {
    if k > 0 {
      ShiftedAt(t[1..], s, q + 1, k - 1);
    }
  }

  /** Occurrences in a suffix are occurrences in the whole string, shifted. */
  lemma OccursInShifted(t: string, s: string, pat: string, q: nat, k: nat)
    requires Shifted(t, s, q)
    ensures OccursAt(t, pat, k) <==> OccursAt(s, pat, q + k)
  {
    if k + |pat| <= |t| {
      forall i | k <= i < k + |pat|
        ensures t[i] == s[q + i]
      {
        ShiftedAt(t, s, q, i);
      }
      assert t[k..k + |pat|] == s[q + k..q + k + |pat|];
    }
  }

  lemma {:induction false} IndexOfInShifted(t: string, s: string, pat: string, q: nat, from: nat)
    requires Shifted(t, s, q)
    ensures IndexOf(t, pat, from).None? <==> IndexOf(s, pat, q + from).None?
    ensures IndexOf(t, pat, from).Some? ==> IndexOf(s, pat, q + from).value == q + IndexOf(t, pat, from).value
    decreases |t| - from
  {
    OccursInShifted(t, s, pat, q, from);
    if from + |pat| <= |t| && !OccursAt(s, pat, q + from) {
      IndexOfInShifted(t, s, pat, q, from + 1);
    }
  }

  /** An opener closed in `t` is closed at the corresponding place in `s`. */
  lemma ShiftedCloses(t: string, s: string, open: string, close: string, q: nat, p: nat, p': nat, j: nat, j': nat)
    requires Shifted(t, s, q) && p' == q + p && j' == q + j
    requires OccursAt(t, open, p) && IndexOf(t, close, p + |open|) == Some(j)
    ensures OccursAt(s, open, p') && IndexOf(s, close, p' + |open|) == Some(j')
  {
    OccursInShifted(t, s, open, q, p);
    IndexOfInShifted(t, s, close, q, p + |open|);
    assert q + (p + |open|) == p' + |open|;
  }

  /** A character kept in `t` is kept, and equal, at the corresponding place in `s`. */
  lemma ShiftedKeeps(t: string, s: string, open: string, close: string, q: nat, p: nat, p': nat)
    requires Shifted(t, s, q) && p' == q + p && p < |t|
    requires !(OccursAt(t, open, p) && IndexOf(t, close, p + |open|).Some?)
    ensures p' < |s| && t[p] == s[p']
    ensures !(OccursAt(s, open, p') && IndexOf(s, close, p' + |open|).Some?)
  {
    OccursInShifted(t, s, open, q, p);
    IndexOfInShifted(t, s, close, q, p + |open|);
    assert q + (p + |open|) == p' + |open|;
    ShiftedAt(t, s, q, p);
  }

  /** Scanning `t`, which is `s` without its first `q` elements, from `p` is
      scanning `s` from `p' == q + p`. */
  lemma {:induction false} RemoveFromShifted(t: string, s: string, open: string, close: string, q: nat, p: nat, p': nat)
    requires |open| > 0 && Shifted(t, s, q) && p' == q + p
    ensures RemoveFrom(t, open, close, p) == RemoveFrom(s, open, close, p')
    decreases |t| - p, 1
  {
    if p < |t| {
      if OccursAt(t, open, p) && IndexOf(t, close, p + |open|).Some? {
        ShiftedDeleteStep(t, s, open, close, q, p, p', IndexOf(t, close, p + |open|).value);
      } else {
        ShiftedKeepStep(t, s, open, close, q, p, p');
      }
    }
  }

  lemma {:induction false} ShiftedDeleteStep(t: string, s: string, open: string, close: string, q: nat, p: nat, p': nat, j: nat)
    requires |open| > 0 && Shifted(t, s, q) && p' == q + p
    requires OccursAt(t, open, p) && IndexOf(t, close, p + |open|) == Some(j)
    ensures RemoveFrom(t, open, close, p) == RemoveFrom(s, open, close, p')
    decreases |t| - p, 0
  {
    var j' := q + j;
    ShiftedCloses(t, s, open, close, q, p, p', j, j');
    RemoveFromShifted(t, s, open, close, q, j + |close|, j' + |close|);
    ScansAgreeAfterClose(t, s, open, close, p, j, p', j');
  }

  lemma {:induction false} ShiftedKeepStep(t: string, s: string, open: string, close: string, q: nat, p: nat, p': nat)
    requires |open| > 0 && Shifted(t, s, q) && p' == q + p && p < |t|
    requires !(OccursAt(t, open, p) && IndexOf(t, close, p + |open|).Some?)
    ensures RemoveFrom(t, open, close, p) == RemoveFrom(s, open, close, p')
    decreases |t| - p, 0
  {
    ShiftedKeeps(t, s, open, close, q, p, p');
    RemoveFromShifted(t, s, open, close, q, p + 1, p' + 1);
    ScansAgreeAfterKeep(t, s, open, close, p, p');
  }

  /** Scanning a suffix from `p` is scanning the whole string from `q + p`:
      the substitution, resumed after a match, behaves as if run on the rest. */
  lemma RemoveFromSuffix(s: string, open: string, close: string, q: nat, p: nat)
    requires |open| > 0 && q <= |s|
    ensures RemoveFrom(s[q..], open, close, p) == RemoveFrom(s, open, close, q + p)
  {
    SuffixShifted(s, q);
    RemoveFromShifted(s[q..], s, open, close, q, p, q + p);
  }

  /** Two scans that both delete an opener and resume at corresponding
      positions agree if the resumed scans agree. */
  lemma ScansAgreeAfterClose(t: string, s: string, open: string, close: string, p: nat, j: nat, p': nat, j': nat)
    requires |open| > 0
    requires OccursAt(t, open, p) && IndexOf(t, close, p + |open|) == Some(j)
    requires OccursAt(s, open, p') && IndexOf(s, close, p' + |open|) == Some(j')
    requires RemoveFrom(t, open, close, j + |close|) == RemoveFrom(s, open, close, j' + |close|)
    ensures RemoveFrom(t, open, close, p) == RemoveFrom(s, open, close, p')
  {
    RemoveFromCloses(t, open, close, p, j);
    RemoveFromCloses(s, open, close, p', j');
  }

  /** Two scans that both keep the same character agree if the scans after
      it agree. */
  lemma ScansAgreeAfterKeep(t: string, s: string, open: string, close: string, p: nat, p': nat)
    requires |open| > 0 && p < |t| && p' < |s| && t[p] == s[p']
    requires !(OccursAt(t, open, p) && IndexOf(t, close, p + |open|).Some?)
    requires !(OccursAt(s, open, p') && IndexOf(s, close, p' + |open|).Some?)
    requires RemoveFrom(t, open, close, p + 1) == RemoveFrom(s, open, close, p' + 1)
    ensures RemoveFrom(t, open, close, p) == RemoveFrom(s, open, close, p')
  {
    RemoveFromKeeps(t, open, close, p);
    RemoveFromKeeps(s, open, close, p');
  }

  /** The first opener at `i`, closed by the first closer at `j`, is deleted
      together with everything between them; what precedes it is kept and the
      substitution goes on with the text after the closer. */
  lemma RemoveDelimitedFirst(s: string, open: string, close: string, i: nat, j: nat)
    requires |open| > 0
    requires OccursAt(s, open, i) && forall k :: 0 <= k < i ==> !OccursAt(s, open, k)
    requires i + |open| <= j && OccursAt(s, close, j)
    requires forall k :: i + |open| <= k < j ==> !OccursAt(s, close, k)
    ensures RemoveDelimited(s, open, close) == s[..i] + RemoveDelimited(s[j + |close|..], open, close)
  {
    RemoveFromFirst(s, open, close, 0, i, j);
    RemoveFromSuffix(s, open, close, j + |close|, 0);
    assert s[0..i] == s[..i];
  }

  /** `remove_comments`: the three substitutions in their source order. */
  function RemoveComments(source: string): string
  {
    var noSingle := RemoveDelimited(source, SingleQuotes, SingleQuotes);
    var noDouble := RemoveDelimited(noSingle, DoubleQuotes, DoubleQuotes);
    RemoveDelimited(noDouble, Hash, Newline)
  }

  /** Comment removal only deletes characters: the result is a subsequence of
      the source and never longer. */
  lemma RemoveCommentsDeletesOnly(source: string)
    ensures IsSubsequence(RemoveComments(source), source)
    ensures |RemoveComments(source)| <= |source|
  {
    var noSingle := RemoveDelimited(source, SingleQuotes, SingleQuotes);
    var noDouble := RemoveDelimited(noSingle, DoubleQuotes, DoubleQuotes);
    var noHash := RemoveDelimited(noDouble, Hash, Newline);
    RemoveDelimitedSubsequence(source, SingleQuotes, SingleQuotes);
    RemoveDelimitedSubsequence(noSingle, DoubleQuotes, DoubleQuotes);
    RemoveDelimitedSubsequence(noDouble, Hash, Newline);
    SubsequenceTransitive(noDouble, noSingle, source);
    SubsequenceTransitive(noHash, noDouble, source);
    SubsequenceNotLonger(noHash, source);
  }

  /** Source without any comment opener is returned unchanged. */
  lemma RemoveCommentsWithoutOpeners(source: string)
    requires forall k: nat :: !OccursAt(source, SingleQuotes, k)
    requires forall k: nat :: !OccursAt(source, DoubleQuotes, k)
    requires forall k: nat :: !OccursAt(source, Hash, k)
    ensures RemoveComments(source) == source
  {
    RemoveDelimitedKeepsAll(source, SingleQuotes, SingleQuotes);
    RemoveDelimitedKeepsAll(source, DoubleQuotes, DoubleQuotes);
    RemoveDelimitedKeepsAll(source, Hash, Newline);
  }

  lemma CharOccurs(s: string, c: char, k: nat)
    ensures OccursAt(s, [c], k) <==> k < |s| && s[k] == c
  {
    assert [c][0] == c;
  }

  /** A line comment is deleted from `#` through the next newline inclusive. */
  lemma LineCommentRemoved(before: string, comment: string, after: string)
    requires forall k :: 0 <= k < |before| ==> before[k] != '#'
    requires forall k :: 0 <= k < |comment| ==> comment[k] != '\n'
    ensures RemoveDelimited(before + "#" + comment + "\n" + after, Hash, Newline)
            == before + RemoveDelimited(after, Hash, Newline)
  {
    var s := before + "#" + comment + "\n" + after;
    var i, j := |before|, |before| + 1 + |comment|;
    CharOccurs(s, '#', i);
    CharOccurs(s, '\n', j);
    forall k | 0 <= k < i
      ensures !OccursAt(s, Hash, k)
    {
      CharOccurs(s, '#', k);
      assert s[k] == before[k];
    }
    forall k | i + 1 <= k < j
      ensures !OccursAt(s, Newline, k)
    {
      CharOccurs(s, '\n', k);
      assert s[k] == comment[k - i - 1];
    }
    RemoveDelimitedFirst(s, Hash, Newline, i, j);
    assert s[..i] == before;
    assert s[j + 1..] == after;
  }

  /** A `#` with no newline anywhere after it is not a comment for the
      substitution and is kept, as is everything after it. */
  lemma UnterminatedLineCommentKept(s: string)
    requires forall k, k' :: 0 <= k < k' < |s| && s[k] == '#' ==> s[k'] != '\n'
    ensures RemoveDelimited(s, Hash, Newline) == s
  {
    forall k: nat, k': nat | OccursAt(s, Hash, k) && k + 1 <= k'
      ensures !OccursAt(s, Newline, k')
    {
      CharOccurs(s, '#', k);
      CharOccurs(s, '\n', k');
    }
    RemoveDelimitedKeepsAll(s, Hash, Newline);
  }
}
