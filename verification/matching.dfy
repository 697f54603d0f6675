/**
 The few regular expressions of the message formatter whose matches can be
 described by a plain scanner: patterns made of one-character classes (such as
 `[^\r]\n[^\r]`, or a word searched without regard to case), and the lazy tag
 pattern `<.*?>`. `Regex.Matches` reports the leftmost match, then resumes
 after it, so matches never overlap.
 */
module Matching {
  import opened Text

  /** A match: where it starts and how many characters it covers. */
  datatype Match = Match(index: nat, length: nat)

  /** A one-character class: a literal, a negated literal (`[^c]`), or a letter
      compared without regard to case. */
  datatype CharClass = Lit(c: char) | Not(c: char) | Fold(c: char)

  predicate InClass(x: char, k: CharClass) {
    match k
    case Lit(c) => x == c
    case Not(c) => x != c
    case Fold(c) => LowerChar(x) == LowerChar(c)
  }

  /** The pattern matches `s` at `p`. */
  predicate MatchesAt(s: string, pat: seq<CharClass>, p: int) {
    0 <= p && p + |pat| <= |s| && forall i :: 0 <= i < |pat| ==> InClass(s[p + i], pat[i])
  }

  /** A literal searched without regard to case, such as the pattern `(word)`. */
  function WordPattern(word: string): (r: seq<CharClass>)
    ensures |r| == |word|
    ensures forall i :: 0 <= i < |word| ==> r[i] == Fold(word[i])
  {
    if word == [] then [] else [Fold(word[0])] + WordPattern(word[1..])
  }

  /** The matches lie in `[pos, |s|]`, in order and without overlapping. */
  predicate Ordered(ms: seq<Match>, pos: nat, n: nat) {
    ms == [] || (pos <= ms[0].index && ms[0].index + ms[0].length <= n && Ordered(ms[1..], ms[0].index + ms[0].length, n))
  }

  /** In an ordered list every match starts at or after `pos` and ends by `n`. */
  lemma {:induction false} OrderedBounds(ms: seq<Match>, pos: nat, n: nat)
    requires Ordered(ms, pos, n)
    ensures forall k :: 0 <= k < |ms| ==> pos <= ms[k].index && ms[k].index + ms[k].length <= n
  {
    if ms != [] {
      OrderedBounds(ms[1..], ms[0].index + ms[0].length, n);
      forall k | 0 < k < |ms|
        ensures pos <= ms[k].index && ms[k].index + ms[k].length <= n
      {
        assert ms[k] == ms[1..][k - 1];
      }
    }
  }

  /** Position `q` lies within one of the matches. */
  ghost predicate Covers(ms: seq<Match>, q: int) {
    exists k :: 0 <= k < |ms| && ms[k].index <= q < ms[k].index + ms[k].length
  }

  lemma CoversHead(m: Match, rest: seq<Match>, q: int)
    requires m.index <= q < m.index + m.length
    ensures Covers([m] + rest, q)
  {
    assert ([m] + rest)[0] == m;
  }

  lemma CoversTail(m: Match, rest: seq<Match>, q: int)
    requires Covers(rest, q)
    ensures Covers([m] + rest, q)
  {
    var k :| 0 <= k < |rest| && rest[k].index <= q < rest[k].index + rest[k].length;
    assert ([m] + rest)[k + 1] == rest[k];
  }

  /** `Regex.Matches` for a pattern of one-character classes, from `pos` on. */
  function FindAll(s: string, pat: seq<CharClass>, pos: nat): (r: seq<Match>)
    requires |pat| >= 1
    ensures Ordered(r, pos, |s|)
    ensures forall k :: 0 <= k < |r| ==> r[k].length == |pat| && MatchesAt(s, pat, r[k].index)
    decreases |s| - pos
  {
    if pos + |pat| > |s| then []
    else if MatchesAt(s, pat, pos) then [Match(pos, |pat|)] + FindAll(s, pat, pos + |pat|)
    else FindAll(s, pat, pos + 1)
  }

  /** No match is missed: every place where the pattern matches at or after
      `pos` lies within a reported match. */
  lemma {:induction false} FindAllCovers(s: string, pat: seq<CharClass>, pos: nat, q: int)
    requires |pat| >= 1 && pos <= q && MatchesAt(s, pat, q)
    ensures Covers(FindAll(s, pat, pos), q)
    decreases |s| - pos
  {
    if MatchesAt(s, pat, pos) {
      FindAllAt(s, pat, pos);
      var rest := FindAll(s, pat, pos + |pat|);
      if q >= pos + |pat| {
        FindAllCovers(s, pat, pos + |pat|, q);
        CoversTail(Match(pos, |pat|), rest, q);
      } else {
        CoversHead(Match(pos, |pat|), rest, q);
      }
    } else {
      FindAllSkip(s, pat, pos);
      FindAllCovers(s, pat, pos + 1, q);
    }
  }

  /** A match at `pos` is reported, and the search goes on after it. */
  lemma FindAllAt(s: string, pat: seq<CharClass>, pos: nat)
    requires |pat| >= 1 && MatchesAt(s, pat, pos)
    ensures FindAll(s, pat, pos) == [Match(pos, |pat|)] + FindAll(s, pat, pos + |pat|)
  {
  }

  /** Without a match at `pos`, the search goes on from the next position. */
  lemma FindAllSkip(s: string, pat: seq<CharClass>, pos: nat)
    requires |pat| >= 1 && pos + |pat| <= |s| && !MatchesAt(s, pat, pos)
    ensures FindAll(s, pat, pos) == FindAll(s, pat, pos + 1)
  {
  }

  /** A pattern matches nowhere exactly when nothing is reported. */
  lemma FindAllEmpty(s: string, pat: seq<CharClass>)
    requires |pat| >= 1
    ensures FindAll(s, pat, 0) == [] <==> forall q :: !MatchesAt(s, pat, q)
  {
    if FindAll(s, pat, 0) != [] {
      assert MatchesAt(s, pat, FindAll(s, pat, 0)[0].index);
    }
    forall q | MatchesAt(s, pat, q)
      ensures FindAll(s, pat, 0) != []
    {
      FindAllCovers(s, pat, 0, q);
      var k :| 0 <= k < |FindAll(s, pat, 0)| && FindAll(s, pat, 0)[k].index <= q;
    }
  }

  // ---------------------------------------------------------------------------
  // The lazy tag pattern `<.*?>` (without `RegexOptions.Singleline`, so `.`
  // does not match a line feed).

  /** The `>` that ends a tag whose body starts at `q`: the first `>` from `q`
      on, provided no line feed comes before it. */
  function TagClose(s: string, q: nat): (r: Option<nat>)
    ensures r.Some? ==> q <= r.value < |s| && s[r.value] == '>'
    ensures r.Some? ==> forall k :: q <= k < r.value ==> s[k] != '>' && s[k] != '\n'
    decreases |s| - q
  {
    if q >= |s| || s[q] == '\n' then None
    else if s[q] == '>' then Some(q)
    else TagClose(s, q + 1)
  }

  /** A tag from `p` to `c`, both brackets included. */
  predicate TagAt(s: string, p: int, c: int) {
    0 <= p < c < |s| && s[p] == '<' && s[c] == '>'
    && forall k :: p < k < c ==> s[k] != '>' && s[k] != '\n'
  }

  /** A `<` followed by its closing `>` is a tag. */
  lemma TagCloseTag(s: string, p: nat, c: int)
    requires p < |s| && s[p] == '<' && TagClose(s, p + 1) == Some(c)
    ensures TagAt(s, p, c)
  {
  }

  /** `Regex.Matches(text, "<.*?>")` from `pos` on. */
  function FindTags(s: string, pos: nat): (r: seq<Match>)
    ensures Ordered(r, pos, |s|)
    ensures forall k :: 0 <= k < |r| ==> r[k].length >= 2
    decreases |s| - pos
  {
    if pos >= |s| then []
    else if s[pos] == '<' && TagClose(s, pos + 1).Some? then
      var c := TagClose(s, pos + 1).value;
      [Match(pos, c - pos + 1)] + FindTags(s, c + 1)
    else FindTags(s, pos + 1)
  }

  /** Every match of `ms` spans a tag. */
  predicate AllTags(s: string, ms: seq<Match>) {
    forall k :: 0 <= k < |ms| ==> TagAt(s, ms[k].index, ms[k].index + ms[k].length - 1)
  }

  lemma AllTagsCons(s: string, m: Match, rest: seq<Match>)
    requires TagAt(s, m.index, m.index + m.length - 1) && AllTags(s, rest)
    ensures AllTags(s, [m] + rest)
  {
    var r := [m] + rest;
    forall k | 0 < k < |r|
      ensures TagAt(s, r[k].index, r[k].index + r[k].length - 1)
    {
      assert r[k] == rest[k - 1];
    }
  }

  /** Every reported match is a tag. */
  lemma {:induction false} FindTagsAreTags(s: string, pos: nat)
    ensures AllTags(s, FindTags(s, pos))
    decreases |s| - pos
  {
    if pos < |s| {
      if s[pos] == '<' && TagClose(s, pos + 1).Some? {
        var c := TagClose(s, pos + 1).value;
        FindTagsAreTags(s, c + 1);
        FindTagsAt(s, pos, c);
        TagCloseTag(s, pos, c);
        AllTagsCons(s, Match(pos, c - pos + 1), FindTags(s, c + 1));
      } else {
        FindTagsSkip(s, pos);
        FindTagsAreTags(s, pos + 1);
      }
    }
  }

  /** Every tag that starts at or after `pos` overlaps a reported match. */
  lemma {:induction false} FindTagsCovers(s: string, pos: nat, p: int, c: int)
    requires pos <= p && TagAt(s, p, c)
    ensures Covers(FindTags(s, pos), p)
    decreases |s| - pos
  {
    if p == pos {
      TagReported(s, p, c);
    } else if s[pos] == '<' && TagClose(s, pos + 1).Some? {
      var e := TagClose(s, pos + 1).value;
      FindTagsAt(s, pos, e);
      var rest := FindTags(s, e + 1);
      if p > e {
        FindTagsCovers(s, e + 1, p, c);
        CoversTail(Match(pos, e - pos + 1), rest, p);
      } else {
        CoversHead(Match(pos, e - pos + 1), rest, p);
      }
    } else {
      FindTagsSkip(s, pos);
      FindTagsCovers(s, pos + 1, p, c);
    }
  }

  /** A tag at `pos` that closes at `e` is reported, and the scan goes on after it. */
  lemma FindTagsAt(s: string, pos: nat, e: int)
    requires pos < |s| && s[pos] == '<' && TagClose(s, pos + 1) == Some(e)
    ensures FindTags(s, pos) == [Match(pos, e - pos + 1)] + FindTags(s, e + 1)
  {
  }

  /** Without a tag at `pos`, the scan goes on from the next position. */
  lemma FindTagsSkip(s: string, pos: nat)
    requires pos < |s| && !(s[pos] == '<' && TagClose(s, pos + 1).Some?)
    ensures FindTags(s, pos) == FindTags(s, pos + 1)
  {
  }

  /** A scan that reaches a tag reports it. */
  lemma TagReported(s: string, p: nat, c: int)
    requires TagAt(s, p, c)
    ensures Covers(FindTags(s, p), p)
  {
    TagCloseFinds(s, p + 1, c);
    FindTagsAt(s, p, c);
    CoversHead(Match(p, c - p + 1), FindTags(s, c + 1), p);
  }

  lemma {:induction false} TagCloseFinds(s: string, q: nat, c: int)
    requires q <= c < |s| && s[c] == '>' && forall k :: q <= k < c ==> s[k] != '>' && s[k] != '\n'
    ensures TagClose(s, q) == Some(c)
    decreases |s| - q
  {
    if q < c {
      TagCloseFinds(s, q + 1, c);
    }
  }
}
