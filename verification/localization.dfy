/**
 `LocalizeCustomBBCodeElement`: every block `[localization=tag]default[/localization]`
 in the text of a custom BBCode is replaced by the localized text for `tag`
 when the language file has one, and by `default` otherwise. The pattern is
 matched without regard to case and with `.` matching every character; after
 each replacement the search starts again at the beginning of the rewritten
 text, so a localized text that holds a block is expanded in turn and the
 loop need not end. The model therefore carries a fuel bound and answers
 `None` when it runs out. The language file comes in as a lookup function.
 */
module Localization {
  import opened Text
  import opened Matching

  /** The two literal parts of the pattern: the opening part up to the tag
      and the closing tag, both lower-case since they are matched without
      regard to case. */
  datatype Tags = Tags(open: string, close: string)

  /** `[localization=` (14 characters) and `[/localization]` (15 characters). */
  const Localization: Tags := Tags("[localization=", "[/localization]")

  /** What the properties below need of the literals: neither is empty and
      both start with `[`. */
  predicate Bracketed(g: Tags) {
    |g.open| >= 1 && |g.close| >= 1 && g.open[0] == '[' && g.close[0] == '['
  }

  /** A match of the pattern: where it starts, how long it is, and its `tag`
      and `inner` groups. */
  datatype Block = Block(index: nat, length: nat, tag: string, inner: string)

  /** `x` lower-cased is `c`. */
  predicate FoldsTo(x: char, c: char) {
    if 'A' <= x <= 'Z' then x as int + 32 == c as int else x == c
  }

  lemma FoldsToLower(x: char, c: char)
    ensures FoldsTo(x, c) <==> LowerChar(x) == c
  {
  }

  /** The lower-case literal `lit` occurs at `p` when case is ignored, checked
      from its `i`-th character on. */
  predicate FoldsFrom(s: string, lit: string, p: nat, i: nat)
    decreases |lit| - i
  {
    i >= |lit| || (p + i < |s| && FoldsTo(s[p + i], lit[i]) && FoldsFrom(s, lit, p, i + 1))
  }

  predicate FoldsAt(s: string, lit: string, p: int) {
    0 <= p && p + |lit| <= |s| && FoldsFrom(s, lit, p, 0)
  }

  /** `FoldsFrom` compares character by character. */
  lemma {:induction false} FoldsFromSpec(s: string, lit: string, p: nat, i: nat)
    requires i <= |lit|
    ensures FoldsFrom(s, lit, p, i) <==>
      (i == |lit| || p + |lit| <= |s|) && forall j :: i <= j < |lit| ==> FoldsTo(s[p + j], lit[j])
    decreases |lit| - i
  {
    if i < |lit| {
      FoldsFromSpec(s, lit, p, i + 1);
    }
  }

  /** `FoldsAt` is the matcher of the case-insensitive pattern for a
      lower-case literal. */
  lemma FoldsAtMatches(s: string, lit: string, p: int)
    requires lit != [] && forall j :: 0 <= j < |lit| ==> LowerChar(lit[j]) == lit[j]
    ensures FoldsAt(s, lit, p) <==> MatchesAt(s, WordPattern(lit), p)
  {
    if 0 <= p {
      FoldsFromSpec(s, lit, p, 0);
      var pat := WordPattern(lit);
      if FoldsAt(s, lit, p) {
        forall i | 0 <= i < |pat|
          ensures InClass(s[p + i], pat[i])
        {
          assert pat[i] == Fold(lit[i]);
          FoldsToLower(s[p + i], lit[i]);
        }
      }
      if MatchesAt(s, pat, p) {
        forall j | 0 <= j < |lit|
          ensures FoldsTo(s[p + j], lit[j])
        {
          assert InClass(s[p + j], pat[j]);
          FoldsToLower(s[p + j], lit[j]);
        }
      }
    }
  }

  /** The first character of an occurrence, compared without regard to case. */
  lemma FoldsAtFirst(s: string, lit: string, p: int)
    requires FoldsAt(s, lit, p) && lit != []
    ensures FoldsTo(s[p], lit[0])
  {
  }

  /** The end of the `tag` group: the group `[^\]]*` takes every character up
      to the first `]` from `q` on, which the pattern then requires. */
  function FirstBracket(s: string, q: nat): (r: Option<nat>)
    ensures r.Some? ==> q <= r.value < |s| && s[r.value] == ']'
    decreases |s| - q
  {
    if q >= |s| then None
    else if s[q] == ']' then Some(q)
    else FirstBracket(s, q + 1)
  }

  lemma {:induction false} FirstBracketSpec(s: string, q: nat)
    ensures var r := FirstBracket(s, q);
      && (r.Some? ==> forall i :: q <= i < r.value ==> s[i] != ']')
      && (r.None? ==> forall i :: q <= i < |s| ==> s[i] != ']')
    decreases |s| - q
  {
    if q < |s| && s[q] != ']' {
      FirstBracketSpec(s, q + 1);
    }
  }

  lemma {:induction false} FirstBracketIs(s: string, q: nat, t: nat)
    requires q <= t < |s| && s[t] == ']' && forall i :: q <= i < t ==> s[i] != ']'
    ensures FirstBracket(s, q) == Some(t)
    decreases t - q
  {
    if q < t {
      FirstBracketIs(s, q + 1, t);
    }
  }

  /** The closing tag the lazy `inner` group stops at: the first one from `q`
      on. */
  function FirstCloseTag(g: Tags, s: string, q: nat): (r: Option<nat>)
    ensures r.Some? ==> q <= r.value < |s| && FoldsAt(s, g.close, r.value)
    decreases |s| - q
  {
    if q >= |s| then None
    else if FoldsAt(s, g.close, q) then Some(q)
    else FirstCloseTag(g, s, q + 1)
  }

  lemma {:induction false} FirstCloseTagSpec(g: Tags, s: string, q: nat)
    ensures var r := FirstCloseTag(g, s, q);
      && (r.Some? ==> forall j :: q <= j < r.value ==> !FoldsAt(s, g.close, j))
      && (r.None? ==> forall j :: q <= j < |s| ==> !FoldsAt(s, g.close, j))
    decreases |s| - q
  {
    if q < |s| && !FoldsAt(s, g.close, q) {
      FirstCloseTagSpec(g, s, q + 1);
    }
  }

  lemma {:induction false} FirstCloseTagIs(g: Tags, s: string, q: nat, k: nat)
    requires q <= k < |s| && FoldsAt(s, g.close, k)
    requires forall j :: q <= j < k ==> !FoldsAt(s, g.close, j)
    ensures FirstCloseTag(g, s, q) == Some(k)
    decreases k - q
  {
    if q < k {
      FirstCloseTagIs(g, s, q + 1, k);
    }
  }

  /** The pattern matches at `p` with its `tag` group ending at the `]` at `t`
      and its `inner` group ending where the closing tag at `k` starts: `tag`
      holds no `]`, `inner` is not empty, and no closing tag starts inside
      `inner` after its first character (the group is lazy). */
  predicate IsBlock(g: Tags, s: string, p: int, t: int, k: int) {
    FoldsAt(s, g.open, p)
    && p + |g.open| <= t < |s| && t + 2 <= k
    && s[t] == ']' && (forall i :: p + |g.open| <= i < t ==> s[i] != ']')
    && k < |s| && FoldsAt(s, g.close, k)
    && (forall j :: t + 2 <= j < k ==> !FoldsAt(s, g.close, j))
  }

  /** The pattern anchored at `p`. */
  function BlockAt(g: Tags, s: string, p: nat): (r: Option<Block>)
    ensures r.Some? ==> r.value.index == p && p + r.value.length <= |s|
  {
    if !FoldsAt(s, g.open, p) then None
    else match FirstBracket(s, p + |g.open|)
      case None => None
      case Some(t) =>
        match FirstCloseTag(g, s, t + 2)
        case None => None
        case Some(k) =>
          Some(Block(p, k + |g.close| - p, s[p + |g.open|..t], s[t + 1..k]))
  }

  /** The anchored matcher in terms of the two searches it makes. */
  lemma BlockAtParts(g: Tags, s: string, p: nat, t: nat, k: nat)
    requires FoldsAt(s, g.open, p)
    requires FirstBracket(s, p + |g.open|) == Some(t) && FirstCloseTag(g, s, t + 2) == Some(k)
    ensures BlockAt(g, s, p) == Some(Block(p, k + |g.close| - p, s[p + |g.open|..t], s[t + 1..k]))
  {
  }

  /** Where the pattern matches at `p`, the anchored matcher reports its
      groups. */
  lemma BlockAtIs(g: Tags, s: string, p: nat, t: nat, k: nat)
    requires IsBlock(g, s, p, t, k)
    ensures BlockAt(g, s, p) == Some(Block(p, k + |g.close| - p, s[p + |g.open|..t], s[t + 1..k]))
  {
    FirstBracketIs(s, p + |g.open|, t);
    FirstCloseTagIs(g, s, t + 2, k);
    BlockAtParts(g, s, p, t, k);
  }

  /** Where the anchored matcher finds a block, the pattern matches. */
  lemma BlockAtFound(g: Tags, s: string, p: nat) returns (t: nat, k: nat)
    requires BlockAt(g, s, p).Some?
    ensures IsBlock(g, s, p, t, k)
  {
    t := FirstBracket(s, p + |g.open|).value;
    k := FirstCloseTag(g, s, t + 2).value;
    FirstBracketSpec(s, p + |g.open|);
    FirstCloseTagSpec(g, s, t + 2);
    assert IsBlock(g, s, p, t, k);
  }

  /** `Regex.Match`: the leftmost block from `p` on. */
  function FindBlock(g: Tags, s: string, p: nat): (r: Option<Block>)
    ensures r.Some? ==> p <= r.value.index && r.value.index + r.value.length <= |s|
    decreases |s| - p
  {
    if p >= |s| then None
    else match BlockAt(g, s, p)
      case Some(b) => Some(b)
      case None => FindBlock(g, s, p + 1)
  }

  lemma PastEnd(g: Tags, s: string, q: nat)
    requires q >= |s|
    ensures BlockAt(g, s, q).None?
  {
    assert FirstBracket(s, q + |g.open|).None?;
  }

  /** The block found is the leftmost one: it is the block at its index and
      none starts between `p` and it. */
  lemma {:induction false} FindBlockFound(g: Tags, s: string, p: nat)
    requires FindBlock(g, s, p).Some?
    ensures BlockAt(g, s, FindBlock(g, s, p).value.index) == FindBlock(g, s, p)
    ensures forall q :: p <= q < FindBlock(g, s, p).value.index ==> BlockAt(g, s, q).None?
    decreases |s| - p
  {
    if BlockAt(g, s, p).None? {
      FindBlockFound(g, s, p + 1);
    }
  }

  /** When no block is found, none starts anywhere from `p` on. */
  lemma {:induction false} FindBlockNone(g: Tags, s: string, p: nat)
    requires FindBlock(g, s, p).None?
    ensures forall q :: p <= q ==> BlockAt(g, s, q).None?
    decreases |s| - p
  {
    if p >= |s| {
      forall q | p <= q
        ensures BlockAt(g, s, q).None?
      {
        PastEnd(g, s, q);
      }
    } else {
      FindBlockNone(g, s, p + 1);
    }
  }

  /** What replaces a block: the localized text for its tag when there is one,
      its default text otherwise. */
  function Replacement(b: Block, lookup: string -> Option<string>): string {
    match lookup(b.tag)
    case Some(text) => text
    case None => b.inner
  }

  /** `sb.Remove(index, length)` followed by `sb.Insert(index, value)`. */
  function Step(s: string, b: Block, lookup: string -> Option<string>): (r: string)
    requires b.index + b.length <= |s|
  {
    s[..b.index] + Replacement(b, lookup) + s[b.index + b.length..]
  }

  /** The loop of `LocalizeCustomBBCodeElement`, with at most `fuel`
      replacements; `None` when the fuel runs out while a block remains. */
  function Localize(g: Tags, s: string, lookup: string -> Option<string>, fuel: nat): Option<string>
    decreases fuel
  {
    match FindBlock(g, s, 0)
    case None => Some(s)
    case Some(b) => if fuel == 0 then None else Localize(g, Step(s, b, lookup), lookup, fuel - 1)
  }

  // ---------------------------------------------------------------------------
  // Properties.

  /** A text without any block is returned as it is, even with no fuel, and
      only such a text is. */
  lemma NoBlockUnchanged(g: Tags, s: string, lookup: string -> Option<string>)
    ensures (forall q :: BlockAt(g, s, q).None?) <==> Localize(g, s, lookup, 0) == Some(s)
  {
    if FindBlock(g, s, 0).Some? {
      FindBlockFound(g, s, 0);
      assert BlockAt(g, s, FindBlock(g, s, 0).value.index).Some?;
    } else {
      FindBlockNone(g, s, 0);
    }
  }

  /** Whatever the loop returns holds no block any more. */
  lemma {:induction false} LocalizedHasNoBlock(g: Tags, s: string, lookup: string -> Option<string>, fuel: nat)
    ensures Localize(g, s, lookup, fuel).Some? ==> forall q :: BlockAt(g, Localize(g, s, lookup, fuel).value, q).None?
    decreases fuel
  {
    match FindBlock(g, s, 0)
    case None =>
      FindBlockNone(g, s, 0);
    case Some(b) =>
      if fuel > 0 {
        LocalizedHasNoBlock(g, Step(s, b, lookup), lookup, fuel - 1);
      }
  }

  /** More fuel never changes an answer already reached. */
  lemma {:induction false} MoreFuel(g: Tags, s: string, lookup: string -> Option<string>, fuel: nat, more: nat)
    requires fuel <= more && Localize(g, s, lookup, fuel).Some?
    ensures Localize(g, s, lookup, more) == Localize(g, s, lookup, fuel)
    decreases fuel
  {
    match FindBlock(g, s, 0)
    case None =>
    case Some(b) =>
      MoreFuel(g, Step(s, b, lookup), lookup, fuel - 1, more - 1);
  }

  // ---------------------------------------------------------------------------
  // When the loop ends.

  /** The number of `[` in a text. */
  function Opens(s: string): nat {
    if s == [] then 0 else (if s[0] == '[' then 1 else 0) + Opens(s[1..])
  }

  lemma {:induction false} OpensAppend(a: string, b: string)
    ensures Opens(a + b) == Opens(a) + Opens(b)
  {
    if a != [] {
      assert (a + b)[1..] == a[1..] + b;
      OpensAppend(a[1..], b);
    } else {
      assert a + b == b;
    }
  }

  /** A text that starts with `[` holds at least one. */
  lemma OpensFirst(s: string)
    requires s != [] && s[0] == '['
    ensures Opens(s) >= 1
  {
  }

  /** The only character that folds to `[` is `[`. */
  lemma FoldBracket(x: char)
    requires FoldsTo(x, '[')
    ensures x == '['
  {
  }

  /** Replacing the part from `t + 1` to `k` of a stretch `[..[..` from `p`
      to `e` by a text with no more `[` than it, and dropping the rest of the
      stretch, leaves at least two `[` fewer. */
  lemma SpliceShrinks(s: string, p: nat, t: nat, k: nat, e: nat, v: string)
    requires p <= t < k < e <= |s| && s[p] == '[' && s[k] == '['
    requires Opens(v) <= Opens(s[t + 1..k])
    ensures Opens(s[..p] + v + s[e..]) + 2 <= Opens(s)
  {
    var m := s[p..e];
    assert Opens(s[p..t + 1]) >= 1 by {
      OpensFirst(s[p..t + 1]);
    }
    assert Opens(s[k..e]) >= 1 by {
      OpensFirst(s[k..e]);
    }
    assert Opens(m) == Opens(s[p..t + 1]) + Opens(s[t + 1..k]) + Opens(s[k..e]) by {
      Thirds(s, p, t + 1, k, e);
      OpensThree(s[p..t + 1], s[t + 1..k], s[k..e]);
    }
    assert Opens(s) == Opens(s[..p]) + Opens(m) + Opens(s[e..]) by {
      Around(s, p, e);
      OpensThree(s[..p], m, s[e..]);
    }
    OpensThree(s[..p], v, s[e..]);
  }

  /** A block removes its two opening brackets and the ones of its default
      text, so a replacement by the default text or by a text without `[`
      leaves at least two `[` fewer. */
  lemma StepShrinks(g: Tags, s: string, p: nat, lookup: string -> Option<string>)
    requires Bracketed(g) && BlockAt(g, s, p).Some?
    requires lookup(BlockAt(g, s, p).value.tag).Some? ==> Opens(lookup(BlockAt(g, s, p).value.tag).value) == 0
    ensures Opens(Step(s, BlockAt(g, s, p).value, lookup)) + 2 <= Opens(s)
  {
    var b := BlockAt(g, s, p).value;
    var t, k := BlockAtFound(g, s, p);
    BlockAtIs(g, s, p, t, k);
    assert Opens(Replacement(b, lookup)) <= Opens(s[t + 1..k]) by {
      if lookup(b.tag).None? {
        assert Replacement(b, lookup) == b.inner == s[t + 1..k];
      }
    }
    assert s[p] == '[' by {
      FoldsAtFirst(s, g.open, p);
      FoldBracket(s[p]);
    }
    assert s[k] == '[' by {
      FoldsAtFirst(s, g.close, k);
      FoldBracket(s[k]);
    }
    var e := k + |g.close|;
    assert b.index == p && b.index + b.length == e;
    assert Step(s, b, lookup) == s[..p] + Replacement(b, lookup) + s[e..];
    SpliceShrinks(s, p, t, k, e, Replacement(b, lookup));
  }

  lemma OpensThree(a: string, b: string, c: string)
    ensures Opens(a + b + c) == Opens(a) + Opens(b) + Opens(c)
  {
    OpensAppend(a, b);
    OpensAppend(a + b, c);
  }

  lemma Around<T>(s: seq<T>, a: nat, b: nat)
    requires a <= b <= |s|
    ensures s == s[..a] + s[a..b] + s[b..]
  {
  }

  /** A slice cut in three. */
  lemma Thirds<T>(s: seq<T>, a: nat, b: nat, c: nat, d: nat)
    requires a <= b <= c <= d <= |s|
    ensures s[a..d] == s[a..b] + s[b..c] + s[c..d]
  {
  }

  /** When no localized text holds a `[`, the loop ends: as many rounds as
      the text has `[` are enough. */
  lemma {:induction false} LocalizeEnds(g: Tags, s: string, lookup: string -> Option<string>, fuel: nat)
    requires forall tag :: lookup(tag).Some? ==> Opens(lookup(tag).value) == 0
    requires Bracketed(g) && Opens(s) <= fuel
    ensures Localize(g, s, lookup, fuel).Some?
    decreases fuel
  {
    match FindBlock(g, s, 0)
    case None =>
    case Some(b) =>
      FoundShrinks(g, s, lookup);
      LocalizeEnds(g, Step(s, b, lookup), lookup, fuel - 1);
  }

  lemma FoundShrinks(g: Tags, s: string, lookup: string -> Option<string>)
    requires Bracketed(g) && FindBlock(g, s, 0).Some?
    requires forall tag :: lookup(tag).Some? ==> Opens(lookup(tag).value) == 0
    ensures Opens(Step(s, FindBlock(g, s, 0).value, lookup)) + 2 <= Opens(s)
  {
    FindBlockFound(g, s, 0);
    StepShrinks(g, s, FindBlock(g, s, 0).value.index, lookup);
  }

  // ---------------------------------------------------------------------------
  // A localized text that holds its own block.

  /** Every character of `lit` is lower-case. */
  predicate LowerCase(lit: string) {
    forall j :: 0 <= j < |lit| ==> LowerChar(lit[j]) == lit[j]
  }

  /** An exact copy of a lower-case literal matches it. */
  lemma FoldsExact(s: string, lit: string, p: nat)
    requires p + |lit| <= |s| && s[p..p + |lit|] == lit && LowerCase(lit)
    ensures FoldsAt(s, lit, p)
  {
    forall j | 0 <= j < |lit|
      ensures FoldsTo(s[p + j], lit[j])
    {
      assert s[p + j] == s[p..p + |lit|][j];
      FoldsToLower(lit[j], lit[j]);
    }
    FoldsFromSpec(s, lit, p, 0);
  }

  /** The block for `tag` with the one-character default text `d`. */
  function BlockText(g: Tags, tag: string, d: char): string {
    g.open + tag + "]" + [d] + g.close
  }

  /** The five parts of a concatenation, recovered by slicing. */
  lemma Parts5<T>(a: seq<T>, b: seq<T>, c: seq<T>, d: seq<T>, e: seq<T>)
    ensures var s, i, j, k, l := a + b + c + d + e, |a|, |a| + |b|, |a| + |b| + |c|, |a| + |b| + |c| + |d|;
      s[..i] == a && s[i..j] == b && s[j..k] == c && s[k..l] == d && s[l..] == e
  {
  }

  /** Such a text is one block from end to end. */
  lemma BlockTextIsBlock(g: Tags, tag: string, d: char)
    requires LowerCase(g.open) && LowerCase(g.close) && g.close != []
    requires forall i :: 0 <= i < |tag| ==> tag[i] != ']'
    ensures var s := BlockText(g, tag, d);
      FindBlock(g, s, 0) == Some(Block(0, |s|, tag, [d]))
  {
    var s := BlockText(g, tag, d);
    var t := |g.open| + |tag|;
    var k := t + 2;
    Parts5(g.open, tag, "]", [d], g.close);
    FoldsExact(s, g.open, 0);
    FoldsExact(s, g.close, k);
    forall i | |g.open| <= i < t
      ensures s[i] != ']'
    {
      assert s[i] == s[|g.open|..t][i - |g.open|];
    }
    assert s[t] == s[t..t + 1][0];
    assert IsBlock(g, s, 0, t, k);
    BlockAtIs(g, s, 0, t, k);
  }

  /** A block that spans the whole text is replaced by the whole localized
      text. */
  lemma StepWhole(s: string, b: Block, lookup: string -> Option<string>, v: string)
    requires b.index == 0 && b.length == |s| && lookup(b.tag) == Some(v)
    ensures Step(s, b, lookup) == v
  {
  }

  /** A localized text that is the block for its own tag is expanded again
      and again: no amount of fuel ends the loop. */
  lemma {:induction false} SelfReferenceNeverEnds(g: Tags, tag: string, d: char, lookup: string -> Option<string>, fuel: nat)
    requires LowerCase(g.open) && LowerCase(g.close) && g.close != []
    requires forall i :: 0 <= i < |tag| ==> tag[i] != ']'
    requires lookup(tag) == Some(BlockText(g, tag, d))
    ensures Localize(g, BlockText(g, tag, d), lookup, fuel).None?
    decreases fuel
  {
    var s := BlockText(g, tag, d);
    BlockTextIsBlock(g, tag, d);
    LocalizeFound(g, s, lookup, fuel);
    if fuel > 0 {
      StepWhole(s, Block(0, |s|, tag, [d]), lookup, s);
      SelfReferenceNeverEnds(g, tag, d, lookup, fuel - 1);
    }
  }

  /** One round of the loop on a text that holds a block. */
  lemma LocalizeFound(g: Tags, s: string, lookup: string -> Option<string>, fuel: nat)
    requires FindBlock(g, s, 0).Some?
    ensures Localize(g, s, lookup, fuel) ==
      if fuel == 0 then None else Localize(g, Step(s, FindBlock(g, s, 0).value, lookup), lookup, fuel - 1)
  {
  }

  /** The tags of `LocalizeCustomBBCodeElement` meet what the properties
      above need. */
  lemma LocalizationTags()
    ensures Bracketed(Localization) && LowerCase(Localization.open) && LowerCase(Localization.close)
  {
  }

  /** `[localization=x]y[/localization]`, with `x` localized as the text itself. */
  const Looping: string := BlockText(Localization, "x", 'y')

  function LoopingLookup(tag: string): Option<string> {
    if tag == "x" then Some(Looping) else None
  }

  /** For that text the rewrite loop of `LocalizeCustomBBCodeElement` never
      ends. */
  lemma LoopingNeverEnds(fuel: nat)
    ensures Localize(Localization, Looping, LoopingLookup, fuel).None?
  {
    LocalizationTags();
    SelfReferenceNeverEnds(Localization, "x", 'y', LoopingLookup, fuel);
  }
}
