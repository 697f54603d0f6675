/**
 The helpers of the message formatter that rewrite a message at the matches of
 a regular expression, walking the matches from the last to the first:
 `MatchAndPerformAction`, the line-feed repair of `RepairHtml`,
 `SurroundWordList` and `RemoveHtmlByList`. HTML encoding and the accepted-tag
 test are framework calls and come in as parameters.
 */
module FormatEdits {
  import opened Text
  import opened Matching
  import opened Edits

  // ---------------------------------------------------------------------------
  // MatchAndPerformAction

  /** One call of the action: the trimmed, lower-cased text of the match after
      its first character, and the match's position and length. */
  datatype Invocation = Invocation(inner: string, index: nat, length: nat)

  /** What the action gets for a match of `text` of length at least one. */
  function InnerText(text: string, m: Match): string
    requires 1 <= m.length && m.index + m.length <= |text|
  {
    ToLower(Trim(text[m.index + 1..m.index + m.length]))
  }

  /** Every match ends inside the text. */
  predicate Inside(ms: seq<Match>, n: nat) {
    forall k :: 0 <= k < |ms| ==> ms[k].index + ms[k].length <= n
  }

  /** No match is empty. */
  predicate NonEmpty(ms: seq<Match>) {
    forall k :: 0 <= k < |ms| ==> ms[k].length >= 1
  }

  /** The matches `MatchAndPerformAction` calls the action for, in the order it
      calls it (by decreasing position), and whether it stops with an exception:
      `Substring(index + 1, length - 1)` throws on a match of length zero, after
      the calls for the matches to its right. */
  function Visited(ms: seq<Match>): (r: (seq<Match>, bool))
    ensures |r.0| <= |ms|
  {
    if ms == [] then ([], false)
    else
      var rest := Visited(ms[1..]);
      if rest.1 then rest
      else if ms[0].length == 0 then (rest.0, true)
      else (rest.0 + [ms[0]], false)
  }

  /** Consecutive matches do not overlap. */
  lemma {:induction false} OrderedAdjacent(ms: seq<Match>, pos: nat, n: nat, j: nat)
    requires Ordered(ms, pos, n) && j + 1 < |ms|
    ensures ms[j].index + ms[j].length <= ms[j + 1].index
  {
    if j > 0 {
      OrderedAdjacent(ms[1..], ms[0].index + ms[0].length, n, j - 1);
    }
  }

  /** The run fails exactly when some match is empty; it then stops at the last
      empty match, after one call for each match to its right. */
  lemma {:induction false} VisitedFails(ms: seq<Match>)
    ensures Visited(ms).1 <==> exists k :: 0 <= k < |ms| && ms[k].length == 0
    ensures !Visited(ms).1 ==> |Visited(ms).0| == |ms|
    ensures Visited(ms).1 ==> |Visited(ms).0| < |ms| && ms[|ms| - 1 - |Visited(ms).0|].length == 0
  {
    if ms != [] {
      VisitedFails(ms[1..]);
      if exists k :: 0 <= k < |ms[1..]| && ms[1..][k].length == 0 {
        var k :| 0 <= k < |ms[1..]| && ms[1..][k].length == 0;
        assert ms[k + 1].length == 0;
      }
      if exists k :: 0 <= k < |ms| && ms[k].length == 0 {
        var k :| 0 <= k < |ms| && ms[k].length == 0;
        if k > 0 {
          assert ms[1..][k - 1].length == 0;
        }
      }
    }
  }

  /** The calls are for the matches from the right, one each: the `j`-th match
      gets the `(|ms| - 1 - j)`-th call, and it is not empty. */
  lemma {:induction false} VisitedCalls(ms: seq<Match>)
    ensures forall j :: |ms| - |Visited(ms).0| <= j < |ms| ==>
      ms[j].length >= 1 && Visited(ms).0[|ms| - 1 - j] == ms[j]
  {
    if ms != [] {
      var r := Visited(ms);
      var rest := Visited(ms[1..]);
      VisitedCalls(ms[1..]);
      VisitedFails(ms[1..]);
      forall j | |ms| - |r.0| <= j < |ms|
        ensures ms[j].length >= 1 && r.0[|ms| - 1 - j] == ms[j]
      {
        if j > 0 {
          assert ms[1..][j - 1] == ms[j];
          assert r.0[|ms| - 1 - j] == rest.0[|ms[1..]| - 1 - (j - 1)];
        } else {
          assert r.0 == rest.0 + [ms[0]];
        }
      }
    } else {
      assert Visited(ms).0 == [];
    }
  }

  /** Every call is for a non-empty match inside the text. */
  lemma VisitedInside(ms: seq<Match>, n: nat)
    requires Inside(ms, n)
    ensures Inside(Visited(ms).0, n) && NonEmpty(Visited(ms).0)
  {
    VisitedCalls(ms);
    var r := Visited(ms).0;
    forall k | 0 <= k < |r|
      ensures r[k].index + r[k].length <= n && r[k].length >= 1
    {
      assert r[k] == ms[|ms| - 1 - k];
    }
  }

  /** The call made for a non-empty match. */
  function Call(text: string, m: Match): Invocation
    requires 1 <= m.length && m.index + m.length <= |text|
  {
    Invocation(InnerText(text, m), m.index, m.length)
  }

  function Calls(text: string, ms: seq<Match>): (r: seq<Invocation>)
    requires Inside(ms, |text|) && NonEmpty(ms)
    ensures |r| == |ms|
    ensures forall k :: 0 <= k < |ms| ==> r[k] == Call(text, ms[k])
  {
    if ms == [] then [] else [Call(text, ms[0])] + Calls(text, ms[1..])
  }

  /** `MatchAndPerformAction`: the calls of the action, and whether the run ends
      with an exception. */
  function MatchAndPerformAction(text: string, ms: seq<Match>): (seq<Invocation>, bool)
    requires Inside(ms, |text|)
  {
    VisitedInside(ms, |text|);
    (Calls(text, Visited(ms).0), Visited(ms).1)
  }

  /** Hence the calls go by strictly decreasing position. */
  lemma VisitedDescending(ms: seq<Match>, n: nat)
    requires Ordered(ms, 0, n)
    ensures forall k :: 0 <= k < |Visited(ms).0| - 1 ==> Visited(ms).0[k + 1].index < Visited(ms).0[k].index
  {
    VisitedCalls(ms);
    var r := Visited(ms).0;
    forall k | 0 <= k < |r| - 1
      ensures r[k + 1].index < r[k].index
    {
      var j := |ms| - 2 - k;
      OrderedAdjacent(ms, 0, n, j);
      assert r[k] == ms[j + 1];
      assert r[k + 1] == ms[j];
    }
  }

  // ---------------------------------------------------------------------------
  // RepairHtml: the line-feed repair.

  /** The pattern `[^\r]\n[^\r]`: a line feed without a carriage return on
      either side. */
  const LoneLineFeed: seq<CharClass> := [Not('\r'), Lit('\n'), Not('\r')]

  /** The pattern `[^\r]\n\r\n[^\r]`. */
  const HalfBreak: seq<CharClass> := [Not('\r'), Lit('\n'), Lit('\r'), Lit('\n'), Not('\r')]

  /** The text `RepairHtml` inserts. */
  const SpaceReturn: string := " \r"

  /** `Insert(index + 1, " \r")` for each match. */
  function AfterFirst(ms: seq<Match>): (r: seq<Edit>)
    ensures |r| == |ms|
    ensures forall k :: 0 <= k < |r| ==> r[k] == Edit(ms[k].index + 1, 0, SpaceReturn)
  {
    if ms == [] then [] else [Edit(ms[0].index + 1, 0, SpaceReturn)] + AfterFirst(ms[1..])
  }

  lemma {:induction false} AfterFirstSorted(ms: seq<Match>, pos: nat, n: nat)
    requires Ordered(ms, pos, n)
    requires forall k :: 0 <= k < |ms| ==> ms[k].length >= 1
    ensures Sorted(AfterFirst(ms), pos, n)
  {
    if ms != [] {
      AfterFirstSorted(ms[1..], ms[0].index + ms[0].length, n);
      assert AfterFirst(ms)[1..] == AfterFirst(ms[1..]);
    }
  }

  /** One pass: a space and a carriage return go after the first character of
      every match of `pat`. */
  function RepairPass(s: string, pat: seq<CharClass>): (r: string)
    requires |pat| >= 1
  {
    AfterFirstSorted(FindAll(s, pat, 0), 0, |s|);
    Splice(s, AfterFirst(FindAll(s, pat, 0)), 0)
  }

  /** Both passes of `RepairHtml`. */
  function RepairLineFeeds(html: string): string {
    RepairPass(RepairPass(html, LoneLineFeed), HalfBreak)
  }

  /** The passes as the source runs them: each inserts from the last match to
      the first. */
  method RepairLineFeedsRightToLeft(html: string) returns (r: string)
    ensures r == RepairLineFeeds(html)
  {
    var mc1 := FindAll(html, LoneLineFeed, 0);
    AfterFirstSorted(mc1, 0, |html|);
    var once := ApplyRightToLeft(html, AfterFirst(mc1));
    var mc2 := FindAll(once, HalfBreak, 0);
    AfterFirstSorted(mc2, 0, |once|);
    r := ApplyRightToLeft(once, AfterFirst(mc2));
  }

  /** A pass adds two characters per match and loses nothing: taking the inserted
      text out again gives back its input. */
  lemma RepairPassInserts(s: string, pat: seq<CharClass>)
    requires |pat| >= 1
    ensures |RepairPass(s, pat)| == |s| + 2 * |FindAll(s, pat, 0)|
    ensures var ins := AfterFirst(FindAll(s, pat, 0));
      Sorted(ins, 0, |s|)
      && Sorted(Undo(s, ins, 0, 0), 0, |RepairPass(s, pat)|)
      && Splice(RepairPass(s, pat), Undo(s, ins, 0, 0), 0) == s
  {
    var ms := FindAll(s, pat, 0);
    AfterFirstSorted(ms, 0, |s|);
    SpliceLength(s, AfterFirst(ms), 0);
    InsertGrowth(ms);
    UndoRestores(s, AfterFirst(ms));
  }

  lemma {:induction false} InsertGrowth(ms: seq<Match>)
    ensures Growth(AfterFirst(ms)) == 2 * |ms|
  {
    if ms != [] {
      InsertGrowth(ms[1..]);
      assert AfterFirst(ms)[1..] == AfterFirst(ms[1..]);
    }
  }

  /** A lone line feed gets a carriage return in front of it. */
  lemma LoneLineFeedExample()
    ensures RepairLineFeeds("a\nb") == "a \r\nb"
  {
    var s := "a\nb";
    assert MatchesAt(s, LoneLineFeed, 0);
    assert FindAll(s, LoneLineFeed, 3) == [];
    assert FindAll(s, LoneLineFeed, 0) == [Match(0, 3)];
    var once := "a \r\nb";
    assert Splice(s, [Edit(1, 0, SpaceReturn)], 0) == s[0..1] + SpaceReturn + s[1..] == once;
    assert FindAll(once, HalfBreak, 1) == [];
    assert !MatchesAt(once, HalfBreak, 0) by { assert !InClass(once[1], HalfBreak[1]); }
    assert FindAll(once, HalfBreak, 0) == [];
  }

  /** A pattern that needs a line feed in second place finds nothing in a text
      without one. */
  lemma {:induction false} NoLineFeedNoMatch(html: string, pat: seq<CharClass>, pos: nat)
    requires |pat| >= 2 && pat[1] == Lit('\n')
    requires forall i :: 0 <= i < |html| ==> html[i] != '\n'
    ensures FindAll(html, pat, pos) == []
    decreases |html| - pos
  {
    if pos + |pat| <= |html| {
      assert !InClass(html[pos + 1], pat[1]);
      NoLineFeedNoMatch(html, pat, pos + 1);
    }
  }

  /** A text with no line feed is left as it is. */
  lemma NoLineFeedUnchanged(html: string)
    requires forall i :: 0 <= i < |html| ==> html[i] != '\n'
    ensures RepairLineFeeds(html) == html
  {
    NoLineFeedNoMatch(html, LoneLineFeed, 0);
    assert html[0..] == html;
    NoLineFeedNoMatch(html, HalfBreak, 0);
  }

  /** `RepairHtml`: the line-feed repair, then HTML encoding when HTML is not
      allowed, or the removal of tags that are not accepted when it is. */
  function RepairHtml(html: string, allowHtml: bool, encode: string -> string, accepted: string -> bool): string {
    var fixed := RepairLineFeeds(html);
    if !allowHtml then encode(fixed) else RemoveHtmlByList(fixed, accepted)
  }

  /** Which final step `RepairHtml` takes depends on `allowHtml` only. */
  lemma RepairHtmlSteps(html: string, allowHtml: bool, encode: string -> string, accepted: string -> bool)
    ensures !allowHtml ==> RepairHtml(html, allowHtml, encode, accepted) == encode(RepairLineFeeds(html))
    ensures allowHtml ==> RepairHtml(html, allowHtml, encode, accepted) == RemoveHtmlByList(RepairLineFeeds(html), accepted)
    ensures allowHtml && (forall i :: 0 <= i < |html| ==> html[i] != '\n' && html[i] != '<') ==>
      RepairHtml(html, allowHtml, encode, accepted) == html
  {
    if allowHtml && forall i :: 0 <= i < |html| ==> html[i] != '\n' && html[i] != '<' {
      NoLineFeedUnchanged(html);
      NoOpenNoTags(html, 0);
      assert html[0..] == html;
    }
  }

  // ---------------------------------------------------------------------------
  // RemoveHtmlByList

  /** `Remove(index, length)` for each tag the accepted-tag test rejects. */
  function Removals(text: string, ms: seq<Match>, accepted: string -> bool): (r: seq<Edit>)
    requires Inside(ms, |text|) && NonEmpty(ms)
    ensures |r| <= |ms|
  {
    if ms == [] then []
    else
      var m := ms[0];
      var rest := Removals(text, ms[1..], accepted);
      if accepted(InnerText(text, m)) then rest else [Edit(m.index, m.length, [])] + rest
  }

  lemma {:induction false} RemovalsSorted(text: string, ms: seq<Match>, accepted: string -> bool, pos: nat)
    requires Ordered(ms, pos, |text|) && Inside(ms, |text|) && NonEmpty(ms)
    ensures Sorted(Removals(text, ms, accepted), pos, |text|)
    decreases |ms|
  {
    if ms != [] {
      RemovalsSorted(text, ms[1..], accepted, ms[0].index + ms[0].length);
    }
  }

  /** The characters a removal list takes out of the text. */
  function Removed(edits: seq<Edit>): nat {
    if edits == [] then 0 else edits[0].len + Removed(edits[1..])
  }

  /** The tags `<.*?>` of the text, as the regular expression finds them. */
  function Tags(text: string): (r: seq<Match>)
    ensures Ordered(r, 0, |text|) && Inside(r, |text|) && NonEmpty(r)
  {
    var r := FindTags(text, 0);
    OrderedBounds(r, 0, |text|);
    r
  }

  /** What the accepted-tag test is asked about for each tag: the tag without
      its `<`, trimmed and lower-cased. */
  function TagTexts(text: string, ms: seq<Match>): (r: seq<string>)
    requires Inside(ms, |text|) && NonEmpty(ms)
    ensures |r| == |ms|
  {
    if ms == [] then [] else [InnerText(text, ms[0])] + TagTexts(text, ms[1..])
  }

  /** `RemoveHtmlByList`: every `<...>` tag whose trimmed, lower-cased inner
      text the test rejects is cut out. */
  function RemoveHtmlByList(text: string, accepted: string -> bool): string {
    RemovalsSorted(text, Tags(text), accepted, 0);
    Splice(text, Removals(text, Tags(text), accepted), 0)
  }

  /** As the source runs it: `MatchAndPerformAction` visits the tags from the last
      to the first and removes each rejected one. */
  method RemoveHtmlByListRightToLeft(text: string, accepted: string -> bool) returns (r: string)
    ensures r == RemoveHtmlByList(text, accepted)
  {
    var ms := Tags(text);
    RemovalsSorted(text, ms, accepted, 0);
    r := ApplyRightToLeft(text, Removals(text, ms, accepted));
  }

  /** Removal shortens the text by exactly the lengths of the rejected tags, and
      putting them back restores the text. */
  lemma RemoveHtmlByListRemoves(text: string, accepted: string -> bool)
    ensures Sorted(Removals(text, Tags(text), accepted), 0, |text|)
    ensures |RemoveHtmlByList(text, accepted)| + Removed(Removals(text, Tags(text), accepted)) == |text|
    ensures var es := Removals(text, Tags(text), accepted);
      Sorted(Undo(text, es, 0, 0), 0, |RemoveHtmlByList(text, accepted)|)
      && Splice(RemoveHtmlByList(text, accepted), Undo(text, es, 0, 0), 0) == text
  {
    var es := Removals(text, Tags(text), accepted);
    RemovalsSorted(text, Tags(text), accepted, 0);
    SpliceLength(text, es, 0);
    RemovalGrowth(text, Tags(text), accepted);
    UndoRestores(text, es);
  }

  lemma {:induction false} RemovalGrowth(text: string, ms: seq<Match>, accepted: string -> bool)
    requires Inside(ms, |text|) && NonEmpty(ms)
    ensures Growth(Removals(text, ms, accepted)) + Removed(Removals(text, ms, accepted)) == 0
  {
    if ms != [] {
      RemovalGrowth(text, ms[1..], accepted);
    }
  }

  /** The test accepts every one of `texts`. */
  predicate AllAccepted(texts: seq<string>, accepted: string -> bool) {
    forall k :: 0 <= k < |texts| ==> accepted(texts[k])
  }

  /** A tag is removed exactly when the test rejects it: with every tag accepted
      the text is unchanged, and with some tag rejected something is removed. */
  lemma {:induction false} RemovalsIffRejected(text: string, ms: seq<Match>, accepted: string -> bool)
    requires Inside(ms, |text|) && NonEmpty(ms)
    ensures Removals(text, ms, accepted) == [] <==> AllAccepted(TagTexts(text, ms), accepted)
  {
    if ms != [] {
      var head, tail := InnerText(text, ms[0]), TagTexts(text, ms[1..]);
      RemovalsIffRejected(text, ms[1..], accepted);
      AllHeadTail(TagTexts(text, ms), head, tail, accepted);
      if accepted(head) {
        assert Removals(text, ms, accepted) == Removals(text, ms[1..], accepted);
      } else {
        assert Removals(text, ms, accepted) == [Edit(ms[0].index, ms[0].length, [])] + Removals(text, ms[1..], accepted);
      }
    }
  }

  /** A list of texts is accepted throughout exactly when its head is and its
      tail is throughout. */
  lemma AllHeadTail(xs: seq<string>, head: string, tail: seq<string>, accepted: string -> bool)
    requires xs == [head] + tail
    ensures AllAccepted(xs, accepted) <==> accepted(head) && AllAccepted(tail, accepted)
  {
    if accepted(head) && AllAccepted(tail, accepted) {
      forall k | 0 < k < |xs| ensures accepted(xs[k]) {
        assert xs[k] == tail[k - 1];
      }
    }
    if AllAccepted(xs, accepted) {
      assert accepted(xs[0]) && xs[0] == head;
      forall k | 0 <= k < |tail| ensures accepted(tail[k]) {
        assert xs[k + 1] == tail[k];
      }
    }
  }

  /** The text is left as it is when the test accepts every tag, and becomes
      shorter when it rejects one. */
  lemma RemoveHtmlByListKeeps(text: string, accepted: string -> bool)
    ensures AllAccepted(TagTexts(text, Tags(text)), accepted) <==> RemoveHtmlByList(text, accepted) == text
  {
    var ms := Tags(text);
    var es := Removals(text, ms, accepted);
    RemovalsIffRejected(text, ms, accepted);
    RemoveHtmlByListRemoves(text, accepted);
    if es == [] {
      assert text[0..] == text;
    } else {
      RemovalsShorten(text, ms, accepted);
    }
  }

  lemma {:induction false} RemovalsShorten(text: string, ms: seq<Match>, accepted: string -> bool)
    requires Inside(ms, |text|) && NonEmpty(ms)
    requires Removals(text, ms, accepted) != []
    ensures Removed(Removals(text, ms, accepted)) >= 1
  {
    if accepted(InnerText(text, ms[0])) {
      RemovalsShorten(text, ms[1..], accepted);
    }
  }

  /** A text without `<` has no tag. */
  lemma {:induction false} NoOpenNoTags(text: string, pos: nat)
    requires forall i :: 0 <= i < |text| ==> text[i] != '<'
    ensures FindTags(text, pos) == []
    decreases |text| - pos
  {
    if pos < |text| {
      NoOpenNoTags(text, pos + 1);
    }
  }

  // ---------------------------------------------------------------------------
  // SurroundWordList

  /** `Insert(index, prefix)` and `Insert(index + length, postfix)` for each match. */
  function Wrap(ms: seq<Match>, prefix: string, postfix: string): (r: seq<Edit>)
    ensures |r| == 2 * |ms|
  {
    if ms == [] then []
    else [Edit(ms[0].index, 0, prefix), Edit(ms[0].index + ms[0].length, 0, postfix)] + Wrap(ms[1..], prefix, postfix)
  }

  lemma {:induction false} WrapSorted(ms: seq<Match>, prefix: string, postfix: string, pos: nat, n: nat)
    requires Ordered(ms, pos, n)
    ensures Sorted(Wrap(ms, prefix, postfix), pos, n)
  {
    if ms != [] {
      WrapSorted(ms[1..], prefix, postfix, ms[0].index + ms[0].length, n);
      var w := Wrap(ms, prefix, postfix);
      assert w[1..][1..] == Wrap(ms[1..], prefix, postfix);
    }
  }

  /** One word of `SurroundWordList`: every match of the word gets the prefix
      before and the postfix after it. */
  function SurroundWord(message: string, word: string, prefix: string, postfix: string): string
    requires |word| >= 1
  {
    var ms := FindAll(message, WordPattern(word), 0);
    WrapSorted(ms, prefix, postfix, 0, |message|);
    Splice(message, Wrap(ms, prefix, postfix), 0)
  }

  /** `SurroundWordList`: the words longer than three UTF-16 code units, one after the
      other, each on the message as the previous words left it. */
  function SurroundWordList(message: string, words: seq<string>, prefix: string, postfix: string): string
    decreases |words|
  {
    if words == [] then message
    else
      var next := if Utf16Length(words[0]) > 3 then SurroundWord(message, words[0], prefix, postfix) else message;
      SurroundWordList(next, words[1..], prefix, postfix)
  }

  /** As the source runs one word: the postfix and then the prefix are inserted
      at each match, from the last match to the first. */
  method SurroundWordRightToLeft(message: string, word: string, prefix: string, postfix: string) returns (r: string)
    requires |word| >= 1
    ensures r == SurroundWord(message, word, prefix, postfix)
  {
    var ms := FindAll(message, WordPattern(word), 0);
    WrapSorted(ms, prefix, postfix, 0, |message|);
    r := ApplyRightToLeft(message, Wrap(ms, prefix, postfix));
  }

  /** Surrounding a word adds the prefix and the postfix once per match, and
      taking them out again gives back the message. */
  lemma SurroundWordInserts(message: string, word: string, prefix: string, postfix: string)
    requires |word| >= 1
    ensures |SurroundWord(message, word, prefix, postfix)| ==
      |message| + |FindAll(message, WordPattern(word), 0)| * (|prefix| + |postfix|)
    ensures var ins := Wrap(FindAll(message, WordPattern(word), 0), prefix, postfix);
      Sorted(ins, 0, |message|)
      && Sorted(Undo(message, ins, 0, 0), 0, |SurroundWord(message, word, prefix, postfix)|)
      && Splice(SurroundWord(message, word, prefix, postfix), Undo(message, ins, 0, 0), 0) == message
  {
    var ms := FindAll(message, WordPattern(word), 0);
    WrapSorted(ms, prefix, postfix, 0, |message|);
    SpliceLength(message, Wrap(ms, prefix, postfix), 0);
    WrapGrowth(ms, prefix, postfix);
    UndoRestores(message, Wrap(ms, prefix, postfix));
  }

  lemma {:induction false} WrapGrowth(ms: seq<Match>, prefix: string, postfix: string)
    ensures Growth(Wrap(ms, prefix, postfix)) == |ms| * (|prefix| + |postfix|)
  {
    if ms != [] {
      WrapGrowth(ms[1..], prefix, postfix);
      var w := Wrap(ms, prefix, postfix);
      assert w[1..][1..] == Wrap(ms[1..], prefix, postfix);
    }
  }

  /** A word of two characters outside the Basic Multilingual Plane is four
      code units long, so it is surrounded. */
  lemma AstralWordSurrounded(message: string, prefix: string, postfix: string)
    ensures SurroundWordList(message, ["\U{1F600}\U{1F600}"], prefix, postfix)
         == SurroundWord(message, "\U{1F600}\U{1F600}", prefix, postfix)
  {
    assert Utf16Length("\U{1F600}\U{1F600}") == 4;
  }

  /** Words of three UTF-16 code units or fewer are never surrounded. */
  lemma ShortWordsIgnored(message: string, words: seq<string>, prefix: string, postfix: string)
    requires forall k :: 0 <= k < |words| ==> Utf16Length(words[k]) <= 3
    ensures SurroundWordList(message, words, prefix, postfix) == message
    decreases |words|
  {
    if words != [] {
      ShortWordsIgnored(message, words[1..], prefix, postfix);
    }
  }
}
