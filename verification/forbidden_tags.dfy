/**
 The forbidden-tag detectors of the message formatter: `BBCodeForbiddenDetector`
 and `HtmlTagForbiddenDetector` scan a message for bracket tokens (`[...]` or
 `<...>`) and report the first one that no entry of a delimited allow-list
 names. `CheckHtmlTags` turns the detector's answer into the message the
 poster sees.

 The detector is given here twice: as the imperative loop nest of the source
 (`DetectForbidden`), and as a tokenizer followed by a search for the first
 rejected token (`Tokens`, `FirstRejected`, together `Detect`). The two are
 proved equal.

 The source looks for the closing bracket only below `Length - 1`, so a closing
 bracket in the last position is never seen. The tokenizer takes the bound as
 the parameter `limit`: `AsWrittenLimit` is the source's bound and `|s|` the
 evidently intended one.
 */
module ForbiddenTags {
  import opened Text

  datatype Pair = Pair(open: char, close: char)

  /** A bracket pair: two different characters that upper-casing leaves alone. */
  type Brackets = p: Pair | p.open != p.close && UpperChar(p.open) == p.open && UpperChar(p.close) == p.close
    witness Pair('[', ']')

  const BBCodeBrackets: Brackets := Pair('[', ']')
  const HtmlBrackets: Brackets := Pair('<', '>')

  /** The answer `"ALL"` that stands for "no tag is allowed at all". */
  const All: string := "ALL"

  /** The bound below which the source looks for a closing bracket. */
  function AsWrittenLimit(s: string): (r: nat)
    ensures r <= |s| && (s != [] ==> r == |s| - 1)
  {
    if |s| == 0 then 0 else |s| - 1
  }

  /** The first `close` at or after `from` and below `limit`. */
  function FirstClose(s: string, from: nat, limit: nat, close: char): (r: Option<nat>)
    requires limit <= |s|
    ensures r.Some? ==> from <= r.value < limit && s[r.value] == close
    decreases limit - from
  {
    if from >= limit then None
    else if s[from] == close then Some(from)
    else FirstClose(s, from + 1, limit, close)
  }

  /** `FirstClose` finds the first closing bracket, and finds none only when
      there is none. */
  lemma {:induction false} FirstCloseSpec(s: string, from: nat, limit: nat, close: char)
    requires limit <= |s|
    ensures var r := FirstClose(s, from, limit, close);
      && (r.Some? ==> forall k :: from <= k < r.value ==> s[k] != close)
      && (r.None? ==> forall k :: from <= k < limit ==> s[k] != close)
    decreases limit - from
  {
    if from < limit && s[from] != close {
      FirstCloseSpec(s, from + 1, limit, close);
    }
  }

  /** A closing bracket with none before it is the one found. */
  lemma FirstCloseIs(s: string, from: nat, limit: nat, close: char, j: nat)
    requires limit <= |s| && from <= j < limit && s[j] == close
    requires forall k :: from <= k < j ==> s[k] != close
    ensures FirstClose(s, from, limit, close) == Some(j)
  {
    FirstCloseSpec(s, from, limit, close);
  }

  /** A closing bracket below the bound means one is found. */
  lemma FirstCloseFound(s: string, from: nat, limit: nat, close: char, j: nat)
    requires limit <= |s| && from <= j < limit && s[j] == close
    ensures FirstClose(s, from, limit, close).Some?
  {
    FirstCloseSpec(s, from, limit, close);
  }

  /** The text an allowed entry `t` must appear with: its trimmed upper-case form
      after the opening bracket, or after the opening bracket and a slash. */
  predicate NamedBy(res: string, t: string, b: Brackets) {
    Contains(res, [b.open] + Trim(ToUpper(t))) || Contains(res, [b.open, '/'] + Trim(ToUpper(t)))
  }

  /** Some allow-list entry names the upper-cased token text `res`. */
  predicate Allowed(res: string, codes: seq<string>, b: Brackets) {
    exists t :: t in codes && NamedBy(res, t, b)
  }

  lemma AllowedSnoc(res: string, codes: seq<string>, t: string, b: Brackets)
    ensures Allowed(res, codes + [t], b) <==> Allowed(res, codes, b) || NamedBy(res, t, b)
  {
    if Allowed(res, codes + [t], b) {
      var u :| u in codes + [t] && NamedBy(res, u, b);
      if u != t {
        assert u in codes;
      }
    }
    if NamedBy(res, t, b) {
      assert t in codes + [t];
    }
    if Allowed(res, codes, b) {
      var u :| u in codes && NamedBy(res, u, b);
      assert u in codes + [t];
    }
  }

  // ---------------------------------------------------------------------------
  // The scan as a tokenizer followed by a search for the first rejected token.

  /** The closing bracket of the token that starts at `pos`, if one does: an
      opening bracket there and a closing one after it below the bound. */
  function TokenAt(s: string, b: Brackets, limit: nat, pos: nat): (r: Option<nat>)
    requires limit <= |s| && pos < |s|
    ensures r.Some? ==> pos < r.value < limit && s[r.value] == b.close
  {
    if s[pos] == b.open then FirstClose(s, pos, limit, b.close) else None
  }

  /** A bracket token: the opening bracket at `start`, the first closing bracket
      after it at `close`. */
  datatype Token = Token(start: nat, close: nat)

  /** Every token lies within `[pos, limit)` with its closing bracket after its
      opening one. */
  predicate Spans(toks: seq<Token>, pos: nat, limit: nat) {
    forall n :: 0 <= n < |toks| ==> pos <= toks[n].start < toks[n].close < limit
  }

  /** The tokens the scan examines when it accepts all of them: from `pos` on,
      each opening bracket with a closing one after it below the bound, the
      scan resuming after that closing bracket. */
  function Tokens(s: string, b: Brackets, limit: nat, pos: nat): (r: seq<Token>)
    requires limit <= |s|
    ensures Spans(r, pos, limit)
    decreases |s| - pos
  {
    if pos >= |s| then []
    else match TokenAt(s, b, limit, pos)
      case None => Tokens(s, b, limit, pos + 1)
      case Some(j) => [Token(pos, j)] + Tokens(s, b, limit, j + 1)
  }

  /** `tk` is a bracket token of `s`: an opening bracket and the first closing
      bracket after it below the bound. */
  predicate IsToken(s: string, b: Brackets, limit: nat, tk: Token)
    requires limit <= |s|
  {
    tk.start < |s| && s[tk.start] == b.open && FirstClose(s, tk.start, limit, b.close) == Some(tk.close)
  }

  /** The text of a token with the closing bracket left out, upper-cased: what the
      allow-list entries are matched against. */
  function Inner(s: string, tk: Token): string
    requires tk.start <= tk.close <= |s|
  {
    ToUpper(s[tk.start..tk.close])
  }

  /** The text reported for a rejected token. */
  function Whole(s: string, tk: Token): string
    requires tk.start <= tk.close < |s|
  {
    ToUpper(s[tk.start..tk.close + 1])
  }

  /** The answer for a list of tokens: `"ALL"` at the first token when every tag
      is forbidden (`all`), otherwise the first token no entry names. */
  function FirstRejected(s: string, toks: seq<Token>, codes: seq<string>, all: bool, b: Brackets): Option<string>
    requires Spans(toks, 0, |s|)
  {
    if toks == [] then None
    else if all then Some(All)
    else if Allowed(Inner(s, toks[0]), codes, b) then FirstRejected(s, toks[1..], codes, all, b)
    else Some(Whole(s, toks[0]))
  }

  /** Every token is named by some allow-list entry. */
  predicate AllNamed(s: string, toks: seq<Token>, codes: seq<string>, b: Brackets)
    requires Spans(toks, 0, |s|)
  {
    forall n :: 0 <= n < |toks| ==> Allowed(Inner(s, toks[n]), codes, b)
  }

  /** What the scan still reports from position `pos` on: `all` is the source's
      `checker` (the allow-list string is empty) and `codes` its split
      allow-list. */
  function ScanFrom(s: string, codes: seq<string>, all: bool, b: Brackets, limit: nat, pos: nat): Option<string>
    requires limit <= |s|
  {
    FirstRejected(s, Tokens(s, b, limit, pos), codes, all, b)
  }

  /** The detector on a whole message with the allow-list `list` split at `delim`. */
  function Detect(s: string, list: string, delim: char, b: Brackets, limit: nat): Option<string>
    requires limit <= |s|
  {
    ScanFrom(s, Split(list, delim), list == [], b, limit, 0)
  }

  /** `FirstRejected` on a list given as its first token and the rest. */
  lemma FirstRejectedCons(s: string, tk: Token, rest: seq<Token>, codes: seq<string>, all: bool, b: Brackets)
    requires tk.start < tk.close < |s| && Spans(rest, 0, |s|)
    ensures Spans([tk] + rest, 0, |s|)
    ensures FirstRejected(s, [tk] + rest, codes, all, b)
      == if all then Some(All)
         else if Allowed(Inner(s, tk), codes, b) then FirstRejected(s, rest, codes, all, b)
         else Some(Whole(s, tk))
  {
    var toks := [tk] + rest;
    assert toks[0] == tk && toks[1..] == rest;
    assert Spans(toks, 0, |s|) by {
      forall n | 0 <= n < |toks| ensures 0 <= toks[n].start < toks[n].close < |s| {
        if n > 0 {
          assert toks[n] == rest[n - 1];
        }
      }
    }
  }

  /** One step of the scan at an opening bracket whose closing bracket is `j`. */
  lemma ScanAtToken(s: string, codes: seq<string>, all: bool, b: Brackets, limit: nat, i: nat, j: nat)
    requires limit <= |s| && i < |s| && TokenAt(s, b, limit, i) == Some(j)
    ensures all ==> ScanFrom(s, codes, all, b, limit, i) == Some(All)
    ensures !all && Allowed(Inner(s, Token(i, j)), codes, b) ==>
      ScanFrom(s, codes, all, b, limit, i) == ScanFrom(s, codes, all, b, limit, j + 1)
    ensures !all && !Allowed(Inner(s, Token(i, j)), codes, b) ==>
      ScanFrom(s, codes, all, b, limit, i) == Some(Whole(s, Token(i, j)))
  {
    var rest := Tokens(s, b, limit, j + 1);
    assert Tokens(s, b, limit, i) == [Token(i, j)] + rest;
    FirstRejectedCons(s, Token(i, j), rest, codes, all, b);
  }

  /** A position that does not start a token is passed over. */
  lemma ScanSkip(s: string, codes: seq<string>, all: bool, b: Brackets, limit: nat, i: nat)
    requires limit <= |s| && i < |s| && TokenAt(s, b, limit, i).None?
    ensures ScanFrom(s, codes, all, b, limit, i) == ScanFrom(s, codes, all, b, limit, i + 1)
  {
    assert Tokens(s, b, limit, i) == Tokens(s, b, limit, i + 1);
  }

  // ---------------------------------------------------------------------------
  // The loop nest of the source.

  /** Where the source's outer loop effectively resumes: positions below
      `currentPosition` lie inside an accepted token and are skipped. */
  function Resume(i: nat, currentPosition: nat): nat {
    if i >= currentPosition then i else currentPosition
  }

  /** The upper-cased text `s[from..to]`, built character by character. */
  method UpperText(s: string, from: nat, to: nat) returns (res: string)
    requires from <= to <= |s|
    ensures res == ToUpper(s[from..to])
  {
    res := [];
    var l := from;
    while l < to
      invariant from <= l <= to
      invariant res == ToUpper(s[from..l])
    {
      assert s[from..l + 1] == s[from..l] + [s[l]];
      UpperAppend(s[from..l], [s[l]]);
      res := res + [UpperChar(s[l])];
      l := l + 1;
    }
  }

  /** The inner loop of the source: the first closing bracket from `i` on,
      the search stopping one short of the end of the message; `j` is that
      stopping point when there is none. */
  method FindClose(s: string, i: nat, close: char) returns (j: nat)
    requires i < |s|
    ensures i <= j <= AsWrittenLimit(s)
    ensures FirstClose(s, i, AsWrittenLimit(s), close) == if j < AsWrittenLimit(s) then Some(j) else None
  {
    j := i;
    while j < |s| - 1 && s[j] != close
      invariant i <= j <= AsWrittenLimit(s)
      invariant forall k :: i <= k < j ==> s[k] != close
    {
      j := j + 1;
    }
    FirstCloseSpec(s, i, AsWrittenLimit(s), close);
    if j < |s| - 1 {
      FirstCloseIs(s, i, AsWrittenLimit(s), close, j);
    }
  }

  /** What the allow-list loop decides about one token. */
  datatype Verdict = AllTags | Named | Forbidden

  /** The allow-list loop for the token from `i` to its closing bracket `j`:
      with an empty allow-list string every tag is forbidden; otherwise the
      entries are tried in order until one names the token, the upper-cased
      token text being rebuilt for each entry. */
  method ExamineToken(s: string, i: nat, j: nat, codes: seq<string>, checker: bool, b: Brackets) returns (v: Verdict)
    requires i <= j <= |s| && |codes| >= 1
    ensures v == AllTags <==> checker
    ensures v == Named <==> !checker && Allowed(ToUpper(s[i..j]), codes, b)
  {
    var detected := false;
    var k := 0;
    while k < |codes| && !detected
      invariant 0 <= k <= |codes|
      invariant checker ==> k == 0
      invariant detected ==> k > 0
      invariant detected <==> Allowed(ToUpper(s[i..j]), codes[..k], b)
    {
      var res := UpperText(s, i, j);
      if checker {
        return AllTags;
      }
      detected := NamedBy(res, codes[k], b);
      assert codes[..k + 1] == codes[..k] + [codes[k]];
      AllowedSnoc(res, codes[..k], codes[k], b);
      k := k + 1;
    }
    assert codes[..|codes|] == codes;
    v := if detected then Named else Forbidden;
  }

  /** What the body of the outer loop does at an opening bracket: report a
      token, accept it and resume after its closing bracket, or find no closing
      bracket and move on. */
  datatype Step = Report(value: string) | Accept(next: nat) | Unclosed

  /** The body of the outer loop at an opening bracket `i`: the inner loop
      finds the closing bracket and the allow-list loop judges the token. The
      outcome agrees with the search over the remaining tokens. */
  method ExamineAt(s: string, codes: seq<string>, checker: bool, b: Brackets, i: nat) returns (step: Step)
    requires i < |s| && s[i] == b.open && |codes| >= 1
    ensures step.Report? ==> ScanFrom(s, codes, checker, b, AsWrittenLimit(s), i) == Some(step.value)
    ensures step.Accept? ==> (i < step.next <= |s|
      && ScanFrom(s, codes, checker, b, AsWrittenLimit(s), i) == ScanFrom(s, codes, checker, b, AsWrittenLimit(s), step.next))
    ensures step.Unclosed? ==>
      ScanFrom(s, codes, checker, b, AsWrittenLimit(s), i) == ScanFrom(s, codes, checker, b, AsWrittenLimit(s), i + 1)
  {
    var limit := AsWrittenLimit(s);
    var j := FindClose(s, i, b.close);
    if j < |s| - 1 {
      assert TokenAt(s, b, limit, i) == Some(j);
      ScanAtToken(s, codes, checker, b, limit, i, j);
      var verdict := ExamineToken(s, i, j, codes, checker, b);
      if verdict == AllTags {
        return Report(All);
      }
      if verdict == Forbidden {
        return Report(ToUpper(s[i..j + 1]));
      }
      return Accept(j + 1);
    }
    assert TokenAt(s, b, limit, i).None?;
    ScanSkip(s, codes, checker, b, limit, i);
    return Unclosed;
  }

  /** The detector loop shared by `BBCodeForbiddenDetector` and
      `HtmlTagForbiddenDetector`: the outer loop walks the message, the inner
      one looks for the closing bracket, and `ExamineToken` walks the
      allow-list. It reports what the tokenizer and the search report. */
  method DetectForbidden(s: string, list: string, delim: char, b: Brackets) returns (r: Option<string>)
    ensures r == Detect(s, list, delim, b, AsWrittenLimit(s))
  {
    var checker := list == [];
    var codes := Split(list, delim);
    ghost var limit := AsWrittenLimit(s);
    ghost var target := Detect(s, list, delim, b, limit);
    var currentPosition: nat := 0;
    var i: nat := 0;
    while i < |s|
      invariant i <= |s| && currentPosition <= |s|
      invariant target == ScanFrom(s, codes, checker, b, limit, Resume(i, currentPosition))
    {
      if i >= currentPosition && s[i] == b.open {
        var step := ExamineAt(s, codes, checker, b, i);
        match step {
          case Report(value) =>
            return Some(value);
          case Accept(next) =>
            currentPosition := next;
            assert Resume(i + 1, currentPosition) == next;
          case Unclosed =>
        }
      } else if i >= currentPosition {
        ScanSkip(s, codes, checker, b, limit, i);
      }
      i := i + 1;
    }
    assert Resume(i, currentPosition) == |s|;
    assert target == None;
    return None;
  }

  /** `BBCodeForbiddenDetector`: the loop nest over `[`/`]`. */
  method BBCodeForbiddenDetector(s: string, list: string, delim: char) returns (r: Option<string>)
    ensures r == Detect(s, list, delim, BBCodeBrackets, AsWrittenLimit(s))
  {
    r := DetectForbidden(s, list, delim, BBCodeBrackets);
  }

  /** `HtmlTagForbiddenDetector`: the same loop nest over `<`/`>`. */
  method HtmlTagForbiddenDetector(s: string, list: string, delim: char) returns (r: Option<string>)
    ensures r == Detect(s, list, delim, HtmlBrackets, AsWrittenLimit(s))
  {
    r := DetectForbidden(s, list, delim, HtmlBrackets);
  }

  // ---------------------------------------------------------------------------
  // Properties of the tokenizer and the search.

  /** Every examined token is a bracket token. */
  lemma {:induction false} TokensAreTokens(s: string, b: Brackets, limit: nat, pos: nat)
    requires limit <= |s|
    ensures forall n :: 0 <= n < |Tokens(s, b, limit, pos)| ==> IsToken(s, b, limit, Tokens(s, b, limit, pos)[n])
    decreases |s| - pos
  {
    var toks := Tokens(s, b, limit, pos);
    if pos < |s| {
      if TokenAt(s, b, limit, pos).None? {
        TokensAreTokens(s, b, limit, pos + 1);
      } else {
        var j := TokenAt(s, b, limit, pos).value;
        var rest := Tokens(s, b, limit, j + 1);
        TokensAreTokens(s, b, limit, j + 1);
        assert toks == [Token(pos, j)] + rest;
        forall n | 0 <= n < |toks|
          ensures IsToken(s, b, limit, toks[n])
        {
          if n > 0 {
            assert toks[n] == rest[n - 1];
          }
        }
      }
    }
  }

  /** The examined tokens are in order and do not overlap. */
  lemma {:induction false} TokensOrdered(s: string, b: Brackets, limit: nat, pos: nat)
    requires limit <= |s|
    ensures forall n :: 0 <= n < |Tokens(s, b, limit, pos)| - 1 ==>
      Tokens(s, b, limit, pos)[n].close < Tokens(s, b, limit, pos)[n + 1].start
    decreases |s| - pos
  {
    var toks := Tokens(s, b, limit, pos);
    if pos < |s| {
      if TokenAt(s, b, limit, pos).None? {
        TokensOrdered(s, b, limit, pos + 1);
      } else {
        var j := TokenAt(s, b, limit, pos).value;
        var rest := Tokens(s, b, limit, j + 1);
        TokensOrdered(s, b, limit, j + 1);
        assert toks == [Token(pos, j)] + rest;
        forall n | 0 <= n < |toks| - 1
          ensures toks[n].close < toks[n + 1].start
        {
          if n > 0 {
            assert toks[n] == rest[n - 1] && toks[n + 1] == rest[n];
          } else {
            assert toks[1] == rest[0];
          }
        }
      }
    }
  }

  /** The tokenizer skips nothing outside the tokens: every opening bracket at or
      after `pos` that has a closing one after it lies within an examined token. */
  lemma {:induction false} TokensCover(s: string, b: Brackets, limit: nat, pos: nat, p: int)
    requires limit <= |s|
    requires pos <= p < |s| && s[p] == b.open && FirstClose(s, p, limit, b.close).Some?
    ensures exists n ::
              0 <= n < |Tokens(s, b, limit, pos)|
              && Tokens(s, b, limit, pos)[n].start <= p <= Tokens(s, b, limit, pos)[n].close
    decreases |s| - pos
  {
    var toks := Tokens(s, b, limit, pos);
    if TokenAt(s, b, limit, pos).None? {
      assert p != pos;
      TokensCover(s, b, limit, pos + 1, p);
    } else {
      var j := TokenAt(s, b, limit, pos).value;
      var rest := Tokens(s, b, limit, j + 1);
      assert toks == [Token(pos, j)] + rest;
      if p <= j {
        assert toks[0].start <= p <= toks[0].close;
      } else {
        TokensCover(s, b, limit, j + 1, p);
        var m :| 0 <= m < |rest| && rest[m].start <= p <= rest[m].close;
        assert toks[m + 1] == rest[m];
      }
    }
  }

  /** The search for the first rejected token: nothing exactly when every token
      is named, and otherwise the first token that is not. */
  lemma {:induction false} FirstRejectedSpec(s: string, toks: seq<Token>, codes: seq<string>, b: Brackets)
    requires Spans(toks, 0, |s|)
    ensures FirstRejected(s, toks, codes, false, b).None? <==> AllNamed(s, toks, codes, b)
    ensures FirstRejected(s, toks, codes, false, b).Some? ==>
      exists n :: 0 <= n < |toks|
        && FirstRejected(s, toks, codes, false, b) == Some(Whole(s, toks[n]))
        && !Allowed(Inner(s, toks[n]), codes, b)
        && AllNamed(s, toks[..n], codes, b)
  {
    if toks != [] && Allowed(Inner(s, toks[0]), codes, b) {
      var tail := toks[1..];
      FirstRejectedSpec(s, tail, codes, b);
      AllNamedCons(s, toks, codes, b);
      if FirstRejected(s, toks, codes, false, b).Some? {
        var n :| 0 <= n < |tail|
          && FirstRejected(s, tail, codes, false, b) == Some(Whole(s, tail[n]))
          && !Allowed(Inner(s, tail[n]), codes, b)
          && AllNamed(s, tail[..n], codes, b);
        assert toks[n + 1] == tail[n];
        var before := toks[..n + 1];
        PrefixTail(toks, n);
        AllNamedCons(s, before, codes, b);
      }
    } else if toks != [] {
      assert toks[..0] == [];
    }
  }

  lemma PrefixTail<T>(xs: seq<T>, n: nat)
    requires n < |xs|
    ensures xs[..n + 1][0] == xs[0] && xs[..n + 1][1..] == xs[1..][..n]
  {
  }

  /** A list of tokens is named throughout exactly when its first token is and
      the rest are. */
  lemma AllNamedCons(s: string, toks: seq<Token>, codes: seq<string>, b: Brackets)
    requires Spans(toks, 0, |s|) && toks != []
    ensures AllNamed(s, toks, codes, b)
      <==> Allowed(Inner(s, toks[0]), codes, b) && AllNamed(s, toks[1..], codes, b)
  {
    var tail := toks[1..];
    if Allowed(Inner(s, toks[0]), codes, b) && AllNamed(s, tail, codes, b) {
      forall n | 0 <= n < |toks| ensures Allowed(Inner(s, toks[n]), codes, b) {
        if n > 0 {
          assert toks[n] == tail[n - 1];
        }
      }
    }
  }

  /** Which token is reported, with a non-empty allow-list: nothing exactly when
      every examined token is named, and otherwise the first examined token that
      no entry names, every token before it being named. */
  lemma ReportedToken(s: string, codes: seq<string>, b: Brackets, limit: nat)
    requires limit <= |s|
    ensures var toks := Tokens(s, b, limit, 0);
      && (ScanFrom(s, codes, false, b, limit, 0).None? <==> AllNamed(s, toks, codes, b))
      && (ScanFrom(s, codes, false, b, limit, 0).Some? ==>
            exists n :: 0 <= n < |toks|
              && ScanFrom(s, codes, false, b, limit, 0) == Some(Whole(s, toks[n]))
              && !Allowed(Inner(s, toks[n]), codes, b)
              && AllNamed(s, toks[..n], codes, b))
  {
    FirstRejectedSpec(s, Tokens(s, b, limit, 0), codes, b);
  }

  /** A closed bracket token: an opening bracket with a closing one after it. */
  predicate ClosedPair(s: string, b: Brackets, limit: nat, i: int, j: int) {
    0 <= i < j < limit <= |s| && s[i] == b.open && s[j] == b.close
  }

  /** There are tokens exactly when the message holds a closed bracket pair
      below the bound. */
  lemma TokensExist(s: string, b: Brackets, limit: nat)
    requires limit <= |s|
    ensures Tokens(s, b, limit, 0) != [] <==> exists i, j :: ClosedPair(s, b, limit, i, j)
  {
    var toks := Tokens(s, b, limit, 0);
    TokensAreTokens(s, b, limit, 0);
    if toks != [] {
      assert IsToken(s, b, limit, toks[0]);
      assert ClosedPair(s, b, limit, toks[0].start, toks[0].close);
    }
    if exists i, j :: ClosedPair(s, b, limit, i, j) {
      var i, j :| ClosedPair(s, b, limit, i, j);
      FirstCloseFound(s, i, limit, b.close, j);
      TokensCover(s, b, limit, 0, i);
    }
  }

  /** With an empty allow-list the answer is `"ALL"` exactly when the message
      holds a closed bracket token, and nothing otherwise. */
  lemma EmptyListMeansAll(s: string, codes: seq<string>, b: Brackets, limit: nat)
    requires limit <= |s|
    ensures ScanFrom(s, codes, true, b, limit, 0) == None || ScanFrom(s, codes, true, b, limit, 0) == Some(All)
    ensures ScanFrom(s, codes, true, b, limit, 0) == Some(All) <==> exists i, j :: ClosedPair(s, b, limit, i, j)
  {
    TokensExist(s, b, limit);
  }

  /** Without a closed bracket pair below the bound there is nothing to report,
      whatever the allow-list. */
  lemma NoPairNoReport(s: string, list: string, delim: char, b: Brackets, limit: nat)
    requires limit <= |s|
    requires forall i, j :: 0 <= i < j < limit && s[i] == b.open ==> s[j] != b.close
    ensures Detect(s, list, delim, b, limit) == None
  {
    TokensExist(s, b, limit);
  }

  /** The reported text of a token starts with the opening and ends with the
      closing bracket. */
  lemma WholeShape(s: string, b: Brackets, limit: nat, tk: Token)
    requires limit <= |s| && IsToken(s, b, limit, tk)
    ensures tk.start < tk.close < |s|
    ensures var t := Whole(s, tk); |t| >= 2 && t[0] == b.open && t[|t| - 1] == b.close
  {
    UpperAt(s[tk.start..tk.close + 1]);
  }

  /** A reported tag (other than `"ALL"`) is the upper-cased text of a bracket
      token from its opening bracket up to the first closing bracket after it,
      both included. */
  lemma ReportShape(s: string, codes: seq<string>, b: Brackets, limit: nat)
    requires limit <= |s|
    requires ScanFrom(s, codes, false, b, limit, 0).Some?
    ensures var t := ScanFrom(s, codes, false, b, limit, 0).value;
      exists tk :: IsToken(s, b, limit, tk) && tk.close < |s| && t == Whole(s, tk)
        && |t| >= 2 && t[0] == b.open && t[|t| - 1] == b.close
  {
    ReportedToken(s, codes, b, limit);
    TokensAreTokens(s, b, limit, 0);
    var toks := Tokens(s, b, limit, 0);
    var n :| 0 <= n < |toks| && ScanFrom(s, codes, false, b, limit, 0) == Some(Whole(s, toks[n]));
    WholeShape(s, b, limit, toks[n]);
  }

  /** With a non-empty allow-list, the answer is never `"ALL"`: every report
      starts with the opening bracket. */
  lemma NonEmptyListNeverAll(s: string, list: string, delim: char, b: Brackets, limit: nat)
    requires limit <= |s| && list != []
    requires b == BBCodeBrackets || b == HtmlBrackets
    ensures Detect(s, list, delim, b, limit) != Some(All)
  {
    if Detect(s, list, delim, b, limit).Some? {
      ReportShape(s, Split(list, delim), b, limit);
    }
  }

  /** An allow-list entry that is empty after trimming (a trailing or doubled
      delimiter) names every token, because every token text starts with the
      opening bracket: nothing is ever reported. */
  lemma BlankEntryAllowsEverything(s: string, codes: seq<string>, b: Brackets, limit: nat, t: string)
    requires limit <= |s|
    requires t in codes && Trim(ToUpper(t)) == []
    ensures ScanFrom(s, codes, false, b, limit, 0) == None
  {
    var toks := Tokens(s, b, limit, 0);
    TokensAreTokens(s, b, limit, 0);
    forall n | 0 <= n < |toks|
      ensures Allowed(Inner(s, toks[n]), codes, b)
    {
      var res := Inner(s, toks[n]);
      assert res[..1] == [b.open];
      ContainsPrefix(res, [b.open]);
      assert NamedBy(res, t, b);
    }
    ReportedToken(s, codes, b, limit);
  }

  /** Nothing at or past the bound starts a token. */
  lemma {:induction false} TokensPastLimit(s: string, b: Brackets, limit: nat, pos: nat)
    requires limit <= |s| && limit <= pos
    ensures Tokens(s, b, limit, pos) == []
    decreases |s| - pos
  {
    if pos < |s| {
      TokensPastLimit(s, b, limit, pos + 1);
    }
  }

  /** Two sequences with the same first `n` elements agree on every slice below `n`. */
  lemma SamePrefix<T>(a: seq<T>, b: seq<T>, n: nat, i: nat, j: nat)
    requires n <= |a| && n <= |b| && a[..n] == b[..n] && i <= j <= n
    ensures a[i..j] == b[i..j]
    ensures i < n ==> a[i] == b[i]
  {
    forall k | i <= k < j
      ensures a[k] == b[k]
    {
      assert a[k] == a[..n][k] && b[k] == b[..n][k];
    }
    if i < n {
      assert a[i] == a[..n][i] && b[i] == b[..n][i];
    }
  }

  lemma {:induction false} FirstCloseAgrees(s1: string, s2: string, from: nat, limit: nat, close: char)
    requires limit <= |s1| && limit <= |s2| && s1[..limit] == s2[..limit]
    ensures FirstClose(s1, from, limit, close) == FirstClose(s2, from, limit, close)
    decreases limit - from
  {
    if from < limit {
      SamePrefix(s1, s2, limit, from, from);
      FirstCloseAgrees(s1, s2, from + 1, limit, close);
    }
  }

  /** The tokenizer reads nothing at or past its bound. */
  lemma {:induction false} TokensReadBelowLimit(s1: string, s2: string, b: Brackets, limit: nat, pos: nat)
    requires limit <= |s1| && limit <= |s2| && s1[..limit] == s2[..limit]
    ensures Tokens(s1, b, limit, pos) == Tokens(s2, b, limit, pos)
    decreases limit - pos
  {
    if pos >= limit {
      TokensPastLimit(s1, b, limit, pos);
      TokensPastLimit(s2, b, limit, pos);
    } else {
      SamePrefix(s1, s2, limit, pos, pos);
      FirstCloseAgrees(s1, s2, pos, limit, b.close);
      assert TokenAt(s1, b, limit, pos) == TokenAt(s2, b, limit, pos);
      if TokenAt(s1, b, limit, pos).Some? {
        TokensReadBelowLimit(s1, s2, b, limit, TokenAt(s1, b, limit, pos).value + 1);
      } else {
        TokensReadBelowLimit(s1, s2, b, limit, pos + 1);
      }
    }
  }

  /** The search reads only the text of the tokens. */
  lemma {:induction false} FirstRejectedReadsBelowLimit(s1: string, s2: string, toks: seq<Token>, codes: seq<string>, all: bool, b: Brackets, limit: nat)
    requires limit <= |s1| && limit <= |s2| && s1[..limit] == s2[..limit] && Spans(toks, 0, limit)
    ensures FirstRejected(s1, toks, codes, all, b) == FirstRejected(s2, toks, codes, all, b)
  {
    if toks != [] {
      SamePrefix(s1, s2, limit, toks[0].start, toks[0].close);
      SamePrefix(s1, s2, limit, toks[0].start, toks[0].close + 1);
      assert Spans(toks[1..], 0, limit) by {
        forall n | 0 <= n < |toks[1..]| ensures 0 <= toks[1..][n].start < toks[1..][n].close < limit {
          assert toks[1..][n] == toks[n + 1];
        }
      }
      FirstRejectedReadsBelowLimit(s1, s2, toks[1..], codes, all, b, limit);
    }
  }

  /** The scan reads nothing at or past its bound: two messages that agree below
      the bound get the same answer. */
  lemma ScanReadsBelowLimit(s1: string, s2: string, codes: seq<string>, all: bool, b: Brackets, limit: nat)
    requires limit <= |s1| && limit <= |s2| && s1[..limit] == s2[..limit]
    ensures ScanFrom(s1, codes, all, b, limit, 0) == ScanFrom(s2, codes, all, b, limit, 0)
  {
    TokensReadBelowLimit(s1, s2, b, limit, 0);
    FirstRejectedReadsBelowLimit(s1, s2, Tokens(s1, b, limit, 0), codes, all, b, limit);
  }

  /** With the source's bound the last character of a message never changes
      what is reported, whatever it is. */
  lemma LastCharacterIgnored(s: string, x: char, y: char, list: string, delim: char, b: Brackets)
    ensures Detect(s + [x], list, delim, b, AsWrittenLimit(s + [x])) == Detect(s + [y], list, delim, b, AsWrittenLimit(s + [y]))
  {
    assert (s + [x])[..|s|] == s == (s + [y])[..|s|];
    ScanReadsBelowLimit(s + [x], s + [y], Split(list, delim), list == [], b, |s|);
  }

  // ---------------------------------------------------------------------------
  // The off-by-one: a token closed by the last character is not seen.

  /** As written, `"[img]"` with only `b` allowed passes: its closing bracket is
      the last character. */
  lemma AsWrittenMissesFinalTag()
    ensures Detect("[img]", "b", ',', BBCodeBrackets, AsWrittenLimit("[img]")) == None
    ensures Detect("<img>", "b", ',', HtmlBrackets, AsWrittenLimit("<img>")) == None
  {
    var s, h := "[img]", "<img>";
    assert forall j :: 0 <= j < 4 ==> s[j] != ']' && h[j] != '>';
    NoPairNoReport(s, "b", ',', BBCodeBrackets, 4);
    NoPairNoReport(h, "b", ',', HtmlBrackets, 4);
  }

  /** The corrected detector: the closing bracket is looked for up to the end. */
  function DetectIntended(s: string, list: string, delim: char, b: Brackets): Option<string> {
    Detect(s, list, delim, b, |s|)
  }

  /** With the intended bound the same tag is reported. */
  lemma IntendedReportsFinalTag()
    ensures DetectIntended("[img]", "b", ',', BBCodeBrackets) == Some("[IMG]")
    ensures DetectIntended("<img>", "b", ',', HtmlBrackets) == Some("<IMG>")
  {
    assert Split("b", ',') == ["b"] by {
      var rest := Split("b"[1..], ',');
      assert "b"[1..] == [] && rest == [[]];
      assert Split("b", ',') == [['b'] + rest[0]] + rest[1..];
      assert ['b'] + rest[0] == "b" && rest[1..] == [];
    }
    var s := "[img]";
    assert FirstClose(s, 0, 5, ']') == Some(4);
    UpperAt(s[0..4]);
    assert ToUpper(s[0..4]) == "[IMG";
    NotNamed("[IMG", "b", BBCodeBrackets);
    UpperAt(s[0..5]);
    assert ToUpper(s[0..5]) == "[IMG]";
    var h := "<img>";
    assert FirstClose(h, 0, 5, '>') == Some(4);
    UpperAt(h[0..4]);
    assert ToUpper(h[0..4]) == "<IMG";
    NotNamed("<IMG", "b", HtmlBrackets);
    UpperAt(h[0..5]);
    assert ToUpper(h[0..5]) == "<IMG>";
  }

  lemma NotNamed(res: string, t: string, b: Brackets)
    requires res == [b.open] + "IMG" && t == "b"
    ensures !Allowed(res, ["b"], b)
  {
    assert Trim(ToUpper(t)) == "B" by {
      assert ToUpper(t) == "B";
      assert TrimStart("B") == "B" && TrimEnd("B") == "B";
    }
    ContainsOccurs(res, [b.open] + "B");
    ContainsOccurs(res, [b.open, '/'] + "B");
    assert res[1] == 'I' && res[2] == 'M' && res[3] == 'G';
    forall k | 0 <= k <= |res|
      ensures !OccursAt([b.open] + "B", res, k) && !OccursAt([b.open, '/'] + "B", res, k)
    {
      if k + 2 <= |res| {
        assert res[k..k + 2][1] == res[k + 1] != 'B';
      }
      if k + 3 <= |res| {
        assert res[k..k + 3][2] == res[k + 2] != 'B';
      }
    }
  }

  /** The corrected detector examines every bracket pair: each opening bracket
      closed anywhere after it, up to the very last character, lies within an
      examined token; and with a non-empty allow-list nothing is reported
      exactly when every examined token is named. */
  lemma IntendedSeesEveryToken(s: string, list: string, delim: char, b: Brackets)
    ensures forall p, q :: ClosedPair(s, b, |s|, p, q) ==>
      exists n :: 0 <= n < |Tokens(s, b, |s|, 0)|
        && Tokens(s, b, |s|, 0)[n].start <= p <= Tokens(s, b, |s|, 0)[n].close
    ensures list != [] ==>
      (DetectIntended(s, list, delim, b) == None <==> AllNamed(s, Tokens(s, b, |s|, 0), Split(list, delim), b))
  {
    forall p, q | ClosedPair(s, b, |s|, p, q)
      ensures exists n ::
                0 <= n < |Tokens(s, b, |s|, 0)|
                && Tokens(s, b, |s|, 0)[n].start <= p <= Tokens(s, b, |s|, 0)[n].close
    {
      FirstCloseFound(s, p, |s|, b.close, q);
      TokensCover(s, b, |s|, 0, p);
    }
    ReportedToken(s, Split(list, delim), b, |s|);
  }

  // ---------------------------------------------------------------------------
  // CheckHtmlTags.

  /** The message `CheckHtmlTags` returns, named by its localization key. */
  datatype TagCheck = Clean | WrongTag(tag: string) | AllForbidden

  /** How a detector answer becomes the poster's message: a named tag gives the
      `HTMLTAG_WRONG` text, `"ALL"` the `HTMLTAG_FORBIDDEN` text, and no answer
      (or an empty one) the empty string. */
  function CheckOutcome(detected: Option<string>): (r: TagCheck)
    ensures r == Clean <==> detected == None || detected == Some([])
    ensures r == AllForbidden <==> detected == Some(All)
    ensures r.WrongTag? ==> detected == Some(r.tag)
  {
    if detected.Some? && detected.value != [] && detected.value != All then WrongTag(detected.value)
    else if detected == Some(All) then AllForbidden
    else Clean
  }

  /** `CheckHtmlTags`: the answer of `HtmlTagForbiddenDetector`, whose inner
      loop stops one character short of the end. */
  function CheckHtmlTags(s: string, acceptedTags: string, delim: char): TagCheck {
    CheckOutcome(Detect(s, acceptedTags, delim, HtmlBrackets, AsWrittenLimit(s)))
  }

  /** `CheckHtmlTags` on the corrected detector, which looks up to the end. */
  function CheckHtmlTagsIntended(s: string, acceptedTags: string, delim: char): TagCheck {
    CheckOutcome(DetectIntended(s, acceptedTags, delim, HtmlBrackets))
  }

  /** As written, a message is clean exactly when its accepted-tag list names
      every `<...>` token closed before the last character (with an empty list,
      exactly when it holds such a pair); a wrong tag is always a whole `<...>`
      token of the message, and with an empty list the answer is never a wrong
      tag. */
  lemma CheckHtmlTagsClean(s: string, acceptedTags: string, delim: char)
    ensures var limit := AsWrittenLimit(s);
      && (acceptedTags != [] ==>
           (CheckHtmlTags(s, acceptedTags, delim) == Clean <==>
             AllNamed(s, Tokens(s, HtmlBrackets, limit, 0), Split(acceptedTags, delim), HtmlBrackets)))
      && (acceptedTags == [] ==>
           (CheckHtmlTags(s, acceptedTags, delim) == Clean <==> !exists i, j :: ClosedPair(s, HtmlBrackets, limit, i, j)))
      && (acceptedTags == [] ==> !CheckHtmlTags(s, acceptedTags, delim).WrongTag?)
      && (CheckHtmlTags(s, acceptedTags, delim).WrongTag? ==>
           exists tk :: IsToken(s, HtmlBrackets, limit, tk) && tk.close < |s|
             && CheckHtmlTags(s, acceptedTags, delim).tag == Whole(s, tk))
  {
    CheckOutcomeBelow(s, acceptedTags, delim, AsWrittenLimit(s));
  }

  /** The same for the corrected detector, with every `<...>` token up to the
      end of the message. */
  lemma CheckHtmlTagsIntendedClean(s: string, acceptedTags: string, delim: char)
    ensures acceptedTags != [] ==>
      (CheckHtmlTagsIntended(s, acceptedTags, delim) == Clean <==>
        AllNamed(s, Tokens(s, HtmlBrackets, |s|, 0), Split(acceptedTags, delim), HtmlBrackets))
    ensures acceptedTags == [] ==>
      (CheckHtmlTagsIntended(s, acceptedTags, delim) == Clean <==> !exists i, j :: ClosedPair(s, HtmlBrackets, |s|, i, j))
    ensures acceptedTags == [] ==> !CheckHtmlTagsIntended(s, acceptedTags, delim).WrongTag?
    ensures CheckHtmlTagsIntended(s, acceptedTags, delim).WrongTag? ==>
      exists tk :: IsToken(s, HtmlBrackets, |s|, tk) && tk.close < |s|
        && CheckHtmlTagsIntended(s, acceptedTags, delim).tag == Whole(s, tk)
  {
    CheckOutcomeBelow(s, acceptedTags, delim, |s|);
  }

  /** The poster's message for a detector with any bound. */
  lemma CheckOutcomeBelow(s: string, acceptedTags: string, delim: char, limit: nat)
    requires limit <= |s|
    ensures var r := CheckOutcome(Detect(s, acceptedTags, delim, HtmlBrackets, limit));
      && (acceptedTags != [] ==>
           (r == Clean <==> AllNamed(s, Tokens(s, HtmlBrackets, limit, 0), Split(acceptedTags, delim), HtmlBrackets)))
      && (acceptedTags == [] ==> (r == Clean <==> !exists i, j :: ClosedPair(s, HtmlBrackets, limit, i, j)))
      && (acceptedTags == [] ==> !r.WrongTag?)
      && (r.WrongTag? ==> exists tk :: IsToken(s, HtmlBrackets, limit, tk) && tk.close < |s| && r.tag == Whole(s, tk))
  {
    var codes := Split(acceptedTags, delim);
    if acceptedTags == [] {
      EmptyListMeansAll(s, codes, HtmlBrackets, limit);
    } else {
      ReportedToken(s, codes, HtmlBrackets, limit);
      if Detect(s, acceptedTags, delim, HtmlBrackets, limit).Some? {
        ReportShape(s, codes, HtmlBrackets, limit);
      }
    }
  }

  /** As written, `<img>` passes a list that allows only `b`; the corrected
      check reports it. */
  lemma CheckHtmlTagsMissesFinalTag()
    ensures CheckHtmlTags("<img>", "b", ',') == Clean
    ensures CheckHtmlTagsIntended("<img>", "b", ',') == WrongTag("<IMG>")
  {
    AsWrittenMissesFinalTag();
    IntendedReportsFinalTag();
  }
}
