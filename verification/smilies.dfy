/**
 The smiley rules of the message formatter (`AddSmiles`): each smiley code is
 HTML-escaped with four `String.Replace` calls, ampersand first, and becomes two
 replace rules, one for its lower-case and one for its upper-case form, both
 ranked `100 + k` above the rule class's default rank for the `k`-th smiley.
 The smiley's image link and the HTML encoding of its emoticon name are
 framework calls and come in as parameters.
 */
module Smilies {
  import opened Text

  /** `String.Replace(string, string)` for a one-character pattern: every
      occurrence of `c`, left to right, becomes `rep`. */
  function ReplaceChar(s: string, c: char, rep: string): (r: string)
  {
    if s == [] then []
    else (if s[0] == c then rep else [s[0]]) + ReplaceChar(s[1..], c, rep)
  }

  lemma {:induction false} ReplaceCharAppend(a: string, b: string, c: char, rep: string)
    ensures ReplaceChar(a + b, c, rep) == ReplaceChar(a, c, rep) + ReplaceChar(b, c, rep)
  {
    if a != [] {
      ReplaceCharAppend(a[1..], b, c, rep);
      assert (a + b)[1..] == a[1..] + b;
    } else {
      assert a + b == b;
    }
  }

  /** A string without `c` is left as it is. */
  lemma {:induction false} ReplaceCharAbsent(s: string, c: char, rep: string)
    requires forall i :: 0 <= i < |s| ==> s[i] != c
    ensures ReplaceChar(s, c, rep) == s
  {
    if s != [] {
      ReplaceCharAbsent(s[1..], c, rep);
      assert s == [s[0]] + s[1..];
    }
  }

  /** A character the replacement does not introduce is gone afterwards, and
      every other character the input lacks stays absent. */
  lemma {:induction false} ReplaceCharRemoves(s: string, c: char, rep: string, x: char)
    requires forall i :: 0 <= i < |rep| ==> rep[i] != x
    requires x != c ==> forall i :: 0 <= i < |s| ==> s[i] != x
    ensures forall i :: 0 <= i < |ReplaceChar(s, c, rep)| ==> ReplaceChar(s, c, rep)[i] != x
  {
    if s != [] {
      ReplaceCharRemoves(s[1..], c, rep, x);
      var head := if s[0] == c then rep else [s[0]];
      assert ReplaceChar(s, c, rep) == head + ReplaceChar(s[1..], c, rep);
    }
  }

  /** The four replacements of `AddSmiles`, in the source's order. */
  function EscapeCode(code: string): string {
    var a := ReplaceChar(code, '&', "&amp;");
    var b := ReplaceChar(a, '>', "&gt;");
    var c := ReplaceChar(b, '<', "&lt;");
    ReplaceChar(c, '"', "&quot;")
  }

  /** The reference: each character escaped on its own. */
  function EscapeChar(x: char): (r: string)
    ensures |r| >= 1
  {
    if x == '&' then "&amp;"
    else if x == '>' then "&gt;"
    else if x == '<' then "&lt;"
    else if x == '"' then "&quot;"
    else [x]
  }

  function EscapeEach(s: string): string {
    if s == [] then [] else EscapeChar(s[0]) + EscapeEach(s[1..])
  }

  lemma EscapeCodeAppend(a: string, b: string)
    ensures EscapeCode(a + b) == EscapeCode(a) + EscapeCode(b)
  {
    ReplaceCharAppend(a, b, '&', "&amp;");
    var a1 := ReplaceChar(a, '&', "&amp;");
    var b1 := ReplaceChar(b, '&', "&amp;");
    ReplaceCharAppend(a1, b1, '>', "&gt;");
    var a2 := ReplaceChar(a1, '>', "&gt;");
    var b2 := ReplaceChar(b1, '>', "&gt;");
    ReplaceCharAppend(a2, b2, '<', "&lt;");
    var a3 := ReplaceChar(a2, '<', "&lt;");
    var b3 := ReplaceChar(b2, '<', "&lt;");
    ReplaceCharAppend(a3, b3, '"', "&quot;");
  }

  lemma ReplaceCharOne(x: char, c: char, rep: string)
    ensures ReplaceChar([x], c, rep) == if x == c then rep else [x]
  {
    assert [x][1..] == [];
    assert ReplaceChar([], c, rep) == [];
  }

  lemma EscapeCodeOne(x: char)
    ensures EscapeCode([x]) == EscapeChar(x)
  {
    ReplaceCharOne(x, '&', "&amp;");
    var a := ReplaceChar([x], '&', "&amp;");
    var b := ReplaceChar(a, '>', "&gt;");
    if x == '>' {
      ReplaceCharOne(x, '>', "&gt;");
    } else {
      ReplaceCharAbsent(a, '>', "&gt;");
    }
    var c := ReplaceChar(b, '<', "&lt;");
    if x == '<' {
      ReplaceCharOne(x, '<', "&lt;");
    } else {
      ReplaceCharAbsent(b, '<', "&lt;");
    }
    if x == '"' {
      ReplaceCharOne(x, '"', "&quot;");
    } else {
      ReplaceCharAbsent(c, '"', "&quot;");
    }
  }

  /** Because the ampersand goes first, the four replacements in sequence escape
      every character exactly once: the entities the later steps write are not
      escaped again. */
  lemma {:induction false} EscapeCodeIsEach(s: string)
    ensures EscapeCode(s) == EscapeEach(s)
  {
    if s != [] {
      EscapeCodeIsEach(s[1..]);
      assert s == [s[0]] + s[1..];
      EscapeCodeAppend([s[0]], s[1..]);
      EscapeCodeOne(s[0]);
    }
  }

  /** With the ampersand replaced last instead, the entity of `>` would itself
      be escaped a second time. */
  lemma AmpersandFirstMatters()
    ensures EscapeCode(">") == "&gt;"
    ensures ReplaceChar(ReplaceChar(">", '>', "&gt;"), '&', "&amp;") == "&amp;gt;"
  {
    EscapeCodeOne('>');
    AmpersandLast();
  }

  lemma AmpersandLast()
    ensures ReplaceChar(ReplaceChar(">", '>', "&gt;"), '&', "&amp;") == "&amp;gt;"
  {
    var g := ReplaceChar(">", '>', "&gt;");
    assert g == "&gt;" by {
      ReplaceCharOne('>', '>', "&gt;");
    }
    assert g == "&" + "gt;";
    ReplaceCharAppend("&", "gt;", '&', "&amp;");
    ReplaceCharOne('&', '&', "&amp;");
    ReplaceCharAbsent("gt;", '&', "&amp;");
  }

  /** Reads the four entities back. */
  function Unescape(s: string): string
    decreases |s|
  {
    if s == [] then []
    else if |s| >= 5 && s[..5] == "&amp;" then "&" + Unescape(s[5..])
    else if |s| >= 4 && s[..4] == "&gt;" then ">" + Unescape(s[4..])
    else if |s| >= 4 && s[..4] == "&lt;" then "<" + Unescape(s[4..])
    else if |s| >= 6 && s[..6] == "&quot;" then "\"" + Unescape(s[6..])
    else [s[0]] + Unescape(s[1..])
  }

  lemma UnescapeStep(x: char, rest: string)
    ensures Unescape(EscapeChar(x) + rest) == [x] + Unescape(rest)
  {
    if x == '&' {
      UnescapeAmp(rest);
    } else if x == '>' {
      UnescapeGt(rest);
    } else if x == '<' {
      UnescapeLt(rest);
    } else if x == '"' {
      UnescapeQuot(rest);
    } else {
      UnescapePlain(x, rest);
    }
  }

  lemma UnescapeAmp(rest: string)
    ensures Unescape("&amp;" + rest) == "&" + Unescape(rest)
  {
    var t := "&amp;" + rest;
    assert t[..5] == "&amp;" && t[5..] == rest;
  }

  lemma UnescapePlain(x: char, rest: string)
    requires x != '&'
    ensures Unescape([x] + rest) == [x] + Unescape(rest)
  {
    var t := [x] + rest;
    assert t[0] == x && t[1..] == rest;
    assert !(|t| >= 4 && t[..4][0] == '&');
  }

  lemma UnescapeGt(rest: string)
    ensures Unescape("&gt;" + rest) == ">" + Unescape(rest)
  {
    var t := "&gt;" + rest;
    assert t[1] == 'g';
    assert !(|t| >= 5 && t[..5] == "&amp;") by {
      if |t| >= 5 { assert t[..5][1] != "&amp;"[1]; }
    }
    assert t[..4] == "&gt;" && t[4..] == rest;
  }

  lemma UnescapeLt(rest: string)
    ensures Unescape("&lt;" + rest) == "<" + Unescape(rest)
  {
    var t := "&lt;" + rest;
    assert t[1] == 'l';
    assert !(|t| >= 5 && t[..5] == "&amp;") by {
      if |t| >= 5 { assert t[..5][1] != "&amp;"[1]; }
    }
    assert t[..4] != "&gt;" by { assert t[..4][1] != "&gt;"[1]; }
    assert t[..4] == "&lt;" && t[4..] == rest;
  }

  lemma UnescapeQuot(rest: string)
    ensures Unescape("&quot;" + rest) == "\"" + Unescape(rest)
  {
    var t := "&quot;" + rest;
    assert t[1] == 'q';
    assert t[..5] != "&amp;" by { assert t[..5][1] != "&amp;"[1]; }
    assert t[..4] != "&gt;" by { assert t[..4][1] != "&gt;"[1]; }
    assert t[..4] != "&lt;" by { assert t[..4][1] != "&lt;"[1]; }
    assert t[..6] == "&quot;" && t[6..] == rest;
  }

  /** Escaping loses nothing: the code can be read back from its escaped form. */
  lemma {:induction false} EscapeRoundTrip(code: string)
    ensures Unescape(EscapeCode(code)) == code
  {
    EscapeEachRoundTrip(code);
    EscapeCodeIsEach(code);
  }

  lemma {:induction false} EscapeEachRoundTrip(s: string)
    ensures Unescape(EscapeEach(s)) == s
  {
    if s != [] {
      EscapeEachRoundTrip(s[1..]);
      UnescapeStep(s[0], EscapeEach(s[1..]));
    }
  }

  /** An escaped code holds no `<`, `>` or `"`. */
  lemma EscapedIsSafe(code: string)
    ensures forall i :: 0 <= i < |EscapeCode(code)| ==>
      EscapeCode(code)[i] != '<' && EscapeCode(code)[i] != '>' && EscapeCode(code)[i] != '"'
  {
    var a := ReplaceChar(code, '&', "&amp;");
    var b := ReplaceChar(a, '>', "&gt;");
    var c := ReplaceChar(b, '<', "&lt;");
    ReplaceCharRemoves(a, '>', "&gt;", '>');
    ReplaceCharRemoves(b, '<', "&lt;", '>');
    ReplaceCharRemoves(c, '"', "&quot;", '>');
    ReplaceCharRemoves(b, '<', "&lt;", '<');
    ReplaceCharRemoves(c, '"', "&quot;", '<');
    ReplaceCharRemoves(c, '"', "&quot;", '"');
  }

  // ---------------------------------------------------------------------------
  // The rules.

  /** A smiley as the database returns it. */
  datatype Smiley = Smiley(code: string, icon: string, emoticon: string)

  /** A `SimpleReplaceRule`: what it finds, what it puts in its place, its rank. */
  datatype ReplaceRule = ReplaceRule(find: string, replacement: string, rank: int)

  /** The image tag both rules of a smiley produce; `link` stands for the smiley
      image URL and `encode` for the server's HTML encoding. */
  function SmileyImage(s: Smiley, link: string -> string, encode: string -> string): string {
    "<img src=\"" + link(s.icon) + "\" alt=\"" + encode(s.emoticon) + "\" />"
  }

  /** One rule of a smiley: its escaped code in lower or upper case, replaced
      by its image, at rank `rank`. */
  function SmileyRule(s: Smiley, upper: bool, rank: int, link: string -> string, encode: string -> string): ReplaceRule {
    var code := EscapeCode(s.code);
    ReplaceRule(if upper then ToUpper(code) else ToLower(code), SmileyImage(s, link, encode), rank)
  }

  /** The rules for the smileys from the one with offset `offset` on; the
      default rank of a replace rule is `base`. */
  function SmileyRules(smiles: seq<Smiley>, base: int, offset: nat, link: string -> string, encode: string -> string): (r: seq<ReplaceRule>)
    ensures |r| == 2 * |smiles|
  {
    if smiles == [] then []
    else
      [SmileyRule(smiles[0], false, base + 100 + offset, link, encode),
       SmileyRule(smiles[0], true, base + 100 + offset, link, encode)]
      + SmileyRules(smiles[1..], base, offset + 1, link, encode)
  }

  /** `AddSmiles`: the smiley rules go after the rules already collected. */
  function AddSmiles(rules: seq<ReplaceRule>, smiles: seq<Smiley>, base: int, link: string -> string, encode: string -> string): (r: seq<ReplaceRule>)
    ensures |r| == |rules| + 2 * |smiles|
    ensures r[..|rules|] == rules
  {
    rules + SmileyRules(smiles, base, 0, link, encode)
  }

  /** The `k`-th smiley gives the rules `2k` (lower case) and `2k + 1` (upper
      case) after `offset`, both for its escaped code and ranked
      `base + 100 + offset + k`. */
  lemma {:induction false} SmileyRuleAt(smiles: seq<Smiley>, base: int, offset: nat, link: string -> string, encode: string -> string, k: nat)
    requires k < |smiles|
    ensures var r := SmileyRules(smiles, base, offset, link, encode);
      r[2 * k] == SmileyRule(smiles[k], false, base + 100 + offset + k, link, encode)
      && r[2 * k + 1] == SmileyRule(smiles[k], true, base + 100 + offset + k, link, encode)
  {
    var r := SmileyRules(smiles, base, offset, link, encode);
    var rest := SmileyRules(smiles[1..], base, offset + 1, link, encode);
    var lower := SmileyRule(smiles[0], false, base + 100 + offset, link, encode);
    var upper := SmileyRule(smiles[0], true, base + 100 + offset, link, encode);
    assert r == [lower, upper] + rest;
    if k > 0 {
      var x := SmileyRule(smiles[k], false, base + 100 + offset + k, link, encode);
      var y := SmileyRule(smiles[k], true, base + 100 + offset + k, link, encode);
      assert rest[2 * (k - 1)] == x && rest[2 * (k - 1) + 1] == y by {
        SmileyRuleAt(smiles[1..], base, offset + 1, link, encode, k - 1);
        var m, n := smiles[1..][k - 1], base + 100 + (offset + 1) + (k - 1);
        SameRule(m, smiles[k], false, n, base + 100 + offset + k, link, encode);
        SameRule(m, smiles[k], true, n, base + 100 + offset + k, link, encode);
      }
      PairStep(r, lower, upper, rest, k, x, y);
    }
  }

  lemma SameRule(a: Smiley, b: Smiley, upper: bool, m: int, n: int, link: string -> string, encode: string -> string)
    requires a == b && m == n
    ensures SmileyRule(a, upper, m, link, encode) == SmileyRule(b, upper, n, link, encode)
  {
  }

  lemma PairStep<T>(r: seq<T>, a: T, b: T, rest: seq<T>, k: nat, x: T, y: T)
    requires r == [a, b] + rest && 1 <= k && 2 * k + 1 < |r|
    requires rest[2 * (k - 1)] == x && rest[2 * (k - 1) + 1] == y
    ensures r[2 * k] == x && r[2 * k + 1] == y
  {
  }

  /** Hence ranks never decrease along the list; the two rules of one smiley
      share a rank and a later smiley always ranks higher. */
  lemma SmileyRanksIncrease(smiles: seq<Smiley>, base: int, link: string -> string, encode: string -> string, i: nat, j: nat)
    requires i < j < 2 * |smiles|
    ensures var r := SmileyRules(smiles, base, 0, link, encode);
      (i / 2 == j / 2 ==> r[i].rank == r[j].rank)
      && (i / 2 < j / 2 ==> r[i].rank < r[j].rank)
  {
    var r := SmileyRules(smiles, base, 0, link, encode);
    assert r[i].rank == base + 100 + i / 2 by {
      SmileyRankAt(smiles, base, link, encode, i);
    }
    assert r[j].rank == base + 100 + j / 2 by {
      SmileyRankAt(smiles, base, link, encode, j);
    }
  }

  /** Rule `n` belongs to smiley `n / 2` and carries its rank. */
  lemma SmileyRankAt(smiles: seq<Smiley>, base: int, link: string -> string, encode: string -> string, n: nat)
    requires n < 2 * |smiles|
    ensures SmileyRules(smiles, base, 0, link, encode)[n].rank == base + 100 + n / 2
  {
    var k := n / 2;
    SmileyRuleAt(smiles, base, 0, link, encode, k);
    assert n == 2 * k || n == 2 * k + 1;
  }
}
