/**
 The keyword list of a topic's first post (`GetCleanedTopicMessage`): the
 already stripped message loses its punctuation, is trimmed and lower-cased;
 when more than five UTF-16 code units remain it is cut into words at spaces,
 and the words that are not common, not shorter than five code units and do
 not start with a number character are kept once each, sorted, and cut to
 fifty.

 String order is ordinal: `a` comes before `b` when at the first difference its
 character is smaller, or when it is a proper prefix of `b`.
 */
module Keywords {
  import opened Text

  /** The most keywords a message gets. */
  const MaxKeywords: nat := 50

  /** The shortest word kept. */
  const MinWordLength: nat := 5

  /** `Char.IsPunctuation` on the Basic Latin and Latin-1 blocks: the connector,
      dash, open, close, initial, final and other punctuation categories. */
  predicate IsPunctuation(c: char) {
    c == '!' || c == '"' || c == '#' || c == '%' || c == '&' || c == '\'' || c == '(' || c == ')'
    || c == '*' || c == ',' || c == '-' || c == '.' || c == '/' || c == ':' || c == ';'
    || c == '?' || c == '@' || c == '[' || c == '\\' || c == ']' || c == '_' || c == '{' || c == '}'
    || c == '\U{00A1}' || c == '\U{00A7}' || c == '\U{00AB}' || c == '\U{00B6}' || c == '\U{00B7}'
    || c == '\U{00BB}' || c == '\U{00BF}'
  }

  /** The characters `Where(c => !char.IsPunctuation(c) || char.IsWhiteSpace(c))` keeps. */
  function DropPunctuation(s: string): (r: string)
    ensures forall i :: 0 <= i < |r| ==> !IsPunctuation(r[i]) || IsWhiteSpace(r[i])
  {
    if s == [] then []
    else (if !IsPunctuation(s[0]) || IsWhiteSpace(s[0]) then [s[0]] else []) + DropPunctuation(s[1..])
  }

  /** The text the keywords are taken from. */
  function Cleaned(message: string): string {
    ToLower(Trim(DropPunctuation(message)))
  }

  /** `Char.IsNumber` on the Basic Latin and Latin-1 blocks: the decimal
      digits, the superscripts `¹`, `²`, `³` and the fractions `¼`, `½`, `¾`. */
  predicate IsNumber(c: char) {
    IsDigit(c)
    || c == '\U{00B2}' || c == '\U{00B3}' || c == '\U{00B9}'
    || c == '\U{00BC}' || c == '\U{00BD}' || c == '\U{00BE}'
  }

  /** A word that becomes a keyword: not empty, not short (in UTF-16 code
      units, as `GetNewNoSmallStrings` measures), not starting with a number
      character, and not one of the common words. */
  predicate Qualifies(w: string, common: seq<string>) {
    Utf16Length(w) >= MinWordLength && !IsNumber(w[0]) && w !in common
  }

  /** `StringToList(' ', commonWords)` followed by the three filters. */
  function Candidates(words: seq<string>, common: seq<string>): (r: seq<string>)
    ensures forall w :: w in r <==> w in words && Qualifies(w, common)
  {
    if words == [] then []
    else (if Qualifies(words[0], common) then [words[0]] else []) + Candidates(words[1..], common)
  }

  /** `Distinct()`: the first occurrence of each word, in order. */
  function Distinct(s: seq<string>): (r: seq<string>)
    ensures forall w :: w in r <==> w in s
    ensures forall i, j :: 0 <= i < j < |r| ==> r[i] != r[j]
  {
    if s == [] then []
    else
      var front := Distinct(s[..|s| - 1]);
      assert forall w :: w in s <==> w in s[..|s| - 1] || w == s[|s| - 1];
      if s[|s| - 1] in front then front else front + [s[|s| - 1]]
  }

  // ---------------------------------------------------------------------------
  // Ordinal string order.

  predicate Less(a: string, b: string) {
    if a == [] then b != []
    else b != [] && (a[0] < b[0] || (a[0] == b[0] && Less(a[1..], b[1..])))
  }

  lemma {:induction false} LessIrreflexive(a: string)
    ensures !Less(a, a)
  {
    if a != [] {
      LessIrreflexive(a[1..]);
    }
  }

  lemma {:induction false} LessTotal(a: string, b: string)
    requires a != b
    ensures Less(a, b) || Less(b, a)
  {
    if a != [] && b != [] && a[0] == b[0] {
      assert a[1..] != b[1..] by {
        assert a == [a[0]] + a[1..] && b == [b[0]] + b[1..];
      }
      LessTotal(a[1..], b[1..]);
    }
  }

  lemma {:induction false} LessTransitive(a: string, b: string, c: string)
    requires Less(a, b) && Less(b, c)
    ensures Less(a, c)
  {
    if a != [] && a[0] == b[0] && b[0] == c[0] {
      LessTransitive(a[1..], b[1..], c[1..]);
    }
  }

  lemma LessAsymmetric(a: string, b: string)
    requires Less(a, b)
    ensures !Less(b, a)
  {
    if Less(b, a) {
      LessTransitive(a, b, a);
      LessIrreflexive(a);
    }
  }

  /** Strictly increasing: sorted, and no word twice. */
  predicate Increasing(s: seq<string>) {
    forall i, j :: 0 <= i < j < |s| ==> Less(s[i], s[j])
  }

  /** One step of `List.Sort()` on a list without repeats, as an insertion. */
  function Insert(x: string, s: seq<string>): (r: seq<string>)
    requires Increasing(s) && x !in s
    ensures |r| == |s| + 1
    ensures forall w :: w in r <==> w == x || w in s
    ensures Increasing(r)
  {
    if s == [] then [x]
    else if Less(x, s[0]) then
      forall j | 0 < j < |s| ensures Less(x, s[j]) {
        LessTransitive(x, s[0], s[j]);
      }
      [x] + s
    else
      LessTotal(x, s[0]);
      assert Increasing(s[1..]) by {
        forall i, j | 0 <= i < j < |s[1..]| ensures Less(s[1..][i], s[1..][j]) {
          assert s[1..][i] == s[i + 1] && s[1..][j] == s[j + 1];
        }
      }
      var rest := Insert(x, s[1..]);
      forall k | 0 <= k < |rest| ensures Less(s[0], rest[k]) {
        assert rest[k] in rest;
        if rest[k] != x {
          var j :| 0 <= j < |s[1..]| && s[1..][j] == rest[k];
          assert s[j + 1] == rest[k];
        }
      }
      [s[0]] + rest
  }

  /** `List.Sort()` of a list without repeats. */
  function Sort(s: seq<string>): (r: seq<string>)
    requires forall i, j :: 0 <= i < j < |s| ==> s[i] != s[j]
    ensures |r| == |s|
    ensures forall w :: w in r <==> w in s
    ensures Increasing(r)
  {
    if s == [] then []
    else
      assert forall i, j :: 0 <= i < j < |s[1..]| ==> s[1..][i] != s[1..][j] by {
        forall i, j | 0 <= i < j < |s[1..]| ensures s[1..][i] != s[1..][j] {
          assert s[1..][i] == s[i + 1] && s[1..][j] == s[j + 1];
        }
      }
      var rest := Sort(s[1..]);
      assert s[0] !in s[1..] by {
        forall j | 0 <= j < |s[1..]| ensures s[1..][j] != s[0] {
          assert s[1..][j] == s[j + 1];
        }
      }
      Insert(s[0], rest)
  }

  /** The keyword list of a cleaned first post; `common` is the localized list
      of common words. */
  function KeywordList(message: string, common: seq<string>): (r: seq<string>)
    ensures |r| <= MaxKeywords
  {
    var cleaned := Cleaned(message);
    if Utf16Length(cleaned) > 5 then
      var sorted := Sort(Distinct(Candidates(Split(cleaned, ' '), common)));
      if |sorted| > MaxKeywords then sorted[..MaxKeywords] else sorted
    else []
  }

  /** The qualifying words of the cleaned text, sorted, once each. */
  function AllKeywords(message: string, common: seq<string>): seq<string> {
    Sort(Distinct(Candidates(Split(Cleaned(message), ' '), common)))
  }

  /** A message only has keywords when its cleaned text is longer than five
      UTF-16 code units; every keyword is a word of that text that qualifies, and the
      list is sorted without repeats. */
  lemma KeywordsQualify(message: string, common: seq<string>)
    ensures KeywordList(message, common) != [] ==> Utf16Length(Cleaned(message)) > 5
    ensures Increasing(KeywordList(message, common))
    ensures forall w :: w in KeywordList(message, common) ==>
      w in Split(Cleaned(message), ' ') && Qualifies(w, common)
      && !IsPunctuation(w[0]) && !IsNumber(w[0])
  {
    var r := KeywordList(message, common);
    if Utf16Length(Cleaned(message)) > 5 {
      var all := AllKeywords(message, common);
      assert r == all || r == all[..MaxKeywords];
      forall w | w in r ensures w in all {
        if r != all {
          var k :| 0 <= k < |r| && r[k] == w;
          assert all[k] == w;
        }
      }
      forall w | w in r ensures !IsPunctuation(w[0]) {
        CleanedHasNoPunctuation(message);
        SplitPieces(Cleaned(message), w);
      }
    }
  }

  /** No keyword is missing: a qualifying word of a long enough cleaned text
      that is not in the list comes after all fifty keywords. */
  lemma KeywordsComplete(message: string, common: seq<string>, w: string)
    requires Utf16Length(Cleaned(message)) > 5
    requires w in Split(Cleaned(message), ' ') && Qualifies(w, common)
    requires w !in KeywordList(message, common)
    ensures |KeywordList(message, common)| == MaxKeywords
    ensures forall k :: 0 <= k < |KeywordList(message, common)| ==> Less(KeywordList(message, common)[k], w)
  {
    var all := AllKeywords(message, common);
    var r := KeywordList(message, common);
    assert w in all;
    var j :| 0 <= j < |all| && all[j] == w;
    assert |all| > MaxKeywords;
    assert r == all[..MaxKeywords];
    assert j >= MaxKeywords;
  }

  /** Length is counted in UTF-16 code units: three characters outside the
      Basic Multilingual Plane make a word of six, long enough to qualify. */
  lemma AstralWordQualifies()
    ensures Qualifies("\U{1F600}\U{1F600}\U{1F600}", [])
  {
    assert Utf16Length("\U{1F600}\U{1F600}\U{1F600}") == 6;
  }

  /** The cleaned text holds no punctuation. */
  lemma CleanedHasNoPunctuation(message: string)
    ensures forall i :: 0 <= i < |Cleaned(message)| ==> !IsPunctuation(Cleaned(message)[i])
  {
    var d := DropPunctuation(message);
    var t := Trim(d);
    TrimSpec(d);
    assert Occurs(t, d);
    var k :| OccursAt(t, d, k);
    forall i | 0 <= i < |t| ensures !IsPunctuation(t[i]) {
      assert t[i] == d[k + i];
    }
    forall i | 0 <= i < |t| ensures !IsPunctuation(LowerChar(t[i])) {
    }
    LowerAt(t);
  }

  /** Every character of a piece of a split is a character of the input. */
  lemma {:induction false} SplitPieces(s: string, w: string)
    requires w in Split(s, ' ')
    ensures forall i :: 0 <= i < |w| ==> w[i] in s
  {
    if s != [] {
      var rest := Split(s[1..], ' ');
      if s[0] == ' ' {
        if w != [] {
          assert w in rest;
          SplitPieces(s[1..], w);
        }
      } else if w == [s[0]] + rest[0] {
        SplitPieces(s[1..], rest[0]);
        forall i | 0 < i < |w| ensures w[i] in s {
          assert w[i] == rest[0][i - 1];
          assert rest[0][i - 1] in s[1..];
        }
      } else {
        assert w in rest[1..];
        SplitPieces(s[1..], w);
      }
    }
  }
}
