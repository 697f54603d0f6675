/**
 The string primitives the forum code leans on from the .NET base library:
 character case mapping, `String.Trim`, `String.Split(char)`,
 `String.Contains` and decimal formatting of integers. Strings are
 sequences of Unicode scalar values. .NET strings are sequences of UTF-16 code
 units, so a character outside the Basic Multilingual Plane is one character
 here and two there; where the code compares a `Length`, the model counts
 code units with `Utf16Length`.
 */
module Text {

  datatype Option<+T> = None | Some(value: T)

  /** `Char.ToUpper` restricted to the ASCII letters; other characters are unchanged. */
  function UpperChar(c: char): char {
    if 'a' <= c <= 'z' then (c as int - 32) as char else c
  }

  /** `Char.ToLower` restricted to the ASCII letters. */
  function LowerChar(c: char): char {
    if 'A' <= c <= 'Z' then (c as int + 32) as char else c
  }

  function ToUpper(s: string): (r: string)
    ensures |r| == |s|
  {
    if s == [] then [] else [UpperChar(s[0])] + ToUpper(s[1..])
  }

  /** `ToUpper` maps each character on its own. */
  lemma {:induction false} UpperAt(s: string)
    ensures forall i :: 0 <= i < |s| ==> ToUpper(s)[i] == UpperChar(s[i])
  {
    if s != [] {
      UpperAt(s[1..]);
      forall i | 0 < i < |s| ensures ToUpper(s)[i] == UpperChar(s[i]) {
        assert ToUpper(s)[i] == ToUpper(s[1..])[i - 1];
      }
    }
  }

  function ToLower(s: string): (r: string)
    ensures |r| == |s|
  {
    if s == [] then [] else [LowerChar(s[0])] + ToLower(s[1..])
  }

  /** `ToLower` maps each character on its own. */
  lemma {:induction false} LowerAt(s: string)
    ensures forall i :: 0 <= i < |s| ==> ToLower(s)[i] == LowerChar(s[i])
  {
    if s != [] {
      LowerAt(s[1..]);
      forall i | 0 < i < |s| ensures ToLower(s)[i] == LowerChar(s[i]) {
        assert ToLower(s)[i] == ToLower(s[1..])[i - 1];
      }
    }
  }

  lemma UpperSlice(s: string, i: int, j: int)
    requires 0 <= i <= j <= |s|
    ensures ToUpper(s)[i..j] == ToUpper(s[i..j])
  {
    UpperAt(s);
    UpperAt(s[i..j]);
    forall k | 0 <= k < j - i
      ensures ToUpper(s)[i..j][k] == ToUpper(s[i..j])[k]
    {
      assert s[i..j][k] == s[i + k];
    }
  }

  lemma UpperAppend(a: string, b: string)
    ensures ToUpper(a + b) == ToUpper(a) + ToUpper(b)
  {
    UpperAt(a + b);
    UpperAt(a);
    UpperAt(b);
  }

  /** `Char.IsWhiteSpace`: the Unicode separators plus the control characters it accepts. */
  predicate IsWhiteSpace(c: char) {
    c == ' ' || ('\t' <= c <= '\r') || c == '\U{0085}' || c == '\U{00A0}'
    || c == '\U{1680}' || ('\U{2000}' <= c <= '\U{200A}') || c == '\U{2028}'
    || c == '\U{2029}' || c == '\U{202F}' || c == '\U{205F}' || c == '\U{3000}'
  }

  function TrimStart(s: string): (r: string)
    ensures |r| <= |s|
  {
    if s != [] && IsWhiteSpace(s[0]) then TrimStart(s[1..]) else s
  }

  function TrimEnd(s: string): (r: string)
    ensures |r| <= |s|
  {
    if s != [] && IsWhiteSpace(s[|s| - 1]) then TrimEnd(s[..|s| - 1]) else s
  }

  /** `TrimStart` keeps the suffix that starts at the first character that is
      not white space. */
  lemma {:induction false} TrimStartSpec(s: string)
    ensures TrimStart(s) == s[|s| - |TrimStart(s)|..]
    ensures TrimStart(s) != [] ==> !IsWhiteSpace(TrimStart(s)[0])
    ensures forall i :: 0 <= i < |s| - |TrimStart(s)| ==> IsWhiteSpace(s[i])
  {
    if s != [] && IsWhiteSpace(s[0]) {
      TrimStartSpec(s[1..]);
    }
  }

  /** `TrimEnd` keeps the prefix that ends at the last character that is not
      white space. */
  lemma {:induction false} TrimEndSpec(s: string)
    ensures TrimEnd(s) == s[..|TrimEnd(s)|]
    ensures TrimEnd(s) != [] ==> !IsWhiteSpace(TrimEnd(s)[|TrimEnd(s)| - 1])
    ensures forall i :: |TrimEnd(s)| <= i < |s| ==> IsWhiteSpace(s[i])
  {
    if s != [] && IsWhiteSpace(s[|s| - 1]) {
      TrimEndSpec(s[..|s| - 1]);
    }
  }

  /** `String.Trim()`: removes leading and trailing white space. */
  function Trim(s: string): string {
    TrimEnd(TrimStart(s))
  }

  /** What `Trim` keeps is a piece of the input that neither starts nor ends
      with white space, and only white space is cut off on either side. */
  lemma TrimSpec(s: string)
    ensures var r := Trim(s); r != [] ==> !IsWhiteSpace(r[0]) && !IsWhiteSpace(r[|r| - 1])
    ensures exists k :: (OccursAt(Trim(s), s, k)
                         && (forall i :: 0 <= i < k ==> IsWhiteSpace(s[i]))
                         && (forall i :: k + |Trim(s)| <= i < |s| ==> IsWhiteSpace(s[i])))
  {
    var k := TrimAt(s);
  }

  /** `Trim` cuts `k` characters of white space at the front. */
  lemma TrimAt(s: string) returns (k: nat)
    ensures var r := Trim(s); r != [] ==> !IsWhiteSpace(r[0]) && !IsWhiteSpace(r[|r| - 1])
    ensures OccursAt(Trim(s), s, k)
    ensures forall i :: 0 <= i < k ==> IsWhiteSpace(s[i])
    ensures forall i :: k + |Trim(s)| <= i < |s| ==> IsWhiteSpace(s[i])
  {
    var t := TrimStart(s);
    var r := TrimEnd(t);
    TrimStartSpec(s);
    TrimEndSpec(t);
    k := |s| - |t|;
    SuffixPrefix(s, k, |r|);
    forall i | k + |r| <= i < |s| ensures IsWhiteSpace(s[i]) {
      SuffixAt(s, k, i);
    }
    if r != [] {
      assert r[0] == t[0];
    }
  }

  /** A prefix of a suffix is a slice. */
  lemma SuffixPrefix<T>(s: seq<T>, k: nat, m: nat)
    requires k + m <= |s|
    ensures s[k..][..m] == s[k..k + m]
  {
  }

  /** Indexing a suffix. */
  lemma SuffixAt<T>(s: seq<T>, k: nat, i: nat)
    requires k <= i < |s|
    ensures s[k..][i - k] == s[i]
  {
  }

  /** A character .NET stores as a surrogate pair: one outside the Basic
      Multilingual Plane. */
  predicate IsAstral(c: char) {
    c as int > 0xFFFF
  }

  /** `String.Length`: the number of UTF-16 code units of `s`. */
  function Utf16Length(s: string): (n: nat)
    ensures |s| <= n <= 2 * |s|
  {
    if s == [] then 0 else (if IsAstral(s[0]) then 2 else 1) + Utf16Length(s[1..])
  }

  /** The code-unit length agrees with the character count exactly on text
      in the Basic Multilingual Plane. */
  lemma {:induction false} Utf16LengthBmp(s: string)
    ensures Utf16Length(s) == |s| <==> forall i :: 0 <= i < |s| ==> !IsAstral(s[i])
  {
    if s != [] {
      Utf16LengthBmp(s[1..]);
      if forall i :: 0 <= i < |s| ==> !IsAstral(s[i]) {
        forall i | 0 <= i < |s[1..]| ensures !IsAstral(s[1..][i]) {
          assert s[1..][i] == s[i + 1];
        }
      }
      if Utf16Length(s) == |s| {
        forall i | 0 <= i < |s| ensures !IsAstral(s[i]) {
          if i > 0 { assert s[i] == s[1..][i - 1]; }
        }
      }
    }
  }

  /** Code units add up over concatenation. */
  lemma {:induction false} Utf16LengthAppend(a: string, b: string)
    ensures Utf16Length(a + b) == Utf16Length(a) + Utf16Length(b)
  {
    if a != [] {
      assert (a + b)[0] == a[0] && (a + b)[1..] == a[1..] + b;
      Utf16LengthAppend(a[1..], b);
    } else {
      assert a + b == b;
    }
  }

  /** `String.Split(char)`: every occurrence of `d` separates two pieces, so
      `n` delimiters always give `n + 1` pieces, empty ones included. */
  function Split(s: string, d: char): (r: seq<string>)
    ensures |r| >= 1
  {
    if s == [] then [[]]
    else
      var rest := Split(s[1..], d);
      if s[0] == d then [[]] + rest
      else [[s[0]] + rest[0]] + rest[1..]
  }

  /** `String.Join`, the inverse of `Split`. */
  function Join(parts: seq<string>, d: char): string
    requires |parts| >= 1
  {
    if |parts| == 1 then parts[0] else parts[0] + [d] + Join(parts[1..], d)
  }

  lemma {:induction false} JoinSplit(s: string, d: char)
    ensures Join(Split(s, d), d) == s
  {
    if s != [] {
      var rest := Split(s[1..], d);
      JoinSplit(s[1..], d);
      if s[0] == d {
        assert Split(s, d)[1..] == rest;
      } else {
        var r := Split(s, d);
        assert r[0] == [s[0]] + rest[0] && r[1..] == rest[1..];
        if |rest| == 1 {
          assert Join(r, d) == [s[0]] + rest[0];
        } else {
          assert Join(rest, d) == rest[0] + [d] + Join(rest[1..], d);
        }
      }
    }
  }

  /** Every piece of the split is delimiter-free and joining them back gives the
      input, so `Split` loses nothing. */
  lemma SplitInverse(s: string, d: char)
    ensures Join(Split(s, d), d) == s
    ensures |Split(s, d)| == 1 <==> forall i :: 0 <= i < |s| ==> s[i] != d
    ensures forall k, i :: 0 <= k < |Split(s, d)| && 0 <= i < |Split(s, d)[k]| ==> Split(s, d)[k][i] != d
  {
    JoinSplit(s, d);
    SplitCount(s, d);
    SplitPieces(s, d);
  }

  lemma {:induction false} SplitPieces(s: string, d: char)
    ensures forall k, i :: 0 <= k < |Split(s, d)| && 0 <= i < |Split(s, d)[k]| ==> Split(s, d)[k][i] != d
  {
    if s != [] {
      var rest := Split(s[1..], d);
      var r := Split(s, d);
      SplitPieces(s[1..], d);
      if s[0] == d {
        assert r[1..] == rest;
        forall k, i | 0 <= k < |r| && 0 <= i < |r[k]| ensures r[k][i] != d {
          assert r[k] == rest[k - 1];
        }
      } else {
        assert r[0] == [s[0]] + rest[0] && r[1..] == rest[1..];
        forall k, i | 0 <= k < |r| && 0 <= i < |r[k]| ensures r[k][i] != d {
          if k == 0 {
            if i > 0 {
              assert r[0][i] == rest[0][i - 1];
            }
          } else {
            assert r[k] == rest[k];
          }
        }
      }
    }
  }

  lemma {:induction false} SplitCount(s: string, d: char)
    ensures |Split(s, d)| == 1 <==> forall i :: 0 <= i < |s| ==> s[i] != d
  {
    if s != [] {
      SplitCount(s[1..], d);
      if s[0] != d {
        assert forall i :: 1 <= i < |s| ==> s[i] == s[1..][i - 1];
      }
    }
  }

  /** `needle` occurs in `hay` starting at index `k`. */
  predicate OccursAt(needle: string, hay: string, k: int) {
    0 <= k <= |hay| - |needle| && hay[k..k + |needle|] == needle
  }

  /** `needle` occurs in `hay` at some index. */
  ghost predicate Occurs(needle: string, hay: string) {
    exists k :: OccursAt(needle, hay, k)
  }

  /** `String.Contains(string)` with ordinal comparison, as a scan. */
  function Contains(hay: string, needle: string): bool
    decreases |hay|
  {
    if |needle| > |hay| then false
    else if hay[..|needle|] == needle then true
    else Contains(hay[1..], needle)
  }

  lemma {:induction false} ContainsOccurs(hay: string, needle: string)
    ensures Contains(hay, needle) <==> Occurs(needle, hay)
    decreases |hay|
  {
    if |needle| > |hay| {
    } else if hay[..|needle|] == needle {
      assert OccursAt(needle, hay, 0);
    } else {
      ContainsOccurs(hay[1..], needle);
      OccursShift(hay, needle);
    }
  }

  /** Without an occurrence at the front, `needle` occurs in `hay` exactly when
      it occurs in the rest. */
  lemma OccursShift(hay: string, needle: string)
    requires |needle| <= |hay| && hay[..|needle|] != needle
    ensures Occurs(needle, hay) <==> Occurs(needle, hay[1..])
  {
    if Occurs(needle, hay) {
      var k :| OccursAt(needle, hay, k);
      assert k != 0;
      assert hay[1..][k - 1..k - 1 + |needle|] == hay[k..k + |needle|];
      assert OccursAt(needle, hay[1..], k - 1);
    }
    if Occurs(needle, hay[1..]) {
      var k :| OccursAt(needle, hay[1..], k);
      assert hay[1..][k..k + |needle|] == hay[k + 1..k + 1 + |needle|];
      assert OccursAt(needle, hay, k + 1);
    }
  }


  /** The empty string is contained in every string. */
  lemma ContainsEmpty(hay: string)
    ensures Contains(hay, [])
  {
    assert hay[..0] == [];
  }

  /** A prefix of `hay` is contained in it. */
  lemma ContainsPrefix(hay: string, needle: string)
    requires |needle| <= |hay| && hay[..|needle|] == needle
    ensures Contains(hay, needle)
  {
  }

  // Decimal formatting of integers (`Int32.ToString()` / `String.Format("{0}")`).

  function DigitChar(d: int): char
    requires 0 <= d < 10
  {
    ('0' as int + d) as char
  }

  predicate IsDigit(c: char) {
    '0' <= c <= '9'
  }

  function NatToString(n: nat): (r: string)
    ensures |r| >= 1
    ensures forall i :: 0 <= i < |r| ==> IsDigit(r[i])
    ensures |r| > 1 ==> r[0] != '0'
  {
    if n < 10 then [DigitChar(n)] else NatToString(n / 10) + [DigitChar(n % 10)]
  }

  function IntToString(n: int): (r: string)
    ensures |r| >= 1
    ensures (r[0] == '-') <==> n < 0
  {
    if n < 0 then "-" + NatToString(-n) else NatToString(n)
  }

  function DigitsValue(s: string): nat
    requires forall i :: 0 <= i < |s| ==> IsDigit(s[i])
  {
    if s == [] then 0
    else
      assert IsDigit(s[|s| - 1]);
      DigitsValue(s[..|s| - 1]) * 10 + (s[|s| - 1] as int - '0' as int)
  }

  /** Reads back what `IntToString` wrote. */
  function ParseInt(s: string): Option<int> {
    if |s| >= 2 && s[0] == '-' && (forall i :: 1 <= i < |s| ==> IsDigit(s[i])) then
      var v: int := DigitsValue(s[1..]);
      Some(-v)
    else if |s| >= 1 && forall i :: 0 <= i < |s| ==> IsDigit(s[i]) then
      Some(DigitsValue(s))
    else None
  }

  lemma {:induction false} DigitsRoundTrip(n: nat)
    ensures DigitsValue(NatToString(n)) == n
  {
    if n >= 10 {
      DigitsRoundTrip(n / 10);
      var s := NatToString(n);
      assert s[..|s| - 1] == NatToString(n / 10);
    }
  }

  /** Formatting an integer and parsing it back gives the integer. */
  lemma IntRoundTrip(n: int)
    ensures ParseInt(IntToString(n)) == Some(n)
  {
    if n < 0 {
      DigitsRoundTrip(-n);
      assert IntToString(n)[1..] == NatToString(-n);
    } else {
      DigitsRoundTrip(n);
    }
  }

  /** Hence decimal formatting is injective. */
  lemma IntToStringInjective(a: int, b: int)
    requires a != b
    ensures IntToString(a) != IntToString(b)
  {
    IntRoundTrip(a);
    IntRoundTrip(b);
  }
}
