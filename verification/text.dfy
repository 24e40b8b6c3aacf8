/** String primitives behind pandas' `str.strip` and `str.title` and the
    column-name clean-up: Python's whitespace set, Latin-1 case mapping,
    character replacement and ASCII filtering. */
module Text {

  import Seqs

  /** Python's `str.isspace()`: the characters `str.strip()` removes. */
  predicate IsWhitespace(c: char) {
    || c == ' '
    || ('\t' <= c <= '\r')
    || ('\U{1C}' <= c <= '\U{1F}')
    || c == '\U{85}' || c == '\U{A0}' || c == '\U{1680}'
    || ('\U{2000}' <= c <= '\U{200A}')
    || c == '\U{2028}' || c == '\U{2029}' || c == '\U{202F}' || c == '\U{205F}' || c == '\U{3000}'
  }

  /** Every character of `s` is whitespace. */
  predicate AllWhitespace(s: string) {
    forall i :: 0 <= i < |s| ==> IsWhitespace(s[i])
  }

  /** Drops leading whitespace. */
  function TrimStart(s: string): (r: string)
    ensures |r| <= |s|
    ensures r == [] || !IsWhitespace(r[0])
  {
    if s != [] && IsWhitespace(s[0]) then TrimStart(s[1..]) else s
  }

  /** Drops trailing whitespace. */
  function TrimEnd(s: string): (r: string)
    ensures |r| <= |s|
    ensures r == [] || !IsWhitespace(r[|r| - 1])
  {
    if s != [] && IsWhitespace(s[|s| - 1]) then TrimEnd(s[..|s| - 1]) else s
  }

  /** Python's `str.strip()` with no argument: the slice of `s` left once
      the whitespace at both ends is removed, so everything before and after
      it is whitespace and it neither starts nor ends with whitespace. */
  function Trim(s: string): (r: string)
    ensures |r| <= |s|
    ensures r == [] || (!IsWhitespace(r[0]) && !IsWhitespace(r[|r| - 1]))
    ensures exists k, m :: 0 <= k <= m <= |s| && r == s[k..m] && AllWhitespace(s[..k]) && AllWhitespace(s[m..])
  {
    var a := TrimStart(s);
    TrimStartDropsWhitespacePrefix(s);
    TrimEndDropsWhitespaceSuffix(a);
    var k := |s| - |a|;
    var m := k + |TrimEnd(a)|;
    assert a == s[k..];
    assert TrimEnd(a) == s[k..m] by {
      assert TrimEnd(a) == a[..m - k];
    }
    TrimSuffixWhitespace(s, a, k, m);
    assert AllWhitespace(s[..k]) && AllWhitespace(s[m..]);
    TrimEnd(a)
  }

  /** What follows the kept slice is the whitespace `TrimEnd` removed. */
  lemma TrimSuffixWhitespace(s: string, a: string, k: nat, m: nat)
    requires k <= m <= |s| && a == s[k..] && m - k == |TrimEnd(a)|
    ensures forall i :: m <= i < |s| ==> IsWhitespace(s[i])
  {
    TrimEndDropsWhitespaceSuffix(a);
    forall i | m <= i < |s| ensures IsWhitespace(s[i]) {
      assert s[i] == a[i - k];
    }
  }

  /** `TrimStart` removes a prefix made of whitespace only. */
  lemma {:induction false} TrimStartDropsWhitespacePrefix(s: string)
    ensures s[|s| - |TrimStart(s)|..] == TrimStart(s)
    ensures forall i :: 0 <= i < |s| - |TrimStart(s)| ==> IsWhitespace(s[i])
  {
    if s != [] && IsWhitespace(s[0]) {
      TrimStartDropsWhitespacePrefix(s[1..]);
      assert s[1..][|s| - 1 - |TrimStart(s)|..] == s[|s| - |TrimStart(s)|..];
      forall i | 1 <= i < |s| - |TrimStart(s)|
        ensures IsWhitespace(s[i])
      {
        assert s[i] == s[1..][i - 1];
      }
    }
  }

  /** `TrimEnd` removes a suffix made of whitespace only. */
  lemma {:induction false} TrimEndDropsWhitespaceSuffix(s: string)
    ensures s[..|TrimEnd(s)|] == TrimEnd(s)
    ensures forall i :: |TrimEnd(s)| <= i < |s| ==> IsWhitespace(s[i])
  {
    if s != [] && IsWhitespace(s[|s| - 1]) {
      var p := s[..|s| - 1];
      TrimEndDropsWhitespaceSuffix(p);
      assert p[..|TrimEnd(s)|] == s[..|TrimEnd(s)|];
      forall i | |TrimEnd(s)| <= i < |s| - 1
        ensures IsWhitespace(s[i])
      {
        assert s[i] == p[i];
      }
    }
  }

  /** A string that neither starts nor ends with whitespace is its own trim. */
  lemma TrimOfTrimmed(s: string)
    requires s == [] || (!IsWhitespace(s[0]) && !IsWhitespace(s[|s| - 1]))
    ensures Trim(s) == s
  {
  }

  /** Leading whitespace does not change what `TrimStart` keeps. */
  lemma {:induction false} TrimStartSkipsPadding(p: string, s: string)
    requires forall i :: 0 <= i < |p| ==> IsWhitespace(p[i])
    ensures TrimStart(p + s) == TrimStart(s)
  {
    if p != [] {
      assert (p + s)[1..] == p[1..] + s;
      TrimStartSkipsPadding(p[1..], s);
    } else {
      assert p + s == s;
    }
  }

  /** Trailing whitespace does not change what `TrimEnd` keeps. */
  lemma {:induction false} TrimEndSkipsPadding(s: string, q: string)
    requires forall i :: 0 <= i < |q| ==> IsWhitespace(q[i])
    ensures TrimEnd(s + q) == TrimEnd(s)
  {
    if q != [] {
      assert (s + q)[..|s + q| - 1] == s + q[..|q| - 1];
      TrimEndSkipsPadding(s, q[..|q| - 1]);
    } else {
      assert s + q == s;
    }
  }

  /** Stripping a trimmed string padded with whitespace on both sides gives
      the string back. */
  lemma TrimOfPadded(p: string, s: string, q: string)
    requires forall i :: 0 <= i < |p| ==> IsWhitespace(p[i])
    requires forall i :: 0 <= i < |q| ==> IsWhitespace(q[i])
    requires s == [] || (!IsWhitespace(s[0]) && !IsWhitespace(s[|s| - 1]))
    ensures Trim(p + s + q) == s
  {
    assert p + s + q == p + (s + q);
    TrimStartSkipsPadding(p, s + q);
    if s == [] {
      assert s + q == q + [];
      TrimStartSkipsPadding(q, []);
      assert TrimStart(p + s + q) == [];
    } else {
      TrimEndSkipsPadding(s, q);
    }
  }

  /** An upper-case letter of Latin-1: `A`–`Z` and `À`–`Þ` without `×`. */
  predicate IsUpper(c: char) {
    ('A' <= c <= 'Z') || ('\U{C0}' <= c <= '\U{DE}' && c != '\U{D7}')
  }

  /** A lower-case letter of Latin-1: `a`–`z`, `ª`, `µ`, `º` and `ß`–`ÿ`
      without `÷`. */
  predicate IsLower(c: char) {
    || ('a' <= c <= 'z')
    || c == '\U{AA}' || c == '\U{B5}' || c == '\U{BA}'
    || ('\U{DF}' <= c <= '\U{FF}' && c != '\U{F7}')
  }

  /** Python's cased characters, as far as Latin-1 goes. */
  predicate IsCased(c: char) { IsUpper(c) || IsLower(c) }

  /** A lower-case letter whose upper-case partner is in Latin-1: all but
      `ª`, `º` (which have none) and `µ`, `ß`, `ÿ` (whose partners lie
      outside Latin-1). */
  predicate HasUpperPartner(c: char) {
    ('a' <= c <= 'z') || ('\U{E0}' <= c <= '\U{FE}' && c != '\U{F7}')
  }

  /** Lower-cases an upper-case letter; every other character is kept. */
  function ToLower(c: char): (l: char)
    ensures IsCased(l) == IsCased(c) && !IsUpper(l)
    ensures IsUpper(c) ==> HasUpperPartner(l)
    ensures !IsUpper(c) ==> l == c
  {
    if IsUpper(c) then (c as int + 32) as char else c
  }

  /** Upper-cases a letter with an upper-case partner, the inverse of
      `ToLower` on it; every other character is kept. */
  function ToUpper(c: char): (u: char)
    ensures IsCased(u) == IsCased(c)
    ensures HasUpperPartner(c) ==> IsUpper(u) && ToLower(u) == c
    ensures !HasUpperPartner(c) ==> u == c
  {
    if HasUpperPartner(c) then (c as int - 32) as char else c
  }

  /** `str.title()` continued from a position whose predecessor is cased or not:
      a cased character is upper-cased after an uncased one and lower-cased
      after a cased one; every other character is kept. */
  function TitleFrom(s: string, afterCased: bool): (r: string)
    ensures |r| == |s|
  {
    if s == [] then []
    else
      var c := if !IsCased(s[0]) then s[0] else if afterCased then ToLower(s[0]) else ToUpper(s[0]);
      [c] + TitleFrom(s[1..], IsCased(s[0]))
  }

  /** Python's `str.title()` over Latin-1: a cased character that starts the
      string or follows an uncased one is upper-cased, a cased character
      that follows a cased one is lower-cased, and nothing else changes. */
  function Title(s: string): (r: string)
    ensures |r| == |s|
    ensures forall i {:trigger r[i]} :: 0 <= i < |s| ==>
              r[i] == if !IsCased(s[i]) then s[i]
                      else if i > 0 && IsCased(s[i - 1]) then ToLower(s[i])
                      else ToUpper(s[i])
  {
    TitleFromAt(s, false);
    TitleFrom(s, false)
  }

  /** Each position of `TitleFrom` decided by the character before it. */
  lemma {:induction false} TitleFromAt(s: string, afterCased: bool)
    ensures forall i {:trigger TitleFrom(s, afterCased)[i]} :: 0 <= i < |s| ==>
              TitleFrom(s, afterCased)[i] ==
                if !IsCased(s[i]) then s[i]
                else if (if i == 0 then afterCased else IsCased(s[i - 1])) then ToLower(s[i])
                else ToUpper(s[i])
    decreases |s|
  {
    if s != [] {
      var t := TitleFrom(s[1..], IsCased(s[0]));
      TitleFromAt(s[1..], IsCased(s[0]));
      assert TitleFrom(s, afterCased)[1..] == t;
      forall i | 0 <= i < |s|
        ensures TitleFrom(s, afterCased)[i] ==
                if !IsCased(s[i]) then s[i]
                else if (if i == 0 then afterCased else IsCased(s[i - 1])) then ToLower(s[i])
                else ToUpper(s[i])
      {
        if i > 0 {
          assert TitleFrom(s, afterCased)[i] == t[i - 1] && s[i] == s[1..][i - 1];
          if i > 1 { assert s[i - 1] == s[1..][i - 2]; }
        }
      }
    }
  }

  /** Whitespace is uncased, so title-casing keeps every whitespace
      character where it was and creates none. */
  lemma TitleKeepsWhitespace(s: string)
    ensures forall i :: 0 <= i < |s| ==> IsWhitespace(Title(s)[i]) == IsWhitespace(s[i])
  {
    forall i | 0 <= i < |s| ensures IsWhitespace(Title(s)[i]) == IsWhitespace(s[i]) {
      if IsCased(s[i]) {
        assert IsCased(Title(s)[i]);
      }
    }
  }

  lemma {:induction false} TitleFromIdempotent(s: string, afterCased: bool)
    ensures TitleFrom(TitleFrom(s, afterCased), afterCased) == TitleFrom(s, afterCased)
    decreases |s|
  {
    if s != [] {
      var t := TitleFrom(s, afterCased);
      assert t[1..] == TitleFrom(s[1..], IsCased(s[0]));
      TitleFromIdempotent(s[1..], IsCased(s[0]));
    }
  }

  /** Title-casing twice is title-casing once. */
  lemma TitleIdempotent(s: string)
    ensures Title(Title(s)) == Title(s)
  {
    TitleFromIdempotent(s, false);
  }

  /** Title-casing a trimmed string leaves nothing to trim. */
  lemma TrimOfTitleOfTrimmed(s: string)
    ensures Trim(Title(Trim(s))) == Title(Trim(s))
  {
    TitleKeepsWhitespace(Trim(s));
    TrimOfTrimmed(Title(Trim(s)));
  }

  /** Every occurrence of `a` replaced by `b`, as `str.replace` does for one character. */
  function ReplaceChar(s: string, a: char, b: char): (r: string)
    ensures |r| == |s|
    ensures forall i :: 0 <= i < |s| ==> r[i] == (if s[i] == a then b else s[i])
  {
    seq(|s|, i requires 0 <= i < |s| => if s[i] == a then b else s[i])
  }

  /** Replacing characters distributes over concatenation. */
  lemma ReplaceCharConcat(x: string, y: string, a: char, b: char)
    ensures ReplaceChar(x + y, a, b) == ReplaceChar(x, a, b) + ReplaceChar(y, a, b)
  {
    var l, r := ReplaceChar(x + y, a, b), ReplaceChar(x, a, b) + ReplaceChar(y, a, b);
    assert |l| == |r|;
    forall i | 0 <= i < |l| ensures l[i] == r[i] {
      if i < |x| { assert (x + y)[i] == x[i]; } else { assert (x + y)[i] == y[i - |x|]; }
    }
  }

  /** Python's `str.lower()` over Latin-1. */
  function Lower(s: string): (r: string)
    ensures |r| == |s|
    ensures forall i :: 0 <= i < |s| ==> !IsUpper(r[i])
  {
    seq(|s|, i requires 0 <= i < |s| => ToLower(s[i]))
  }

  predicate IsAscii(c: char) { c < '\U{80}' }

  /** How many characters of `s` are ASCII. */
  function AsciiCount(s: string): nat {
    if s == [] then 0 else (if IsAscii(s[0]) then 1 else 0) + AsciiCount(s[1..])
  }

  /** `.encode("ASCII", "ignore").decode()`: every non-ASCII character
      dropped, the others kept in their order. A subsequence of `s` made of
      ASCII characters only and as long as `s` has ASCII characters must
      keep every one of them, so the contract pins the result down. */
  function KeepAscii(s: string): (r: string)
    ensures |r| <= |s|
    ensures forall i :: 0 <= i < |r| ==> IsAscii(r[i])
    ensures forall c :: c in r <==> c in s && IsAscii(c)
    ensures |r| == AsciiCount(s)
    ensures Seqs.IsSubsequence(r, s)
  {
    if s == [] then []
    else
      var head := if IsAscii(s[0]) then [s[0]] else [];
      var rest := KeepAscii(s[1..]);
      assert s == [s[0]] + s[1..];
      assert multiset(s) == multiset{s[0]} + multiset(s[1..]);
      assert (head + rest)[|head|..] == rest;
      head + rest
  }

  /** Dropping the non-ASCII characters keeps each ASCII character as often
      as it occurs and no other character. */
  lemma {:induction false} KeepAsciiCounts(s: string)
    ensures forall c :: multiset(KeepAscii(s))[c] == (if IsAscii(c) then multiset(s)[c] else 0)
  {
    if s != [] {
      KeepAsciiCounts(s[1..]);
      assert s == [s[0]] + s[1..];
      assert multiset(s) == multiset{s[0]} + multiset(s[1..]);
    }
  }

  /** `s.replace("_", "")`. */
  function RemoveUnderscores(s: string): string {
    if s == [] then []
    else (if s[0] == '_' then [] else [s[0]]) + RemoveUnderscores(s[1..])
  }

  /** Removing underscores works piecewise. */
  lemma {:induction false} RemoveUnderscoresConcat(a: string, b: string)
    ensures RemoveUnderscores(a + b) == RemoveUnderscores(a) + RemoveUnderscores(b)
  {
    if a != [] {
      assert (a + b)[1..] == a[1..] + b;
      RemoveUnderscoresConcat(a[1..], b);
    } else {
      assert a + b == b;
    }
  }

  /** A string without underscores is left as it is. */
  lemma {:induction false} NoUnderscoreKept(s: string)
    requires forall i :: 0 <= i < |s| ==> s[i] != '_'
    ensures RemoveUnderscores(s) == s
  {
    if s != [] {
      NoUnderscoreKept(s[1..]);
    }
  }

  /** A name made of two underscore-free words joined by `_` loses just
      that underscore. */
  lemma JoinedWords(a: string, b: string)
    requires forall i :: 0 <= i < |a| ==> a[i] != '_'
    requires forall i :: 0 <= i < |b| ==> b[i] != '_'
    ensures RemoveUnderscores(a + "_" + b) == a + b
  {
    var u := "_";
    RemoveUnderscoresConcat(a + u, b);
    RemoveUnderscoresConcat(a, u);
    assert RemoveUnderscores(u) == [] by {
      assert u[1..] == [];
    }
    NoUnderscoreKept(a);
    NoUnderscoreKept(b);
    assert a + [] == a;
  }
}
