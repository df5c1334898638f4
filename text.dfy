/** The string operations the normaliser uses: case mapping, `title()`,
    whitespace stripping, `partition`, the ellipsis repair and decimal
    rendering. Case mapping covers ASCII letters only. */
module Text {

  const Ellipsis: char := '\U{2026}'

  predicate IsUpperAscii(c: char) { 'A' <= c <= 'Z' }

  predicate IsLowerAscii(c: char) { 'a' <= c <= 'z' }

  /** A character with case; `title()` starts a new word after any other. */
  predicate IsCased(c: char) { IsUpperAscii(c) || IsLowerAscii(c) }

  function LowerChar(c: char): char
  {
    if IsUpperAscii(c) then (c as int + 32) as char else c
  }

  function UpperChar(c: char): char
  {
    if IsLowerAscii(c) then (c as int - 32) as char else c
  }

  /** `s.lower()` */
  function Lower(s: string): string
  {
    seq(|s|, i requires 0 <= i < |s| => LowerChar(s[i]))
  }

  /** `s.upper()` */
  function Upper(s: string): string
  {
    seq(|s|, i requires 0 <= i < |s| => UpperChar(s[i]))
  }

  /** `title()` on the rest of a string, given whether the character before
      it was cased: a cased character is upper-cased at the start of a word
      and lower-cased inside one; other characters are kept. */
  function TitleFrom(s: string, afterCased: bool): (r: string)
    ensures |r| == |s|
  {
    if s == [] then [] else [TitleChar(s[0], afterCased)] + TitleFrom(s[1..], IsCased(s[0]))
  }

  /** One character of `title()`, given whether the character before it was cased. */
  function TitleChar(c: char, afterCased: bool): char
  {
    if !IsCased(c) then c else if afterCased then LowerChar(c) else UpperChar(c)
  }

  /** Every character of `s` is already what `title()` makes of it. */
  predicate IsTitled(s: string, afterCased: bool)
  {
    forall i :: 0 <= i < |s| ==> TitleChar(s[i], CasedBefore(s, i, afterCased)) == s[i]
  }

  function CasedBefore(s: string, i: int, afterCased: bool): bool
    requires 0 <= i < |s|
  {
    if i == 0 then afterCased else IsCased(s[i - 1])
  }

  /** `title()` leaves a title-cased string as it is. */
  lemma {:induction false} TitledFixed(s: string, afterCased: bool)
    requires IsTitled(s, afterCased)
    ensures TitleFrom(s, afterCased) == s
  {
    if s != [] {
      assert TitleChar(s[0], CasedBefore(s, 0, afterCased)) == s[0];
      forall i | 0 <= i < |s[1..]|
        ensures TitleChar(s[1..][i], CasedBefore(s[1..], i, IsCased(s[0]))) == s[1..][i]
      {
        assert s[1..][i] == s[i + 1];
        assert CasedBefore(s[1..], i, IsCased(s[0])) == CasedBefore(s, i + 1, afterCased);
      }
      TitledFixed(s[1..], IsCased(s[0]));
      assert s == [s[0]] + s[1..];
    }
  }

  /** `s.title()` */
  function Title(s: string): string
  {
    TitleFrom(s, false)
  }

  /** Title-casing changes only the case of a character, never the letter
      or whether it has case. */
  lemma {:induction false} TitleFromChars(s: string, afterCased: bool)
    ensures forall i :: 0 <= i < |s| ==>
      var r := TitleFrom(s, afterCased);
      LowerChar(r[i]) == LowerChar(s[i]) && IsCased(r[i]) == IsCased(s[i])
  {
    if s != [] {
      TitleFromChars(s[1..], IsCased(s[0]));
      var r := TitleFrom(s, afterCased);
      assert r[1..] == TitleFrom(s[1..], IsCased(s[0]));
      forall i | 1 <= i < |s|
        ensures LowerChar(r[i]) == LowerChar(s[i]) && IsCased(r[i]) == IsCased(s[i])
      {
        assert r[i] == r[1..][i - 1] && s[i] == s[1..][i - 1];
      }
    }
  }

  /** Title-casing never changes what a name lower-cases to, so a comparison
      made on `k.lower()` before title-casing still holds afterwards. */
  lemma TitleKeepsLower(s: string)
    ensures Lower(Title(s)) == Lower(s)
  {
    var t := Title(s);
    TitleFromChars(s, false);
    assert forall i :: 0 <= i < |s| ==> Lower(t)[i] == Lower(s)[i];
  }

  /** `title()` depends only on the lower-cased form of its argument. */
  lemma {:induction false} TitleOfLower(s: string, afterCased: bool)
    ensures TitleFrom(s, afterCased) == TitleFrom(Lower(s), afterCased)
  {
    if s != [] {
      assert Lower(s)[1..] == Lower(s[1..]);
      TitleOfLower(s[1..], IsCased(s[0]));
    }
  }

  /** Header names that differ only in case title-case to the same name. */
  lemma TitleCaseInsensitive(a: string, b: string)
    ensures Title(a) == Title(b) <==> Lower(a) == Lower(b)
  {
    TitleOfLower(a, false);
    TitleOfLower(b, false);
    TitleKeepsLower(a);
    TitleKeepsLower(b);
  }

  /** Python's `str.isspace()` for one character. */
  predicate IsSpace(c: char)
  {
    c == ' ' || '\t' <= c <= '\r' || '\U{1c}' <= c <= '\U{1f}' || c == '\U{85}' || c == '\U{a0}'
    || c == '\U{1680}' || '\U{2000}' <= c <= '\U{200a}' || c == '\U{2028}' || c == '\U{2029}'
    || c == '\U{202f}' || c == '\U{205f}' || c == '\U{3000}'
  }

  /** `s.rstrip()` */
  function RStrip(s: string): string
  {
    if s != [] && IsSpace(s[|s| - 1]) then RStrip(s[..|s| - 1]) else s
  }

  /** `s.rstrip()` is the longest prefix of `s` that does not end in
      whitespace: what it drops is all whitespace. */
  lemma {:induction false} RStripCorrect(s: string)
    ensures var r := RStrip(s);
      && r <= s
      && (forall i :: |r| <= i < |s| ==> IsSpace(s[i]))
      && (r == [] || !IsSpace(r[|r| - 1]))
  {
    if s != [] && IsSpace(s[|s| - 1]) {
      RStripCorrect(s[..|s| - 1]);
    }
  }

  /** `s.lstrip()` */
  function LStrip(s: string): string
  {
    if s != [] && IsSpace(s[0]) then LStrip(s[1..]) else s
  }

  /** `s.lstrip()` is the longest suffix of `s` that does not start with
      whitespace: what it drops is all whitespace. */
  lemma {:induction false} LStripCorrect(s: string)
    ensures var r := LStrip(s);
      && |r| <= |s| && r == s[|s| - |r|..]
      && (forall i :: 0 <= i < |s| - |r| ==> IsSpace(s[i]))
      && (r == [] || !IsSpace(r[0]))
  {
    if s != [] && IsSpace(s[0]) {
      LStripCorrect(s[1..]);
      var r := LStrip(s);
      forall i | 1 <= i < |s| - |r| ensures IsSpace(s[i]) {
        assert s[i] == s[1..][i - 1];
      }
    }
  }

  /** `r` is the slice of `s` that starts at `i`, and everything of `s`
      around that slice is whitespace. */
  predicate CutOutOf(s: string, i: int, r: string)
  {
    && 0 <= i <= |s| - |r| && r == s[i..i + |r|]
    && (forall k :: 0 <= k < i ==> IsSpace(s[k]))
    && (forall k :: i + |r| <= k < |s| ==> IsSpace(s[k]))
  }

  /** `s.strip()` */
  function Strip(s: string): string
  {
    RStrip(LStrip(s))
  }

  /** `s.strip()` is a slice of `s` with only whitespace around it, and
      neither of its ends is whitespace: whitespace is removed at both ends
      and nowhere else. */
  lemma StripCorrect(s: string)
    ensures exists i :: CutOutOf(s, i, Strip(s))
    ensures var r := Strip(s); r == [] || (!IsSpace(r[0]) && !IsSpace(r[|r| - 1]))
  {
    var t := LStrip(s);
    var r := RStrip(t);
    LStripCorrect(s);
    RStripCorrect(t);
    StripCut(s, t, r);
    assert CutOutOf(s, |s| - |t|, Strip(s));
    if r != [] {
      assert r[0] == t[0];
    }
  }

  lemma StripCut(s: string, t: string, r: string)
    requires |t| <= |s| && t == s[|s| - |t|..]
    requires forall k :: 0 <= k < |s| - |t| ==> IsSpace(s[k])
    requires r <= t
    requires forall k :: |r| <= k < |t| ==> IsSpace(t[k])
    ensures CutOutOf(s, |s| - |t|, r)
  {
    var i := |s| - |t|;
    assert r == s[i..i + |r|];
    forall k | i + |r| <= k < |s|
      ensures IsSpace(s[k])
    {
      assert s[k] == t[k - i];
    }
  }

  /** `s.partition(sep)[0]`: the part of `s` before the first `sep`, or all of it. */
  function BeforeFirst(s: string, sep: char): (r: string)
    ensures r <= s
    ensures sep !in r
    ensures |r| < |s| ==> s[|r|] == sep
  {
    if s == [] || s[0] == sep then [] else [s[0]] + BeforeFirst(s[1..], sep)
  }

  /** The part before the first `sep` of `a + [sep] + b`, where `a` holds
      no `sep`, is `a`. */
  lemma {:induction false} BeforeFirstJoin(a: string, sep: char, b: string)
    requires sep !in a
    ensures BeforeFirst(a + [sep] + b, sep) == a
  {
    if a != [] {
      assert (a + [sep] + b)[1..] == a[1..] + [sep] + b;
      BeforeFirstJoin(a[1..], sep, b);
    }
  }

  /** A string without `sep` is all "before the first `sep`". */
  lemma {:induction false} BeforeFirstAbsent(a: string, sep: char)
    requires sep !in a
    ensures BeforeFirst(a, sep) == a
  {
    if a != [] {
      BeforeFirstAbsent(a[1..], sep);
    }
  }

  predicate EndsWithEllipsis(s: string)
  {
    s != [] && s[|s| - 1] == Ellipsis
  }

  /** The repair of a trailing U+2026 HORIZONTAL ELLIPSIS that an old
      JavaScript SDK sent for truncated URLs: that one character becomes
      three full stops; any other string is kept. */
  function FixEllipsis(s: string): (r: string)
    ensures EndsWithEllipsis(s) ==> |r| == |s| + 2 && r[..|s| - 1] == s[..|s| - 1] && r[|s| - 1..] == "..."
    ensures !EndsWithEllipsis(s) ==> r == s
    ensures !EndsWithEllipsis(r)
  {
    if EndsWithEllipsis(s) then s[..|s| - 1] + "..." else s
  }

  function Digit(d: nat): (c: char)
    requires d < 10
  {
    (48 + d) as char
  }

  /** `str(n)` for a natural number: its decimal digits, without leading zeros. */
  function Dec(n: nat): (r: string)
    ensures r != []
    ensures forall i :: 0 <= i < |r| ==> '0' <= r[i] <= '9'
    ensures n >= 10 <==> |r| >= 2
  {
    if n < 10 then [Digit(n)] else Dec(n / 10) + [Digit(n % 10)]
  }

  /** Different numbers have different decimal renderings. */
  lemma {:induction false} DecInjective(a: nat, b: nat)
    requires Dec(a) == Dec(b)
    ensures a == b
  {
    var s := Dec(a);
    assert Digit(a % 10) == s[|s| - 1] == Digit(b % 10);
    if a >= 10 {
      assert Dec(a / 10) == s[..|s| - 1] == Dec(b / 10);
      DecInjective(a / 10, b / 10);
    }
  }
}
