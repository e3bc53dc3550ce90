/**
 * The handful of Go string operations the parser relies on (strings.TrimSpace,
 * ToUpper, ToLower, Contains, HasSuffix, ReplaceAll, Split, Join and
 * strconv.Itoa), restricted to ASCII text.
 */
module Strings {

  // ---------------------------------------------------------------- whitespace

  /** White space as strings.TrimSpace sees it, on ASCII: tab, newline,
      vertical tab, form feed, carriage return and space. */
  predicate IsSpace(c: char) {
    c == ' ' || c == '\t' || c == '\n' || c == '\U{000B}' || c == '\U{000C}' || c == '\r'
  }

  predicate AllSpace(s: string) {
    forall i :: 0 <= i < |s| ==> IsSpace(s[i])
  }

  /** No white space at either end: what TrimSpace leaves behind. */
  predicate IsTrimmed(s: string) {
    s == [] || (!IsSpace(s[0]) && !IsSpace(s[|s| - 1]))
  }

  /** The number of white-space characters at the front of s. */
  function LeadingSpace(s: string): (k: nat)
    ensures k <= |s|
    ensures AllSpace(s[..k])
    ensures k == |s| || !IsSpace(s[k])
  {
    if s != [] && IsSpace(s[0]) then 1 + LeadingSpace(s[1..]) else 0
  }

  function TrimRight(s: string): (r: string)
    ensures |r| <= |s| && r == s[..|r|]
    ensures AllSpace(s[|r|..])
    ensures r == [] || !IsSpace(r[|r| - 1])
  {
    if s != [] && IsSpace(s[|s| - 1]) then TrimRight(s[..|s| - 1]) else s
  }

  /** strings.TrimSpace: s without its leading and trailing white space. */
  function Trim(s: string): (r: string)
    ensures IsTrimmed(r)
    ensures |r| <= |s|
    ensures IsTrimmed(s) ==> r == s
  {
    TrimRight(s[LeadingSpace(s)..])
  }

  /** TrimSpace drops exactly the white space at both ends: what is left is
      the middle of s, with only white space before and after it. */
  lemma TrimShape(s: string)
    ensures LeadingSpace(s) + |Trim(s)| <= |s|
    ensures Trim(s) == s[LeadingSpace(s)..LeadingSpace(s) + |Trim(s)|]
    ensures AllSpace(s[LeadingSpace(s) + |Trim(s)|..])
  {
    var k := LeadingSpace(s);
    var t := s[k..];
    var r := TrimRight(t);
    assert Trim(s) == r && r == t[..|r|] && AllSpace(t[|r|..]);
    assert t[..|r|] == s[k..k + |r|];
    assert t[|r|..] == s[k + |r|..];
  }

  lemma {:induction false} LeadingSpaceConcat(g: string, r: string)
    requires AllSpace(g) && (r == [] || !IsSpace(r[0]))
    ensures LeadingSpace(g + r) == |g|
    decreases |g|
  {
    if g != [] {
      assert (g + r)[1..] == g[1..] + r;
      LeadingSpaceConcat(g[1..], r);
    }
  }

  /** Trimming white space off the front of a trimmed text gives that text. */
  lemma TrimSpacesBefore(g: string, r: string)
    requires AllSpace(g) && IsTrimmed(r)
    ensures Trim(g + r) == r
  {
    LeadingSpaceConcat(g, r);
    assert (g + r)[|g|..] == r;
  }

  /** A text that does not end in white space loses only its leading white
      space to TrimSpace. */
  lemma TrimOfSpaceFreeEnd(s: string)
    requires s != [] && !IsSpace(s[|s| - 1])
    ensures Trim(s) == s[LeadingSpace(s)..]
    ensures Trim(s) != [] && Trim(s)[|Trim(s)| - 1] == s[|s| - 1]
  {
    LeadingSpaceBelow(s);
    var k := LeadingSpace(s);
    assert s[k..][|s| - k - 1] == s[|s| - 1];
  }

  /** Some character is left after the leading white space of a text that
      does not end in white space. */
  lemma {:induction false} LeadingSpaceBelow(s: string)
    requires s != [] && !IsSpace(s[|s| - 1])
    ensures LeadingSpace(s) < |s|
    decreases |s|
  {
    if IsSpace(s[0]) {
      LeadingSpaceBelow(s[1..]);
    }
  }

  // ---------------------------------------------------------------- letter case

  predicate IsDigit(c: char) {
    '0' <= c <= '9'
  }

  predicate IsUpper(c: char) {
    'A' <= c <= 'Z'
  }

  predicate IsLetter(c: char) {
    'A' <= c <= 'Z' || 'a' <= c <= 'z'
  }

  function UpperChar(c: char): char {
    if 'a' <= c <= 'z' then (c as int - 32) as char else c
  }

  function LowerChar(c: char): char {
    if 'A' <= c <= 'Z' then (c as int + 32) as char else c
  }

  function ToUpper(s: string): string {
    seq(|s|, i requires 0 <= i < |s| => UpperChar(s[i]))
  }

  function ToLower(s: string): string {
    seq(|s|, i requires 0 <= i < |s| => LowerChar(s[i]))
  }

  /** Equal up to the case of ASCII letters. */
  predicate EqualIgnoringCase(s: string, t: string) {
    ToLower(s) == ToLower(t)
  }

  /** A character that is equal, ignoring case, to a digit is that digit. */
  lemma SameDigit(c: char, d: char)
    requires LowerChar(c) == LowerChar(d) && IsDigit(d)
    ensures c == d
  {
  }

  /** A character that is equal, ignoring case, to a letter is a letter. */
  lemma SameLetter(c: char, d: char)
    requires LowerChar(c) == LowerChar(d) && IsLetter(d)
    ensures IsLetter(c)
  {
  }

  lemma ToLowerConcat(a: string, b: string)
    ensures ToLower(a + b) == ToLower(a) + ToLower(b)
  {
  }

  lemma ToLowerOfCase(s: string)
    ensures ToLower(ToUpper(s)) == ToLower(s)
    ensures ToLower(ToLower(s)) == ToLower(s)
  {
  }

  /** Lower-casing leaves digits alone, so a digit string is its own lower case. */
  lemma ToLowerOfDigits(s: string)
    requires AllDigits(s)
    ensures ToLower(s) == s
  {
  }

  // ---------------------------------------------------------------- searching

  predicate StartsWith(s: string, prefix: string) {
    |prefix| <= |s| && s[..|prefix|] == prefix
  }

  /** strings.HasSuffix. */
  predicate HasSuffix(s: string, suffix: string) {
    |suffix| <= |s| && s[|s| - |suffix|..] == suffix
  }

  /** strings.Contains: sub occurs somewhere in s. */
  predicate Contains(s: string, sub: string)
    decreases |s|
  {
    StartsWith(s, sub) || (s != [] && Contains(s[1..], sub))
  }

  /** strings.ReplaceAll(s, [c], ""): s with every c deleted. */
  function RemoveAll(s: string, c: char): (r: string)
    ensures c !in r
    ensures |r| <= |s|
  {
    if s == [] then [] else (if s[0] == c then [] else [s[0]]) + RemoveAll(s[1..], c)
  }

  // ---------------------------------------------------------------- split and join

  /** strings.Join(parts, sep). */
  function Join(parts: seq<string>, sep: string): string
    decreases |parts|
  {
    if |parts| == 0 then []
    else if |parts| == 1 then parts[0]
    else parts[0] + sep + Join(parts[1..], sep)
  }

  /** strings.Split(s, [sep]): the pieces between the separators, in order;
      one more piece than there are separators. */
  function Split(s: string, sep: char): (parts: seq<string>)
    ensures |parts| >= 1
    ensures forall k :: 0 <= k < |parts| ==> sep !in parts[k]
    decreases |s|
  {
    if s == [] then [[]]
    else
      var rest := Split(s[1..], sep);
      if s[0] == sep then [[]] + rest
      else [[s[0]] + rest[0]] + rest[1..]
  }

  lemma JoinCons(c: char, parts: seq<string>, sep: string)
    requires |parts| >= 1
    ensures Join([[c] + parts[0]] + parts[1..], sep) == [c] + Join(parts, sep)
  {
    var q := [[c] + parts[0]] + parts[1..];
    assert q[1..] == parts[1..];
  }

  /** Joining the pieces of a split gives the text back. */
  lemma {:induction false} JoinSplit(s: string, sep: char)
    ensures Join(Split(s, sep), [sep]) == s
    decreases |s|
  {
    if s != [] {
      var rest := Split(s[1..], sep);
      JoinSplit(s[1..], sep);
      if s[0] == sep {
        assert ([[]] + rest)[1..] == rest;
      } else {
        JoinCons(s[0], rest, [sep]);
      }
    }
  }

  /** Splitting a text without separators gives the text alone. */
  lemma {:induction false} SplitWithoutSeparator(s: string, sep: char)
    requires sep !in s
    ensures Split(s, sep) == [s]
    decreases |s|
  {
    if s != [] {
      SplitWithoutSeparator(s[1..], sep);
      assert [s[0]] + s[1..] == s;
    }
  }

  /** A separator after a separator-free piece a cuts exactly a off. */
  lemma {:induction false} SplitAfterPiece(a: string, b: string, sep: char)
    requires sep !in a
    ensures Split(a + [sep] + b, sep) == [a] + Split(b, sep)
    decreases |a|
  {
    var s := a + [sep] + b;
    if a == [] {
      assert s[1..] == b;
    } else {
      assert s[1..] == a[1..] + [sep] + b;
      SplitAfterPiece(a[1..], b, sep);
      assert [a[0]] + a[1..] == a;
    }
  }

  /** Splitting a join of separator-free pieces gives those pieces back
      (the step from the joined transaction lines back to the lines). */
  lemma {:induction false} SplitJoin(parts: seq<string>, sep: char)
    requires |parts| >= 1
    requires forall k :: 0 <= k < |parts| ==> sep !in parts[k]
    ensures Split(Join(parts, [sep]), sep) == parts
    decreases |parts|
  {
    if |parts| == 1 {
      SplitWithoutSeparator(parts[0], sep);
    } else {
      SplitJoin(parts[1..], sep);
      SplitAfterPiece(parts[0], Join(parts[1..], [sep]), sep);
      assert [parts[0]] + parts[1..] == parts;
    }
  }

  // ---------------------------------------------------------------- decimal digits

  predicate AllDigits(s: string) {
    forall i :: 0 <= i < |s| ==> IsDigit(s[i])
  }

  function DigitValue(c: char): nat
    requires IsDigit(c)
  {
    c as int - '0' as int
  }

  function DigitChar(d: nat): (c: char)
    requires d < 10
    ensures IsDigit(c) && DigitValue(c) == d
  {
    ('0' as int + d) as char
  }

  function Pow10(k: nat): (p: nat)
    ensures p >= 1
  {
    if k == 0 then 1 else 10 * Pow10(k - 1)
  }

  /** The number a string of decimal digits spells. */
  function DigitsValue(s: string): nat
    requires AllDigits(s)
  {
    if s == [] then 0 else DigitsValue(s[..|s| - 1]) * 10 + DigitValue(s[|s| - 1])
  }

  /** The last k decimal digits of n, zero-padded on the left. */
  function Pad(n: nat, k: nat): (s: string)
    ensures |s| == k && AllDigits(s)
  {
    if k == 0 then [] else Pad(n / 10, k - 1) + [DigitChar(n % 10)]
  }

  /** strconv.Itoa on a non-negative number: decimal digits, no leading zero. */
  function NatToString(n: nat): (s: string)
    ensures |s| >= 1 && AllDigits(s)
  {
    if n < 10 then [DigitChar(n)] else NatToString(n / 10) + [DigitChar(n % 10)]
  }

  /** strconv.Itoa. */
  function Itoa(n: int): string {
    if n < 0 then "-" + NatToString(-n) else NatToString(n)
  }

  lemma {:induction false} PadValue(n: nat, k: nat)
    requires n < Pow10(k)
    ensures DigitsValue(Pad(n, k)) == n
  {
    if k > 0 {
      var s := Pad(n, k);
      assert s[..|s| - 1] == Pad(n / 10, k - 1);
      PadValue(n / 10, k - 1);
    }
  }

  lemma {:induction false} PadOfValue(s: string)
    requires AllDigits(s)
    ensures Pad(DigitsValue(s), |s|) == s
    decreases |s|
  {
    if s != [] {
      var init := s[..|s| - 1];
      var v := DigitsValue(s);
      assert v / 10 == DigitsValue(init) && v % 10 == DigitValue(s[|s| - 1]);
      PadOfValue(init);
      assert init + [s[|s| - 1]] == s;
    }
  }

  lemma {:induction false} DigitsValueBound(s: string)
    requires AllDigits(s)
    ensures DigitsValue(s) < Pow10(|s|)
    decreases |s|
  {
    if s != [] {
      DigitsValueBound(s[..|s| - 1]);
    }
  }

  lemma {:induction false} DigitsValueConcat(a: string, b: string)
    requires AllDigits(a) && AllDigits(b)
    ensures AllDigits(a + b)
    ensures DigitsValue(a + b) == DigitsValue(a) * Pow10(|b|) + DigitsValue(b)
    decreases |b|
  {
    assert AllDigits(a + b);
    if b == [] {
      assert a + b == a;
    } else {
      var b' := b[..|b| - 1];
      var c := b[|b| - 1];
      assert (a + b)[..|a + b| - 1] == a + b';
      assert (a + b)[|a + b| - 1] == c;
      DigitsValueConcat(a, b');
      assert DigitsValue(a + b) == DigitsValue(a + b') * 10 + DigitValue(c);
      assert DigitsValue(b) == DigitsValue(b') * 10 + DigitValue(c);
      ShiftDigit(DigitsValue(a), DigitsValue(b'), Pow10(|b'|), DigitValue(c));
    }
  }

  lemma ShiftDigit(x: nat, y: nat, p: nat, d: nat)
    ensures (x * p + y) * 10 + d == x * (p * 10) + (y * 10 + d)
  {
  }

  /** NatToString and Pad write the same digits once the width fits. */
  lemma {:induction false} NatToStringIsPad(n: nat)
    ensures NatToString(n) == Pad(n, |NatToString(n)|)
  {
    if n >= 10 {
      NatToStringIsPad(n / 10);
    }
  }

  /** The length of strconv.Itoa(n) for n >= 0 is its number of digits. */
  lemma {:induction false} NatToStringLength(n: nat)
    ensures n < 10 ==> |NatToString(n)| == 1
    ensures 10 <= n ==> |NatToString(n)| == |NatToString(n / 10)| + 1
    ensures |NatToString(n)| == 4 <==> 1000 <= n <= 9999
    ensures |NatToString(n)| > 4 <==> n > 9999
  {
    if n >= 10 {
      NatToStringLength(n / 10);
    }
  }

  /** A four-digit year is written with exactly four digits. */
  lemma YearText(year: int)
    requires 1000 <= year <= 9999
    ensures Itoa(year) == Pad(year, 4)
  {
    NatToStringLength(year);
    NatToStringIsPad(year);
  }
}
