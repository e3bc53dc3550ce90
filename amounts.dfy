/**
 * parseAmount (parser.go): settlement and local amounts as exact decimals.
 * The source parses with strconv.ParseFloat into a float64; here a number is
 * an integer mantissa and a decimal scale, and only the plain decimal forms
 * (sign, digits, point, digits) are accepted.
 */
module Amounts {
  import opened Wrappers
  import opened Strings

  /** The value mantissa / 10^scale; "8.99" is Decimal(899, 2). */
  datatype Decimal = Decimal(mantissa: int, scale: nat)

  /** The zero value of a float64 field. */
  const ZERO := Decimal(0, 0)

  /** The length of the run of digits at the front of s. */
  function DigitPrefix(s: string): (k: nat)
    ensures k <= |s| && AllDigits(s[..k])
    ensures k == |s| || !IsDigit(s[k])
  {
    if s != [] && IsDigit(s[0]) then
      var k := 1 + DigitPrefix(s[1..]);
      assert s[..k] == [s[0]] + s[1..][..k - 1];
      k
    else 0
  }

  function Signed(negative: bool, magnitude: nat, scale: nat): Decimal {
    Decimal(if negative then -(magnitude as int) else magnitude, scale)
  }

  /** The point of an unsigned plain decimal is at k: digits before it,
      digits after it, and at least one digit in all. */
  predicate PointAt(b: string, k: int) {
    0 <= k < |b| && b[k] == '.' && AllDigits(b[..k]) && AllDigits(b[k + 1..]) && |b| >= 2
  }

  /** The unsigned plain decimals: digits only ("5", "6873"), or digits
      with one point among them ("5.", ".5", "6873.00"). */
  predicate IsUnsignedText(b: string) {
    (b != [] && AllDigits(b)) || exists k :: 0 <= k < |b| && PointAt(b, k)
  }

  /** The plain decimals: an unsigned one with an optional '+' or '-'. */
  predicate IsDecimalText(t: string) {
    IsUnsignedText(t) || (t != [] && (t[0] == '+' || t[0] == '-') && IsUnsignedText(t[1..]))
  }

  /** The unsigned part of a plain decimal, as its digit value and its
      number of fraction digits. */
  function ParseUnsigned(body: string): Option<(nat, nat)> {
    var k := DigitPrefix(body);
    var whole := body[..k];
    var tail := body[k..];
    if tail == [] then
      if whole == [] then None else Some((DigitsValue(whole), 0))
    else if tail[0] != '.' || !AllDigits(tail[1..]) || (whole == [] && |tail| == 1) then None
    else
      DigitsValueConcat(whole, tail[1..]);
      Some((DigitsValue(whole + tail[1..]), |tail| - 1))
  }

  /** The grammar read through the run of leading digits: a text is an
      unsigned decimal exactly when after that run comes nothing (and the
      run is not empty) or a point, digits, and at least one digit in all. */
  lemma UnsignedShape(b: string)
    ensures var k := DigitPrefix(b);
      IsUnsignedText(b) <==>
        if k == |b| then k > 0
        else b[k] == '.' && AllDigits(b[k + 1..]) && |b| >= 2
  {
    var k := DigitPrefix(b);
    if IsUnsignedText(b) {
      UnsignedTextShape(b);
    } else if k == |b| {
      assert b[..k] == b;
    } else {
      assert !PointAt(b, k);
    }
  }

  lemma UnsignedTextShape(b: string)
    requires IsUnsignedText(b)
    ensures var k := DigitPrefix(b);
      if k == |b| then k > 0
      else b[k] == '.' && AllDigits(b[k + 1..]) && |b| >= 2
  {
    if b != [] && AllDigits(b) {
      DigitPrefixOf(b, []);
      assert b + [] == b;
    } else {
      var j :| 0 <= j < |b| && PointAt(b, j);
      DigitPrefixOf(b[..j], b[j..]);
      assert b[..j] + b[j..] == b;
    }
  }

  /** A text that starts with a sign is no unsigned decimal. */
  lemma SignedIsNotUnsigned(t: string)
    requires t != [] && (t[0] == '-' || t[0] == '+')
    ensures !IsUnsignedText(t)
  {
    assert !IsDigit(t[0]);
  }

  /** strconv.ParseFloat on the plain decimal forms: an optional '+' or '-'
      followed by an unsigned decimal ("5", "-5", "+5.", "-.5"). */
  function ParseNumber(t: string): Option<Decimal> {
    var negative := t != [] && t[0] == '-';
    var body := if t != [] && (t[0] == '-' || t[0] == '+') then t[1..] else t;
    match ParseUnsigned(body)
    case None => None
    case Some((m, sc)) => Some(Signed(negative, m, sc))
  }

  /** parseAmount: delete the thousands separators, trim, parse. */
  function ParseAmount(s: string): Option<Decimal> {
    ParseNumber(Trim(RemoveAll(s, ',')))
  }

  /** The unsigned part reads exactly when it is an unsigned plain decimal. */
  lemma ParseUnsignedExactly(b: string)
    ensures ParseUnsigned(b).Some? <==> IsUnsignedText(b)
  {
    UnsignedShape(b);
  }

  /** ParseFloat, as modelled, reads exactly the plain decimals. */
  lemma ParseNumberExactly(t: string)
    ensures ParseNumber(t).Some? <==> IsDecimalText(t)
  {
    if t != [] && (t[0] == '-' || t[0] == '+') {
      SignedIsNotUnsigned(t);
      ParseUnsignedExactly(t[1..]);
    } else {
      ParseUnsignedExactly(t);
    }
  }

  /** parseAmount succeeds exactly when, without its commas and trimmed,
      the text is a plain decimal. */
  lemma ParseAmountExactly(s: string)
    ensures ParseAmount(s).Some? <==> IsDecimalText(Trim(RemoveAll(s, ',')))
  {
    ParseNumberExactly(Trim(RemoveAll(s, ',')));
  }

  /** The plain decimal text of d: its sign, whole part, and when the scale
      is positive a point followed by exactly scale fraction digits. */
  function Format(d: Decimal): string {
    var a: nat := if d.mantissa < 0 then -d.mantissa else d.mantissa;
    var sign := if d.mantissa < 0 then "-" else "";
    if d.scale == 0 then sign + NatToString(a)
    else
      var p := Pow10(d.scale);
      DivMod(a, p);
      sign + NatToString(a / p) + "." + Pad(a % p, d.scale)
  }

  lemma DivMod(a: nat, p: nat)
    requires p >= 1
    ensures a / p >= 0 && 0 <= a % p < p
    ensures a == (a / p) * p + a % p
  {
  }

  lemma {:induction false} NatToStringValue(n: nat)
    ensures DigitsValue(NatToString(n)) == n
  {
    if n >= 10 {
      NatToStringValue(n / 10);
      var s := NatToString(n);
      assert s[..|s| - 1] == NatToString(n / 10);
    }
  }

  lemma {:induction false} DigitPrefixOf(x: string, y: string)
    requires AllDigits(x)
    requires y == [] || !IsDigit(y[0])
    ensures DigitPrefix(x + y) == |x|
    decreases |x|
  {
    if x != [] {
      assert (x + y)[1..] == x[1..] + y;
      DigitPrefixOf(x[1..], y);
    }
  }

  /** Digits alone read as their value with scale zero. */
  lemma ParseUnsignedWhole(whole: string)
    requires AllDigits(whole) && whole != []
    ensures ParseUnsigned(whole) == Some((DigitsValue(whole), 0))
  {
    DigitPrefixOf(whole, []);
    assert whole + [] == whole;
    assert whole[..|whole|] == whole;
  }

  /** The text of a whole number reads back with scale zero. */
  lemma ParseUnsignedNat(a: nat)
    ensures ParseUnsigned(NatToString(a)) == Some((a, 0))
  {
    ParseUnsignedWhole(NatToString(a));
    NatToStringValue(a);
  }

  /** Digits, a point and digits read back as the number the digits spell
      together, scaled by the count after the point. */
  lemma ParseUnsignedParts(whole: string, frac: string)
    requires whole + frac != [] && AllDigits(whole) && AllDigits(frac)
    ensures AllDigits(whole + frac)
    ensures ParseUnsigned(whole + "." + frac) == Some((DigitsValue(whole + frac), |frac|))
  {
    var tail := "." + frac;
    var body := whole + tail;
    assert whole + "." + frac == body;
    var k := DigitPrefix(body);
    assert k == |whole| && body[..k] == whole && body[k..] == tail by {
      DigitPrefixOf(whole, tail);
    }
    assert tail[1..] == frac;
    assert AllDigits(whole + frac);
  }

  /** Whole digits, a point and scale fraction digits read back as the
      value they spell with that scale. */
  lemma ParseUnsignedFraction(a: nat, p: nat, scale: nat)
    requires scale > 0 && p == Pow10(scale)
    ensures a / p >= 0 && 0 <= a % p < p
    ensures ParseUnsigned(NatToString(a / p) + "." + Pad(a % p, scale)) == Some((a, scale))
  {
    DivMod(a, p);
    var q: nat := a / p;
    var r: nat := a % p;
    var whole, frac := NatToString(q), Pad(r, scale);
    ParseUnsignedParts(whole, frac);
    DigitsValueConcat(whole, frac);
    NatToStringValue(q);
    PadValue(r, scale);
    assert DigitsValue(whole + frac) == a;
  }

  /** The text of d, less its sign, reads back as |mantissa| and scale. */
  lemma ParseUnsignedMagnitude(d: Decimal)
    ensures var a: nat := if d.mantissa < 0 then -d.mantissa else d.mantissa;
      var t := Format(d);
      var body := if d.mantissa < 0 then t[1..] else t;
      body != [] && IsDigit(body[0]) && ParseUnsigned(body) == Some((a, d.scale))
  {
    var a: nat := if d.mantissa < 0 then -d.mantissa else d.mantissa;
    var sign := if d.mantissa < 0 then "-" else "";
    var p := Pow10(d.scale);
    DivMod(a, p);
    var body := if d.scale == 0 then NatToString(a)
      else NatToString(a / p) + "." + Pad(a % p, d.scale);
    assert Format(d) == sign + body;
    assert (if d.mantissa < 0 then Format(d)[1..] else Format(d)) == body;
    if d.scale == 0 {
      ParseUnsignedNat(a);
    } else {
      ParseUnsignedFraction(a, p, d.scale);
    }
  }

  /** Every decimal reads back from its own text. */
  lemma ParseFormat(d: Decimal)
    ensures ParseNumber(Format(d)) == Some(d)
  {
    ParseUnsignedMagnitude(d);
  }

  /** The value of any plain decimal text, canonical or not: the digits
      before and after the point spell the mantissa, the digits after it
      give the scale, and a '-' makes it negative ("+007.50" is 750 at
      scale 2, "3." is 3 at scale 0). */
  lemma ParseNumberPieces(sign: string, whole: string, frac: string)
    requires sign == "" || sign == "+" || sign == "-"
    requires AllDigits(whole) && AllDigits(frac) && whole + frac != []
    ensures AllDigits(whole + frac)
    ensures ParseNumber(sign + (whole + "." + frac))
      == Some(Signed(sign == "-", DigitsValue(whole + frac), |frac|))
  {
    ParseUnsignedParts(whole, frac);
    var body := whole + "." + frac;
    if whole == [] {
      assert body[0] == '.';
    } else {
      assert body[0] == whole[0];
    }
    ParseNumberSigned(sign, body);
  }

  /** After a sign, or none, a text that starts with no sign is read as an
      unsigned decimal, negated after a '-'. */
  lemma ParseNumberSigned(sign: string, body: string)
    requires sign == "" || sign == "+" || sign == "-"
    requires body != [] && body[0] != '-' && body[0] != '+'
    requires ParseUnsigned(body).Some?
    ensures var (m, sc) := ParseUnsigned(body).value;
      ParseNumber(sign + body) == Some(Signed(sign == "-", m, sc))
  {
    var t := sign + body;
    if sign == "" {
      assert t == body;
    } else {
      assert t[1..] == body;
    }
  }

  /** Digits without a point, after an optional sign, are a whole number. */
  lemma ParseNumberWhole(sign: string, whole: string)
    requires sign == "" || sign == "+" || sign == "-"
    requires AllDigits(whole) && whole != []
    ensures ParseNumber(sign + whole) == Some(Signed(sign == "-", DigitsValue(whole), 0))
  {
    ParseUnsignedWhole(whole);
    ParseNumberSigned(sign, whole);
  }

  /** Leading zeros and a '+' are not what Format writes, yet the text
      reads. */
  lemma ZerosAndPlusAmount(t: string)
    requires t == "+007.50"
    ensures ParseAmount(t) == Some(Decimal(750, 2))
  {
    PlainAmount(t);
    ZerosAndPlusNumber(t);
  }

  lemma ZerosAndPlusNumber(t: string)
    requires t == "+007.50"
    ensures ParseNumber(t) == Some(Decimal(750, 2))
  {
    ParseNumberPieces("+", "007", "50");
    assert "+" + ("007" + "." + "50") == t && "007" + "50" == "00750";
    ZerosAndPlusDigits();
  }

  lemma ZerosAndPlusDigits()
    ensures DigitsValue("00750") == 750
  {
    assert "00750"[..4] == "0075" && "0075"[..3] == "007" && "007"[..2] == "00";
    assert "00"[..1] == "0" && "0"[..0] == "";
    assert DigitsValue("00") == 0 && DigitsValue("007") == 7 && DigitsValue("0075") == 75;
  }

  /** A point with no fraction digits after it reads with scale zero. */
  lemma TrailingPointAmount(t: string)
    requires t == "3."
    ensures ParseAmount(t) == Some(Decimal(3, 0))
  {
    PlainAmount(t);
    TrailingPointNumber(t);
  }

  lemma TrailingPointNumber(t: string)
    requires t == "3."
    ensures ParseNumber(t) == Some(Decimal(3, 0))
  {
    ParseNumberPieces("", "3", "");
    assert "" + ("3" + "." + "") == t && "3" + "" == "3";
    assert DigitsValue("3") == 3 by {
      assert "3"[..0] == "";
    }
  }

  /** parseAmount reads a text without commas or surrounding white space
      as ParseFloat does. */
  lemma PlainAmount(t: string)
    requires ',' !in t && IsTrimmed(t)
    ensures ParseAmount(t) == ParseNumber(t)
  {
    RemoveAllAbsent(t, ',');
  }

  lemma {:induction false} RemoveAllAbsent(s: string, c: char)
    requires c !in s
    ensures RemoveAll(s, c) == s
  {
    if s != [] {
      RemoveAllAbsent(s[1..], c);
      assert [s[0]] + s[1..] == s;
    }
  }

  /** parseAmount reads back every decimal's text. */
  lemma ParseAmountFormat(d: Decimal)
    ensures ParseAmount(Format(d)) == Some(d)
  {
    var t := Format(d);
    assert ',' !in t;
    assert IsTrimmed(t);
    PlainAmount(t);
    ParseFormat(d);
  }

  /** Thousands separators make no difference to parseAmount. */
  lemma {:induction false} ParseAmountIgnoresCommas(s: string)
    ensures ParseAmount(s) == ParseAmount(RemoveAll(s, ','))
  {
    RemoveAllAbsent(RemoveAll(s, ','), ',');
  }

  /** Only signs, digits and a point occur in a text that parses as a
      number: a phrase with a letter in it (a place name, "GBP",
      "6,873.00CR") is never an amount. */
  lemma NumberAlphabet(t: string, i: int)
    requires ParseNumber(t).Some? && 0 <= i < |t|
    ensures IsDigit(t[i]) || t[i] == '.' || t[i] == '-' || t[i] == '+'
  {
    var body := if t != [] && (t[0] == '-' || t[0] == '+') then t[1..] else t;
    var k := DigitPrefix(body);
    var off := |t| - |body|;
    if i >= off {
      var j := i - off;
      assert t[i] == body[j];
      if j < k {
        assert body[..k][j] == body[j];
      } else if j > k {
        assert body[k..][1..][j - k - 1] == body[j];
      }
    }
  }

  /** A text ending in a letter, such as a credit amount "6,873.00CR",
      is not an amount. */
  lemma LetterEndIsNoAmount(s: string)
    requires s != [] && IsLetter(s[|s| - 1])
    ensures ParseAmount(s) == None
  {
    var r := RemoveAll(s, ',');
    assert r != [] && r[|r| - 1] == s[|s| - 1] by {
      RemoveAllLast(s, ',');
    }
    var t := Trim(r);
    assert |t| > 0 && t[|t| - 1] == s[|s| - 1] by {
      TrimOfSpaceFreeEnd(r);
    }
    if ParseNumber(t).Some? {
      NumberAlphabet(t, |t| - 1);
    }
  }

  lemma {:induction false} RemoveAllLast(s: string, c: char)
    requires s != [] && s[|s| - 1] != c
    ensures RemoveAll(s, c) != [] && RemoveAll(s, c)[|RemoveAll(s, c)| - 1] == s[|s| - 1]
  {
    if |s| > 1 {
      RemoveAllLast(s[1..], c);
    }
  }
}
