/**
 * Calendar dates and the two time.Parse layouts the parser uses:
 * "02Jan2006" for the transaction dates (parser.go, parseDate) and
 * "02 Jan 2006" for the statement date (parser.go, extractStatementDate).
 */
module Dates {
  import opened Wrappers
  import opened Strings

  /** A date as (year, month, day); time zones and clock time are not modelled. */
  datatype Date = Date(year: int, month: int, day: int)

  /** Go's zero time.Time falls on 1 January of year 1. */
  const ZERO_DATE := Date(1, 1, 1)

  const MONTH_NAMES: seq<string> :=
    ["Jan", "Feb", "Mar", "Apr", "May", "Jun", "Jul", "Aug", "Sep", "Oct", "Nov", "Dec"]

  const LOWER_MONTH_NAMES: seq<string> :=
    ["jan", "feb", "mar", "apr", "may", "jun", "jul", "aug", "sep", "oct", "nov", "dec"]

  predicate IsLeap(year: int) {
    year % 4 == 0 && (year % 100 != 0 || year % 400 == 0)
  }

  function DaysIn(month: int, year: int): (n: int)
    requires 1 <= month <= 12
    ensures 28 <= n <= 31
  {
    if month == 2 then (if IsLeap(year) then 29 else 28)
    else if month == 4 || month == 6 || month == 9 || month == 11 then 30
    else 31
  }

  /** A real calendar day: the check time.Parse makes once all fields are read. */
  predicate IsValid(d: Date) {
    1 <= d.month <= 12 && 1 <= d.day <= DaysIn(d.month, d.year)
  }

  /** A date whose year the layout's four year digits can express. */
  predicate IsWritable(d: Date) {
    IsValid(d) && 0 <= d.year <= 9999
  }

  function Validated(d: Date): (r: Option<Date>)
    requires 1 <= d.month <= 12
    ensures r.Some? <==> IsValid(d)
    ensures r.Some? ==> r.value == d
  {
    if 1 <= d.day <= DaysIn(d.month, d.year) then Some(d) else None
  }

  // ---------------------------------------------------------------- month names

  function LookupLower(lower: string, k: nat): (r: Option<int>)
    requires k <= 12
    ensures r.Some? ==> k < r.value <= 12 && lower == LOWER_MONTH_NAMES[r.value - 1]
    ensures r.Some? ==> forall j :: k <= j < r.value - 1 ==> lower != LOWER_MONTH_NAMES[j]
    ensures r.None? ==> forall j :: k <= j < 12 ==> lower != LOWER_MONTH_NAMES[j]
    decreases 12 - k
  {
    if k == 12 then None
    else if lower == LOWER_MONTH_NAMES[k] then Some(k + 1)
    else LookupLower(lower, k + 1)
  }

  /** The month-name lookup of Go's time package: the number of the first
      three-letter abbreviation equal to s when case is ignored. */
  function LookupMonth(s: string): (r: Option<int>)
    ensures r.Some? ==> 1 <= r.value <= 12 && EqualIgnoringCase(s, MONTH_NAMES[r.value - 1])
    ensures r.None? ==> forall j :: 0 <= j < 12 ==> !EqualIgnoringCase(s, MONTH_NAMES[j])
  {
    LowerMonthNames();
    LookupLower(ToLower(s), 0)
  }

  lemma LowerMonthNames()
    ensures forall j :: 0 <= j < 12 ==> ToLower(MONTH_NAMES[j]) == LOWER_MONTH_NAMES[j]
    ensures forall j :: 0 <= j < 12 ==> ToLower(ToUpper(MONTH_NAMES[j])) == LOWER_MONTH_NAMES[j]
  {
    forall j | 0 <= j < 12
      ensures ToLower(MONTH_NAMES[j]) == LOWER_MONTH_NAMES[j]
    {
      var name := MONTH_NAMES[j];
      assert |name| == 3;
      assert ToLower(name)[0] == LOWER_MONTH_NAMES[j][0];
      assert ToLower(name)[1] == LOWER_MONTH_NAMES[j][1];
      assert ToLower(name)[2] == LOWER_MONTH_NAMES[j][2];
    }
    forall j | 0 <= j < 12
      ensures ToLower(ToUpper(MONTH_NAMES[j])) == LOWER_MONTH_NAMES[j]
    {
      ToLowerOfCase(MONTH_NAMES[j]);
    }
  }

  /** The lower-case abbreviations are pairwise different. */
  lemma LowerMonthNamesDistinct(i: nat, j: nat)
    requires i < j < 12
    ensures LOWER_MONTH_NAMES[i] != LOWER_MONTH_NAMES[j]
  {
    var a, b := LOWER_MONTH_NAMES[i], LOWER_MONTH_NAMES[j];
    assert a[0] != b[0] || a[1] != b[1] || a[2] != b[2];
  }

  /** Every month's abbreviation, in any case, is found as that month. */
  lemma LookupMonthName(m: int, name: string)
    requires 1 <= m <= 12
    requires EqualIgnoringCase(name, MONTH_NAMES[m - 1])
    ensures LookupMonth(name) == Some(m)
  {
    var lower := ToLower(name);
    assert lower == LOWER_MONTH_NAMES[m - 1] by {
      LowerMonthNames();
    }
    var r := LookupLower(lower, 0);
    assert r.Some? && r.value <= m;
    if r.value < m {
      LowerMonthNamesDistinct(r.value - 1, m - 1);
    }
    assert LookupMonth(name) == r;
  }

  // ---------------------------------------------------------------- layout "02Jan2006"

  /** time.Parse("02Jan2006", s): exactly two day digits, a month
      abbreviation in any case, exactly four year digits, nothing after,
      and a day the month has. */
  function ParseCompact(s: string): (r: Option<Date>)
    ensures r.Some? ==> IsWritable(r.value)
  {
    if |s| == 9 && AllDigits(s[..2]) && AllDigits(s[5..]) then
      match LookupMonth(s[2..5])
      case None => None
      case Some(m) =>
        DigitsValueBound(s[5..]);
        Validated(Date(DigitsValue(s[5..]), m, DigitsValue(s[..2])))
    else None
  }

  /** The text parseDate hands to time.Parse: the first three characters
      upper-cased and the rest lower-cased. */
  function Normalize(s: string): string
    requires |s| >= 3
  {
    ToUpper(s[..3]) + ToLower(s[3..])
  }

  /** parseDate (parser.go): parse a date written like "12SEP2025". */
  function ParseDate(s: string): (r: Option<Date>)
    requires |s| >= 3
    ensures r.Some? ==> IsWritable(r.value)
  {
    ParseCompact(Normalize(s))
  }

  /** time.Format("02Jan2006", d). */
  function FormatCompact(d: Date): (s: string)
    requires IsWritable(d)
    ensures |s| == 9
  {
    Pad(d.day, 2) + MONTH_NAMES[d.month - 1] + Pad(d.year, 4)
  }

  /** ParseCompact only looks at the letters' lower case. */
  lemma ParseCompactIgnoresCase(s: string, t: string)
    requires EqualIgnoringCase(s, t)
    ensures ParseCompact(s) == ParseCompact(t)
  {
    if |s| == 9 {
      assert ToLower(s)[..2] == ToLower(s[..2]) && ToLower(t)[..2] == ToLower(t[..2]);
      assert ToLower(s)[5..] == ToLower(s[5..]) && ToLower(t)[5..] == ToLower(t[5..]);
      assert ToLower(s)[2..5] == ToLower(s[2..5]) && ToLower(t)[2..5] == ToLower(t[2..5]);
      if AllDigits(s[..2]) {
        forall i | 0 <= i < 2 ensures t[i] == s[i] {
          assert ToLower(s)[i] == ToLower(t)[i];
          SameDigit(t[i], s[i]);
        }
        assert t[..2] == s[..2];
      }
      if AllDigits(t[..2]) {
        forall i | 0 <= i < 2 ensures s[i] == t[i] {
          assert ToLower(s)[i] == ToLower(t)[i];
          SameDigit(s[i], t[i]);
        }
        assert t[..2] == s[..2];
      }
      if AllDigits(s[5..]) {
        forall i | 5 <= i < 9 ensures t[i] == s[i] {
          assert ToLower(s)[i] == ToLower(t)[i];
          SameDigit(t[i], s[i]);
        }
        assert t[5..] == s[5..];
      }
      if AllDigits(t[5..]) {
        forall i | 5 <= i < 9 ensures s[i] == t[i] {
          assert ToLower(s)[i] == ToLower(t)[i];
          SameDigit(s[i], t[i]);
        }
        assert t[5..] == s[5..];
      }
      assert ToLower(s[2..5]) == ToLower(t[2..5]);
    }
  }

  /** The normalisation parseDate applies changes letters' case only. */
  lemma NormalizeIgnoresCase(s: string)
    requires |s| >= 3
    ensures EqualIgnoringCase(Normalize(s), s)
  {
    ToLowerConcat(ToUpper(s[..3]), ToLower(s[3..]));
    ToLowerOfCase(s[..3]);
    ToLowerOfCase(s[3..]);
    ToLowerConcat(s[..3], s[3..]);
    assert s[..3] + s[3..] == s;
  }

  lemma FormatCompactParses(d: Date)
    requires IsWritable(d)
    ensures ParseCompact(FormatCompact(d)) == Some(d)
  {
    var s := FormatCompact(d);
    assert s[..2] == Pad(d.day, 2);
    assert s[2..5] == MONTH_NAMES[d.month - 1];
    assert s[5..] == Pad(d.year, 4);
    PadValue(d.day, 2);
    PadValue(d.year, 4);
    LookupMonthName(d.month, MONTH_NAMES[d.month - 1]);
  }

  /** A text ParseCompact reads as d is d's own text up to letter case. */
  lemma ParsedCompactIsFormat(n: string, d: Date)
    requires ParseCompact(n) == Some(d)
    ensures IsWritable(d) && EqualIgnoringCase(n, FormatCompact(d))
  {
    var m := LookupMonth(n[2..5]).value;
    assert m == d.month;
    var day, month, year := n[..2], n[2..5], n[5..];
    PadOfValue(day);
    PadOfValue(year);
    assert day == Pad(d.day, 2) && year == Pad(d.year, 4);
    assert n == day + month + year;
    assert ToLower(month) == ToLower(MONTH_NAMES[m - 1]);
    ToLowerConcat(day + month, year);
    ToLowerConcat(day, month);
    ToLowerConcat(day + MONTH_NAMES[m - 1], year);
    ToLowerConcat(day, MONTH_NAMES[m - 1]);
  }

  /** parseDate accepts exactly the texts that spell a real date in the
      "02Jan2006" layout, in any letter case, and reads that date. */
  lemma ParseDateExactly(s: string, d: Date)
    requires |s| >= 3
    ensures ParseDate(s) == Some(d) <==> IsWritable(d) && EqualIgnoringCase(s, FormatCompact(d))
  {
    var n := Normalize(s);
    NormalizeIgnoresCase(s);
    if IsWritable(d) && EqualIgnoringCase(s, FormatCompact(d)) {
      ParseCompactIgnoresCase(n, FormatCompact(d));
      FormatCompactParses(d);
    }
    if ParseDate(s) == Some(d) {
      ParsedCompactIsFormat(n, d);
    }
  }

  /** Two digits, three letters, four digits. */
  predicate CompactShape(s: string) {
    |s| == 9 && AllDigits(s[..2]) && AllDigits(s[5..]) && forall i :: 2 <= i < 5 ==> IsLetter(s[i])
  }

  /** What a string parseDate accepts looks like: two digits, three
      letters, four digits. */
  lemma ParseDateShape(s: string)
    requires |s| >= 3 && ParseDate(s).Some?
    ensures |s| == 9
    ensures AllDigits(s[..2]) && AllDigits(s[5..])
    ensures forall i :: 2 <= i < 5 ==> IsLetter(s[i])
  {
    var d := ParseDate(s).value;
    ParseDateExactly(s, d);
    FormatCompactShape(d);
    CaseKeepsShape(s, FormatCompact(d));
  }

  lemma FormatCompactShape(d: Date)
    requires IsWritable(d)
    ensures CompactShape(FormatCompact(d))
  {
    var f := FormatCompact(d);
    var name := MONTH_NAMES[d.month - 1];
    assert f[..2] == Pad(d.day, 2) && f[5..] == Pad(d.year, 4);
    assert f[2..5] == name;
    assert IsLetter(name[0]) && IsLetter(name[1]) && IsLetter(name[2]);
  }

  /** Changing the case of letters keeps digits and letters in place. */
  lemma CaseKeepsShape(s: string, f: string)
    requires EqualIgnoringCase(s, f) && CompactShape(f)
    ensures CompactShape(s)
  {
    assert |s| == |ToLower(s)|;
    forall i | 0 <= i < 9 ensures LowerChar(s[i]) == LowerChar(f[i]) {
      assert ToLower(s)[i] == ToLower(f)[i];
    }
    forall i | 0 <= i < 2 ensures IsDigit(s[i]) {
      assert f[..2][i] == f[i];
      SameDigit(s[i], f[i]);
    }
    forall i | 5 <= i < 9 ensures IsDigit(s[i]) {
      assert f[5..][i - 5] == f[i];
      SameDigit(s[i], f[i]);
    }
    forall i | 2 <= i < 5 ensures IsLetter(s[i]) {
      SameLetter(s[i], f[i]);
    }
  }

  /** The merged text "12SEP" + strconv.Itoa(year) reads as a date of that
      year exactly when the five characters name that day and month. */
  lemma DateWithYear(p: string, year: int, d: Date)
    requires |p| == 5 && 1000 <= year <= 9999 && d.year == year
    ensures ParseDate(p + Itoa(year)) == Some(d)
        <==> IsValid(d) && EqualIgnoringCase(p, Pad(d.day, 2) + MONTH_NAMES[d.month - 1])
  {
    YearText(year);
    var s := p + Itoa(year);
    ParseDateExactly(s, d);
    if IsValid(d) {
      var f := FormatCompact(d);
      var head := Pad(d.day, 2) + MONTH_NAMES[d.month - 1];
      assert f == head + Pad(year, 4);
      ToLowerConcat(p, Pad(year, 4));
      ToLowerConcat(head, Pad(year, 4));
      assert ToLower(s) == ToLower(f) ==> ToLower(s)[..5] == ToLower(f)[..5];
    }
  }

  /** A year that strconv.Itoa does not write with four digits makes every
      date text fail: always for a negative year or one above 9999, and for
      years below 1000 when the date phrase has its five characters. */
  lemma DateNeedsFourDigitYear(p: string, year: int)
    requires year < 0 || year > 9999 || (year < 1000 && |p| == 5)
    requires |p + Itoa(year)| >= 3
    ensures ParseDate(p + Itoa(year)) == None
  {
    var y := Itoa(year);
    var s := p + y;
    if year < 0 {
      NatToStringLength(-year);
      assert s[|p|] == '-';
    } else if year > 9999 {
      NatToStringLength(year);
      assert |p| <= 4 ==> s[4] == y[4 - |p|] && IsDigit(s[4]);
    } else {
      NatToStringLength(year);
    }
    if ParseDate(s).Some? {
      ParseDateShape(s);
    }
  }

  // ---------------------------------------------------------------- layout "02 Jan 2006"

  /** Go's cutspace: the text after its leading ' ' characters (tabs stay). */
  function DropSpaces(s: string): (r: string)
    ensures |r| <= |s|
    ensures r == [] || r[0] != ' '
  {
    if s != [] && s[0] == ' ' then DropSpaces(s[1..]) else s
  }

  /** The pieces of "02 Jan 2006" in s: two day digits, then after a
      space and any further spaces three month characters, then after a
      space and any further spaces the rest as the year. */
  function SpacedFields(s: string): (r: Option<(string, string, string)>)
    ensures r.Some? ==> |r.value.0| == 2 && AllDigits(r.value.0)
  {
    if |s| < 2 || !AllDigits(s[..2]) || |s| == 2 || s[2] != ' ' then None
    else
      var v := DropSpaces(s[2..]);
      if |v| < 3 then None
      else
        var w := v[3..];
        if w == [] || w[0] != ' ' then None
        else Some((s[..2], v[..3], DropSpaces(w)))
  }

  /** time.Parse("02 Jan 2006", s): two day digits, one or more spaces, a
      month abbreviation in any case, one or more spaces, exactly four year
      digits, nothing after, and a day the month has. */
  function ParseSpaced(s: string): (r: Option<Date>)
    ensures r.Some? ==> IsWritable(r.value)
  {
    match SpacedFields(s)
    case None => None
    case Some((day, name, year)) =>
      match LookupMonth(name)
      case None => None
      case Some(m) =>
        if |year| != 4 || !AllDigits(year) then None
        else
          DigitsValueBound(year);
          Validated(Date(DigitsValue(year), m, DigitsValue(day)))
  }

  /** n space characters. */
  function Spaces(n: nat): (s: string)
    ensures |s| == n
  {
    if n == 0 then [] else [' '] + Spaces(n - 1)
  }

  /** A text of layout "02 Jan 2006" for d: the day's two digits, gap1
      spaces, a spelling of the month abbreviation, gap2 spaces and the
      year's four digits. */
  function SpacedText(d: Date, gap1: nat, name: string, gap2: nat): string
    requires IsWritable(d)
  {
    Pad(d.day, 2) + (Spaces(gap1) + (name + (Spaces(gap2) + Pad(d.year, 4))))
  }

  /** The texts layout "02 Jan 2006" reads as d: at least one space in
      each gap and the month abbreviation in any letter case. */
  ghost predicate IsSpacedTextOf(s: string, d: Date) {
    IsWritable(d)
    && exists gap1: nat, name: string, gap2: nat ::
         gap1 >= 1 && gap2 >= 1 && EqualIgnoringCase(name, MONTH_NAMES[d.month - 1])
         && s == SpacedText(d, gap1, name, gap2)
  }

  /** Leading spaces are what cutspace removes. */
  lemma {:induction false} DropSpacesAfter(n: nat, t: string)
    requires t == [] || t[0] != ' '
    ensures DropSpaces(Spaces(n) + t) == t
    decreases n
  {
    var u := Spaces(n) + t;
    if n > 0 {
      assert Spaces(n) == [' '] + Spaces(n - 1);
      assert u == [' '] + (Spaces(n - 1) + t);
      assert u[0] == ' ' && u[1..] == Spaces(n - 1) + t;
      DropSpacesAfter(n - 1, t);
    } else {
      assert u == t;
    }
  }

  /** cutspace removes a run of spaces from the front, and nothing else. */
  lemma {:induction false} DropSpacesSplit(s: string) returns (n: nat)
    ensures s == Spaces(n) + DropSpaces(s)
    ensures s != [] && s[0] == ' ' ==> n >= 1
    decreases |s|
  {
    var r := DropSpaces(s);
    if s != [] && s[0] == ' ' {
      var t := s[1..];
      assert r == DropSpaces(t);
      var k := DropSpacesSplit(t);
      SpacesCons(k, r);
      assert s == [' '] + t;
      n := k + 1;
    } else {
      assert Spaces(0) == [];
      n := 0;
    }
  }

  lemma SpacesCons(k: nat, r: string)
    ensures [' '] + (Spaces(k) + r) == Spaces(k + 1) + r
  {
    assert Spaces(k + 1) == [' '] + Spaces(k);
  }

  /** A spelling of a month abbreviation has three characters and starts
      with a letter. */
  lemma MonthSpelling(name: string, m: int)
    requires 1 <= m <= 12 && EqualIgnoringCase(name, MONTH_NAMES[m - 1])
    ensures |name| == 3 && IsLetter(name[0])
  {
    LowerMonthNames();
    assert |ToLower(name)| == |name|;
    assert ToLower(name)[0] == LowerChar(name[0]);
    assert IsLetter(LOWER_MONTH_NAMES[m - 1][0]);
  }

  /** The fields come back apart from day digits, spaces, a name, spaces
      and a year. */
  lemma SpacedFieldsOf(day: string, gap1: nat, name: string, gap2: nat, year: string)
    requires |day| == 2 && AllDigits(day) && gap1 >= 1 && gap2 >= 1
    requires |name| == 3 && name[0] != ' ' && (year == [] || year[0] != ' ')
    ensures SpacedFields(day + (Spaces(gap1) + (name + (Spaces(gap2) + year))))
      == Some((day, name, year))
  {
    var w := Spaces(gap2) + year;
    var v := name + w;
    SpacesFirst(day, gap1, v);
    SpacesFirst(name[..0], gap2, year);
    assert v[..3] == name && v[3..] == w;
  }

  /** After a prefix come the spaces, and cutspace removes exactly them. */
  lemma SpacesFirst(pre: string, gap: nat, rest: string)
    requires gap >= 1 && (rest == [] || rest[0] != ' ')
    ensures var s := pre + (Spaces(gap) + rest);
      s[..|pre|] == pre && s[|pre|] == ' ' && DropSpaces(s[|pre|..]) == rest
  {
    var s := pre + (Spaces(gap) + rest);
    assert s[|pre|..] == Spaces(gap) + rest;
    assert Spaces(gap)[0] == ' ';
    DropSpacesAfter(gap, rest);
  }

  /** Every text of the layout's shape reads as its date. */
  lemma SpacedTextParses(d: Date, gap1: nat, name: string, gap2: nat)
    requires IsWritable(d) && gap1 >= 1 && gap2 >= 1
    requires EqualIgnoringCase(name, MONTH_NAMES[d.month - 1])
    ensures ParseSpaced(SpacedText(d, gap1, name, gap2)) == Some(d)
  {
    var day, year := Pad(d.day, 2), Pad(d.year, 4);
    MonthSpelling(name, d.month);
    assert year[0] != ' ' by {
      assert IsDigit(year[0]);
    }
    var s := SpacedText(d, gap1, name, gap2);
    assert s == day + (Spaces(gap1) + (name + (Spaces(gap2) + year)));
    SpacedFieldsOf(day, gap1, name, gap2, year);
    LookupMonthName(d.month, name);
    PadValue(d.day, 2);
    PadValue(d.year, 4);
    ParseSpacedOfFields(s, day, name, year, d.month);
    assert Date(DigitsValue(year), d.month, DigitsValue(day)) == d;
  }

  /** ParseSpaced once the fields are apart and the month is known. */
  lemma ParseSpacedOfFields(s: string, day: string, name: string, year: string, m: int)
    requires SpacedFields(s) == Some((day, name, year)) && LookupMonth(name) == Some(m)
    ensures AllDigits(day)
    ensures ParseSpaced(s) == if |year| == 4 && AllDigits(year)
      then Validated(Date(DigitsValue(year), m, DigitsValue(day))) else None
  {
  }

  /** Every text the layout reads as d has the layout's shape. */
  lemma ParsedSpacedIsText(s: string, d: Date)
    requires ParseSpaced(s) == Some(d)
    ensures IsSpacedTextOf(s, d)
  {
    var gap1, name, gap2 := ParsedSpacedPieces(s, d);
  }

  /** The gaps and the month spelling of a text the layout reads. */
  lemma ParsedSpacedPieces(s: string, d: Date) returns (gap1: nat, name: string, gap2: nat)
    requires ParseSpaced(s) == Some(d)
    ensures IsWritable(d) && gap1 >= 1 && gap2 >= 1 && EqualIgnoringCase(name, MONTH_NAMES[d.month - 1])
    ensures s == SpacedText(d, gap1, name, gap2)
  {
    gap1, gap2 := SpacedFieldsSplit(s);
    SpacedFieldsValues(s, d);
    name := SpacedFields(s).value.1;
  }

  /** The fields of a text the layout reads as d are d's day digits, a
      spelling of its month and its year digits. */
  lemma SpacedFieldsValues(s: string, d: Date)
    requires ParseSpaced(s) == Some(d)
    ensures SpacedFields(s).Some? && IsWritable(d)
    ensures var f := SpacedFields(s).value;
      Pad(d.day, 2) == f.0 && EqualIgnoringCase(f.1, MONTH_NAMES[d.month - 1]) && Pad(d.year, 4) == f.2
  {
    var f := SpacedFields(s).value;
    var day, year := f.0, f.2;
    var m := LookupMonth(f.1).value;
    ParseSpacedOfFields(s, day, f.1, year, m);
    assert |year| == 4 && AllDigits(year);
    assert d == Date(DigitsValue(year), m, DigitsValue(day));
    PadOfValue(day);
    PadOfValue(year);
  }

  /** What SpacedFields takes apart is day, spaces, name, spaces, year. */
  lemma SpacedFieldsSplit(s: string) returns (gap1: nat, gap2: nat)
    requires SpacedFields(s).Some?
    ensures var (day, name, year) := SpacedFields(s).value;
      gap1 >= 1 && gap2 >= 1 && s == day + (Spaces(gap1) + (name + (Spaces(gap2) + year)))
  {
    var (day, name, year) := SpacedFields(s).value;
    var u := s[2..];
    assert s == day + u;
    var v := DropSpaces(u);
    var w := v[3..];
    assert name == v[..3] && year == DropSpaces(w);
    gap1 := DropSpacesSplit(u);
    gap2 := DropSpacesSplit(w);
    assert v == name + w;
    assert w == Spaces(gap2) + year;
    assert v == name + (Spaces(gap2) + year);
    assert u == Spaces(gap1) + (name + (Spaces(gap2) + year));
  }

  /** Layout "02 Jan 2006" reads s as d exactly when s is d's day, one or
      more spaces, its month abbreviation in any case, one or more spaces
      and its year. */
  lemma ParseSpacedExactly(s: string, d: Date)
    ensures ParseSpaced(s) == Some(d) <==> IsSpacedTextOf(s, d)
  {
    if ParseSpaced(s) == Some(d) {
      ParsedSpacedIsText(s, d);
    }
    if IsSpacedTextOf(s, d) {
      var gap1: nat, name: string, gap2: nat :| gap1 >= 1 && gap2 >= 1
        && EqualIgnoringCase(name, MONTH_NAMES[d.month - 1]) && s == SpacedText(d, gap1, name, gap2);
      SpacedTextParses(d, gap1, name, gap2);
    }
  }

  /** A date as a statement prints it, "13 OCT 2025". */
  function StatementDateText(d: Date): string
    requires IsWritable(d)
  {
    Pad(d.day, 2) + " " + ToUpper(MONTH_NAMES[d.month - 1]) + " " + Pad(d.year, 4)
  }

  /** Day digits, a space, a name, a space and the year: the pieces come
      back apart. */
  lemma SpacedFieldsAt(s: string, day: string, name: string, year: string)
    requires |s| >= 8 && s[..2] == day && AllDigits(day) && s[2] == ' '
    requires s[3..6] == name && name[0] != ' ' && s[6] == ' '
    requires s[7..] == year && year[0] != ' '
    ensures SpacedFields(s) == Some((day, name, year))
  {
    assert s[2..][1..] == s[3..];
    assert DropSpaces(s[3..]) == s[3..];
    assert DropSpaces(s[2..]) == s[3..];
    assert s[3..][..3] == name;
    assert s[3..][3..] == s[6..];
    assert s[6..][1..] == s[7..];
    assert DropSpaces(s[7..]) == year;
    assert DropSpaces(s[6..]) == year;
  }

  /** The statement-date layout reads back every date it can express. */
  lemma StatementDateTextParses(d: Date)
    requires IsWritable(d)
    ensures ParseSpaced(StatementDateText(d)) == Some(d)
  {
    var name := ToUpper(MONTH_NAMES[d.month - 1]);
    StatementDateTextPieces(d);
    SpacedFieldsAt(StatementDateText(d), Pad(d.day, 2), name, Pad(d.year, 4));
    ToLowerOfCase(MONTH_NAMES[d.month - 1]);
    LookupMonthName(d.month, name);
    PadValue(d.day, 2);
    PadValue(d.year, 4);
  }

  lemma StatementDateTextPieces(d: Date)
    requires IsWritable(d)
    ensures var s := StatementDateText(d);
      var name := ToUpper(MONTH_NAMES[d.month - 1]);
      |s| == 11 && s[..2] == Pad(d.day, 2) && s[2] == ' ' && s[3..6] == name
      && name[0] != ' ' && s[6] == ' ' && s[7..] == Pad(d.year, 4) && Pad(d.year, 4)[0] != ' '
  {
    assert IsLetter(MONTH_NAMES[d.month - 1][0]);
  }
}
