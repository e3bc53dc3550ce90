/**
 * extractStatementType and extractStatementDate (parser.go): the two
 * linear scans over a statement's lines that find its card product and
 * its statement date.
 */
module Metadata {
  import opened Wrappers
  import opened Strings
  import opened Dates
  import opened Sections

  // ---------------------------------------------------------------- statement type

  const VISA_SIGNATURE := "HSBC Visa Signature"
  const HSBC_RED := "HSBC Red"

  /** The label one line names: a line mentioning "STATEMENT" (in any case)
      names the Visa Signature card when it also mentions "VISA SIGNATURE",
      otherwise the Red card when it mentions "HSBC RED", and otherwise
      nothing. */
  function LineLabel(line: string): (kind: string)
    ensures kind == "" || kind == VISA_SIGNATURE || kind == HSBC_RED
    ensures kind != "" ==> Contains(ToUpper(line), "STATEMENT")
    ensures kind == HSBC_RED ==> !Contains(ToUpper(line), "VISA SIGNATURE")
    ensures kind == VISA_SIGNATURE <==>
      Contains(ToUpper(line), "STATEMENT") && Contains(ToUpper(line), "VISA SIGNATURE")
    ensures kind == HSBC_RED <==>
      Contains(ToUpper(line), "STATEMENT") && !Contains(ToUpper(line), "VISA SIGNATURE")
      && Contains(ToUpper(line), "HSBC RED")
  {
    var u := ToUpper(line);
    if !Contains(u, "STATEMENT") then ""
    else if Contains(u, "VISA SIGNATURE") then VISA_SIGNATURE
    else if Contains(u, "HSBC RED") then HSBC_RED
    else ""
  }

  /** extractStatementType: the label of the first line that names one,
      or "" when no line does. */
  function StatementType(lines: seq<string>): (kind: string)
    ensures kind == "" || kind == VISA_SIGNATURE || kind == HSBC_RED
    decreases |lines|
  {
    if lines == [] then ""
    else if LineLabel(lines[0]) != "" then LineLabel(lines[0])
    else StatementType(lines[1..])
  }

  /** The first labelled line decides the type; the lines after it do not
      matter. */
  lemma {:induction false} StatementTypeIsFirstLabel(lines: seq<string>, i: nat)
    requires i < |lines| && LineLabel(lines[i]) != ""
    requires forall j :: 0 <= j < i ==> LineLabel(lines[j]) == ""
    ensures StatementType(lines) == LineLabel(lines[i])
    decreases i
  {
    if i > 0 {
      assert LineLabel(lines[0]) == "";
      forall j | 0 <= j < i - 1
        ensures LineLabel(lines[1..][j]) == ""
      {
        assert lines[1..][j] == lines[j + 1];
      }
      StatementTypeIsFirstLabel(lines[1..], i - 1);
    }
  }

  /** The type is "" exactly when no line names a label. */
  lemma {:induction false} StatementTypeEmpty(lines: seq<string>)
    ensures StatementType(lines) == "" <==> forall j :: 0 <= j < |lines| ==> LineLabel(lines[j]) == ""
    decreases |lines|
  {
    if lines != [] {
      StatementTypeEmpty(lines[1..]);
      if LineLabel(lines[0]) == "" {
        forall j | 1 <= j < |lines|
          ensures LineLabel(lines[j]) == LineLabel(lines[1..][j - 1])
        {
        }
      }
    }
  }

  // ---------------------------------------------------------------- the date pattern

  /** RE2's \w: ASCII letters, digits and '_'. */
  predicate IsWordChar(c: char) {
    IsDigit(c) || IsLetter(c) || c == '_'
  }

  /** \b in front of a word character at i. */
  predicate BoundaryBefore(s: string, i: nat)
    requires i <= |s|
  {
    i == 0 || !IsWordChar(s[i - 1])
  }

  /** \b behind a word character that ends at e. */
  predicate BoundaryAfter(s: string, e: nat)
    requires e <= |s|
  {
    e == |s| || !IsWordChar(s[e])
  }

  /** n day digits at i (\d{1,2} taken as n). */
  predicate DayAt(s: string, i: nat, n: nat) {
    (n == 1 || n == 2) && i + n <= |s| && forall k :: i <= k < i + n ==> IsDigit(s[k])
  }

  /** [A-Z]{3} at j. */
  predicate MonthAt(s: string, j: nat) {
    j + 3 <= |s| && IsUpper(s[j]) && IsUpper(s[j + 1]) && IsUpper(s[j + 2])
  }

  /** \d{4} at y. */
  predicate YearAt(s: string, y: nat) {
    y + 4 <= |s| && IsDigit(s[y]) && IsDigit(s[y + 1]) && IsDigit(s[y + 2]) && IsDigit(s[y + 3])
  }

  /** One reading of `\b\d{1,2}\s+[A-Z]{3}\s+\d{4}\b` at i: a day n digits
      wide, the month at a, the year at b, \s runs between them and word
      boundaries at both ends. */
  predicate PatternWith(s: string, i: nat, n: nat, a: nat, b: nat) {
    DayAt(s, i, n) && MonthAt(s, a) && YearAt(s, b)
    && i + n < a && RegexSpacesBetween(s, i + n, a)
    && a + 3 < b && RegexSpacesBetween(s, a + 3, b)
    && BoundaryBefore(s, i) && BoundaryAfter(s, b + 4)
  }

  /** The regex's own reading: some choice of the day's width and of the
      two \s runs matches s[i..e]. */
  ghost predicate DatePatternAt(s: string, i: nat, e: nat) {
    exists n: nat, a: nat, b: nat :: PatternWith(s, i, n, a, b) && e == b + 4
  }

  /** The width of the day at i: the \d{1,2} the match can use, since the
      character after the day must be \s and a digit never is. */
  function DayWidth(s: string, i: nat): (n: nat)
    requires i <= |s|
    ensures n <= 2 && i + n <= |s|
  {
    if i < |s| && IsDigit(s[i]) then
      if i + 1 < |s| && IsDigit(s[i + 1]) then 2 else 1
    else 0
  }

  /** Where a match that starts at i ends, read left to right: the day,
      a whole \s run, the month, a whole \s run, the year. */
  function DateMatchEnd(s: string, i: nat): (r: Option<nat>)
    requires i <= |s|
    ensures r.Some? ==> i + 10 <= r.value <= |s| && IsDigit(s[i]) && IsDigit(s[r.value - 1])
  {
    var n := DayWidth(s, i);
    if n == 0 || !BoundaryBefore(s, i) then None
    else
      var r1 := RegexSpaceRun(s, i + n);
      var a := i + n + r1;
      if r1 == 0 || !MonthAt(s, a) then None
      else
        var r2 := RegexSpaceRun(s, a + 3);
        var b := a + 3 + r2;
        if r2 == 0 || !YearAt(s, b) || !BoundaryAfter(s, b + 4) then None
        else Some(b + 4)
  }

  /** regexp.FindString from position i: the leftmost match. */
  function FindDate(s: string, i: nat): (r: Option<string>)
    requires i <= |s|
    ensures r.Some? ==> 10 <= |r.value| && IsDigit(r.value[0]) && IsDigit(r.value[|r.value| - 1])
    decreases |s| - i
  {
    match DateMatchEnd(s, i)
    case Some(e) => Some(s[i..e])
    case None => if i == |s| then None else FindDate(s, i + 1)
  }

  /** The left-to-right reading finds a match at i exactly when the regex
      matches there, and then ends where the regex's match ends. */
  lemma DateMatchIsPattern(s: string, i: nat, e: nat)
    requires i <= |s|
    ensures DateMatchEnd(s, i) == Some(e) <==> DatePatternAt(s, i, e)
  {
    if DateMatchEnd(s, i) == Some(e) {
      EndGivesPattern(s, i);
    }
    if DatePatternAt(s, i, e) {
      var n: nat, a: nat, b: nat :| PatternWith(s, i, n, a, b) && e == b + 4;
      PatternGivesEnd(s, i, n, a, b);
    }
  }

  lemma EndGivesPattern(s: string, i: nat)
    requires i <= |s| && DateMatchEnd(s, i).Some?
    ensures DatePatternAt(s, i, DateMatchEnd(s, i).value)
  {
    var n := DayWidth(s, i);
    var a := i + n + RegexSpaceRun(s, i + n);
    var b := a + 3 + RegexSpaceRun(s, a + 3);
    assert DayAt(s, i, n) && MonthAt(s, a) && YearAt(s, b);
    assert PatternWith(s, i, n, a, b);
  }

  lemma PatternGivesEnd(s: string, i: nat, n: nat, a: nat, b: nat)
    requires PatternWith(s, i, n, a, b)
    ensures DateMatchEnd(s, i) == Some(b + 4)
  {
    DayWidthOf(s, i, n);
    RunIsWhole(s, i + n, a);
    RunIsWhole(s, a + 3, b);
  }

  /** The day ends at the first \s after it. */
  lemma DayWidthOf(s: string, i: nat, n: nat)
    requires DayAt(s, i, n) && i + n < |s| && IsRegexSpace(s[i + n])
    ensures DayWidth(s, i) == n
  {
    assert IsDigit(s[i + n - 1]);
  }

  /** FindDate returns the match at the leftmost position where the
      left-to-right reading matches. */
  lemma {:induction false} FindDateLeftmost(s: string, i: nat, k: nat)
    requires i <= k <= |s| && DateMatchEnd(s, k).Some?
    requires forall j :: i <= j < k ==> DateMatchEnd(s, j) == None
    ensures FindDate(s, i) == Some(s[k..DateMatchEnd(s, k).value])
    decreases k - i
  {
    if i < k {
      FindDateLeftmost(s, i + 1, k);
    }
  }

  /** FindDate finds nothing exactly when nothing matches from i on. */
  lemma {:induction false} FindDateNone(s: string, i: nat)
    requires i <= |s|
    ensures FindDate(s, i) == None <==> forall j :: i <= j <= |s| ==> DateMatchEnd(s, j) == None
    decreases |s| - i
  {
    if DateMatchEnd(s, i) == None && i < |s| {
      FindDateNone(s, i + 1);
    }
  }

  /** regexp.FindString's answer: the text of the regex's match at the
      leftmost position where it matches. */
  lemma FindDateIsLeftmostMatch(s: string, k: nat, e: nat)
    requires k <= |s| && DatePatternAt(s, k, e)
    requires forall j, e': nat :: 0 <= j < k ==> !DatePatternAt(s, j, e')
    ensures FindDate(s, 0) == Some(s[k..e])
  {
    DateMatchIsPattern(s, k, e);
    forall j | 0 <= j < k
      ensures DateMatchEnd(s, j) == None
    {
      if DateMatchEnd(s, j).Some? {
        DateMatchIsPattern(s, j, DateMatchEnd(s, j).value);
      }
    }
    FindDateLeftmost(s, 0, k);
  }

  /** regexp.FindString finds nothing exactly when the regex matches
      nowhere. */
  lemma FindDateNoMatch(s: string)
    ensures FindDate(s, 0) == None <==> forall j, e: nat :: 0 <= j <= |s| ==> !DatePatternAt(s, j, e)
  {
    FindDateNone(s, 0);
    if FindDate(s, 0) == None {
      forall j, e: nat | 0 <= j <= |s|
        ensures !DatePatternAt(s, j, e)
      {
        DateMatchIsPattern(s, j, e);
      }
    } else {
      var j :| 0 <= j <= |s| && DateMatchEnd(s, j).Some?;
      DateMatchIsPattern(s, j, DateMatchEnd(s, j).value);
    }
  }

  // ---------------------------------------------------------------- statement date

  /** The pair extractStatementDate returns: a date, and whether an error
      came with it. */
  datatype StatementDate = StatementDate(date: Date, failed: bool)

  /** The zero time and no error. */
  const UNDATED := StatementDate(ZERO_DATE, false)

  predicate IsDateLine(line: string) {
    Contains(ToUpper(line), "STATEMENT DATE")
  }

  /** The line after the "Statement Date" line: trimmed, searched for a
      day-month-year, and the match read with layout "02 Jan 2006". No
      match is the zero time with no error; a match that does not read is
      the zero time with an error. */
  function DateFromLine(line: string): (r: StatementDate)
    ensures r.failed ==> r.date == ZERO_DATE
    ensures r.date != ZERO_DATE ==> IsWritable(r.date)
  {
    var t := Trim(line);
    match FindDate(t, 0)
    case None => UNDATED
    case Some(m) =>
      match ParseSpaced(m)
      case None => StatementDate(ZERO_DATE, true)
      case Some(d) => StatementDate(d, false)
  }

  /** extractStatementDate: the date on the line after the first line
      that mentions "STATEMENT DATE", the zero time when there is no such
      line or it is the last line. */
  function ExtractStatementDate(lines: seq<string>): (r: StatementDate)
    ensures r.failed ==> r.date == ZERO_DATE
    ensures r.date != ZERO_DATE ==> IsWritable(r.date)
    decreases |lines|
  {
    if lines == [] then UNDATED
    else if !IsDateLine(lines[0]) then ExtractStatementDate(lines[1..])
    else if |lines| == 1 then UNDATED
    else DateFromLine(lines[1])
  }

  /** Only the first "STATEMENT DATE" line is looked at: the result is
      what the next line says, or the zero time when it is the last line. */
  lemma {:induction false} FirstDateLineDecides(lines: seq<string>, i: nat)
    requires i < |lines| && IsDateLine(lines[i])
    requires forall j :: 0 <= j < i ==> !IsDateLine(lines[j])
    ensures ExtractStatementDate(lines)
      == if i == |lines| - 1 then UNDATED else DateFromLine(lines[i + 1])
    decreases i
  {
    if i > 0 {
      assert !IsDateLine(lines[0]);
      forall j | 0 <= j < i - 1
        ensures !IsDateLine(lines[1..][j])
      {
        assert lines[1..][j] == lines[j + 1];
      }
      FirstDateLineDecides(lines[1..], i - 1);
    }
  }

  /** Without a "STATEMENT DATE" line the result is the zero time with no
      error. */
  lemma {:induction false} NoDateLine(lines: seq<string>)
    requires forall j :: 0 <= j < |lines| ==> !IsDateLine(lines[j])
    ensures ExtractStatementDate(lines) == UNDATED
    decreases |lines|
  {
    if lines != [] {
      assert !IsDateLine(lines[0]);
      NoDateLine(lines[1..]);
    }
  }

  /** A next line with no day-month-year in it gives the zero time and no
      error. */
  lemma NoMatchIsUndated(line: string)
    requires forall k, e: nat :: 0 <= k <= |Trim(line)| ==> !DatePatternAt(Trim(line), k, e)
    ensures DateFromLine(line) == UNDATED
  {
    FindDateNoMatch(Trim(line));
  }

  /** The date a statement prints, "13 OCT 2025", on the line after the
      header is the statement date. */
  lemma DateFromLinePrinted(d: Date)
    requires IsWritable(d)
    ensures DateFromLine(StatementDateText(d)) == StatementDate(d, false)
  {
    PrintedDateFound(d);
    StatementDateTextParses(d);
  }

  /** The printed date is trimmed and is its own leftmost match. */
  lemma PrintedDateFound(d: Date)
    requires IsWritable(d)
    ensures Trim(StatementDateText(d)) == StatementDateText(d)
    ensures FindDate(StatementDateText(d), 0) == Some(StatementDateText(d))
  {
    var s := StatementDateText(d);
    StatementDateTextPieces(d);
    assert IsTrimmed(s);
    PrintedDateMatches(d);
    assert s[0..11] == s;
  }

  lemma PrintedDateMatches(d: Date)
    requires IsWritable(d)
    ensures |StatementDateText(d)| == 11 && DateMatchEnd(StatementDateText(d), 0) == Some(11)
  {
    var s := StatementDateText(d);
    StatementDateTextPieces(d);
    assert IsDigit(s[0]) && IsDigit(s[1]) by {
      assert s[..2][0] == s[0] && s[..2][1] == s[1];
    }
    assert MonthAt(s, 3) by {
      PrintedMonthIsUpper(d);
      assert s[3..6][0] == s[3] && s[3..6][1] == s[4] && s[3..6][2] == s[5];
    }
    assert YearAt(s, 7) by {
      assert s[7..][0] == s[7] && s[7..][1] == s[8] && s[7..][2] == s[9] && s[7..][3] == s[10];
    }
    assert RegexSpaceRun(s, 2) == 1;
    assert RegexSpaceRun(s, 6) == 1;
  }

  lemma PrintedMonthIsUpper(d: Date)
    requires IsWritable(d)
    ensures var name := ToUpper(MONTH_NAMES[d.month - 1]);
      |name| == 3 && IsUpper(name[0]) && IsUpper(name[1]) && IsUpper(name[2])
  {
  }

  /** The pattern lets a one-digit day through ("5 OCT 2025"), but the
      layout's "02" wants two digits: such a match gives the zero time
      with an error. */
  lemma OneDigitDayFails(line: string, k: nat)
    requires k <= |Trim(line)| && DateMatchEnd(Trim(line), k).Some? && DayWidth(Trim(line), k) == 1
    requires forall j :: 0 <= j < k ==> DateMatchEnd(Trim(line), j) == None
    ensures DateFromLine(line) == StatementDate(ZERO_DATE, true)
  {
    var t := Trim(line);
    var e := DateMatchEnd(t, k).value;
    FindDateLeftmost(t, 0, k);
    assert k + 2 < e && IsRegexSpace(t[k + 1]);
    var m := t[k..e];
    assert m[..2][1] == t[k + 1];
  }
}
