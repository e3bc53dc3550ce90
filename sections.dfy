/**
 * preprocessTransactionText (parser.go): the scan that cuts the transaction
 * section out of a statement's lines.
 *
 * A header line (one naming both "POST DATE" and "TRANS DATE") opens the
 * section. Inside it, a line that starts like "15SEP 13SEP" opens a
 * transaction and is kept; the non-blank lines after it are kept as its
 * continuation lines until a blank line or another header closes it.
 */
module Sections {
  import opened Folds
  import opened Strings

  // ---------------------------------------------------------------- start lines

  /** RE2's \s class: tab, newline, form feed, carriage return and space
      (unlike strings.TrimSpace it has no vertical tab). */
  predicate IsRegexSpace(c: char) {
    c == '\t' || c == '\n' || c == '\U{000C}' || c == '\r' || c == ' '
  }

  /** The length of the run of \s characters that starts at i. */
  function RegexSpaceRun(s: string, i: nat): (k: nat)
    requires i <= |s|
    ensures i + k <= |s|
    ensures forall j :: i <= j < i + k ==> IsRegexSpace(s[j])
    ensures i + k == |s| || !IsRegexSpace(s[i + k])
    decreases |s| - i
  {
    if i < |s| && IsRegexSpace(s[i]) then 1 + RegexSpaceRun(s, i + 1) else 0
  }

  /** \d{2}[A-Z]{3} at position i, as in "15SEP". */
  predicate DayMonthAt(s: string, i: nat) {
    i + 5 <= |s| && IsDigit(s[i]) && IsDigit(s[i + 1])
    && IsUpper(s[i + 2]) && IsUpper(s[i + 3]) && IsUpper(s[i + 4])
  }

  /** The start-of-transaction test `^\s*\d{2}[A-Z]{3}\s+\d{2}[A-Z]{3}`,
      read left to right: a \s run, a day-month, a non-empty \s run and a
      second day-month. A digit is never \s, so taking each run whole
      is the only way the pattern can match. */
  predicate IsTransactionStart(s: string) {
    var a := RegexSpaceRun(s, 0);
    DayMonthAt(s, a) &&
    var k := RegexSpaceRun(s, a + 5);
    k > 0 && DayMonthAt(s, a + 5 + k)
  }

  /** Every character of s[i..j] is \s. */
  predicate RegexSpacesBetween(s: string, i: nat, j: nat) {
    i <= j <= |s| && forall k :: i <= k < j ==> IsRegexSpace(s[k])
  }

  /** The regex's own reading: some choice of the two \s runs makes the
      pattern match a prefix of s. */
  ghost predicate MatchesStartPattern(s: string) {
    exists a: nat, b: nat ::
      RegexSpacesBetween(s, 0, a) && DayMonthAt(s, a) && a + 5 < b
      && RegexSpacesBetween(s, a + 5, b) && DayMonthAt(s, b)
  }

  /** A \s run that ends at a non-\s character is the whole run. */
  lemma RunIsWhole(s: string, i: nat, j: nat)
    requires RegexSpacesBetween(s, i, j) && (j == |s| || !IsRegexSpace(s[j]))
    ensures RegexSpaceRun(s, i) == j - i
  {
  }

  /** The left-to-right scan accepts exactly the lines the pattern matches. */
  lemma StartScanMatchesPattern(s: string)
    ensures IsTransactionStart(s) <==> MatchesStartPattern(s)
  {
    if IsTransactionStart(s) {
      ScanIsMatch(s);
    }
    if MatchesStartPattern(s) {
      MatchIsScan(s);
    }
  }

  lemma ScanIsMatch(s: string)
    requires IsTransactionStart(s)
    ensures MatchesStartPattern(s)
  {
    var a := RegexSpaceRun(s, 0);
    var b := a + 5 + RegexSpaceRun(s, a + 5);
    assert RegexSpacesBetween(s, 0, a) && DayMonthAt(s, a);
    assert a + 5 < b && RegexSpacesBetween(s, a + 5, b) && DayMonthAt(s, b);
  }

  lemma MatchIsScan(s: string)
    requires MatchesStartPattern(s)
    ensures IsTransactionStart(s)
  {
    var a: nat, b: nat :| RegexSpacesBetween(s, 0, a) && DayMonthAt(s, a) && a + 5 < b
      && RegexSpacesBetween(s, a + 5, b) && DayMonthAt(s, b);
    MatchAtIsScan(s, a, b);
  }

  lemma MatchAtIsScan(s: string, a: nat, b: nat)
    requires RegexSpacesBetween(s, 0, a) && DayMonthAt(s, a) && a + 5 < b
    requires RegexSpacesBetween(s, a + 5, b) && DayMonthAt(s, b)
    ensures IsTransactionStart(s)
  {
    assert !IsRegexSpace(s[a]) && !IsRegexSpace(s[b]);
    RunIsWhole(s, 0, a);
    RunIsWhole(s, a + 5, b);
    assert RegexSpaceRun(s, 0) == a;
    assert RegexSpaceRun(s, a + 5) == b - (a + 5);
  }

  // ---------------------------------------------------------------- the scan

  /** The column header that opens the transaction section, tested on the
      trimmed line in upper case. */
  predicate IsHeader(t: string) {
    var u := ToUpper(t);
    Contains(u, "POST DATE") && Contains(u, "TRANS DATE")
  }

  /** The two flags of the scan. */
  datatype ScanState = ScanState(inSection: bool, inTransaction: bool)

  const INITIAL := ScanState(false, false)

  /** The flags after one more line. */
  function Next(st: ScanState, line: string): ScanState {
    var t := Trim(line);
    if IsHeader(t) then ScanState(true, false)
    else if !st.inSection then st
    else if t == [] then ScanState(true, false)
    else if IsTransactionStart(t) then ScanState(true, true)
    else st
  }

  /** What one line adds to the output: its trimmed text or nothing. */
  function Emit(st: ScanState, line: string): seq<string> {
    var t := Trim(line);
    if IsHeader(t) || !st.inSection || t == [] then []
    else if IsTransactionStart(t) || st.inTransaction then [t]
    else []
  }

  /** The flags and the lines kept so far. */
  datatype Progress = Progress(st: ScanState, results: seq<string>)

  const START := Progress(INITIAL, [])

  /** One iteration of the scan. */
  function StepLine(pr: Progress, line: string): Progress {
    Progress(Next(pr.st, line), pr.results + Emit(pr.st, line))
  }

  /** The scan over the lines, continuing from pr. */
  function Scan(pr: Progress, lines: seq<string>): Progress
    decreases |lines|
  {
    if lines == [] then pr
    else StepLine(Scan(pr, lines[..|lines| - 1]), lines[|lines| - 1])
  }

  /** The output of preprocessTransactionText. */
  function Extracted(lines: seq<string>): seq<string> {
    Scan(START, lines).results
  }

  /** preprocessTransactionText: one pass over the lines with the two flags. */
  method PreprocessTransactionText(lines: seq<string>) returns (results: seq<string>)
    ensures results == Extracted(lines)
  {
    results := [];
    var inSection := false;
    var inTransaction := false;
    for i := 0 to |lines|
      invariant Progress(ScanState(inSection, inTransaction), results) == Scan(START, lines[..i])
    {
      assert lines[..i + 1][..i] == lines[..i];
      var trimmedLine := Trim(lines[i]);
      var trimmedLineUpper := ToUpper(trimmedLine);
      if Contains(trimmedLineUpper, "POST DATE") && Contains(trimmedLineUpper, "TRANS DATE") {
        inSection := true;
        inTransaction := false;
        continue;
      }
      if !inSection {
        continue;
      }
      if trimmedLine == [] {
        if inTransaction {
          inTransaction := false;
        }
        continue;
      }
      if IsTransactionStart(trimmedLine) {
        inTransaction := true;
        results := results + [trimmedLine];
        continue;
      }
      if inTransaction {
        results := results + [trimmedLine];
      }
    }
    assert lines[..|lines|] == lines;
  }

  // ---------------------------------------------------------------- what the flags mean

  /** One of the first n lines was a header. */
  ghost predicate HeaderBefore(lines: seq<string>, n: nat) {
    exists i :: 0 <= i < n && i < |lines| && IsHeader(Trim(lines[i]))
  }

  /** Some line so far was a header. */
  ghost predicate HeaderSeen(pre: seq<string>) {
    HeaderBefore(pre, |pre|)
  }

  /** A line that opens a transaction inside the section. */
  predicate StartLine(line: string) {
    var t := Trim(line);
    !IsHeader(t) && IsTransactionStart(t)
  }

  /** A line that keeps a transaction open: neither blank nor a header. */
  predicate Continues(line: string) {
    var t := Trim(line);
    !IsHeader(t) && t != []
  }

  /** Line j started a transaction after some header, and every line since
      has kept it open. */
  ghost predicate OpenedAt(pre: seq<string>, j: nat) {
    j < |pre| && HeaderBefore(pre, j) && StartLine(pre[j])
    && forall k :: j < k < |pre| ==> Continues(pre[k])
  }

  /** A transaction is open at the end of the lines. */
  ghost predicate OpenTransaction(pre: seq<string>) {
    exists j: nat :: OpenedAt(pre, j)
  }

  /** One more line does not change what came before it. */
  lemma HeaderBeforeAppend(p: seq<string>, x: string)
    ensures forall n: nat :: n <= |p| ==> HeaderBefore(p + [x], n) == HeaderBefore(p, n)
  {
    var pre := p + [x];
    forall n: nat | n <= |p|
      ensures HeaderBefore(pre, n) == HeaderBefore(p, n)
    {
      if HeaderBefore(pre, n) {
        var i :| 0 <= i < n && i < |pre| && IsHeader(Trim(pre[i]));
        assert pre[i] == p[i];
      }
      if HeaderBefore(p, n) {
        var i :| 0 <= i < n && i < |p| && IsHeader(Trim(p[i]));
        assert pre[i] == p[i];
      }
    }
  }

  /** The flags after any prefix of the lines say whether a header has been
      seen and whether a transaction is open. */
  lemma {:induction false} StateOf(pre: seq<string>)
    ensures Scan(START, pre).st == ScanState(HeaderSeen(pre), OpenTransaction(pre))
    decreases |pre|
  {
    if pre != [] {
      var p := pre[..|pre| - 1];
      var x := pre[|pre| - 1];
      assert Scan(START, pre) == StepLine(Scan(START, p), x);
      StateOf(p);
      assert pre == p + [x];
      FlagsStep(p, x);
    }
  }

  /** What the flags mean is kept by one more line. */
  lemma FlagsStep(p: seq<string>, x: string)
    ensures Next(ScanState(HeaderSeen(p), OpenTransaction(p)), x)
      == ScanState(HeaderSeen(p + [x]), OpenTransaction(p + [x]))
  {
    var t := Trim(x);
    HeaderSeenStep(p, x);
    if !Continues(x) {
      ClosedBy(p, x);
    } else if !HeaderSeen(p) {
      NothingOpenBeforeHeader(p, x);
    } else if IsTransactionStart(t) {
      OpenedBy(p, x);
    } else {
      OpenSurvives(p, x);
    }
  }

  lemma HeaderSeenStep(p: seq<string>, x: string)
    ensures HeaderSeen(p + [x]) == (HeaderSeen(p) || IsHeader(Trim(x)))
  {
    var pre := p + [x];
    HeaderBeforeAppend(p, x);
    if HeaderSeen(pre) && !IsHeader(Trim(x)) {
      var i :| 0 <= i < |pre| && IsHeader(Trim(pre[i]));
      assert i < |p| && pre[i] == p[i];
    }
    if IsHeader(Trim(x)) {
      assert pre[|p|] == x;
    }
  }

  /** A header or a blank line closes any open transaction. */
  lemma ClosedBy(p: seq<string>, x: string)
    requires !Continues(x)
    ensures !OpenTransaction(p + [x])
  {
    var pre := p + [x];
    assert !StartLine(pre[|p|]) && !Continues(pre[|p|]);
  }

  /** Before any header no transaction is open. */
  lemma NothingOpenBeforeHeader(p: seq<string>, x: string)
    requires !HeaderSeen(p) && !IsHeader(Trim(x))
    ensures !OpenTransaction(p) && !OpenTransaction(p + [x])
  {
    HeaderBeforeAppend(p, x);
    assert forall n: nat :: n <= |p| ==> !HeaderBefore(p, n);
  }

  /** Inside the section a start line opens a transaction. */
  lemma OpenedBy(p: seq<string>, x: string)
    requires HeaderSeen(p) && StartLine(x)
    ensures OpenTransaction(p + [x])
  {
    var pre := p + [x];
    HeaderBeforeAppend(p, x);
    assert pre[|p|] == x;
    assert OpenedAt(pre, |p|);
  }

  /** A line that neither starts nor closes a transaction leaves the open
      transaction as it was. */
  lemma OpenSurvives(p: seq<string>, x: string)
    requires !StartLine(x) && Continues(x)
    ensures OpenTransaction(p + [x]) == OpenTransaction(p)
  {
    HeaderBeforeAppend(p, x);
    if OpenTransaction(p) {
      var j: nat :| OpenedAt(p, j);
      OpenStaysOpen(p, x, j);
    }
    if OpenTransaction(p + [x]) {
      var j: nat :| OpenedAt(p + [x], j);
      OpenWasOpen(p, x, j);
    }
  }

  lemma OpenStaysOpen(p: seq<string>, x: string, j: nat)
    requires Continues(x) && OpenedAt(p, j)
    requires HeaderBefore(p + [x], j) == HeaderBefore(p, j)
    ensures OpenedAt(p + [x], j)
  {
    var pre := p + [x];
    assert pre[j] == p[j];
    forall k | j < k < |pre|
      ensures Continues(pre[k])
    {
      if k < |p| {
        assert pre[k] == p[k];
      }
    }
  }

  lemma OpenWasOpen(p: seq<string>, x: string, j: nat)
    requires !StartLine(x) && OpenedAt(p + [x], j)
    requires j <= |p| ==> HeaderBefore(p + [x], j) == HeaderBefore(p, j)
    ensures OpenedAt(p, j)
  {
    var pre := p + [x];
    assert j != |p|;
    assert p[j] == pre[j];
    forall k | j < k < |p|
      ensures Continues(p[k])
    {
      assert pre[k] == p[k];
    }
  }

  /** Whether the line after the lines pre is kept: it must come after a
      header, be neither blank nor a header, and either start a transaction
      or continue an open one. */
  ghost predicate Keeps(pre: seq<string>, line: string) {
    var t := Trim(line);
    HeaderSeen(pre) && !IsHeader(t) && t != []
    && (IsTransactionStart(t) || OpenTransaction(pre))
  }

  /** One more line adds its trimmed text to the output exactly when it is
      kept. */
  lemma ExtractedStep(pre: seq<string>, line: string)
    ensures Extracted(pre + [line])
      == Extracted(pre) + (if Keeps(pre, line) then [Trim(line)] else [])
  {
    var lines := pre + [line];
    assert lines[..|lines| - 1] == pre;
    StateOf(pre);
  }

  /** Inside the section, a non-header line that starts a transaction is
      always kept. */
  lemma StartLineKept(pre: seq<string>, line: string)
    requires HeaderSeen(pre) && StartLine(line)
    ensures Extracted(pre + [line]) == Extracted(pre) + [Trim(line)]
  {
    ExtractedStep(pre, line);
  }

  /** Any other non-blank line is kept exactly when a transaction is open. */
  lemma OtherLineKept(pre: seq<string>, line: string)
    requires HeaderSeen(pre) && Continues(line) && !IsTransactionStart(Trim(line))
    ensures Extracted(pre + [line])
      == Extracted(pre) + (if OpenTransaction(pre) then [Trim(line)] else [])
  {
    ExtractedStep(pre, line);
  }

  // ---------------------------------------------------------------- the output

  /** The positions of the kept lines, in increasing order. */
  ghost function KeptIndices(lines: seq<string>): (idx: seq<nat>)
    ensures forall k :: 0 <= k < |idx| ==> idx[k] < |lines|
    ensures forall k1, k2 :: 0 <= k1 < k2 < |idx| ==> idx[k1] < idx[k2]
    decreases |lines|
  {
    if lines == [] then []
    else
      var p := lines[..|lines| - 1];
      KeptIndices(p) + Mark(Keeps(p, lines[|lines| - 1]), |p|)
  }

  /** [n] when b holds, nothing otherwise. */
  function Mark(b: bool, n: nat): (r: seq<nat>)
    ensures |r| <= 1 && forall k :: 0 <= k < |r| ==> r[k] == n
    ensures b <==> n in r
  {
    if b then [n] else []
  }

  /** The positions listed are exactly those of the kept lines. */
  lemma {:induction false} KeptIndicesExact(lines: seq<string>)
    ensures forall j :: 0 <= j < |lines| ==>
      (j in KeptIndices(lines) <==> Keeps(lines[..j], lines[j]))
    decreases |lines|
  {
    if lines != [] {
      var p := lines[..|lines| - 1];
      var x := lines[|lines| - 1];
      var idx := KeptIndices(p);
      var kept := Keeps(p, x);
      assert KeptIndices(lines) == idx + Mark(kept, |p|);
      KeptIndicesExact(p);
      forall j | 0 <= j < |lines|
        ensures j in KeptIndices(lines) <==> Keeps(lines[..j], lines[j])
      {
        if j < |p| {
          assert lines[..j] == p[..j] && lines[j] == p[j];
          assert j !in Mark(kept, |p|);
        } else {
          assert lines[..j] == p && lines[j] == x;
          assert |p| !in idx;
        }
      }
    }
  }

  /** The output is the trimmed lines at the listed positions: an
      order-preserving selection of the trimmed input. */
  lemma {:induction false} ExtractedIsSubsequence(lines: seq<string>)
    ensures var idx := KeptIndices(lines);
      |idx| == |Extracted(lines)|
      && forall k :: 0 <= k < |idx| ==> Extracted(lines)[k] == Trim(lines[idx[k]])
    decreases |lines|
  {
    if lines != [] {
      var p := lines[..|lines| - 1];
      var x := lines[|lines| - 1];
      ExtractedIsSubsequence(p);
      ExtractedStep(p, x);
      var idx, out := KeptIndices(p), Extracted(p);
      var kept := Keeps(p, x);
      var all, res := KeptIndices(lines), Extracted(lines);
      assert all == idx + Mark(kept, |p|);
      assert res == out + (if kept then [Trim(x)] else []);
      forall k | 0 <= k < |all|
        ensures res[k] == Trim(lines[all[k]])
      {
        if k < |idx| {
          assert all[k] == idx[k] && res[k] == out[k];
          assert lines[idx[k]] == p[idx[k]];
        } else {
          assert all[k] == |p| && res[k] == Trim(x);
        }
      }
    }
  }

  /** Every output line is non-empty, trimmed, not a header, and comes
      after a header. */
  lemma ExtractedLines(lines: seq<string>, k: nat)
    requires k < |Extracted(lines)|
    ensures var r := Extracted(lines)[k];
      r != [] && IsTrimmed(r) && !IsHeader(r)
    ensures exists j :: 0 <= j < |lines| && Extracted(lines)[k] == Trim(lines[j]) && HeaderBefore(lines, j)
  {
    ExtractedIsSubsequence(lines);
    KeptIndicesExact(lines);
    var idx := KeptIndices(lines);
    assert idx[k] in idx;
    HeaderBeforePrefix(lines, idx[k]);
  }

  lemma HeaderBeforePrefix(lines: seq<string>, j: nat)
    requires j <= |lines|
    ensures HeaderSeen(lines[..j]) == HeaderBefore(lines, j)
  {
    if HeaderBefore(lines, j) {
      var i :| 0 <= i < j && i < |lines| && IsHeader(Trim(lines[i]));
      assert lines[..j][i] == lines[i];
    }
  }

  /** Scanning in two parts is scanning the whole. */
  lemma ScanAppend(pr: Progress, a: seq<string>, b: seq<string>)
    ensures Scan(pr, a + b) == Scan(Scan(pr, a), b)
  {
    ScanIsFold(pr, a + b);
    ScanIsFold(pr, a);
    ScanIsFold(Scan(pr, a), b);
    FoldAppend(StepLine, pr, a, b);
  }

  /** Scan is the left fold of StepLine. */
  lemma {:induction false} ScanIsFold(pr: Progress, lines: seq<string>)
    ensures Scan(pr, lines) == FoldLeft(StepLine, pr, lines)
    decreases |lines|
  {
    if lines != [] {
      ScanIsFold(pr, lines[..|lines| - 1]);
    }
  }

  lemma {:induction false} HeaderlessScan(pre: seq<string>)
    requires !HeaderSeen(pre)
    ensures Scan(START, pre) == START
    decreases |pre|
  {
    if pre != [] {
      var p := pre[..|pre| - 1];
      var x := pre[|pre| - 1];
      assert pre == p + [x];
      HeaderSeenStep(p, x);
      HeaderlessScan(p);
      assert Scan(START, pre) == StepLine(Scan(START, p), x);
    }
  }

  /** Lines before the first header make no difference to the output. */
  lemma HeaderlessPrefixIgnored(pre: seq<string>, rest: seq<string>)
    requires !HeaderSeen(pre)
    ensures Extracted(pre + rest) == Extracted(rest)
  {
    ScanAppend(START, pre, rest);
    HeaderlessScan(pre);
  }
}
