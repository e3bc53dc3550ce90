/**
 * findPhraseEndIndex and the phrase-splitting loop of parseTransactions
 * (parser.go): a trimmed transaction line is cut into phrases at every run
 * of two or more spaces; a single space stays inside a phrase.
 */
module Phrases {
  import opened Strings

  /** Two spaces in a row start at position i. */
  predicate DoubleSpaceAt(s: string, i: int) {
    0 <= i && i + 1 < |s| && s[i] == ' ' && s[i + 1] == ' '
  }

  predicate NoDoubleSpace(s: string) {
    forall i :: 0 <= i < |s| ==> !DoubleSpaceAt(s, i)
  }

  /** Where the phrase starting at start ends: the position just before the
      first double space at or after start, or the last position when there
      is none. */
  function PhraseEnd(text: string, start: nat): (e: int)
    requires start < |text|
    ensures start - 1 <= e < |text|
    ensures text[start] != ' ' ==> start <= e
    decreases |text| - start
  {
    if DoubleSpaceAt(text, start) then start - 1
    else if start == |text| - 1 then start
    else PhraseEnd(text, start + 1)
  }

  /** PhraseEnd is the position before the first double space at or after
      start, or the last position when there is none. */
  lemma {:induction false} PhraseEndSpec(text: string, start: nat)
    requires start < |text|
    ensures var e := PhraseEnd(text, start);
      (e == |text| - 1 || DoubleSpaceAt(text, e + 1))
      && forall i :: start <= i <= e ==> !DoubleSpaceAt(text, i)
    decreases |text| - start
  {
    if !DoubleSpaceAt(text, start) && start < |text| - 1 {
      PhraseEndSpec(text, start + 1);
    }
  }

  /** The first double space after start is unique, so anything with the
      properties of PhraseEnd is PhraseEnd. */
  lemma PhraseEndUnique(text: string, start: nat, e: int)
    requires start < |text| && start - 1 <= e < |text|
    requires e == |text| - 1 || DoubleSpaceAt(text, e + 1)
    requires forall i :: start <= i <= e ==> !DoubleSpaceAt(text, i)
    ensures e == PhraseEnd(text, start)
  {
    PhraseEndSpec(text, start);
  }

  /** findPhraseEndIndex: scan runs of non-spaces; stop at the end of the
      text or at a space followed by another space. On a text that starts
      at a non-space and does not end in a space, the phrase is
      text[start..e+1]: it ends in a non-space, holds no double space, and
      is followed by the end of the text or by two spaces. */
  method FindPhraseEndIndex(text: string, start: nat) returns (e: int)
    requires start < |text| && text[start] != ' ' && text[|text| - 1] != ' '
    ensures e == PhraseEnd(text, start)
    ensures start <= e < |text| && text[e] != ' '
    ensures NoDoubleSpace(text[start..e + 1])
    ensures e == |text| - 1 || (text[e + 1] == ' ' && text[e + 2] == ' ')
  {
    var n := |text|;
    var end := start;
    while end < n
      invariant start <= end <= n
      invariant forall i :: start <= i < end ==> !DoubleSpaceAt(text, i)
      invariant end < n ==> text[end] != ' '
      decreases n - end
    {
      while end < n && text[end] != ' '
        invariant start <= end <= n
        invariant forall i :: start <= i < end ==> !DoubleSpaceAt(text, i)
        decreases n - end
      {
        end := end + 1;
      }
      if end == n {
        e := n - 1;
        PhraseEndFacts(text, start, e);
        return;
      }
      if text[end + 1] == ' ' {
        e := end - 1;
        PhraseEndFacts(text, start, e);
        return;
      }
      end := end + 1;
    }
    e := n - 1;
    PhraseEndFacts(text, start, e);
  }

  /** What the method's exits need from the scan's facts. */
  lemma PhraseEndFacts(text: string, start: nat, e: int)
    requires start < |text| && text[start] != ' ' && text[|text| - 1] != ' '
    requires start <= e + 1 <= |text|
    requires e == |text| - 1 || DoubleSpaceAt(text, e + 1)
    requires forall i :: start <= i <= e ==> !DoubleSpaceAt(text, i)
    ensures e == PhraseEnd(text, start)
    ensures start <= e < |text| && text[e] != ' '
    ensures NoDoubleSpace(text[start..e + 1])
  {
    PhraseEndUnique(text, start, e);
    PhraseEndSpec(text, start);
    assert start <= e;
    assert !DoubleSpaceAt(text, e);
    var p := text[start..e + 1];
    forall i | 0 <= i < |p|
      ensures !DoubleSpaceAt(p, i)
    {
      assert !DoubleSpaceAt(text, start + i);
    }
  }

  // ---------------------------------------------------------------- the splitting loop

  /** The first phrase of a trimmed, non-empty line. */
  function Head(line: string): string
    requires IsTrimmed(line) && line != []
  {
    line[..PhraseEnd(line, 0) + 1]
  }

  /** What is left of the line after its first phrase, trimmed. */
  function Rest(line: string): (r: string)
    requires IsTrimmed(line) && line != []
    ensures IsTrimmed(r) && |r| < |line|
  {
    Trim(AfterHead(line))
  }

  /** Everything after the first phrase, white space included. */
  function AfterHead(line: string): (r: string)
    requires IsTrimmed(line) && line != []
    ensures |r| < |line|
  {
    line[PhraseEnd(line, 0) + 1..]
  }

  lemma HeadAfterHead(line: string)
    requires IsTrimmed(line) && line != []
    ensures line == Head(line) + AfterHead(line)
  {
  }

  /** The phrases of a trimmed line, left to right: cut off the first
      phrase, trim what follows, repeat. */
  function Tokenize(line: string): seq<string>
    requires IsTrimmed(line)
    decreases |line|
  {
    if line == [] then [] else [Head(line)] + Tokenize(Rest(line))
  }

  /** One turn of the splitting loop, seen on the phrases so far. */
  lemma TokenizeStep(line: string, done: seq<string>)
    requires IsTrimmed(line) && line != []
    ensures done + Tokenize(line) == (done + [Head(line)]) + Tokenize(Rest(line))
  {
  }

  /** The splitting loop of parseTransactions. */
  method SplitPhrases(line: string) returns (phrases: seq<string>)
    requires IsTrimmed(line)
    ensures phrases == Tokenize(line)
  {
    phrases := [];
    var rest := line;
    while |rest| > 0
      invariant IsTrimmed(rest)
      invariant phrases + Tokenize(rest) == Tokenize(line)
      decreases |rest|
    {
      TokenizeStep(rest, phrases);
      var endIdx := FindPhraseEndIndex(rest, 0);
      phrases := phrases + [rest[..endIdx + 1]];
      rest := Trim(rest[endIdx + 1..]);
    }
  }

  /** A phrase: non-empty, no white space in front, no space behind, no
      two spaces in a row. */
  predicate IsPhrase(p: string) {
    p != [] && !IsSpace(p[0]) && p[|p| - 1] != ' ' && NoDoubleSpace(p)
  }

  /** What separates two phrases: two spaces, then any white space. */
  predicate IsGap(g: string) {
    |g| >= 2 && g[0] == ' ' && g[1] == ' ' && AllSpace(g)
  }

  /** The first phrase is a phrase; when nothing follows it, it is the
      whole line. */
  lemma HeadIsPhrase(line: string)
    requires IsTrimmed(line) && line != []
    ensures IsPhrase(Head(line))
    ensures Rest(line) == [] ==> Head(line) == line
  {
    var e := PhraseEnd(line, 0);
    PhraseEndSpec(line, 0);
    PhraseEndFacts(line, 0, e);
    assert Head(line) == line[0..e + 1];
    if e < |line| - 1 {
      assert DoubleSpaceAt(line, e + 1);
      TrimOfSpaceFreeEnd(AfterHead(line));
    } else {
      assert line[..e + 1] == line;
    }
  }

  /** The white space between the first phrase and the rest. */
  function Gap(line: string): string
    requires IsTrimmed(line) && line != []
  {
    AfterHead(line)[..LeadingSpace(AfterHead(line))]
  }

  /** When something follows the first phrase, a gap separates the two. */
  lemma GapBetween(line: string)
    requires IsTrimmed(line) && line != [] && Rest(line) != []
    ensures IsGap(Gap(line))
    ensures line == Head(line) + Gap(line) + Rest(line)
  {
    assert AfterHead(line) != [] by {
      assert Trim([]) == [];
    }
    AfterHeadStarts(line);
    TrimOfSpaceFreeEnd(AfterHead(line));
    SplitAt(AfterHead(line), LeadingSpace(AfterHead(line)));
    HeadAfterHead(line);
    Regroup(Head(line), Gap(line), Rest(line));
  }

  lemma Regroup(a: string, b: string, c: string)
    ensures a + (b + c) == a + b + c
  {
  }

  lemma GapIsGap(line: string)
    requires IsTrimmed(line) && line != [] && Rest(line) != []
    ensures IsGap(Gap(line))
  {
    GapBetween(line);
  }

  /** Whatever follows the first phrase starts with two spaces. */
  lemma AfterHeadStarts(line: string)
    requires IsTrimmed(line) && line != [] && AfterHead(line) != []
    ensures |AfterHead(line)| >= 2 && AfterHead(line)[0] == ' ' && AfterHead(line)[1] == ' '
  {
    PhraseEndSpec(line, 0);
    assert DoubleSpaceAt(line, PhraseEnd(line, 0) + 1);
  }

  lemma SplitAt(s: string, k: nat)
    requires k <= |s|
    ensures s == s[..k] + s[k..]
  {
  }

  /** Every phrase of a line is a phrase. */
  lemma {:induction false} TokenizePhrases(line: string)
    requires IsTrimmed(line)
    ensures forall k :: 0 <= k < |Tokenize(line)| ==> IsPhrase(Tokenize(line)[k])
    decreases |line|
  {
    if line != [] {
      HeadIsPhrase(line);
      TokenizePhrases(Rest(line));
    }
  }

  /** A line without a double space is a single phrase. */
  lemma TokenizeWhole(line: string)
    requires IsTrimmed(line) && line != [] && NoDoubleSpace(line)
    ensures Tokenize(line) == [line]
  {
    PhraseEndUnique(line, 0, |line| - 1);
    assert line[..|line|] == line;
    assert line[|line|..] == [];
  }

  /** Tokenizing a trimmed phrase again gives it back alone. */
  lemma TokenizePhraseAgain(p: string)
    requires IsPhrase(p) && IsTrimmed(p)
    ensures Tokenize(p) == [p]
  {
    TokenizeWhole(p);
  }

  /** Phrases put back together with the gaps between them. */
  function Assemble(ps: seq<string>, gaps: seq<string>): string
    requires |ps| == |gaps| + 1
    decreases |ps|
  {
    if |ps| == 1 then ps[0] else ps[0] + gaps[0] + Assemble(ps[1..], gaps[1..])
  }

  /** The white space the splitting loop drops between phrases. */
  function Gaps(line: string): seq<string>
    requires IsTrimmed(line)
    decreases |line|
  {
    if line == [] || Rest(line) == [] then [] else [Gap(line)] + Gaps(Rest(line))
  }

  /** Nothing is lost but the gaps: the line is its phrases, in order, with
      a gap between each two. */
  lemma {:induction false} TokenizeReassembles(line: string)
    requires IsTrimmed(line) && line != []
    ensures |Tokenize(line)| == |Gaps(line)| + 1
    ensures forall k :: 0 <= k < |Gaps(line)| ==> IsGap(Gaps(line)[k])
    ensures line == Assemble(Tokenize(line), Gaps(line))
    decreases |line|
  {
    GapsFit(line);
    HeadIsPhrase(line);
    if Rest(line) != [] {
      GapBetween(line);
      TokenizeReassembles(Rest(line));
      assert Tokenize(line)[1..] == Tokenize(Rest(line));
      assert Gaps(line)[1..] == Gaps(Rest(line));
    }
  }

  /** There is one gap fewer than there are phrases, and each is a gap. */
  lemma GapsFit(line: string)
    requires IsTrimmed(line) && line != []
    ensures |Tokenize(line)| == |Gaps(line)| + 1
    ensures forall k :: 0 <= k < |Gaps(line)| ==> IsGap(Gaps(line)[k])
  {
    GapsCount(line);
    GapsAreGaps(line);
  }

  lemma {:induction false} GapsCount(line: string)
    requires IsTrimmed(line) && line != []
    ensures |Tokenize(line)| == |Gaps(line)| + 1
    decreases |line|
  {
    if Rest(line) != [] {
      GapsCount(Rest(line));
    }
  }

  lemma {:induction false} GapsAreGaps(line: string)
    requires IsTrimmed(line)
    ensures forall k :: 0 <= k < |Gaps(line)| ==> IsGap(Gaps(line)[k])
    decreases |line|
  {
    if line != [] && Rest(line) != [] {
      GapIsGap(line);
      GapsAreGaps(Rest(line));
      var g := Gaps(Rest(line));
      assert Gaps(line) == [Gap(line)] + g;
      forall k | 0 < k < |Gaps(line)|
        ensures IsGap(Gaps(line)[k])
      {
        assert Gaps(line)[k] == g[k - 1];
      }
    }
  }

  /** The other way round: phrases separated by gaps tokenize back to the
      same phrases. */
  lemma {:induction false} TokenizeAssemble(ps: seq<string>, gaps: seq<string>)
    requires |ps| == |gaps| + 1
    requires forall k :: 0 <= k < |ps| ==> IsPhrase(ps[k])
    requires forall k :: 0 <= k < |gaps| ==> IsGap(gaps[k])
    requires IsTrimmed(Assemble(ps, gaps))
    ensures Tokenize(Assemble(ps, gaps)) == ps
    decreases |ps|
  {
    if |ps| == 1 {
      TokenizeWhole(ps[0]);
    } else {
      AssembleTail(ps, gaps);
      TokenizeAssemble(ps[1..], gaps[1..]);
      PhraseGapRest(ps[0], gaps[0], Assemble(ps[1..], gaps[1..]));
      assert [ps[0]] + ps[1..] == ps;
    }
  }

  /** What is left of an assembled line after its first phrase and gap
      is again assembled from phrases and gaps, and trimmed. */
  lemma AssembleTail(ps: seq<string>, gaps: seq<string>)
    requires |ps| == |gaps| + 1 && |ps| > 1
    requires forall k :: 0 <= k < |ps| ==> IsPhrase(ps[k])
    requires forall k :: 0 <= k < |gaps| ==> IsGap(gaps[k])
    requires IsTrimmed(Assemble(ps, gaps))
    ensures forall k :: 0 <= k < |ps| - 1 ==> IsPhrase(ps[1..][k])
    ensures forall k :: 0 <= k < |gaps| - 1 ==> IsGap(gaps[1..][k])
    ensures IsTrimmed(Assemble(ps[1..], gaps[1..]))
    ensures Assemble(ps[1..], gaps[1..]) != []
    ensures Assemble(ps, gaps) == ps[0] + gaps[0] + Assemble(ps[1..], gaps[1..])
  {
    assert IsPhrase(ps[1]) && IsPhrase(ps[|ps| - 1]);
    AssembleStarts(ps[1..], gaps[1..]);
    AssembleEnds(ps[1..], gaps[1..]);
    AssembleEnds(ps, gaps);
  }

  /** A phrase, a gap, then a trimmed line: the phrase comes first and the
      trimmed line is what is left. */
  lemma PhraseGapRest(p: string, g: string, rest: string)
    requires IsPhrase(p) && IsGap(g) && rest != [] && IsTrimmed(rest)
    ensures IsTrimmed(p + g + rest) && p + g + rest != []
    ensures Tokenize(p + g + rest) == [p] + Tokenize(rest)
  {
    Regroup(p, g, rest);
    FirstPhraseEnd(p, g + rest);
    assert AfterHead(p + g + rest) == g + rest;
    TrimSpacesBefore(g, rest);
  }

  /** A phrase followed by two spaces ends where the phrase does. */
  lemma FirstPhraseEnd(p: string, rest: string)
    requires IsPhrase(p) && |rest| >= 2 && rest[0] == ' ' && rest[1] == ' '
    ensures PhraseEnd(p + rest, 0) == |p| - 1
  {
    var text := p + rest;
    assert DoubleSpaceAt(text, |p|);
    forall i | 0 <= i <= |p| - 1
      ensures !DoubleSpaceAt(text, i)
    {
      if i < |p| - 1 {
        assert !DoubleSpaceAt(p, i);
      }
    }
    PhraseEndUnique(text, 0, |p| - 1);
  }

  /** An assembled line starts with its first phrase's first character. */
  lemma AssembleStarts(ps: seq<string>, gaps: seq<string>)
    requires |ps| == |gaps| + 1 && ps[0] != []
    ensures Assemble(ps, gaps) != [] && Assemble(ps, gaps)[0] == ps[0][0]
  {
  }

  /** An assembled line ends with its last phrase's last character. */
  lemma {:induction false} AssembleEnds(ps: seq<string>, gaps: seq<string>)
    requires |ps| == |gaps| + 1 && ps[|ps| - 1] != []
    ensures Assemble(ps, gaps) != []
    ensures Assemble(ps, gaps)[|Assemble(ps, gaps)| - 1] == ps[|ps| - 1][|ps[|ps| - 1]| - 1]
    decreases |ps|
  {
    if |ps| > 1 {
      AssembleEnds(ps[1..], gaps[1..]);
    }
  }
}
