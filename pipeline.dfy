/**
 * Parse (parser.go) up to the point where the statement is assembled: the
 * text is split into lines, the statement date and type are read from
 * them, the transaction section is cut out, joined back with newlines and
 * handed to parseTransactions with the statement date's year.
 */
module Pipeline {
  import opened Strings
  import opened Dates
  import opened Sections
  import opened Transactions
  import opened Metadata

  /** What Parse has in hand before NewStatement: the statement type, the
      statement date with its error flag, and the transactions outcome. */
  datatype Parsed = Parsed(statementType: string, statementDate: StatementDate,
                           transactions: Outcome<seq<Transaction>>)

  function ParseStatement(text: string): (r: Parsed)
    ensures r.statementType == "" || r.statementType == VISA_SIGNATURE || r.statementType == HSBC_RED
    ensures r.statementDate.failed ==> r.statementDate.date == ZERO_DATE
    ensures r.statementDate.date != ZERO_DATE ==> IsWritable(r.statementDate.date)
  {
    var lines := Split(text, '\n');
    var date := ExtractStatementDate(lines);
    var section := Join(Extracted(lines), "\n");
    Parsed(StatementType(lines), date, TransactionsOf(section, date.date.year))
  }

  /** Joining the kept lines and splitting them again loses nothing: the
      transactions are the kept lines read one by one with the statement
      date's year (the zero date's year 1 when there is none). */
  lemma ParseIsLineByLine(text: string)
    ensures var lines := Split(text, '\n');
      ParseStatement(text).transactions
      == Run(Ok([]), Extracted(lines), Itoa(ExtractStatementDate(lines).date.year))
  {
    var lines := Split(text, '\n');
    var kept := Extracted(lines);
    if kept != [] {
      forall k | 0 <= k < |kept|
        ensures '\n' !in kept[k] && kept[k] != []
      {
        ExtractedLines(lines, k);
        var j :| 0 <= j < |lines| && kept[k] == Trim(lines[j]) && HeaderBefore(lines, j);
        TrimKeepsOut(lines[j], '\n');
      }
      SplitJoin(kept, '\n');
      assert Join(kept, "\n") != [] by {
        JoinStarts(kept, "\n");
      }
    }
  }

  /** A character a line lacks is not in its trimmed text either. */
  lemma TrimKeepsOut(s: string, c: char)
    requires c !in s
    ensures c !in Trim(s)
  {
    TrimShape(s);
  }

  /** A join is at least as long as its first piece. */
  lemma JoinStarts(parts: seq<string>, sep: string)
    requires |parts| >= 1
    ensures |Join(parts, sep)| >= |parts[0]|
  {
  }

  /** An empty text has no statement type, no statement date and no
      transactions. */
  lemma EmptyText()
    ensures ParseStatement("") == Parsed("", UNDATED, Ok([]))
  {
    var lines := Split("", '\n');
    assert lines == [""];
    assert StatementType(lines) == "" by {
      assert !Contains(ToUpper(""), "STATEMENT");
    }
    assert Extracted(lines) == [] by {
      assert lines[..0] == [];
      assert !IsHeader(Trim(""));
    }
  }
}
