/**
 * parseTransactions (parser.go): the transaction builder. Each trimmed line
 * is cut into phrases; a one-phrase line continues the description of the
 * last transaction, a line whose last phrase ends in "CR" (a credit) is
 * skipped, and every other line becomes one transaction whose fields are
 * taken by position.
 *
 * The Go code builds a slice of pointers and fills in the fields of the new
 * record after appending it. Any error or panic discards the whole slice, so
 * here a record is appended once its fields are known, and the slice is a
 * sequence of values updated by index.
 */
module Transactions {
  import opened Folds
  import opened Wrappers
  import opened Strings
  import opened Dates
  import opened Amounts
  import opened Phrases

  /** One card transaction. The amounts are exact decimals. */
  datatype Transaction = Transaction(
    postDate: Date,
    transactionDate: Date,
    description: string,
    location: string,
    currency: string,
    localAmount: Decimal,
    amount: Decimal)

  /** A transaction with every field at its zero value. */
  const EMPTY := Transaction(ZERO_DATE, ZERO_DATE, "", "", "", ZERO, ZERO)

  /** The errors parseTransactions returns. */
  datatype ParseError = InvalidDate | InvalidAmount

  /** The index and slice panics of parseTransactions and parseDate. */
  datatype Panic =
    | NoPreviousTransaction   // transactions[len(transactions)-1] with none yet
    | ShortDateText           // dateStr[:3] on fewer than three characters
    | NoDescription           // phrases[2] on a two-phrase line
    | NoInterior              // phrases[3:len(phrases)-1] on a three-phrase line
    | NoCurrency              // phrases[len(phrases)-2] with one interior phrase

  /** What a call ends with: a value, a returned error, or a panic. */
  datatype Outcome<T> = Ok(value: T) | Failed(error: ParseError) | Panicked(panic: Panic)

  /** The phrases of a line once TrimSpace has been applied. */
  function PhrasesOf(line: string): seq<string> {
    Tokenize(Trim(line))
  }

  /** A credit line: two or more phrases, the last ending in "CR". */
  predicate IsCreditLine(line: string) {
    var ps := PhrasesOf(line);
    |ps| >= 2 && HasSuffix(ps[|ps| - 1], "CR")
  }

  // ---------------------------------------------------------------- one record

  /** parseDate on a phrase with the year text appended. */
  function DateField(phrase: string, yearStr: string): Outcome<Date> {
    var text := phrase + yearStr;
    if |text| < 3 then Panicked(ShortDateText)
    else
      match ParseDate(text)
      case None => Failed(InvalidDate)
      case Some(d) => Ok(d)
  }

  /** The location field: the phrases joined by ", ", untouched when there
      are none. */
  function Located(t: Transaction, ps: seq<string>): Transaction {
    if ps == [] then t else t.(location := Join(ps, ", "))
  }

  /** The phrases between the description and the amount: a trailing
      number is the local amount, the phrase before it the currency, and
      what is left the location. */
  function Interior(t: Transaction, interior: seq<string>): Outcome<Transaction> {
    if interior == [] then Ok(t)
    else
      var n := |interior|;
      match ParseAmount(interior[n - 1])
      case Some(local) =>
        if n == 1 then Panicked(NoCurrency)
        else Ok(Located(t.(localAmount := local, currency := interior[n - 2]), interior[..n - 2]))
      case None => Ok(Located(t, interior))
  }

  /** The fields a line of at least two phrases fixes before its interior
      phrases, checked in the order of the source: post date, transaction
      date, description, amount, and the slice of interior phrases. */
  function Leading(ps: seq<string>, yearStr: string): (r: Outcome<Transaction>)
    requires |ps| >= 2
    ensures r.Ok? ==> |ps| >= 4
  {
    match DateField(ps[0], yearStr)
    case Failed(e) => Failed(e)
    case Panicked(p) => Panicked(p)
    case Ok(post) =>
      match DateField(ps[1], yearStr)
      case Failed(e) => Failed(e)
      case Panicked(p) => Panicked(p)
      case Ok(trans) =>
        if |ps| == 2 then Panicked(NoDescription)
        else
          match ParseAmount(ps[|ps| - 1])
          case None => Failed(InvalidAmount)
          case Some(amount) =>
            if |ps| == 3 then Panicked(NoInterior)
            else Ok(EMPTY.(postDate := post, transactionDate := trans,
                           description := ps[2], amount := amount))
  }

  /** The record a line of at least two phrases stands for. */
  function Record(ps: seq<string>, yearStr: string): (r: Outcome<Transaction>)
    requires |ps| >= 2
    ensures r.Ok? ==> |ps| >= 4
  {
    match Leading(ps, yearStr)
    case Ok(t) => Interior(t, ps[3..|ps| - 1])
    case Failed(e) => Failed(e)
    case Panicked(p) => Panicked(p)
  }

  /** The body of the loop of parseTransactions after the split: fills in
      a new transaction field by field, reslicing the phrases as it goes. */
  method BuildRecord(phrases: seq<string>, yearStr: string) returns (r: Outcome<Transaction>)
    requires |phrases| >= 2
    ensures r == Record(phrases, yearStr)
  {
    var t := EMPTY;
    var dateText := phrases[0] + yearStr;
    if |dateText| < 3 {
      return Panicked(ShortDateText);
    }
    var postDate := ParseDate(dateText);
    if postDate.None? {
      return Failed(InvalidDate);
    }
    t := t.(postDate := postDate.value);
    dateText := phrases[1] + yearStr;
    if |dateText| < 3 {
      return Panicked(ShortDateText);
    }
    var transactionDate := ParseDate(dateText);
    if transactionDate.None? {
      return Failed(InvalidDate);
    }
    t := t.(transactionDate := transactionDate.value);
    if |phrases| < 3 {
      return Panicked(NoDescription);
    }
    t := t.(description := phrases[2]);
    var amount := ParseAmount(phrases[|phrases| - 1]);
    if amount.None? {
      return Failed(InvalidAmount);
    }
    t := t.(amount := amount.value);
    if |phrases| < 4 {
      return Panicked(NoInterior);
    }
    var rest := phrases[3..|phrases| - 1];
    if |rest| == 0 {
      return Ok(t);
    }
    var localAmount := ParseAmount(rest[|rest| - 1]);
    if localAmount.Some? {
      t := t.(localAmount := localAmount.value);
      if |rest| < 2 {
        return Panicked(NoCurrency);
      }
      t := t.(currency := rest[|rest| - 2]);
      rest := rest[..|rest| - 2];
    }
    if |rest| == 0 {
      return Ok(t);
    }
    t := t.(location := Join(rest, ", "));
    return Ok(t);
  }

  // ---------------------------------------------------------------- the whole text

  /** One line of the loop applied to the transactions so far. */
  function ApplyLine(ts: seq<Transaction>, line: string, yearStr: string): (r: Outcome<seq<Transaction>>)
    ensures r.Ok? ==> |r.value| == |ts| || |r.value| == |ts| + 1
    ensures r.Ok? && ts != [] ==> r.value[..|ts| - 1] == ts[..|ts| - 1]
  {
    if Trim(line) == [] then Ok(ts)
    else
      var ps := PhrasesOf(line);
      if |ps| == 1 then
        if ts == [] then Panicked(NoPreviousTransaction)
        else
          var last := ts[|ts| - 1];
          Ok(ts[|ts| - 1 := last.(description := last.description + "; " + ps[0])])
      else if HasSuffix(ps[|ps| - 1], "CR") then Ok(ts)
      else
        match Record(ps, yearStr)
        case Ok(t) => Ok(ts + [t])
        case Failed(e) => Failed(e)
        case Panicked(p) => Panicked(p)
  }

  /** A line applied after the lines before it; an error or a panic stops
      everything. */
  function Then(o: Outcome<seq<Transaction>>, line: string, yearStr: string): Outcome<seq<Transaction>> {
    match o
    case Ok(ts) => ApplyLine(ts, line, yearStr)
    case _ => o
  }

  /** The lines applied in order, starting from o. */
  function Run(o: Outcome<seq<Transaction>>, lines: seq<string>, yearStr: string): (r: Outcome<seq<Transaction>>)
    ensures r.Ok? ==> o.Ok? && |r.value| <= |o.value| + |lines|
    decreases |lines|
  {
    if lines == [] then o
    else Then(Run(o, lines[..|lines| - 1], yearStr), lines[|lines| - 1], yearStr)
  }

  /** parseTransactions(text, year). */
  function TransactionsOf(text: string, year: int): (r: Outcome<seq<Transaction>>)
    ensures r.Ok? ==> |r.value| <= |Split(text, '\n')|
  {
    if text == [] then Ok([]) else Run(Ok([]), Split(text, '\n'), Itoa(year))
  }

  /** The loop of parseTransactions. */
  method ParseTransactions(text: string, year: int) returns (r: Outcome<seq<Transaction>>)
    ensures r == TransactionsOf(text, year)
  {
    var transactions: seq<Transaction> := [];
    if |text| == 0 {
      return Ok(transactions);
    }
    var lines := Split(text, '\n');
    var yearStr := Itoa(year);
    for i := 0 to |lines|
      invariant Run(Ok([]), lines[..i], yearStr) == Ok(transactions)
    {
      var next := ParseLine(transactions, lines[i], yearStr);
      RunStep(lines, i, yearStr);
      if !next.Ok? {
        StopsAt(lines, i, yearStr);
        return next;
      }
      transactions := next.value;
    }
    assert lines[..|lines|] == lines;
    return Ok(transactions);
  }

  /** The body of the loop of parseTransactions: one line against the
      transactions so far, where an early return is a `continue` of the
      source. */
  method ParseLine(transactions: seq<Transaction>, line: string, yearStr: string)
    returns (r: Outcome<seq<Transaction>>)
    ensures r == ApplyLine(transactions, line, yearStr)
  {
    var trimmed := Trim(line);
    if |trimmed| == 0 {
      return Ok(transactions);
    }
    var phrases := SplitPhrases(trimmed);
    if |phrases| == 1 {
      if |transactions| == 0 {
        return Panicked(NoPreviousTransaction);
      }
      var last := transactions[|transactions| - 1];
      return Ok(transactions[|transactions| - 1 := last.(description := last.description + "; " + phrases[0])]);
    }
    if HasSuffix(phrases[|phrases| - 1], "CR") {
      return Ok(transactions);
    }
    var t := BuildRecord(phrases, yearStr);
    ApplyKept(transactions, line, yearStr);
    match t
    case Ok(record) => return Ok(transactions + [record]);
    case Failed(e) => return Failed(e);
    case Panicked(p) => return Panicked(p);
  }

  /** A line of two or more phrases that is no credit adds its record. */
  lemma ApplyKept(ts: seq<Transaction>, line: string, yearStr: string)
    requires Trim(line) != [] && |PhrasesOf(line)| >= 2
    requires !HasSuffix(PhrasesOf(line)[|PhrasesOf(line)| - 1], "CR")
    ensures ApplyLine(ts, line, yearStr) == match Record(PhrasesOf(line), yearStr)
      case Ok(t) => Ok(ts + [t])
      case Failed(e) => Failed(e)
      case Panicked(p) => Panicked(p)
  {
  }

  /** Line i applied after the lines before it. */
  lemma RunStep(lines: seq<string>, i: nat, yearStr: string)
    requires i < |lines|
    ensures Run(Ok([]), lines[..i + 1], yearStr) == Then(Run(Ok([]), lines[..i], yearStr), lines[i], yearStr)
  {
    assert lines[..i + 1][..i] == lines[..i];
  }

  /** Once line i ends the run with an error or a panic, so does the whole
      text. */
  lemma StopsAt(lines: seq<string>, i: nat, yearStr: string)
    requires i < |lines| && !Run(Ok([]), lines[..i + 1], yearStr).Ok?
    ensures Run(Ok([]), lines, yearStr) == Run(Ok([]), lines[..i + 1], yearStr)
  {
    RunAppend(Ok([]), lines[..i + 1], lines[i + 1..], yearStr);
    assert lines[..i + 1] + lines[i + 1..] == lines;
    FailuresStick(Run(Ok([]), lines[..i + 1], yearStr), lines[i + 1..], yearStr);
  }

  // ---------------------------------------------------------------- lemmas

  /** Running two blocks of lines is running the first, then the second. */
  lemma RunAppend(o: Outcome<seq<Transaction>>, a: seq<string>, b: seq<string>, yearStr: string)
    ensures Run(o, a + b, yearStr) == Run(Run(o, a, yearStr), b, yearStr)
  {
    RunIsFold(o, a + b, yearStr);
    RunIsFold(o, a, yearStr);
    RunIsFold(Run(o, a, yearStr), b, yearStr);
    FoldAppend(StepWith(yearStr), o, a, b);
  }

  /** Then, for a fixed year text, as a function value. */
  function StepWith(yearStr: string): (Outcome<seq<Transaction>>, string) -> Outcome<seq<Transaction>> {
    (o, line) => Then(o, line, yearStr)
  }

  /** Run is the left fold of Then. */
  lemma {:induction false} RunIsFold(o: Outcome<seq<Transaction>>, lines: seq<string>, yearStr: string)
    ensures Run(o, lines, yearStr) == FoldLeft(StepWith(yearStr), o, lines)
    decreases |lines|
  {
    if lines != [] {
      RunIsFold(o, lines[..|lines| - 1], yearStr);
    }
  }

  /** An error or a panic is never undone by later lines. */
  lemma {:induction false} FailuresStick(o: Outcome<seq<Transaction>>, lines: seq<string>, yearStr: string)
    requires !o.Ok?
    ensures Run(o, lines, yearStr) == o
    decreases |lines|
  {
    if lines != [] {
      FailuresStick(o, lines[..|lines| - 1], yearStr);
    }
  }

  /** A blank line may be inserted anywhere without effect. */
  lemma BlankLineIgnored(o: Outcome<seq<Transaction>>, pre: seq<string>, blank: string, post: seq<string>, yearStr: string)
    requires Trim(blank) == []
    ensures Run(o, pre + [blank] + post, yearStr) == Run(o, pre + post, yearStr)
  {
    RunAppend(o, pre + [blank], post, yearStr);
    RunAppend(o, pre, post, yearStr);
    assert (pre + [blank])[..|pre|] == pre;
  }

  /** The empty text, and a text of blank lines, give no transactions and
      no error. */
  lemma BlankTextGivesNothing(text: string, year: int)
    requires forall k :: 0 <= k < |Split(text, '\n')| ==> Trim(Split(text, '\n')[k]) == []
    ensures TransactionsOf(text, year) == Ok([])
  {
    if text != [] {
      BlankLinesGiveNothing(Split(text, '\n'), Itoa(year));
    }
  }

  lemma {:induction false} BlankLinesGiveNothing(lines: seq<string>, yearStr: string)
    requires forall k :: 0 <= k < |lines| ==> Trim(lines[k]) == []
    ensures Run(Ok([]), lines, yearStr) == Ok([])
    decreases |lines|
  {
    if lines != [] {
      BlankLinesGiveNothing(lines[..|lines| - 1], yearStr);
    }
  }

  /** A line that is a single phrase adds no transaction: it appends
      "; " and the trimmed line to the description of the last one, and
      panics when there is none. */
  lemma OnePhraseLine(ts: seq<Transaction>, line: string, yearStr: string)
    requires Trim(line) != [] && |PhrasesOf(line)| == 1
    ensures ts == [] ==> ApplyLine(ts, line, yearStr) == Panicked(NoPreviousTransaction)
    ensures ts != [] ==> ApplyLine(ts, line, yearStr).Ok?
    ensures ts != [] ==>
      var ts' := ApplyLine(ts, line, yearStr).value;
      var n := |ts|;
      |ts'| == n && ts'[..n - 1] == ts[..n - 1]
      && ts'[n - 1].description == ts[n - 1].description + "; " + Trim(line)
      && ts'[n - 1] == ts[n - 1].(description := ts'[n - 1].description)
  {
    SinglePhraseIsLine(Trim(line));
  }

  /** When a trimmed line is one phrase, that phrase is the line. */
  lemma SinglePhraseIsLine(line: string)
    requires IsTrimmed(line) && line != [] && |Tokenize(line)| == 1
    ensures Tokenize(line)[0] == line
  {
    TokenizeReassembles(line);
  }

  /** A credit line adds nothing and alters nothing. */
  lemma CreditLineChangesNothing(ts: seq<Transaction>, line: string, yearStr: string)
    requires IsCreditLine(line)
    ensures ApplyLine(ts, line, yearStr) == Ok(ts)
  {
  }

  /** A one-phrase line continues the last transaction even when credit
      lines were skipped in between. */
  lemma {:induction false} ContinuesAcrossCredits(ts: seq<Transaction>, credits: seq<string>, line: string, yearStr: string)
    requires forall k :: 0 <= k < |credits| ==> IsCreditLine(credits[k])
    ensures Run(Ok(ts), credits + [line], yearStr) == ApplyLine(ts, line, yearStr)
  {
    CreditsChangeNothing(ts, credits, yearStr);
    RunAppend(Ok(ts), credits, [line], yearStr);
    assert [line][..0] == [];
  }

  lemma {:induction false} CreditsChangeNothing(ts: seq<Transaction>, credits: seq<string>, yearStr: string)
    requires forall k :: 0 <= k < |credits| ==> IsCreditLine(credits[k])
    ensures Run(Ok(ts), credits, yearStr) == Ok(ts)
    decreases |credits|
  {
    if credits != [] {
      CreditsChangeNothing(ts, credits[..|credits| - 1], yearStr);
      CreditLineChangesNothing(ts, credits[|credits| - 1], yearStr);
    }
  }

  /** Every other non-blank line appends exactly one transaction at the
      end, the record of its phrases, or stops with that record's error. */
  lemma KeptLineAppendsOne(ts: seq<Transaction>, line: string, yearStr: string)
    requires Trim(line) != [] && |PhrasesOf(line)| >= 2 && !IsCreditLine(line)
    ensures var o := ApplyLine(ts, line, yearStr);
      o.Ok? <==> Record(PhrasesOf(line), yearStr).Ok?
    ensures var o := ApplyLine(ts, line, yearStr);
      o.Ok? ==> (|o.value| == |ts| + 1 && o.value[..|ts|] == ts
                 && Ok(o.value[|ts|]) == Record(PhrasesOf(line), yearStr))
    ensures var o := ApplyLine(ts, line, yearStr);
      var rec := Record(PhrasesOf(line), yearStr);
      (o.Failed? <==> rec.Failed?) && (o.Failed? ==> o.error == rec.error)
      && (o.Panicked? <==> rec.Panicked?) && (o.Panicked? ==> o.panic == rec.panic)
  {
    var o := ApplyLine(ts, line, yearStr);
    if o.Ok? {
      assert (ts + [o.value[|ts|]])[..|ts|] == ts;
    }
  }

  /** An error on some line is the result of the whole text: no
      transactions come back. */
  lemma FirstErrorWins(lines: seq<string>, i: nat, ts: seq<Transaction>, yearStr: string)
    requires i < |lines| && Run(Ok([]), lines[..i], yearStr) == Ok(ts)
    requires !ApplyLine(ts, lines[i], yearStr).Ok?
    ensures Run(Ok([]), lines, yearStr) == ApplyLine(ts, lines[i], yearStr)
  {
    assert lines[..i + 1][..i] == lines[..i];
    StopsAt(lines, i, yearStr);
  }

  /** The fields of a record come from its phrases by position: the two
      dates from the first two phrases with the year appended, the
      description from the third, the amount from the last. */
  lemma RecordFields(ps: seq<string>, yearStr: string, t: Transaction)
    requires |ps| >= 2 && Record(ps, yearStr) == Ok(t)
    ensures |ps| >= 4 && |ps[0] + yearStr| >= 3 && |ps[1] + yearStr| >= 3
    ensures ParseDate(ps[0] + yearStr) == Some(t.postDate)
    ensures ParseDate(ps[1] + yearStr) == Some(t.transactionDate)
    ensures t.description == ps[2]
    ensures ParseAmount(ps[|ps| - 1]) == Some(t.amount)
  {
    RecordIsInterior(ps, yearStr, t);
    var base := Leading(ps, yearStr).value;
    LeadingFields(ps, yearStr, base);
    InteriorKeepsLeading(base, ps[3..|ps| - 1], t);
  }

  /** The interior phrases between the description and the amount: a
      numeric last one is the local amount, with the currency before it
      and the rest joined as location; otherwise every interior phrase is
      location and there is no currency or local amount. */
  lemma RecordLocation(ps: seq<string>, yearStr: string, t: Transaction)
    requires |ps| >= 2 && Record(ps, yearStr) == Ok(t)
    ensures |ps| >= 4
    ensures var inner := ps[3..|ps| - 1];
      inner != [] && ParseAmount(inner[|inner| - 1]).Some? ==>
        |inner| >= 2 && ParseAmount(inner[|inner| - 1]) == Some(t.localAmount)
        && t.currency == inner[|inner| - 2] && t.location == Join(inner[..|inner| - 2], ", ")
    ensures var inner := ps[3..|ps| - 1];
      !(inner != [] && ParseAmount(inner[|inner| - 1]).Some?) ==>
        t.localAmount == ZERO && t.currency == "" && t.location == Join(inner, ", ")
  {
    RecordIsInterior(ps, yearStr, t);
    var base := Leading(ps, yearStr).value;
    LeadingFields(ps, yearStr, base);
    var inner := ps[3..|ps| - 1];
    if inner != [] && ParseAmount(inner[|inner| - 1]).Some? {
      InteriorWithLocalAmount(base, inner, t);
    } else {
      InteriorWithoutLocalAmount(base, inner);
    }
  }

  /** The interior leaves the dates, description and amount alone. */
  lemma InteriorKeepsLeading(t: Transaction, inner: seq<string>, t': Transaction)
    requires Interior(t, inner) == Ok(t')
    ensures t'.postDate == t.postDate && t'.transactionDate == t.transactionDate
    ensures t'.description == t.description && t'.amount == t.amount
  {
  }

  /** A record comes from leading phrases that read, then the interior. */
  lemma RecordIsInterior(ps: seq<string>, yearStr: string, t: Transaction)
    requires |ps| >= 2 && Record(ps, yearStr) == Ok(t)
    ensures Leading(ps, yearStr).Ok? && |ps| >= 4
    ensures Interior(Leading(ps, yearStr).value, ps[3..|ps| - 1]) == Ok(t)
  {
  }

  /** What the leading phrases fix, and the zero values they leave. */
  lemma LeadingFields(ps: seq<string>, yearStr: string, t: Transaction)
    requires |ps| >= 2 && Leading(ps, yearStr) == Ok(t)
    ensures |ps| >= 4 && |ps[0] + yearStr| >= 3 && |ps[1] + yearStr| >= 3
    ensures ParseDate(ps[0] + yearStr) == Some(t.postDate)
    ensures ParseDate(ps[1] + yearStr) == Some(t.transactionDate)
    ensures t.description == ps[2]
    ensures ParseAmount(ps[|ps| - 1]) == Some(t.amount)
    ensures t.location == "" && t.currency == "" && t.localAmount == ZERO
  {
  }

  /** A numeric last interior phrase is the local amount, with the
      currency before it and the rest joined as location; the other fields
      are left as they were. */
  lemma InteriorWithLocalAmount(t: Transaction, inner: seq<string>, t': Transaction)
    requires t.location == ""
    requires inner != [] && ParseAmount(inner[|inner| - 1]).Some?
    requires Interior(t, inner) == Ok(t')
    ensures |inner| >= 2 && ParseAmount(inner[|inner| - 1]) == Some(t'.localAmount)
    ensures t'.currency == inner[|inner| - 2]
    ensures t'.location == Join(inner[..|inner| - 2], ", ")
    ensures t' == t.(localAmount := t'.localAmount, currency := t'.currency, location := t'.location)
  {
  }

  /** Otherwise every interior phrase is location, and currency and local
      amount are left as they were. */
  lemma InteriorWithoutLocalAmount(t: Transaction, inner: seq<string>)
    requires t.location == ""
    requires !(inner != [] && ParseAmount(inner[|inner| - 1]).Some?)
    ensures Interior(t, inner) == Ok(t.(location := Join(inner, ", ")))
  {
  }

  /** Exactly when a line of at least two phrases yields a record. */
  lemma RecordSucceeds(ps: seq<string>, yearStr: string)
    requires |ps| >= 2
    ensures Record(ps, yearStr).Ok? <==>
      |ps| >= 4 && |ps[0] + yearStr| >= 3 && |ps[1] + yearStr| >= 3
      && ParseDate(ps[0] + yearStr).Some? && ParseDate(ps[1] + yearStr).Some?
      && ParseAmount(ps[|ps| - 1]).Some?
      && !(|ps| == 5 && ParseAmount(ps[3]).Some?)
  {
    if |ps| >= 4 {
      var t := EMPTY;
      InteriorSucceeds(t, ps[3..|ps| - 1]);
    }
  }

  /** The errors a line returns, in the order the source checks for them:
      a post date that does not read, then a transaction date that does
      not read, then an amount that does not read. Every other failure of
      a record is a panic. */
  lemma RecordErrors(ps: seq<string>, yearStr: string)
    requires |ps| >= 2
    ensures |ps[0] + yearStr| >= 3 && ParseDate(ps[0] + yearStr).None?
      ==> Record(ps, yearStr) == Failed(InvalidDate)
    ensures |ps[0] + yearStr| >= 3 && ParseDate(ps[0] + yearStr).Some?
      && |ps[1] + yearStr| >= 3 && ParseDate(ps[1] + yearStr).None?
      ==> Record(ps, yearStr) == Failed(InvalidDate)
    ensures |ps| >= 3 && |ps[0] + yearStr| >= 3 && ParseDate(ps[0] + yearStr).Some?
      && |ps[1] + yearStr| >= 3 && ParseDate(ps[1] + yearStr).Some?
      && ParseAmount(ps[|ps| - 1]).None?
      ==> Record(ps, yearStr) == Failed(InvalidAmount)
  {
    LeadingErrors(ps, yearStr);
  }

  lemma LeadingErrors(ps: seq<string>, yearStr: string)
    requires |ps| >= 2
    ensures Leading(ps, yearStr).Failed? ==> Record(ps, yearStr) == Leading(ps, yearStr)
    ensures |ps[0] + yearStr| >= 3 && ParseDate(ps[0] + yearStr).None?
      ==> Leading(ps, yearStr) == Failed(InvalidDate)
    ensures |ps[0] + yearStr| >= 3 && ParseDate(ps[0] + yearStr).Some?
      && |ps[1] + yearStr| >= 3 && ParseDate(ps[1] + yearStr).None?
      ==> Leading(ps, yearStr) == Failed(InvalidDate)
    ensures |ps| >= 3 && |ps[0] + yearStr| >= 3 && ParseDate(ps[0] + yearStr).Some?
      && |ps[1] + yearStr| >= 3 && ParseDate(ps[1] + yearStr).Some?
      && ParseAmount(ps[|ps| - 1]).None?
      ==> Leading(ps, yearStr) == Failed(InvalidAmount)
  {
  }

  /** The panics of a record, in the order the source meets them: a date
      text under three characters, a line of two phrases, a line of three,
      and one interior phrase that reads as a number. */
  lemma RecordPanics(ps: seq<string>, yearStr: string)
    requires |ps| >= 2
    ensures |ps[0] + yearStr| < 3 ==> Record(ps, yearStr) == Panicked(ShortDateText)
    ensures |ps[0] + yearStr| >= 3 && ParseDate(ps[0] + yearStr).Some? && |ps[1] + yearStr| < 3
      ==> Record(ps, yearStr) == Panicked(ShortDateText)
    ensures |ps| == 2 && |ps[0] + yearStr| >= 3 && ParseDate(ps[0] + yearStr).Some?
      && |ps[1] + yearStr| >= 3 && ParseDate(ps[1] + yearStr).Some?
      ==> Record(ps, yearStr) == Panicked(NoDescription)
    ensures |ps| == 3 && |ps[0] + yearStr| >= 3 && ParseDate(ps[0] + yearStr).Some?
      && |ps[1] + yearStr| >= 3 && ParseDate(ps[1] + yearStr).Some?
      && ParseAmount(ps[2]).Some?
      ==> Record(ps, yearStr) == Panicked(NoInterior)
    ensures |ps| == 5 && |ps[0] + yearStr| >= 3 && ParseDate(ps[0] + yearStr).Some?
      && |ps[1] + yearStr| >= 3 && ParseDate(ps[1] + yearStr).Some?
      && ParseAmount(ps[4]).Some? && ParseAmount(ps[3]).Some?
      ==> Record(ps, yearStr) == Panicked(NoCurrency)
  {
    if |ps| == 5 && Leading(ps, yearStr).Ok? {
      InteriorSucceeds(Leading(ps, yearStr).value, ps[3..4]);
    }
  }

  /** The interior phrases fail only as a lone number. */
  lemma InteriorSucceeds(t: Transaction, inner: seq<string>)
    ensures Interior(t, inner).Ok? <==> !(|inner| == 1 && ParseAmount(inner[0]).Some?)
    ensures !Interior(t, inner).Ok? ==> Interior(t, inner) == Panicked(NoCurrency)
  {
  }

  /** No post date can be read with a year the four-digit layout cannot
      hold, nor with a year below 1000 after a five-character phrase. */
  lemma YearOutOfRange(ps: seq<string>, year: int)
    requires |ps| >= 2 && ps[0] != []
    requires year < 0 || year > 9999 || (year < 1000 && |ps[0]| == 5)
    ensures Record(ps, Itoa(year)) == Failed(InvalidDate)
  {
    if year > 9999 {
      NatToStringLength(year);
    }
    DateNeedsFourDigitYear(ps[0], year);
  }

  /** With a year below 0 or above 9999 no text yields a transaction:
      every line that would make one fails. */
  lemma NoTransactionsOutsideYears(text: string, year: int)
    requires year < 0 || year > 9999
    ensures TransactionsOf(text, year).Ok? ==> TransactionsOf(text, year).value == []
  {
    if text != [] {
      NothingOutsideYears(Split(text, '\n'), year);
    }
  }

  lemma {:induction false} NothingOutsideYears(lines: seq<string>, year: int)
    requires year < 0 || year > 9999
    ensures Run(Ok([]), lines, Itoa(year)).Ok? ==> Run(Ok([]), lines, Itoa(year)).value == []
    decreases |lines|
  {
    if lines != [] {
      var pre := lines[..|lines| - 1];
      var line := lines[|lines| - 1];
      NothingOutsideYears(pre, year);
      if Run(Ok([]), pre, Itoa(year)).Ok? && Trim(line) != [] {
        var ps := PhrasesOf(line);
        if |ps| >= 2 && !IsCreditLine(line) {
          TokenizePhrases(Trim(line));
          YearOutOfRange(ps, year);
        }
      }
    }
  }
}
