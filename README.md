# statement-parser: the text-parsing core in Dafny

This project models how the statement parser turns the text of an HSBC
credit-card statement (from `pdftotext`) into transactions, and proves
properties of that model. The Go code is in `cmd/statementparse/parser.go`.
The model covers:

- **Section extraction** (`preprocessTransactionText`). A column header naming
  both "POST DATE" and "TRANS DATE" opens the transaction section. Inside it,
  a line that starts like `15SEP 13SEP` opens a transaction and is kept. The
  non-blank lines after it are kept too, until a blank line or another header
  closes the transaction.
- **Phrase splitting** (`findPhraseEndIndex` and the loop that calls it). A trimmed
  line is cut into phrases at every run of two or more spaces.
- **The transaction builder** (`parseTransactions`). A one-phrase line continues
  the description of the last transaction. A line whose last phrase ends in
  "CR" is a credit and is skipped. Any other line becomes one transaction, with
  fields taken by position: post date, transaction date, description, then
  location, currency and local amount, and finally the amount.
- **Dates and amounts** (`parseDate` with layout `02Jan2006`, `parseAmount`).
- **The statement metadata** (`extractStatementType`, `extractStatementDate`,
  the regex `\b\d{1,2}\s+[A-Z]{3}\s+\d{4}\b` and the layout `02 Jan 2006`).
- **The glue in `Parse`**: split the text into lines, extract the section,
  join it with newlines, and parse it with the statement date's year.

Modules, one per file:
- `Strings`: ASCII TrimSpace, ToUpper/ToLower, Contains, Split, Join and Itoa.
- `Dates`: both date layouts.
- `Amounts`: the number reader.
- `Phrases`: the splitter.
- `Sections`: the extractor.
- `Transactions`: the builder.
- `Metadata`: the two scans for the statement type and date.
- `Pipeline`: the glue.
- `Folds` and `Wrappers`: small generic helpers.

How the Go code is rendered:
- The code that updates state step by step is written as methods with loop
  invariants: `PreprocessTransactionText`, `FindPhraseEndIndex`,
  `SplitPhrases`, `ParseTransactions`, `ParseLine` and `BuildRecord`. Each is
  proved equal to a function that is a pure restatement of the same algorithm.
  The properties are proved as lemmas about that function.
- Each Go panic is an explicit outcome, `Panicked(reason)`, and not a
  precondition. There are five:
  - a one-phrase line with no transaction before it (line 177);
  - a date phrase that, with the year added, is shorter than three characters (line 144);
  - a kept line with two phrases (line 203);
  - a kept line with three phrases, where `phrases[3:2]` panics (line 210);
  - a single interior phrase that reads as a number (line 219).
- A returned error is `Failed(InvalidDate)` or `Failed(InvalidAmount)`, and it
  discards every transaction built so far, as the Go `return nil, err` does.
- Amounts are exact decimals (`Decimal(mantissa, scale)`), not floats.
- Dates are `Date(year, month, day)`; the zero `time.Time` is `Date(1, 1, 1)`.
- The transactions are a sequence of values. The updates through
  `*Transaction` pointers become updates by index.

Two behaviours of the code are worth knowing. Neither is a defect claim:
- A year outside 1000..9999 does not always make a kept line fail. Only a
  year below 0 or above 9999 always does (`Transactions.YearOutOfRange`,
  `Transactions.NoTransactionsOutsideYears`). For a year from 0 to 999, a
  five-character phrase such as `15SEP` gives at most eight characters and
  always fails. A longer phrase that supplies the missing year digits still
  reads: `12SEP20` with year 25 gives `12SEP2025`. On a statement with no
  statement date, the year is 1, so every line with a five-character date
  phrase fails.
- The statement-date regex accepts a one-digit day ("5 OCT 2025"). The layout
  `02 Jan 2006` then rejects it, so the result is the zero time together with
  an error (`Metadata.OneDigitDayFails`). The layout also rejects a tab
  between the fields, although the regex's `\s` allows one.

## Model

| member | source | states |
|---|---|---|
| Strings.Trim | cmd/statementparse/parser.go:87 | TrimSpace leaves no white space at either end, never lengthens the text, and leaves a trimmed text unchanged |
| Strings.TrimShape | cmd/statementparse/parser.go:87 | the trimmed text is the middle of the line, with only white space cut from before and after it |
| Strings.SplitJoin | cmd/statementparse/parser.go:19 | splitting a newline join of newline-free lines gives the lines back |
| Strings.JoinSplit | cmd/statementparse/parser.go:161 | joining the pieces of a split with the separator gives the text back |
| Strings.Split | cmd/statementparse/parser.go:12 | strings.Split gives at least one piece, and no piece contains the separator |
| Sections.RegexSpaceRun | cmd/statementparse/parser.go:84 | the `\s` run at a position covers only `\s` characters and stops at the first other character |
| Sections.StartScanMatchesPattern | cmd/statementparse/parser.go:84 | the left-to-right test of a start line accepts exactly the lines that the regex `^\s*\d{2}[A-Z]{3}\s+\d{2}[A-Z]{3}` matches for some choice of the two `\s` runs |
| Sections.PreprocessTransactionText | cmd/statementparse/parser.go:79-119 | the loop with the `inSection`/`inTransaction` flags returns the kept lines of the scan, in order |
| Sections.StateOf | cmd/statementparse/parser.go:86-116 | after any prefix of lines, `inSection` says that some line so far was a header, and `inTransaction` says that a start line after a header has been followed only by non-blank, non-header lines |
| Sections.ExtractedStep | cmd/statementparse/parser.go:86-116 | one more line adds its trimmed text to the output exactly when it is kept, and otherwise adds nothing |
| Sections.StartLineKept | cmd/statementparse/parser.go:107-111 | inside the section, a non-header line matching the start pattern is always kept |
| Sections.OtherLineKept | cmd/statementparse/parser.go:113-115 | inside the section, any other non-blank, non-header line is kept exactly when a transaction is open |
| Sections.ClosedBy | cmd/statementparse/parser.go:90-105 | a blank line or a header leaves no transaction open |
| Sections.KeptIndicesExact | cmd/statementparse/parser.go:86-116 | the listed positions are exactly those of the lines that are kept |
| Sections.ExtractedIsSubsequence | cmd/statementparse/parser.go:86-118 | the output is the trimmed input lines at strictly increasing positions: an order-preserving subsequence |
| Sections.ExtractedLines | cmd/statementparse/parser.go:87-115 | every output line is non-empty, trimmed and not a header, and it comes from an input line that follows a header |
| Sections.HeaderlessPrefixIgnored | cmd/statementparse/parser.go:96-98 | lines before the first header contribute nothing and do not change what follows |
| Sections.HeaderlessScan | cmd/statementparse/parser.go:96-98 | a scan over lines without a header ends in the initial state with no output |
| Sections.ScanAppend | cmd/statementparse/parser.go:86-116 | scanning two blocks of lines one after the other is scanning them together |
| Phrases.FindPhraseEndIndex | cmd/statementparse/parser.go:124-140 | on a start that is not a space and a text not ending in a space: the end lies in range at a non-space character; the phrase has no double space; and the phrase is followed by the end of the text or by two spaces |
| Phrases.PhraseEnd | cmd/statementparse/parser.go:124-140 | the end index lies between the start less one and the last position, and not before the start when the start is not a space (`Phrases.PhraseEndSpec` says which index it is) |
| Phrases.PhraseEndSpec | cmd/statementparse/parser.go:124-140 | the end index stops before the first double space at or after the start, or at the last character |
| Phrases.PhraseEndUnique | cmd/statementparse/parser.go:124-140 | only one index has that property |
| Phrases.SplitPhrases | cmd/statementparse/parser.go:169-174 | the splitting loop gives the phrases of the trimmed line, in order |
| Phrases.TokenizePhrases | cmd/statementparse/parser.go:169-174 | every phrase is non-empty, starts with a non-space, does not end in a space, and has no double space |
| Phrases.TokenizeReassembles | cmd/statementparse/parser.go:169-174 | the line is its phrases, left to right, with a gap of two or more spaces between each two: nothing but the gaps is dropped |
| Phrases.TokenizeAssemble | cmd/statementparse/parser.go:169-174 | conversely, phrases joined by such gaps split back into the same phrases |
| Phrases.TokenizeWhole | cmd/statementparse/parser.go:121-123 | a trimmed line without a double space is a single phrase, the whole line |
| Phrases.TokenizePhraseAgain | cmd/statementparse/parser.go:169-174 | a trimmed phrase (non-empty, no double space) splits again into just itself: splitting is idempotent on its own output |
| Phrases.GapBetween | cmd/statementparse/parser.go:171-173 | each step cuts the line into the phrase, a gap, and the trimmed rest |
| Dates.ParseDate | cmd/statementparse/parser.go:143-146 | what parseDate reads is a valid date with a year from 0 to 9999 (the texts it reads, and as which date, are in `Dates.ParseDateExactly`) |
| Dates.ParseCompact | cmd/statementparse/parser.go:145 | what layout `02Jan2006` reads is a valid date with a year from 0 to 9999 (`Dates.FormatCompactParses` and `Dates.ParseCompactIgnoresCase` say which texts) |
| Dates.ParseDateExactly | cmd/statementparse/parser.go:143-146 | parseDate gives d exactly when d is a valid date with a four-digit year and the text is its `02Jan2006` text in some mix of letter cases |
| Dates.FormatCompactParses | cmd/statementparse/parser.go:145 | every date with a four-digit year reads back from its `02Jan2006` text |
| Dates.ParseCompactIgnoresCase | cmd/statementparse/parser.go:144 | the letter case of the text does not change the result |
| Dates.ParseDateShape | cmd/statementparse/parser.go:143-146 | a text that reads as a date has nine characters: two digits, three letters, four digits |
| Dates.DateWithYear | cmd/statementparse/parser.go:193 | a five-character phrase with a four-digit year appended reads as d exactly when d is valid and the phrase spells d's day and month |
| Dates.DateNeedsFourDigitYear | cmd/statementparse/parser.go:192-196 | with a year below 0 or above 9999 no phrase reads as a date; with a year below 1000, no five-character phrase does |
| Dates.LookupMonth | cmd/statementparse/parser.go:145 | the month abbreviation is found by its name in any letter case, and a text that is no month name is not found |
| Dates.Validated | cmd/statementparse/parser.go:145 | a date is accepted exactly when its day is within the month's length |
| Dates.StatementDateTextParses | cmd/statementparse/parser.go:74 | layout `02 Jan 2006` reads back the printed date `13 OCT 2025` of every date it can express |
| Dates.ParseSpacedExactly | cmd/statementparse/parser.go:74 | layout `02 Jan 2006` reads a text as d exactly when it is d's two day digits, one or more spaces, d's month abbreviation in any letter case, one or more spaces and d's four year digits, and d is a valid date with a year from 0 to 9999 |
| Dates.SpacedTextParses | cmd/statementparse/parser.go:74 | the day digits, one or more spaces, the month abbreviation in any letter case, one or more spaces and the four year digits read back as that date |
| Dates.ParsedSpacedIsText | cmd/statementparse/parser.go:74 | conversely, every text the layout reads is written that way for the date it gives |
| Amounts.ParseNumberExactly | cmd/statementparse/parser.go:150 | a text reads as a number exactly when it is a plain decimal: an optional sign, then digits with at most one point and at least one digit |
| Amounts.ParseAmountExactly | cmd/statementparse/parser.go:148-152 | parseAmount succeeds exactly when the text, with its commas deleted and trimmed, is a plain decimal |
| Amounts.ParseNumberPieces | cmd/statementparse/parser.go:150 | any sign, digits, point and digits read as the number the digits spell, scaled by the count after the point and negated after a `-` |
| Amounts.ParseNumberWhole | cmd/statementparse/parser.go:150 | any sign and digits without a point read as the whole number the digits spell |
| Amounts.ZerosAndPlusAmount | cmd/statementparse/parser.go:148-152 | `+007.50` reads as 750 at two decimal places |
| Amounts.TrailingPointAmount | cmd/statementparse/parser.go:148-152 | `3.` reads as 3 |
| Amounts.ParseAmountFormat | cmd/statementparse/parser.go:148-152 | parseAmount reads back every decimal from its plain text |
| Amounts.ParseAmountIgnoresCommas | cmd/statementparse/parser.go:149 | thousands separators make no difference |
| Amounts.NumberAlphabet | cmd/statementparse/parser.go:150 | a text that reads as a number has only digits, signs and a point |
| Amounts.LetterEndIsNoAmount | cmd/statementparse/parser.go:216-217 | a phrase ending in a letter, such as a place name or `6,873.00CR`, is never an amount |
| Transactions.TransactionsOf | cmd/statementparse/parser.go:155-232 | parseTransactions returns at most one transaction per line of its text |
| Transactions.Run | cmd/statementparse/parser.go:163-228 | an error or a panic is never followed by transactions, and each line adds at most one transaction |
| Transactions.ApplyLine | cmd/statementparse/parser.go:164-227 | one line adds at most one transaction and never changes any transaction but the last |
| Transactions.Record | cmd/statementparse/parser.go:186-227 | a line gives a record only when it has four or more phrases (its other properties are in the `Record…` lemmas) |
| Transactions.ParseTransactions | cmd/statementparse/parser.go:155-232 | the builder loop gives the line-by-line outcome of the text |
| Transactions.ParseLine | cmd/statementparse/parser.go:164-227 | one iteration of the loop gives the outcome of one line against the transactions so far |
| Transactions.BuildRecord | cmd/statementparse/parser.go:186-227 | the field-by-field filling, with reslicing, gives the record the phrases stand for, or the first error or panic |
| Transactions.BlankTextGivesNothing | cmd/statementparse/parser.go:157-167 | an empty text, or one of blank lines only, gives no transactions and no error |
| Transactions.BlankLineIgnored | cmd/statementparse/parser.go:164-167 | a blank line anywhere can be removed without changing the result |
| Transactions.OnePhraseLine | cmd/statementparse/parser.go:176-179 | a one-phrase line adds no transaction; it appends `"; "` and the line to the last description and changes nothing else; with no transaction before it, it panics |
| Transactions.CreditLineChangesNothing | cmd/statementparse/parser.go:181-184 | a line whose last phrase ends in "CR" adds nothing and changes nothing |
| Transactions.ContinuesAcrossCredits | cmd/statementparse/parser.go:176-184 | after any run of credit lines, the next line acts as if they were not there, so a one-phrase line still continues the last transaction |
| Transactions.KeptLineAppendsOne | cmd/statementparse/parser.go:186-227 | any other line appends exactly its record at the end and keeps the earlier ones; when the record fails, the line fails with the same error or panic |
| Transactions.FirstErrorWins | cmd/statementparse/parser.go:193-207 | the first line that fails decides the result of the whole text, and no transactions are returned |
| Transactions.RecordFields | cmd/statementparse/parser.go:189-208 | a record's dates are the first two phrases read with the year appended, its description is the third phrase, and its amount is the last phrase read as a number |
| Transactions.RecordLocation | cmd/statementparse/parser.go:210-227 | if the last interior phrase reads as a number, it is the local amount, the phrase before it is the currency, and the rest joined by ", " is the location; otherwise all interior phrases form the location and currency and local amount stay zero |
| Transactions.RecordSucceeds | cmd/statementparse/parser.go:189-227 | a line of at least two phrases gives a record exactly when it has four or more phrases, both dates and the amount read, and it is not a five-phrase line whose one interior phrase is a number |
| Transactions.RecordErrors | cmd/statementparse/parser.go:193-206 | the returned errors, in the order the code checks for them: an unreadable post date or transaction date gives `InvalidDate`, and after two readable dates an unreadable last phrase gives `InvalidAmount` |
| Transactions.RecordPanics | cmd/statementparse/parser.go:186-221 | the panics, in the order the code meets them: a date text under three characters, then a line of two phrases, then one of three, then a five-phrase line whose one interior phrase is a number |
| Transactions.InteriorSucceeds | cmd/statementparse/parser.go:216-221 | the interior phrases fail only as a lone number, and then they panic |
| Transactions.YearOutOfRange | cmd/statementparse/parser.go:192-196 | with a year below 0 or above 9999, or below 1000 with a five-character first phrase, a record fails with a date error |
| Transactions.NoTransactionsOutsideYears | cmd/statementparse/parser.go:155-232 | with a year below 0 or above 9999, no text yields any transaction |
| Transactions.RunAppend | cmd/statementparse/parser.go:163-228 | processing two blocks of lines one after the other is processing them together |
| Metadata.LineLabel | cmd/statementparse/parser.go:36-46 | a line names the Visa Signature card exactly when its upper-case form mentions both STATEMENT and VISA SIGNATURE, the Red card exactly when it mentions STATEMENT and HSBC RED but not VISA SIGNATURE, and nothing otherwise |
| Metadata.StatementType | cmd/statementparse/parser.go:34-49 | the statement type is "", "HSBC Visa Signature" or "HSBC Red" |
| Metadata.StatementTypeIsFirstLabel | cmd/statementparse/parser.go:34-49 | the first line naming a card decides the type, whatever comes after it |
| Metadata.StatementTypeEmpty | cmd/statementparse/parser.go:48 | the type is "" exactly when no line names a card |
| Metadata.DateMatchIsPattern | cmd/statementparse/parser.go:64 | the left-to-right reading matches at a position, and ends at e, exactly when the date regex, word boundaries included, matches there and ends at e |
| Metadata.FindDate | cmd/statementparse/parser.go:64-65 | a match has at least ten characters and starts and ends with a digit (`Metadata.FindDateIsLeftmostMatch` says which match) |
| Metadata.FindDateIsLeftmostMatch | cmd/statementparse/parser.go:65 | FindString gives the text of the match at the leftmost position where the regex matches |
| Metadata.FindDateNoMatch | cmd/statementparse/parser.go:65-69 | FindString finds nothing exactly when the regex matches nowhere in the line |
| Metadata.DateFromLine | cmd/statementparse/parser.go:63-71 | an error comes only with the zero time, and any other date is valid with a year from 0 to 9999 (`Metadata.DateFromLinePrinted`, `Metadata.NoMatchIsUndated` and `Metadata.OneDigitDayFails` give the cases) |
| Metadata.ExtractStatementDate | cmd/statementparse/parser.go:54-76 | an error comes only with the zero time, and any other date has a four-digit year and is valid |
| Metadata.FirstDateLineDecides | cmd/statementparse/parser.go:55-62 | only the first "STATEMENT DATE" line is looked at: the result is what the next line gives, or the zero time with no error when that line is the last |
| Metadata.NoDateLine | cmd/statementparse/parser.go:74-75 | with no "STATEMENT DATE" line, the result is the zero time with no error |
| Metadata.NoMatchIsUndated | cmd/statementparse/parser.go:66-69 | a next line without a day-month-year gives the zero time with no error |
| Metadata.DateFromLinePrinted | cmd/statementparse/parser.go:63-71 | a next line that is exactly a printed date such as `13 OCT 2025` gives that date with no error |
| Metadata.OneDigitDayFails | cmd/statementparse/parser.go:64-71 | when the leftmost match has a one-digit day, the result is the zero time with an error |
| Pipeline.ParseStatement | cmd/statementparse/parser.go:11-29 | Parse up to the transactions: the type is one of the three labels, a date error comes only with the zero time, and any other date is valid (`Pipeline.ParseIsLineByLine` and `Pipeline.EmptyText` give the transactions and the empty case) |
| Pipeline.ParseIsLineByLine | cmd/statementparse/parser.go:12-20 | the transactions of a statement are its extracted lines processed one by one, with the statement date's year; joining the lines and splitting them again loses nothing |
| Pipeline.EmptyText | cmd/statementparse/parser_test.go:11-16 | an empty text has no type, the zero date with no error, and no transactions |

## Left out

- `cmd/main.go` is not modelled: flag parsing, the `pdftotext` subprocess, file output and the JSON/CSV encoders are all I/O.
- `NewStatement`, `Statement.PostProcess`, `Transaction.PostProcess`, `ToJSON` and `ToCSV` are not modelled, because their bodies are not among the source files. `NewTransaction` is taken to give the all-zero record.
- `Parse` is modelled only up to `parseTransactions` (`Pipeline.ParseStatement`). The post-processing after that is not part of this model.
- The `slog` logging calls have no effect on results and are dropped.
- Error values carry only their kind (`InvalidDate`, `InvalidAmount`, or whether the statement date failed). They do not carry the text of Go's error messages.
- Floating point is left out. Amounts are exact decimals. `Amounts.ParseAmount` accepts only the plain forms: an optional sign, then digits with an optional point and fraction, or a point and digits. `strconv.ParseFloat` also accepts `inf`, `nan`, exponents, hexadecimal and underscores. So a location phrase such as "INF", which Go reads as a number at line 216, counts as text here. The `float32` fields of `Transaction` are left out too.
- Floating-point range and rounding are left out. `strconv.ParseFloat` returns `ErrRange` for a magnitude beyond the float64 range (about 1.8e308). The code then fails the line at line 206, and at line 216-217 it treats such a phrase as location text. `Amounts.ParseNumber` accepts digits of any length and keeps the exact value, so neither path is modelled.
- Unicode is left out: TrimSpace, ToUpper, ToLower, the regex classes and the word boundary work on ASCII characters only. Go's TrimSpace also strips Unicode spaces such as U+0085 and U+00A0. ToUpper also maps non-ASCII letters.
- `time.Time` is reduced to year, month and day. There are no time zones or clock readings. Only the two layouts the code uses are modelled.
- The `*Transaction` pointers are not modelled. Go appends the new record before filling in its fields, and the model appends it once it is complete. This cannot be observed, because any error discards the whole slice.
- A phrase may end in a tab: phrases are cut only at spaces, so a tab before a double space stays in the phrase, as in the Go code.

