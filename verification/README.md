# Transaction reconciliation, modelled in Dafny

The program reconciles a company's internal ledger against the statements
its banks send. Each ledger row is a transaction: an id, an amount in
cents, a type (`debit` or `credit`) and a timestamp. Each bank row is a
statement line: a reference id naming a ledger transaction, a signed amount
and a date. The bank code comes from the statement file's name. For a
window of days given by a start and an end date, the program reports:

- how many distinct transaction ids fall in the window (rows sharing an
  id count once);
- how many of them a bank statement matched;
- the total amount by which matched pairs disagree;
- the transactions no statement matched;
- the statements that matched no transaction, grouped by bank.

This project models the core of that program as pure functions. It then
proves what the engine computes about the ledger and the statements,
independently of how its loop computes it. The core covers:

- amount parsing (`NewCurrency`);
- the reconciliation engine;
- the CSV row converters;
- bank-code extraction from a file path;
- gathering of all statement feeds.

Modules, one per file:

- `Results` (`results.dfy`): `Option` and `Result`.
- `GoInt` (`goint.dfy`): Go's `int64` and its wrap-around arithmetic.
- `Text` (`text.dfy`): `strings.Split` on one separator character, and
  ASCII `strings.ToLower`.
- `Strconv` (`strconv.dfy`): `strconv.ParseInt` in base 10 with 64 bits, and
  `strconv.Atoi`, which is the same on a 64-bit platform.
- `Models` (`models.dfy`): the records and `NewCurrency`.
- `Feeds` (`feeds.dfy`): the row converters, `BankCode`, and the gathering
  of all statement files.
- `Reconciliation` (`reconciliation.dfy`): the engine.
  - `Process` runs the statement loop step by step, as the program does.
  - `Invariant` describes its state in closed form:
    - the pending map is the index minus every reference seen;
    - the match count is the number of indexed ids referenced;
    - the delta is the wrapped exact sum of the matched differences;
    - the unmatched map groups the unclaimed statements by bank.
  - `Reconcile` returns the `Summary` that the report prints.
- `Pipeline` (`pipeline.dfy`): the `reconciliation` function, from the date
  strings to the summary.
- `AmountScenarios`, `EngineScenarios` and `FeedScenarios`
  (`scenarios.dfy`): concrete inputs worked through the model.

Behaviour of the code as written that the model keeps:

- **Amounts are whole-unit integers scaled by 100.**
  - A fraction after the single `.` is added as a raw integer: `"7.5"` is
    705 cents, not 750.
  - On a negative amount the fraction is subtracted.
  - A fraction that does not parse is dropped without an error.
  - With more than one `.`, everything after the integer part is ignored.
  - The scaling and additions wrap around at 64 bits, as Go's `int64`
    does.
- **Debit differences add the two amounts.** The difference for a `debit`
  is `transaction + statement`, so a ledger debit stored as a negative
  amount against an equal negative statement gives a non-zero difference
  (`EngineScenarios.EndToEndNegativeDebit`: -500 against -500 counts -1000).
  The comment at `problem_2/main.go:63` expects the bank amount of a debit
  to be negative, so a ledger debit is expected to be positive. A debit
  recorded in the ledger with a negative amount does not cancel its bank
  line.
- **A bad statement timestamp panics.** A statement row with three fields
  and a valid amount whose timestamp does not parse builds its error
  message from a fourth field the row does not have
  (`problem_2/utils.go:92`). Go aborts the program there. The model gives
  that row the result `IndexPanic`. The run ends as `Crashed` with no
  report only when such a row is the first failing row of its file. A row
  with the wrong number of fields or a bad amount, or any row after an
  earlier failing one, never reaches that line: its file fails with an
  ordinary error (`problem_2/utils.go:81-87`). Every file that fails
  without panicking is skipped, and the run goes on.
- **Only the first in-window statement per reference matches.** The
  transaction is removed from the index once matched, so a later statement
  with the same reference is reported as unmatched. Which of two such
  statements matches therefore depends on the order of the feeds and rows.
- **The last in-window ledger row wins.** When several in-window ledger
  rows share an id, the last one is the one indexed. This assumes the
  per-iteration loop variables of Go 1.22 and later for the `&val` at
  `problem_2/main.go:46`.

## Model

| member | source | states |
|---|---|---|
| `GoInt.Wrap` | problem_2/models.go:19 | the wrapped value is in the `int64` range, congruent to the exact value modulo 2^64, and equal to it when the exact value already fits |
| `GoInt.WrapAdd` | problem_2/main.go:70-74 | adding wrapped values and wrapping again equals wrapping the exact sum, so a running `int64` total equals the wrapped exact total |
| `GoInt.WrapCongruent` | problem_2/main.go:73 | two exact values congruent modulo 2^64 wrap to the same `int64` |
| `Text.IndexOf` | problem_2/models.go:17 | the returned position is the first occurrence of the separator, or the length when there is none |
| `Text.Split` | problem_2/models.go:17 | `strings.Split` yields at least one piece, and no piece contains the separator |
| `Text.JoinSplit` | problem_2/models.go:17 | joining the pieces back with the separator rebuilds the input exactly, so splitting loses nothing |
| `Text.SplitJoin` | problem_2/models.go:17 | splitting the join of separator-free pieces gives back those pieces |
| `Text.SplitCount` | problem_2/models.go:20 | the number of pieces is the number of separators plus one, so `len(arr) == 2` means exactly one `.` |
| `Text.SplitCons` | problem_2/utils.go:110 | text before the first separator is the first piece, and the rest is split on its own |
| `Text.SplitAppendLast` | problem_2/utils.go:109-110 | the last piece of a path split on `/` is the text after the last `/` |
| `Text.ToLower` | problem_2/utils.go:61 | the result has the input's length, holds no upper-case ASCII letter, and lower-cases each character in place |
| `Text.ToLowerFixesLower` | problem_2/utils.go:61 | text already in lower case is left unchanged |
| `Strconv.ParseInt` | problem_2/models.go:18 | an accepted text starts with a sign or a digit, a negative result needs a leading `-`, and the empty text and a lone sign are rejected |
| `Strconv.FormatNat` | problem_2/models.go:18 | the decimal digits written for a natural number are all digits and read back as that number |
| `Strconv.ParseFormat` | problem_2/models.go:18 | every `int64` written in decimal is parsed back to itself |
| `Strconv.ParseSigned` | problem_2/models.go:18 | a sign followed by digits parses to the signed digit value when it is in range |
| `Strconv.ParseAccepted` | problem_2/models.go:18 | an accepted text is an optional sign followed by at least one digit, and its value is the signed value of those digits; so a non-digit after the sign, or a value outside the `int64` range, is rejected |
| `Strconv.ParseOutOfRange` | problem_2/models.go:18 | an optional sign and digits whose signed value lies outside the `int64` range are rejected |
| `Strconv.ParseUnsigned` | problem_2/models.go:21 | unsigned digits parse to their value when it is at most the `int64` maximum |
| `Models.WholePart` | problem_2/models.go:17-18 | the integer part is the first piece of the split on `.`: the longest prefix of the amount holding no `.`, followed by a `.` or by the end of the text |
| `Models.NewCurrency` | problem_2/models.go:16-32 | the amount is an error exactly when the integer part before the first `.` does not parse, and the error names that part |
| `Models.NewCurrencyWhole` | problem_2/models.go:16-19 | an amount without `.` is its integer times 100, wrapped at 64 bits, and an error when the integer does not parse |
| `Models.NewCurrencyFraction` | problem_2/models.go:20-29 | with one `.`, the parsed fraction is added to a non-negative whole part times 100 and subtracted from a negative one; an unparsable fraction is dropped |
| `Models.NewCurrencyExtraDots` | problem_2/models.go:17-20 | with two or more `.`, the amount equals that of the integer part alone |
| `Reconciliation.WindowDays` | problem_2/main.go:34-36 | the window test `Window.Contains` (start inclusive, end date plus 24 hours exclusive), for day-aligned bounds, holds of a time exactly when its day lies between the start day and the end day, both included |
| `Reconciliation.InWindowIdsBound` | problem_2/main.go:43-50 | the number of transactions processed is at most the number of ledger rows |
| `Reconciliation.BuildIndex` | problem_2/main.go:43-48 | the index's keys are exactly the ids of in-window transactions, and each entry is an in-window transaction filed under its own id |
| `Reconciliation.BuildIndexLastWins` | problem_2/main.go:44-47 | the last in-window ledger row with a given id is the one indexed under that id |
| `Reconciliation.IndexEntryIsLatest` | problem_2/main.go:44-47 | every indexed transaction is the last in-window ledger row with its id |
| `Reconciliation.InWindowStatements` | problem_2/main.go:56-57 | the statements considered are exactly those dated inside the window |
| `Reconciliation.InWindowAppend` | problem_2/main.go:56-57 | the window filter keeps input order: filtering two batches read one after the other gives the first batch's survivors, then the second's |
| `Reconciliation.UnmatchedSeq` | problem_2/main.go:77-84 | the unclaimed statements are some of the in-window statements, never more of them |
| `Reconciliation.GroupByBank` | problem_2/main.go:80-83 | every group is non-empty and holds only its bank's statements, and every statement appears in its bank's group |
| `Reconciliation.BankFilterAppend` | problem_2/main.go:80-83 | each bank's group keeps input order: the group of two batches is the first batch's group followed by the second's |
| `Reconciliation.BankFilterAbsent` | problem_2/main.go:80-82 | a bank with no unmatched statement has no group |
| `Reconciliation.PairDiff` | problem_2/main.go:61-68 | a credit pair differs by zero exactly when the amounts are equal, a debit pair exactly when they cancel, any other type contributes zero, and the difference wraps at 64 bits |
| `Reconciliation.StepPending` | problem_2/main.go:58-76 | each in-window statement removes its reference from the pending map, and it finds a transaction exactly when it is the first to claim that id |
| `Reconciliation.MatchedSnoc` | problem_2/main.go:58-60 | a statement raises the count of referenced indexed ids by one exactly when it claims a transaction |
| `Reconciliation.StepMatched` | problem_2/main.go:58-60 | after each statement, the match counter equals the number of indexed ids referenced so far |
| `Reconciliation.StepDelta` | problem_2/main.go:61-74 | after each statement, the running delta equals the wrapped exact sum of the differences of the pairs claimed so far |
| `Reconciliation.GroupSnoc` | problem_2/main.go:80-83 | appending one unmatched statement extends only its bank's group, and creates that group when it is missing |
| `Reconciliation.StepGroups` | problem_2/main.go:77-84 | after each statement, the unmatched map groups by bank exactly the statements that claimed nothing so far |
| `Reconciliation.StepConserves` | problem_2/main.go:57-85 | one pass of the loop body (`Step`) only removes from the pending map, keeps the match count plus the pending count unchanged, and only extends the groups of unmatched statements |
| `Reconciliation.StepInvariant` | problem_2/main.go:57-85 | one pass of the loop body (`Step`) keeps the closed-form description of the loop state, and a statement outside the window changes nothing |
| `Reconciliation.Process` | problem_2/main.go:56-86 | over the whole loop, the match count plus the pending count stays that of the start, pending transactions are only removed, and no group of unmatched statements is rewritten |
| `Reconciliation.ProcessInvariant` | problem_2/main.go:56-86 | after the loop (`Process` from the start state), its state is described by the in-window statements alone: what is still pending, the match count, the wrapped delta and the unmatched groups |
| `Reconciliation.MatchedPlusUnmatched` | problem_2/main.go:56-86 | every in-window statement is either counted as a match or reported as unmatched, never both |
| `Reconciliation.UnclaimedIsUnmatched` | problem_2/main.go:58-84 | a statement that finds no pending transaction is reported as unmatched |
| `Reconciliation.SecondReferenceUnmatched` | problem_2/main.go:58-84 | a second in-window statement with the same reference is always reported as unmatched |
| `Reconciliation.PendingAfterLoop` | problem_2/main.go:88-91 | the matched ids and the transactions left pending together account for every indexed transaction, and those left are exactly the ones never referenced |
| `Reconciliation.Reconcile` | problem_2/main.go:43-91 | the summary counts the in-window ids, matches the referenced ones, sums the wrapped differences, lists exactly the unreferenced transactions, and groups the unclaimed statements by bank |
| `Reconciliation.ReconcileSummary` | problem_2/main.go:50-91 | the summary equals its closed form, computed from the index and the in-window statements without running the loop |
| `Reconciliation.InWindowIdempotent` | problem_2/main.go:57 | filtering statements to the window a second time changes nothing |
| `Reconciliation.OutOfWindowIgnored` | problem_2/main.go:57 | removing out-of-window statements beforehand does not change the summary, and every reported statement is dated inside the window |
| `Reconciliation.StatementsPartitioned` | problem_2/main.go:56-86 | each in-window statement is either the first to claim an indexed id or appears in its bank's unmatched group |
| `Reconciliation.UnmatchedTransactionsAreLatest` | problem_2/main.go:43-91 | each unmatched transaction is the last in-window ledger row with its id, and no in-window statement references it |
| `Reconciliation.LatestUnmatchedIff` | problem_2/main.go:43-91 | the last in-window row for an id is reported unmatched exactly when no in-window statement references that id |
| `Feeds.ConvertFrom` | problem_2/utils.go:38-64 | a file converts exactly when every data row converts, the rows come out in order one per line, and a failure is the first failing row's error |
| `Feeds.ConvertFromSuffix` | problem_2/utils.go:38-64 | conversion from a given line on depends only on the lines from there on |
| `Feeds.ReadRows` | problem_2/utils.go:38-64 | a file converts exactly when every row after the header converts; it then holds one record per data row, in order; a failure is the first failing data row's error |
| `Feeds.HeaderIgnored` | problem_2/utils.go:39-42 | the first line of a file is skipped whatever it holds |
| `Feeds.TransactionRow` | problem_2/utils.go:44-63 | a ledger row converts exactly when it has four fields, a valid amount and a valid time, and its type is lower-cased |
| `Feeds.ReadTransactionFile` | problem_2/utils.go:32-67 | an accepted ledger has one transaction per data row, every type in lower case; a rejected one reports the error of one of its data rows |
| `Feeds.TransactionFileAccepted` | problem_2/utils.go:32-67 | a ledger file is accepted exactly when every data row converts, and then each transaction takes its id from its row |
| `Feeds.StatementRow` | problem_2/utils.go:81-100 | a statement row converts exactly when it has three fields, a valid amount and a valid time, carrying the file's bank code; a bad time on an otherwise valid row panics |
| `Feeds.StatementFileAccepted` | problem_2/utils.go:69-105 | a statement file is accepted exactly when every data row converts, and then each statement takes its reference from its row |
| `Feeds.ReadStatementFile` | problem_2/utils.go:69-105 | an accepted file yields one statement per data row, all under the bank code of the file's path; the open error is reported exactly when the file could not be opened |
| `Feeds.ReadEach` | problem_2/utils.go:108-111 | each path yields its own outcome, in path order: the open error exactly when that file could not be opened, and otherwise statements under the bank code taken from that same path |
| `Feeds.BankCode` | problem_2/utils.go:109-110 | the bank code holds no `/` and no `_` |
| `Feeds.BankCodeOfFileName` | problem_2/utils.go:109-110 | a file named `<code>_<rest>` has bank code `<code>` |
| `Feeds.BankCodeOfBareName` | problem_2/utils.go:109-110 | a file name with no `_` is its own bank code |
| `Feeds.BankCodeInDirectory` | problem_2/utils.go:109-110 | the directories in a path do not affect the bank code |
| `Feeds.ReadEachAppend` | problem_2/utils.go:108-111 | reading two lists of feeds one after the other gives the outcomes of the first list followed by those of the second: each path is read on its own, in order |
| `Feeds.CollectAppend` | problem_2/utils.go:107-119 | gathering two lists of feed results equals combining what each list gathers on its own |
| `Feeds.ReadAllAppend` | problem_2/utils.go:107-119 | gathering two lists of feeds equals combining what each list gathers on its own |
| `Feeds.ReadAllSingle` | problem_2/utils.go:111-116 | a single feed contributes its statements when it is read, nothing when it fails, and a crash when it panics |
| `Feeds.CollectSingle` | problem_2/utils.go:111-116 | a single feed result contributes its statements, nothing, or a crash |
| `Feeds.FailedFeedDropped` | problem_2/utils.go:112-115 | a feed that fails without panicking can be removed without changing the statements gathered |
| `Feeds.CollectAll` | problem_2/utils.go:108-117 | the loop over the feeds' outcomes ends in a crash exactly when some outcome panicked |
| `Feeds.AddFeed` | problem_2/utils.go:111-116 | one iteration combines the statements gathered so far with what this feed yields on its own: all its rows, nothing, or a crash |
| `Feeds.ReadAllBankStatements` | problem_2/utils.go:107-119 | reading all feeds crashes exactly when, in some feed that opens, the first failing data row is an otherwise valid row whose time does not parse (the panic at `utils.go:92`); an earlier bad row in that feed ends its read with an ordinary error first |
| `Feeds.CollectOrigin` | problem_2/utils.go:107-119 | every gathered statement comes from some feed that was read successfully |
| `Feeds.ReadAllBankCodes` | problem_2/utils.go:107-119 | every gathered statement comes from a feed that was read successfully and carries the bank code of that feed's path |
| `Pipeline.RunReconciliation` | problem_2/main.go:25-52 | a run produces a report exactly when both dates parse, the ledger opens and converts, and no statement feed panics; processed and matched counts are bounded by the ledger's data rows |
| `AmountScenarios.ParseIntExamples` | problem_2/models.go:18 | the decimal texts used by the amount examples parse to their values, signed ones included |
| `AmountScenarios.ParseRejectExamples` | problem_2/models.go:18 | `"12a"`, `"1-2"`, `"+-1"` and `" 7"` are rejected |
| `AmountScenarios.AmountWhole` | problem_2/models.go:16-19 | `"-12"` is -1200 cents |
| `AmountScenarios.AmountTwoDigitFraction` | problem_2/models.go:20-27 | `"7.50"` is 750 cents |
| `AmountScenarios.AmountUnscaledFraction` | problem_2/models.go:20-27 | `"7.5"` is 705 cents: the fraction is added as a raw integer |
| `AmountScenarios.AmountNegativeFraction` | problem_2/models.go:23-27 | `"-7.50"` is -750 cents: the fraction is subtracted from a negative amount |
| `AmountScenarios.AmountNegativeZero` | problem_2/models.go:23-27 | `"-0.50"` is 50 cents: a negative zero whole part counts as non-negative |
| `AmountScenarios.AmountBadFractionIgnored` | problem_2/models.go:21-22 | `"5."` and `"5.x"` are 500 cents with no error: the unparsable fraction is dropped |
| `AmountScenarios.AmountExtraDots` | problem_2/models.go:17-20 | `"1.2.3"` is 100 cents: with two dots the fraction is ignored |
| `AmountScenarios.AmountBadInteger` | problem_2/models.go:18 | `"x.50"` and the empty text are errors naming their integer part |
| `EngineScenarios.PairDiffExamples` | problem_2/main.go:61-68 | sample debit, credit and other-type pairs give the expected differences |
| `EngineScenarios.EndToEndMatched` | problem_2/main.go:43-91 | one debit matched by an equal bank withdrawal gives one processed, one matched, zero delta and nothing unmatched |
| `EngineScenarios.EndToEndUnmatched` | problem_2/main.go:43-91 | a transaction that no statement references is processed and reported unmatched |
| `EngineScenarios.EndToEndDayBefore` | problem_2/main.go:43-91 | a transaction an hour before the window's first day is not processed |
| `EngineScenarios.EndToEndNegativeDebit` | problem_2/main.go:61-73 | a debit stored as -500 against a statement of -500 counts a discrepancy of -1000 |
| `EngineScenarios.EndToEndSecondReference` | problem_2/main.go:58-84 | a second statement for an already matched transaction is reported unmatched under its bank |
| `FeedScenarios.BankCodeMandiri` | problem_2/utils.go:109-110 | `"mandiri_statements.csv"` has bank code `mandiri` |
| `FeedScenarios.BankCodeBca` | problem_2/utils.go:109-110 | `"bca_statements.csv"` has bank code `bca` |
| `FeedScenarios.BankCodeWithDirectory` | problem_2/utils.go:109-110 | `"x/bca_statements.csv"` has bank code `bca`: the directory is ignored |
| `FeedScenarios.TypeLowered` | problem_2/utils.go:61 | ledger types written `DEBIT` and `Credit` are stored as `debit` and `credit` |

## Left out

- Reading files and CSV tokenising (`readCSVFile`, `problem_2/utils.go:11-30`). The model takes each file as its list of rows. A file that cannot be opened is `None`. `encoding/csv` rejects a record whose field count differs from the first record's, and `readCSVFile` treats any read error as the end of the file. Rows after a malformed record therefore never reach the converters; the model is given the rows that were read.
- `time.Parse` with the program's layouts. The date and time parsers are parameters (`Pipeline.DateParser`, `Feeds.TimeParser`) that return seconds or `None`. Time zones and sub-second precision are left to them.
- `main` and its constant paths and dates. These are I/O configuration.
- The printed report (`problem_2/main.go:93-112`) and the `String` methods. `Summary` holds every value the report prints. The report counts unmatched bank statements with `len` of the grouping map (`problem_2/main.go:106`), which is the number of banks. The model keeps the map, so either count can be read from it.
- Iteration order of Go maps. The unmatched transactions are a set, and the groups of unmatched statements are a map. The report prints them in the map's random order.
- The printing of each failed feed's error (`problem_2/utils.go:113`). The model only drops that feed.
- `Models.NewCurrency`: it does not model the value Go returns alongside an error. Every caller discards it. `strconv.ParseInt`'s syntax and range errors are one case, `None`.
- `Models.NewCurrencyFraction`: it is stated only for whole parts and sums in the `int64` range. `Models.NewCurrencyWhole` and `GoInt.WrapAdd` cover the wrap-around.
- `Text.ToLower`: it lower-cases ASCII letters only, so the model assumes ASCII type fields. Go's `strings.ToLower` uses Unicode case mapping, and some non-ASCII letters map onto ASCII ones: U+0130 `İ` becomes `i`, and U+212A (the Kelvin sign) becomes `k`. A ledger type `DEBİT` is therefore a debit in Go (`problem_2/main.go:62`), but in the model it is an unknown type whose difference is 0.
- `Pipeline.RunReconciliation`: it states when a run succeeds, not which error a failing run reports first.
- Which of two in-window ledger rows with the same id is indexed depends on Go's loop-variable semantics (`problem_2/main.go:46`). The model follows Go 1.22 and later. Before Go 1.22, every map entry points at the last ledger row read.
