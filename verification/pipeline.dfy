/**
 The whole of `reconciliation` in `problem_2/main.go` up to the report:
 parse the two dates, read the ledger, read the statement feeds, and run
 the engine. The first failure ends the run.
 */
module Pipeline {
  import opened Results
  import opened Feeds
  import opened Reconciliation

  /** Why a run produced no report. */
  datatype RunError =
    | InvalidDate(text: string)
    | LedgerError(error: ReadError)
    | Crashed

  /** `time.Parse` with the date layout: the second of the date's
      midnight, or `None`. */
  type DateParser = string -> Option<int>

  function RunReconciliation(ledger: Option<seq<seq<string>>>, feeds: seq<Feed>,
                             startDate: string, endDate: string,
                             parseDate: DateParser, parseTime: TimeParser): (r: Result<Summary, RunError>)
    ensures r.Ok? <==>
      && parseDate(startDate).Some? && parseDate(endDate).Some?
      && ledger.Some? && ReadTransactionFile(ledger.value, parseTime).Ok?
      && forall i :: 0 <= i < |feeds| ==> !Panics(ReadStatementFile(feeds[i], parseTime))
    ensures r.Ok? ==> r.value.processed + (if |ledger.value| > 0 then 1 else 0) <= |ledger.value|
    ensures r.Ok? ==> r.value.matched <= r.value.processed
  {
    match parseDate(startDate)
    case None => Err(InvalidDate(startDate))
    case Some(start) =>
      match parseDate(endDate)
      case None => Err(InvalidDate(endDate))
      case Some(end) =>
        match ledger
        case None => Err(LedgerError(OpenFailed))
        case Some(lines) =>
          match ReadTransactionFile(lines, parseTime)
          case Err(e) => Err(LedgerError(e))
          case Ok(txs) =>
            match ReadAllBankStatements(feeds, parseTime)
            case Panicked => Err(Crashed)
            case Collected(statements) =>
              var w := Window(start, end);
              InWindowIdsBound(txs, w);
              Ok(Reconcile(txs, statements, w))
  }
}
