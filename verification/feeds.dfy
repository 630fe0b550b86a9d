/**
 Turning already tokenised CSV rows into records (`problem_2/utils.go`):
 the header row is skipped, every other row must have the exact column
 count and a valid amount, the first bad row fails the whole file, and
 each statement feed's bank code comes from its file name. Opening files
 and CSV tokenising are left out; `time.Parse` is the `parseTime`
 parameter.
 */
module Feeds {
  import opened Results
  import opened Text
  import opened Models

  /** Why the rows of a file were rejected. `IndexPanic` stands for the
      runtime panic of a statement row whose timestamp does not parse:
      its error message indexes a fourth column that a three-column row
      does not have. */
  datatype ReadError =
    | OpenFailed
    | InvalidData(line: nat)
    | InvalidAmount(line: nat)
    | InvalidTime(text: string)
    | IndexPanic

  /** `time.Parse` with the tool's timestamp layout: seconds, or `None`
      for text that does not match. */
  type TimeParser = string -> Option<int>

  /** Converts rows `i..` in order, stopping at the first row `convert`
      rejects. */
  function ConvertFrom<T>(lines: seq<seq<string>>, i: nat, convert: (seq<string>, nat) -> Result<T, ReadError>)
    : (r: Result<seq<T>, ReadError>)
    ensures r.Ok? <==> forall j :: i <= j < |lines| ==> convert(lines[j], j).Ok?
    ensures r.Ok? ==> |r.value| == (if i <= |lines| then |lines| - i else 0)
    ensures r.Ok? ==> forall k :: 0 <= k < |r.value| ==> convert(lines[i + k], i + k) == Ok(r.value[k])
    ensures r.Err? ==> exists j :: (i <= j < |lines| && convert(lines[j], j) == Err(r.error) &&
      forall j' :: i <= j' < j ==> convert(lines[j'], j').Ok?)
    decreases |lines| - i
  {
    if i >= |lines| then Ok([])
    else
      match convert(lines[i], i)
      case Err(e) => Err(e)
      case Ok(x) =>
        match ConvertFrom(lines, i + 1, convert)
        case Err(e) => Err(e)
        case Ok(xs) => Ok([x] + xs)
  }

  /** The records of a file's rows: row 0 is a header and is skipped
      whatever it holds. */
  function ReadRows<T>(lines: seq<seq<string>>, convert: (seq<string>, nat) -> Result<T, ReadError>)
    : (r: Result<seq<T>, ReadError>)
    ensures r.Ok? <==> forall j :: 1 <= j < |lines| ==> convert(lines[j], j).Ok?
    ensures r.Ok? ==> |r.value| == (if |lines| == 0 then 0 else |lines| - 1)
    ensures r.Ok? ==> forall k :: 0 <= k < |r.value| ==> convert(lines[k + 1], k + 1) == Ok(r.value[k])
    ensures r.Err? ==> exists j :: (1 <= j < |lines| && convert(lines[j], j) == Err(r.error) &&
      forall j' :: 1 <= j' < j ==> convert(lines[j'], j').Ok?)
  {
    ConvertFrom(lines, 1, convert)
  }

  lemma {:induction false} ConvertFromSuffix<T>(a: seq<seq<string>>, b: seq<seq<string>>, i: nat,
                                                 convert: (seq<string>, nat) -> Result<T, ReadError>)
    requires |a| == |b| && forall j :: i <= j < |a| ==> a[j] == b[j]
    ensures ConvertFrom(a, i, convert) == ConvertFrom(b, i, convert)
    decreases |a| - i
  {
    if i < |a| {
      ConvertFromSuffix(a, b, i + 1, convert);
    }
  }

  /** The header row's content never matters. */
  lemma HeaderIgnored<T>(lines: seq<seq<string>>, header: seq<string>, convert: (seq<string>, nat) -> Result<T, ReadError>)
    requires |lines| >= 1
    ensures ReadRows([header] + lines[1..], convert) == ReadRows(lines, convert)
  {
    ConvertFromSuffix([header] + lines[1..], lines, 1, convert);
  }

  /** One ledger row: `id, amount, type, timestamp`, the type lower-cased. */
  function TransactionRow(line: seq<string>, i: nat, parseTime: TimeParser): (r: Result<Transaction, ReadError>)
    ensures r.Ok? <==> |line| == 4 && NewCurrency(line[1]).Ok? && parseTime(line[3]).Some?
    ensures r.Ok? ==> IsLower(r.value.kind) && |r.value.kind| == |line[2]|
  {
    if |line| != 4 then Err(InvalidData(i))
    else
      match NewCurrency(line[1])
      case Err(_) => Err(InvalidAmount(i))
      case Ok(amount) =>
        match parseTime(line[3])
        case None => Err(InvalidTime(line[3]))
        case Some(t) => Ok(Transaction(line[0], amount, ToLower(line[2]), t))
  }

  /** `ReadTransactionFile` after the file has been tokenised. */
  function ReadTransactionFile(lines: seq<seq<string>>, parseTime: TimeParser): (r: Result<seq<Transaction>, ReadError>)
    ensures r.Ok? ==> |r.value| == (if |lines| == 0 then 0 else |lines| - 1)
    ensures r.Ok? ==> forall t :: t in r.value ==> IsLower(t.kind)
    ensures r.Err? ==> exists j :: 1 <= j < |lines| && TransactionRow(lines[j], j, parseTime) == Err(r.error)
  {
    ReadRows(lines, (line: seq<string>, i: nat) => TransactionRow(line, i, parseTime))
  }

  /** A ledger is accepted iff every row after the header has four fields,
      an amount `NewCurrency` accepts and a timestamp; then it holds one
      transaction per row, in row order, each with a lower-case type. */
  lemma TransactionFileAccepted(lines: seq<seq<string>>, parseTime: TimeParser)
    ensures var r := ReadTransactionFile(lines, parseTime);
      r.Ok? <==> forall j :: 1 <= j < |lines| ==>
        |lines[j]| == 4 && NewCurrency(lines[j][1]).Ok? && parseTime(lines[j][3]).Some?
    ensures var r := ReadTransactionFile(lines, parseTime);
      r.Ok? ==> (|r.value| == (if |lines| == 0 then 0 else |lines| - 1) &&
        forall k :: 0 <= k < |r.value| ==>
          && r.value[k].id == lines[k + 1][0]
          && r.value[k].amount == NewCurrency(lines[k + 1][1]).value
          && r.value[k].kind == ToLower(lines[k + 1][2])
          && r.value[k].time == parseTime(lines[k + 1][3]).value)
  {
    var convert := (line: seq<string>, i: nat) => TransactionRow(line, i, parseTime);
    var r := ConvertFrom(lines, 1, convert);
    if r.Ok? {
      forall k | 0 <= k < |r.value|
        ensures r.value[k].id == lines[k + 1][0]
      {
        assert convert(lines[1 + k], 1 + k) == Ok(r.value[k]);
      }
    }
  }

  /** One statement row: `reference, amount, timestamp`, stamped with the
      feed's bank code. A timestamp that does not parse panics. */
  function StatementRow(line: seq<string>, i: nat, bankCode: string, parseTime: TimeParser): (r: Result<BankStatement, ReadError>)
    ensures r.Ok? <==> |line| == 3 && NewCurrency(line[1]).Ok? && parseTime(line[2]).Some?
    ensures r.Ok? ==> r.value.bankCode == bankCode
    ensures r == Err(IndexPanic) <==> |line| == 3 && NewCurrency(line[1]).Ok? && parseTime(line[2]).None?
  {
    if |line| != 3 then Err(InvalidData(i))
    else
      match NewCurrency(line[1])
      case Err(_) => Err(InvalidAmount(i))
      case Ok(amount) =>
        match parseTime(line[2])
        case None => Err(IndexPanic)
        case Some(t) => Ok(BankStatement(bankCode, line[0], amount, t))
  }

  /** The bank code of a statement file: the text before the first `_` of
      the path's last `/`-separated segment. */
  function BankCode(path: string): (code: string)
    ensures '/' !in code && '_' !in code
  {
    Split(Last(Split(path, '/')), '_')[0]
  }

  /** A file name without directories has the bank code before its first
      `_`. */
  lemma BankCodeOfFileName(code: string, rest: string)
    requires '/' !in code && '_' !in code && '/' !in rest
    ensures BankCode(code + "_" + rest) == code
  {
    var name := code + "_" + rest;
    assert name == code + ['_'] + rest;
    assert '/' !in name;
    SplitNoSeparator(name, '/');
    SplitCons(code, '_', rest);
  }

  /** A file name without directories and without `_` is its own bank
      code. */
  lemma BankCodeOfBareName(name: string)
    requires '/' !in name && '_' !in name
    ensures BankCode(name) == name
  {
    SplitNoSeparator(name, '/');
    SplitNoSeparator(name, '_');
  }

  /** Directories in front of the file name do not change the bank code.
      With `BankCodeOfFileName` and `BankCodeOfBareName` this determines
      the bank code of every path. */
  lemma BankCodeInDirectory(dir: string, name: string)
    requires '/' !in name
    ensures BankCode(dir + "/" + name) == BankCode(name)
  {
    assert dir + "/" + name == dir + ['/'] + name;
    SplitAppendLast(dir, '/', name);
    SplitNoSeparator(name, '/');
  }

  /** A statement file: its path, and its tokenised rows or `None` when it
      could not be opened. */
  datatype Feed = Feed(path: string, rows: Option<seq<seq<string>>>)

  /** `readBankStatementFile` with the bank code derived from the path. */
  function ReadStatementFile(feed: Feed, parseTime: TimeParser): (r: Result<seq<BankStatement>, ReadError>)
    ensures r.Ok? ==> forall x :: x in r.value ==> x.bankCode == BankCode(feed.path)
    ensures r.Ok? ==> feed.rows.Some? && |r.value| == (if |feed.rows.value| == 0 then 0 else |feed.rows.value| - 1)
    ensures r == Err(OpenFailed) <==> feed.rows.None?
  {
    match feed.rows
    case None => Err(OpenFailed)
    case Some(lines) =>
      var code := BankCode(feed.path);
      var convert := (line: seq<string>, i: nat) => StatementRow(line, i, code, parseTime);
      var r := ReadRows(lines, convert);
      if r.Ok? then
        assert forall k :: 0 <= k < |r.value| ==> convert(lines[1 + k], 1 + k) == Ok(r.value[k]);
        r
      else
        var j :| 1 <= j < |lines| && convert(lines[j], j) == Err(r.error);
        assert r.error != OpenFailed;
        r
  }

  /** The outcome of reading one statement file. */
  type FeedResult = Result<seq<BankStatement>, ReadError>

  /** What a feed adds to the combined statements: all its rows, or
      nothing at all when it failed. */
  function Contribution(r: FeedResult): seq<BankStatement>
  {
    match r
    case Ok(xs) => xs
    case Err(_) => []
  }

  /** A row whose timestamp does not parse crashes the whole run. */
  predicate Panics(r: FeedResult)
  {
    r == Err(IndexPanic)
  }

  /** The combined statements, or `Panicked` when a feed's bad timestamp
      crashed the run. */
  datatype Collected = Collected(statements: seq<BankStatement>) | Panicked

  /** The outcome of reading each feed, in feed order: a feed that did
      not open is reported as such, and one that did is read under the
      bank code of its own path. */
  function ReadEach(feeds: seq<Feed>, parseTime: TimeParser): (rs: seq<FeedResult>)
    ensures |rs| == |feeds|
    ensures forall i :: 0 <= i < |feeds| ==> (rs[i] == Err(OpenFailed) <==> feeds[i].rows.None?)
    ensures forall i :: 0 <= i < |feeds| && rs[i].Ok? ==>
      forall x :: x in rs[i].value ==> x.bankCode == BankCode(feeds[i].path)
  {
    seq(|feeds|, i requires 0 <= i < |feeds| => ReadStatementFile(feeds[i], parseTime))
  }

  /** The loop of `ReadAllBankStatements` over the feeds' outcomes: a
      failing feed is reported and skipped, a panicking one ends the run,
      and the run ends in a crash iff one of the outcomes panicked. */
  function CollectAll(rs: seq<FeedResult>): (c: Collected)
    ensures c.Panicked? <==> exists i :: 0 <= i < |rs| && Panics(rs[i])
    decreases |rs|
  {
    if |rs| == 0 then Collected([])
    else
      var prior := rs[..|rs| - 1];
      assert forall i :: 0 <= i < |prior| ==> prior[i] == rs[i];
      AddFeed(CollectAll(prior), rs[|rs| - 1])
  }

  /** One iteration of the loop over the feeds: the run so far combined
      with what this feed yields when read on its own. */
  function AddFeed(acc: Collected, r: FeedResult): (next: Collected)
    ensures next == Combine(acc, if Panics(r) then Panicked else Collected(Contribution(r)))
  {
    match acc
    case Panicked => Panicked
    case Collected(xs) =>
      if Panics(r) then Panicked
      else Collected(xs + Contribution(r))
  }

  /** `ReadAllBankStatements`: every feed read in order, the statements of
      those that succeeded concatenated. */
  function ReadAllBankStatements(feeds: seq<Feed>, parseTime: TimeParser): (c: Collected)
    ensures c.Panicked? <==> exists i :: 0 <= i < |feeds| && Panics(ReadStatementFile(feeds[i], parseTime))
  {
    var rs := ReadEach(feeds, parseTime);
    assert forall i :: 0 <= i < |feeds| ==> (Panics(rs[i]) <==> Panics(ReadStatementFile(feeds[i], parseTime)));
    CollectAll(rs)
  }

  /** Two batches of statements read one after the other. */
  function Combine(a: Collected, b: Collected): Collected
  {
    if a.Collected? && b.Collected? then Collected(a.statements + b.statements) else Panicked
  }

  /** The loop over outcomes can be split anywhere. */
  lemma {:induction false} CollectAppend(a: seq<FeedResult>, b: seq<FeedResult>)
    ensures CollectAll(a + b) == Combine(CollectAll(a), CollectAll(b))
    decreases |b|
  {
    if |b| == 0 {
      assert a + b == a;
    } else {
      var prior := b[..|b| - 1];
      var r := b[|b| - 1];
      CollectAppend(a, prior);
      assert (a + b)[..|a + b| - 1] == a + prior;
      assert (a + b)[|a + b| - 1] == r;
      var ca := CollectAll(a);
      var cp := CollectAll(prior);
      assert CollectAll(a + b) == AddFeed(Combine(ca, cp), r);
      assert CollectAll(b) == AddFeed(cp, r);
      if ca.Collected? && cp.Collected? && !Panics(r) {
        assert ca.statements + cp.statements + Contribution(r)
          == ca.statements + (cp.statements + Contribution(r));
      }
    }
  }

  /** Reading feeds one after the other is reading them one by one. */
  lemma ReadEachAppend(a: seq<Feed>, b: seq<Feed>, parseTime: TimeParser)
    ensures ReadEach(a + b, parseTime) == ReadEach(a, parseTime) + ReadEach(b, parseTime)
  {
  }

  /** Feeds can be read in two batches and the results concatenated: the
      output is in feed order, then row order. */
  lemma ReadAllAppend(a: seq<Feed>, b: seq<Feed>, parseTime: TimeParser)
    ensures ReadAllBankStatements(a + b, parseTime) ==
      Combine(ReadAllBankStatements(a, parseTime), ReadAllBankStatements(b, parseTime))
  {
    ReadEachAppend(a, b, parseTime);
    CollectAppend(ReadEach(a, parseTime), ReadEach(b, parseTime));
  }

  /** A single feed yields its rows, nothing when it failed, or a crash. */
  lemma ReadAllSingle(feed: Feed, parseTime: TimeParser)
    ensures var r := ReadStatementFile(feed, parseTime);
      ReadAllBankStatements([feed], parseTime) == if Panics(r) then Panicked else Collected(Contribution(r))
  {
    var r := ReadStatementFile(feed, parseTime);
    assert ReadEach([feed], parseTime) == [r];
    CollectSingle(r);
  }

  lemma CollectSingle(r: FeedResult)
    ensures CollectAll([r]) == if Panics(r) then Panicked else Collected(Contribution(r))
  {
    assert [r][..0] == [];
    assert [] + Contribution(r) == Contribution(r);
  }

  /** A feed that fails without panicking contributes no row at all, not
      even the rows before the bad one, and the feeds after it are still
      read. */
  lemma FailedFeedDropped(a: seq<Feed>, feed: Feed, b: seq<Feed>, parseTime: TimeParser)
    requires ReadStatementFile(feed, parseTime).Err? && !Panics(ReadStatementFile(feed, parseTime))
    ensures ReadAllBankStatements(a + [feed] + b, parseTime) == ReadAllBankStatements(a + b, parseTime)
  {
    var ra := ReadAllBankStatements(a, parseTime);
    ReadAllSingle(feed, parseTime);
    ReadAllAppend(a, [feed], parseTime);
    assert ReadAllBankStatements(a + [feed], parseTime) == ra by {
      if ra.Collected? {
        assert ra.statements + [] == ra.statements;
      }
    }
    ReadAllAppend(a + [feed], b, parseTime);
    ReadAllAppend(a, b, parseTime);
  }

  /** Every collected statement comes from an outcome that succeeded. */
  lemma {:induction false} CollectOrigin(rs: seq<FeedResult>, x: BankStatement)
    requires CollectAll(rs).Collected? && x in CollectAll(rs).statements
    ensures exists i :: 0 <= i < |rs| && rs[i].Ok? && x in rs[i].value
    decreases |rs|
  {
    var prior := rs[..|rs| - 1];
    var acc := CollectAll(prior);
    if x in acc.statements {
      CollectOrigin(prior, x);
      var i :| 0 <= i < |prior| && prior[i].Ok? && x in prior[i].value;
      assert prior[i] == rs[i];
    } else {
      assert x in Contribution(rs[|rs| - 1]);
    }
  }

  /** Every collected statement comes from a feed that was read in full
      and carries that feed's bank code. */
  lemma ReadAllBankCodes(feeds: seq<Feed>, parseTime: TimeParser, x: BankStatement)
    requires ReadAllBankStatements(feeds, parseTime).Collected?
    requires x in ReadAllBankStatements(feeds, parseTime).statements
    ensures exists i :: (0 <= i < |feeds| && ReadStatementFile(feeds[i], parseTime).Ok? &&
      x in ReadStatementFile(feeds[i], parseTime).value && x.bankCode == BankCode(feeds[i].path))
  {
    var rs := ReadEach(feeds, parseTime);
    CollectOrigin(rs, x);
    var i :| 0 <= i < |rs| && rs[i].Ok? && x in rs[i].value;
    assert ReadStatementFile(feeds[i], parseTime) == rs[i];
  }

  /** A statement file is read iff it opened and every row after the
      header has three fields, an amount `NewCurrency` accepts and a
      timestamp; then it holds one statement per row, in row order. */
  lemma StatementFileAccepted(feed: Feed, parseTime: TimeParser)
    requires feed.rows.Some?
    ensures var lines := feed.rows.value;
      ReadStatementFile(feed, parseTime).Ok? <==> forall j :: 1 <= j < |lines| ==>
        |lines[j]| == 3 && NewCurrency(lines[j][1]).Ok? && parseTime(lines[j][2]).Some?
    ensures var lines := feed.rows.value;
      var r := ReadStatementFile(feed, parseTime);
      r.Ok? ==> forall k :: 0 <= k < |r.value| ==>
        && r.value[k].bankCode == BankCode(feed.path)
        && r.value[k].referenceId == lines[k + 1][0]
        && r.value[k].amount == NewCurrency(lines[k + 1][1]).value
        && r.value[k].date == parseTime(lines[k + 1][2]).value
  {
    var lines := feed.rows.value;
    var code := BankCode(feed.path);
    var convert := (line: seq<string>, i: nat) => StatementRow(line, i, code, parseTime);
    var r := ConvertFrom(lines, 1, convert);
    if r.Ok? {
      forall k | 0 <= k < |r.value|
        ensures r.value[k].referenceId == lines[k + 1][0]
      {
        assert convert(lines[1 + k], 1 + k) == Ok(r.value[k]);
      }
    }
  }
}
