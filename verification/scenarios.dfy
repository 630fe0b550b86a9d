/**
 Worked scenarios for the amount parser, on the texts whose handling is
 easy to get wrong.
 */
module AmountScenarios {
  import opened Results
  import opened Strconv
  import opened Models

  /** The unsigned integer texts the scenarios below are made of. */
  lemma ParseUnsignedExamples()
    ensures ParseInt("1") == Some(1) && ParseInt("5") == Some(5) && ParseInt("7") == Some(7)
    ensures ParseInt("50") == Some(50)
  {
    assert DigitsValue("1") == 1 && DigitsValue("5") == 5 && DigitsValue("7") == 7;
    assert DigitsValue("50") == 50 by { assert "50"[..1] == "5"; }
    ParseUnsigned("1");
    ParseUnsigned("5");
    ParseUnsigned("7");
    ParseUnsigned("50");
  }

  /** The signed integer texts the scenarios below are made of. */
  lemma ParseSignedExamples()
    ensures ParseInt("-7") == Some(-7) && ParseInt("-0") == Some(0) && ParseInt("-12") == Some(-12)
  {
    assert DigitsValue("7") == 7 && DigitsValue("0") == 0;
    assert DigitsValue("12") == 12 by { assert "12"[..1] == "1"; }
    assert "-7" == ['-'] + "7" && "-0" == ['-'] + "0" && "-12" == ['-'] + "12";
    ParseSigned('-', "7");
    ParseSigned('-', "0");
    ParseSigned('-', "12");
  }

  /** The integer texts the scenarios below are made of. */
  lemma ParseIntExamples()
    ensures ParseInt("1") == Some(1) && ParseInt("5") == Some(5) && ParseInt("7") == Some(7)
    ensures ParseInt("50") == Some(50) && ParseInt("-7") == Some(-7) && ParseInt("-0") == Some(0)
    ensures ParseInt("-12") == Some(-12)
  {
    ParseUnsignedExamples();
    ParseSignedExamples();
  }

  /** Texts that are not an optional sign followed by digits are
      rejected: a trailing letter, a sign in the middle, two signs, and a
      leading space. */
  lemma ParseRejectExamples()
    ensures ParseInt("12a").None? && ParseInt("1-2").None?
    ensures ParseInt("+-1").None? && ParseInt(" 7").None?
  {
  }

  /** A whole amount is scaled to cents. */
  lemma AmountWhole()
    ensures NewCurrency("-12") == Ok(-1200)
  {
    ParseIntExamples();
    NewCurrencyWhole("-12");
  }

  /** A two-digit fraction reads as cents. */
  lemma AmountTwoDigitFraction()
    ensures NewCurrency("7.50") == Ok(750)
  {
    assert "7.50" == "7" + "." + "50";
    ParseIntExamples();
    NewCurrencyFraction("7", "50");
  }

  /** The fraction is added as cents without scaling: "7.5" is 705, not
      750. */
  lemma AmountUnscaledFraction()
    ensures NewCurrency("7.5") == Ok(705)
  {
    assert "7.5" == "7" + "." + "5";
    ParseIntExamples();
    NewCurrencyFraction("7", "5");
  }

  /** A negative integer part has its fraction subtracted. */
  lemma AmountNegativeFraction()
    ensures NewCurrency("-7.50") == Ok(-750)
  {
    assert "-7.50" == "-7" + "." + "50";
    ParseIntExamples();
    NewCurrencyFraction("-7", "50");
  }

  /** The sign of "-0.50" is lost: the integer part parses to 0, which
      takes the non-negative branch. */
  lemma AmountNegativeZero()
    ensures NewCurrency("-0.50") == Ok(50)
  {
    assert "-0.50" == "-0" + "." + "50";
    ParseIntExamples();
    NewCurrencyFraction("-0", "50");
  }

  /** A fraction that does not parse is dropped without an error. */
  lemma AmountBadFractionIgnored()
    ensures NewCurrency("5.") == Ok(500)
    ensures NewCurrency("5.x") == Ok(500)
  {
    assert "5." == "5" + "." + "";
    assert "5.x" == "5" + "." + "x";
    ParseIntExamples();
    assert ParseInt("") == None;
    assert ParseInt("x") == None by { assert !IsDigit("x"[0]); }
    NewCurrencyFraction("5", "");
    NewCurrencyFraction("5", "x");
  }

  /** Text from the second `.` on is ignored. */
  lemma AmountExtraDots()
    ensures NewCurrency("1.2.3") == Ok(100)
  {
    assert "1.2.3" == "1" + "." + "2.3";
    ParseIntExamples();
    NewCurrencyWhole("1");
    NewCurrencyExtraDots("1", "2.3");
  }

  /** Only the integer part can make the amount invalid. */
  lemma AmountBadInteger()
    ensures NewCurrency("x.50") == Err(InvalidInteger("x"))
    ensures NewCurrency("") == Err(InvalidInteger(""))
  {
    assert WholePart("x.50") == "x";
    assert ParseInt("x") == None by { assert !IsDigit("x"[0]); }
    assert WholePart("") == "";
  }
}

/**
 Worked scenarios for the engine, on small ledgers and statement feeds.
 */
module EngineScenarios {
  import opened Models
  import opened Reconciliation

  /** The per-pair discrepancy: a debit is cancelled by the opposite bank
      amount, a credit by the same amount. A debit stored as -500 against a
      bank amount of -500 is off by -1000, because the two are added. */
  lemma PairDiffExamples()
    ensures PairDiff(Transaction("T", 500, Debit, 0), BankStatement("bca", "T", -500, 0)) == 0
    ensures PairDiff(Transaction("T", 500, Debit, 0), BankStatement("bca", "T", -480, 0)) == 20
    ensures PairDiff(Transaction("T", -500, Debit, 0), BankStatement("bca", "T", -500, 0)) == -1000
    ensures PairDiff(Transaction("T", 500, Credit, 0), BankStatement("bca", "T", 500, 0)) == 0
    ensures PairDiff(Transaction("T", 500, Credit, 0), BankStatement("bca", "T", 520, 0)) == 20
    ensures PairDiff(Transaction("T", 500, "transfer", 0), BankStatement("bca", "T", 7, 0)) == 0
  {
  }

  /** Midnight of 2025-01-03, UTC, in seconds since the epoch. */
  const Jan3: int := 1735862400
  const T1: Transaction := Transaction("T1", 500, Debit, Jan3 + 10 * 3600)
  const S1: BankStatement := BankStatement("bca", "T1", -500, Jan3 + 11 * 3600)

  const S2: BankStatement := S1.(bankCode := "mandiri")

  /** The window of the single day of 2025-01-03. */
  const W: Window := Window(Jan3, Jan3)

  lemma IndexOfT1()
    ensures InWindowIds([T1], W) == {"T1"}
    ensures BuildIndex([T1], W) == map["T1" := T1]
  {
    assert [T1] == [] + [T1];
    InWindowIdsSnoc([], T1, W);
  }

  lemma StatementsKept()
    ensures InWindowStatements([S1], W) == [S1]
    ensures InWindowStatements([S1, S2], W) == [S1, S2]
  {
    assert [S1] == [] + [S1];
    InWindowSnoc([], S1, W);
    assert [S1, S2] == [S1] + [S2];
    InWindowSnoc([S1], S2, W);
  }

  lemma RefsOfStatements()
    ensures Refs([S1]) == {"T1"}
    ensures Refs([S1, S2]) == {"T1"}
  {
    assert [S1] == [] + [S1];
    RefsSnoc([], S1);
    assert [S1, S2] == [S1] + [S2];
    RefsSnoc([S1], S2);
  }

  /** The first statement claims `T1` at no discrepancy; the second finds
      it consumed. */
  lemma MatchingSteps()
    ensures UnmatchedSeq(map["T1" := T1], [S1]) == []
    ensures ExactDelta(map["T1" := T1], [S1]) == 0
    ensures UnmatchedSeq(map["T1" := T1], [S1, S2]) == [S2]
    ensures ExactDelta(map["T1" := T1], [S1, S2]) == 0
  {
    var index := map["T1" := T1];
    RefsOfStatements();
    assert Refs([]) == {};
    assert [S1] == [] + [S1];
    UnmatchedSnoc(index, [], S1);
    assert [S1, S2] == [S1] + [S2];
    UnmatchedSnoc(index, [S1], S2);
  }

  lemma GroupOfS2()
    ensures GroupByBank([]) == map[]
    ensures GroupByBank([S2]) == map["mandiri" := [S2]]
  {
    assert GroupByBank([]) == map[];
    assert [S2] == [] + [S2];
    GroupSnoc([], S2);
  }

  /** One debit matched by its bank movement on the same day. */
  lemma EndToEndMatched()
    ensures Reconcile([T1], [S1], W) == Summary(1, 1, 0, {}, map[])
  {
    IndexOfT1();
    StatementsKept();
    RefsOfStatements();
    MatchingSteps();
    GroupOfS2();
    ReconcileSummary([T1], [S1], W);
    assert (set t | t in map["T1" := T1].Values && t.id !in {"T1"}) == {};
  }

  /** With no statement the transaction is reported unmatched. */
  lemma EndToEndUnmatched()
    ensures Reconcile([T1], [], W) == Summary(1, 0, 0, {T1}, map[])
  {
    IndexOfT1();
    GroupOfS2();
    assert Refs([]) == {};
    ReconcileSummary([T1], [], W);
    assert (set t | t in map["T1" := T1].Values && t.id !in {}) == {T1};
  }

  /** A transaction of the day before the window is not processed. */
  lemma EndToEndDayBefore()
    ensures Reconcile([T1.(time := Jan3 - 3600)], [], W) == Summary(0, 0, 0, {}, map[])
  {
    var t := T1.(time := Jan3 - 3600);
    assert [t] == [] + [t];
    InWindowIdsSnoc([], t, W);
    GroupOfS2();
  }

  /** `T1` with its debit recorded as a negative amount. */
  const T0: Transaction := T1.(amount := -500)

  lemma NegativeDebitSteps()
    ensures InWindowIds([T0], W) == {"T1"}
    ensures BuildIndex([T0], W) == map["T1" := T0]
    ensures UnmatchedSeq(map["T1" := T0], [S1]) == []
    ensures ExactDelta(map["T1" := T0], [S1]) == -1000
  {
    assert [T0] == [] + [T0];
    InWindowIdsSnoc([], T0, W);
    assert Refs([]) == {};
    assert [S1] == [] + [S1];
    UnmatchedSnoc(map["T1" := T0], [], S1);
  }

  /** A debit recorded with a negative amount against an equal negative
      bank movement: the amounts are added, so the pair is off by -1000
      rather than balanced. */
  lemma EndToEndNegativeDebit()
    ensures Reconcile([T0], [S1], W) == Summary(1, 1, -1000, {}, map[])
  {
    NegativeDebitSteps();
    StatementsKept();
    RefsOfStatements();
    GroupOfS2();
    ReconcileSummary([T0], [S1], W);
    assert (set t | t in map["T1" := T0].Values && t.id !in {"T1"}) == {};
  }

  /** Two statements naming the same transaction: the first matches, the
      second is listed as unmatched under its bank. */
  lemma EndToEndSecondReference()
    ensures Reconcile([T1], [S1, S2], W) == Summary(1, 1, 0, {}, map["mandiri" := [S2]])
  {
    IndexOfT1();
    StatementsKept();
    RefsOfStatements();
    MatchingSteps();
    GroupOfS2();
    ReconcileSummary([T1], [S1, S2], W);
    assert (set t | t in map["T1" := T1].Values && t.id !in {"T1"}) == {};
  }
}

/**
 Worked scenarios for row conversion and bank codes.
 */
module FeedScenarios {
  import opened Text
  import opened Models
  import opened Feeds

  /** The bank codes of the tool's own statement files. */
  lemma BankCodeMandiri()
    ensures BankCode("mandiri_statements.csv") == "mandiri"
  {
    assert "mandiri_statements.csv" == "mandiri" + "_" + "statements.csv";
    BankCodeOfFileName("mandiri", "statements.csv");
  }

  lemma BankCodeBca()
    ensures BankCode("bca_statements.csv") == "bca"
  {
    assert "bca_statements.csv" == "bca" + "_" + "statements.csv";
    BankCodeOfFileName("bca", "statements.csv");
  }

  /** A directory in front of the file name is dropped. */
  lemma BankCodeWithDirectory()
    ensures BankCode("x/bca_statements.csv") == "bca"
  {
    assert "x/bca_statements.csv" == "x" + "/" + "bca_statements.csv";
    BankCodeInDirectory("x", "bca_statements.csv");
    BankCodeBca();
  }

  /** An upper-case type in the ledger becomes the recognised constant. */
  lemma TypeLowered()
    ensures ToLower("DEBIT") == Debit
    ensures ToLower("Credit") == Credit
  {
  }
}
