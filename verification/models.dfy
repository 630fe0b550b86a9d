/**
 The record types of the reconciliation tool and its amount parser
 (`problem_2/models.go`).
 */
module Models {
  import opened Results
  import opened GoInt
  import opened Text
  import opened Strconv

  /** An amount in minor units (cents), held in a Go `int64`. */
  type Currency = Int64

  /** A transaction type is any string; the two the engine recognises are
      lower case. */
  type TransactionType = string

  const Debit: TransactionType := "debit"
  const Credit: TransactionType := "credit"

  /** An entry of the internal ledger; `time` is in seconds. */
  datatype Transaction = Transaction(id: string, amount: Currency, kind: TransactionType, time: int)

  /** An entry of a bank's statement feed; `date` is in seconds. */
  datatype BankStatement = BankStatement(bankCode: string, referenceId: string, amount: Currency, date: int)

  /** The error `NewCurrency` passes on: `strconv.ParseInt` rejected the
      integer part `num` (bad syntax or out of the `int64` range). */
  datatype AmountError = InvalidInteger(num: string)

  /** The integer part of an amount: the first piece `strings.Split`
      gives, which is the longest prefix without a `.`. */
  function WholePart(str: string): (w: string)
    ensures w == Split(str, '.')[0]
    ensures w <= str && '.' !in w
    ensures |w| < |str| ==> str[|w|] == '.'
  {
    SplitHead(str, '.');
    str[..IndexOf(str, '.')]
  }

  /** `NewCurrency` as written: split on `.`, parse the first piece as an
      `int64` and multiply by 100 (wrapping); when there are exactly two
      pieces and the second parses, add it (or subtract it, when the scaled
      value is negative) WITHOUT scaling it to two digits. A fraction that
      does not parse is ignored, and so is everything from a second `.` on.
      The only error is the integer part's. */
  function NewCurrency(str: string): (r: Result<Currency, AmountError>)
    ensures r.Err? <==> ParseInt(WholePart(str)).None?
    ensures r.Err? ==> r.error == InvalidInteger(WholePart(str))
  {
    var arr := Split(str, '.');
    SplitHead(str, '.');
    match ParseInt(arr[0])
    case None => Err(InvalidInteger(arr[0]))
    case Some(whole) =>
      var res := Wrap(whole * 100);
      if |arr| == 2 then
        match ParseInt(arr[1])
        case None => Ok(res)
        case Some(cents) => Ok(if res >= 0 then Wrap(res + cents) else Wrap(res - cents))
      else Ok(res)
  }

  /** An amount without a `.` is its integer value times 100, exactly when
      that product fits in an `int64`; otherwise it wraps around. */
  lemma NewCurrencyWhole(str: string)
    requires '.' !in str
    ensures ParseInt(str).None? ==> NewCurrency(str).Err?
    ensures ParseInt(str).Some? ==> NewCurrency(str) == Ok(Wrap(ParseInt(str).value * 100))
    ensures ParseInt(str).Some? && MinInt64 <= ParseInt(str).value * 100 <= MaxInt64 ==>
      NewCurrency(str) == Ok(ParseInt(str).value * 100)
  {
    assert IndexOf(str, '.') == |str|;
    assert Split(str, '.') == [str];
  }

  /** With one `.`, a fraction that parses is added to a non-negative
      integer part (a `-0` integer part counts as non-negative) and
      subtracted from a negative one, as minor units and unscaled; a
      fraction that does not parse is dropped without an error. */
  lemma NewCurrencyFraction(whole: string, frac: string)
    requires '.' !in whole && '.' !in frac
    requires ParseInt(whole).Some?
    requires var v := ParseInt(whole).value; MinInt64 <= v * 100 <= MaxInt64
    requires var v := ParseInt(whole).value; ParseInt(frac).Some? ==>
      var c := ParseInt(frac).value; MinInt64 <= (if v >= 0 then v * 100 + c else v * 100 - c) <= MaxInt64
    ensures var v := ParseInt(whole).value;
      NewCurrency(whole + "." + frac) ==
        match ParseInt(frac)
        case None => Ok(v * 100)
        case Some(c) => Ok(if v >= 0 then v * 100 + c else v * 100 - c)
  {
    var str := whole + "." + frac;
    var v := ParseInt(whole).value;
    assert Split(str, '.') == [whole, frac] by {
      assert str == whole + ['.'] + frac;
      SplitCons(whole, '.', frac);
      SplitNoSeparator(frac, '.');
    }
    NewCurrencyOfPieces(str, whole, frac);
    var res := Wrap(v * 100);
    assert res == v * 100;
    if ParseInt(frac).Some? {
      var c := ParseInt(frac).value;
      var sum := if v >= 0 then v * 100 + c else v * 100 - c;
      assert (if res >= 0 then Wrap(res + c) else Wrap(res - c)) == sum;
    }
  }

  /** `NewCurrency` on a text that splits into exactly two pieces. */
  lemma NewCurrencyOfPieces(str: string, whole: string, frac: string)
    requires Split(str, '.') == [whole, frac]
    requires ParseInt(whole).Some?
    ensures var res := Wrap(ParseInt(whole).value * 100);
      NewCurrency(str) ==
        match ParseInt(frac)
        case None => Ok(res)
        case Some(c) => Ok(if res >= 0 then Wrap(res + c) else Wrap(res - c))
  {
    var arr := Split(str, '.');
    assert arr[0] == whole && arr[1] == frac && |arr| == 2;
  }

  /** Everything from a second `.` on is ignored: the amount is that of
      the integer part alone. */
  lemma NewCurrencyExtraDots(whole: string, rest: string)
    requires '.' !in whole && '.' in rest
    ensures NewCurrency(whole + "." + rest) == NewCurrency(whole)
  {
    SplitCons(whole, '.', rest);
    assert whole + "." + rest == whole + ['.'] + rest;
    SplitCount(rest, '.');
    assert multiset(rest)['.'] >= 1;
    assert Split(whole, '.') == [whole] by {
      assert IndexOf(whole, '.') == |whole|;
    }
  }
}
