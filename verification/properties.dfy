/** The record each kind of row yields, field by field. */
module Properties {
  import opened Wrappers
  import opened Wallet
  import opened Snowtrace

  /** The handler got past the timestamp and the header positions. */
  predicate Started(row: map<string, string>, header: seq<string>, c: Collaborators, dest: string) {
    Timestamp(row, c).Success? && TxRawPosOf(header, dest).Success?
  }

  /** The number in a column that is present and readable. */
  function Amount(row: map<string, string>, name: string, c: Collaborators): real
    requires Quantity(row, name, c).Success?
  {
    Quantity(row, name, c).value
  }

  /** A successful row with value coming in is a deposit of that value to the destination. */
  lemma SuccessfulDeposit(row: map<string, string>, header: seq<string>, c: Collaborators)
    requires Started(row, header, c, TO) && STATUS in row && row[STATUS] == ""
    requires Quantity(row, VALUE_IN, c).Success? && Amount(row, VALUE_IN, c) > 0.0 && TO in row
    ensures var h := HandlePrimary(row, header, c);
      h.error.None? && h.rowDict == row &&
      h.record == Some(Record(Deposit, Timestamp(row, c).value,
                              Some(Amount(row, VALUE_IN, c)), Some(ASSET), None, None, None, None,
                              GetWallet(row[TO], c.walletAddrLen), Some(c.noteOf(row))))
  {
  }

  /** A failed row with value coming in yields no record, but the timestamp
      and positions are assigned and the outbound value is reset. */
  lemma FailedInbound(row: map<string, string>, header: seq<string>, c: Collaborators)
    requires Started(row, header, c, TO) && STATUS in row && row[STATUS] != ""
    requires Quantity(row, VALUE_IN, c).Success? && Amount(row, VALUE_IN, c) > 0.0
    ensures var h := HandlePrimary(row, header, c);
      h == Handled(row[VALUE_OUT := "0"], Some(Timestamp(row, c).value), TxRawPosOf(header, TO).ToOption(), None, None)
  {
    assert Quantity(row[VALUE_OUT := "0"], VALUE_IN, c) == Quantity(row, VALUE_IN, c);
  }

  /** A successful row with no value in and value going out is a withdrawal
      of that value, with its fee, from the source. */
  lemma SuccessfulWithdrawal(row: map<string, string>, header: seq<string>, c: Collaborators)
    requires Started(row, header, c, TO) && STATUS in row && row[STATUS] == ""
    requires Quantity(row, VALUE_IN, c).Success? && Amount(row, VALUE_IN, c) <= 0.0
    requires Quantity(row, VALUE_OUT, c).Success? && Amount(row, VALUE_OUT, c) > 0.0
    requires Quantity(row, TXN_FEE, c).Success? && FROM in row
    ensures HandlePrimary(row, header, c).record ==
      Some(Record(Withdrawal, Timestamp(row, c).value, None, None,
                  Some(Amount(row, VALUE_OUT, c)), Some(ASSET), Some(Amount(row, TXN_FEE, c)), Some(ASSET),
                  GetWallet(row[FROM], c.walletAddrLen), Some(c.noteOf(row))))
  {
  }

  /** A successful row with no value in and none out is a spend of its
      outbound value (zero or less) and its fee, from the source. */
  lemma SuccessfulSpend(row: map<string, string>, header: seq<string>, c: Collaborators)
    requires Started(row, header, c, TO) && STATUS in row && row[STATUS] == ""
    requires Quantity(row, VALUE_IN, c).Success? && Amount(row, VALUE_IN, c) <= 0.0
    requires Quantity(row, VALUE_OUT, c).Success? && Amount(row, VALUE_OUT, c) <= 0.0
    requires Quantity(row, TXN_FEE, c).Success? && FROM in row
    ensures HandlePrimary(row, header, c).record ==
      Some(Record(Spend, Timestamp(row, c).value, None, None,
                  Some(Amount(row, VALUE_OUT, c)), Some(ASSET), Some(Amount(row, TXN_FEE, c)), Some(ASSET),
                  GetWallet(row[FROM], c.walletAddrLen), Some(c.noteOf(row))))
  {
  }

  /** A failed row with no value in is a spend of zero and its fee, whatever
      outbound value the export shows, even one that is not a number. The
      note is derived from the corrected row. */
  lemma FailedOutbound(row: map<string, string>, header: seq<string>, c: Collaborators)
    requires Started(row, header, c, TO) && STATUS in row && row[STATUS] != ""
    requires Quantity(row, VALUE_IN, c).Success? && Amount(row, VALUE_IN, c) <= 0.0
    requires Quantity(row, TXN_FEE, c).Success? && FROM in row
    ensures var h := HandlePrimary(row, header, c);
      h.rowDict == row[VALUE_OUT := "0"] &&
      h.record == Some(Record(Spend, Timestamp(row, c).value, None, None,
                              Some(0.0), Some(ASSET), Some(Amount(row, TXN_FEE, c)), Some(ASSET),
                              GetWallet(row[FROM], c.walletAddrLen), Some(c.noteOf(row[VALUE_OUT := "0"]))))
  {
    var fixed := row[VALUE_OUT := "0"];
    assert Quantity(fixed, VALUE_IN, c) == Quantity(row, VALUE_IN, c);
    assert Quantity(fixed, TXN_FEE, c) == Quantity(row, TXN_FEE, c);
    assert Quantity(fixed, VALUE_OUT, c) == Success(0.0);
  }

  /** A failed internal row yields nothing and stops nowhere, whatever its value columns hold. */
  lemma InternalFailed(row: map<string, string>, header: seq<string>, c: Collaborators)
    requires Started(row, header, c, TX_TO) && STATUS in row && row[STATUS] != "0"
    ensures HandleInternal(row, header, c) ==
      Handled(row, Some(Timestamp(row, c).value), TxRawPosOf(header, TX_TO).ToOption(), None, None)
  {
  }

  /** A successful internal row with value coming in is a deposit to "TxTo", with no fee and no note. */
  lemma InternalDeposit(row: map<string, string>, header: seq<string>, c: Collaborators)
    requires Started(row, header, c, TX_TO) && STATUS in row && row[STATUS] == "0"
    requires Quantity(row, VALUE_IN, c).Success? && Amount(row, VALUE_IN, c) > 0.0 && TX_TO in row
    ensures HandleInternal(row, header, c).record ==
      Some(Record(Deposit, Timestamp(row, c).value, Some(Amount(row, VALUE_IN, c)), Some(ASSET),
                  None, None, None, None, GetWallet(row[TX_TO], c.walletAddrLen), None))
  {
  }

  /** A successful internal row with value going out is a withdrawal from
      "From", with no fee and no note. */
  lemma InternalWithdrawal(row: map<string, string>, header: seq<string>, c: Collaborators)
    requires Started(row, header, c, TX_TO) && STATUS in row && row[STATUS] == "0"
    requires Quantity(row, VALUE_IN, c).Success? && Amount(row, VALUE_IN, c) <= 0.0
    requires Quantity(row, VALUE_OUT, c).Success? && Amount(row, VALUE_OUT, c) > 0.0 && FROM in row
    ensures HandleInternal(row, header, c).record ==
      Some(Record(Withdrawal, Timestamp(row, c).value, None, None, Some(Amount(row, VALUE_OUT, c)), Some(ASSET),
                  None, None, GetWallet(row[FROM], c.walletAddrLen), None))
  {
  }

  /** A successful internal row with no value moving yields nothing. */
  lemma InternalNoValue(row: map<string, string>, header: seq<string>, c: Collaborators)
    requires Started(row, header, c, TX_TO) && STATUS in row && row[STATUS] == "0"
    requires Quantity(row, VALUE_IN, c).Success? && Amount(row, VALUE_IN, c) <= 0.0
    requires Quantity(row, VALUE_OUT, c).Success? && Amount(row, VALUE_OUT, c) <= 0.0
    ensures HandleInternal(row, header, c).record.None? && HandleInternal(row, header, c).error.None?
  {
  }
}
