/** The two SnowTrace row handlers of snowtrace.py: `parse_snowtrace` for the
    AVAX transaction export and `parse_snowtrace_internal` for the internal
    transaction export. Each is given once as a pure function from the row
    dictionary and the matched header to what the handler assigns
    (`HandlePrimary`, `HandleInternal`), and once as the imperative method on
    a `DataRow` object that assigns its fields step by step and is proved to
    end in the state the function describes. */
module Snowtrace {
  import opened Wrappers
  import opened Wallet
  import Layouts

  // Column names the handlers read.
  const UNIX_TIMESTAMP: string := "UnixTimestamp"
  const TXHASH: string := "Txhash"
  const FROM: string := "From"
  const TO: string := "To"
  const TX_TO: string := "TxTo"
  const STATUS: string := "Status"
  const VALUE_IN: string := "Value_IN(AVAX)"
  const VALUE_OUT: string := "Value_OUT(AVAX)"
  const TXN_FEE: string := "TxnFee(AVAX)"

  /** The asset of every quantity in a SnowTrace record. */
  const ASSET: string := "AVAX"

  /** Positions within the matched header of the hash, source and destination columns. */
  datatype TxRawPos = TxRawPos(hashPos: nat, fromPos: nat, toPos: nat)

  datatype TrType = Deposit | Withdrawal | Spend

  /** The transaction record a row yields. Absent fields are None. */
  datatype Record = Record(
    trType: TrType,
    timestamp: int,
    buyQuantity: Option<real>, buyAsset: Option<string>,
    sellQuantity: Option<real>, sellAsset: Option<string>,
    feeQuantity: Option<real>, feeAsset: Option<string>,
    wallet: string,
    note: Option<string>)

  /** Why a handler stops: a key absent from the row dictionary (KeyError), a
      name absent from the header (ValueError from `list.index`), or a value
      `int()` or `Decimal()` cannot turn into a number. */
  datatype Error = MissingField(name: string) | NotInHeader(name: string) | InvalidNumber(name: string)

  /** A decimal reader that reads "0" as zero, as `Decimal("0")` does. */
  type DecimalReader = f: string -> Option<real> | f("0") == Some(0.0)
    witness (s: string) => Some(0.0)

  /** What the handlers call but this model does not define: `int()` on the
      timestamp column, `Decimal()` on value columns (None where it raises, or
      gives a NaN that a comparison would reject), `_get_note`, and
      `TransactionOutRecord.WALLET_ADDR_LEN`. */
  datatype Collaborators = Collaborators(
    parseInt: string -> Option<int>,
    parseDecimal: DecimalReader,
    noteOf: map<string, string> -> string,
    walletAddrLen: nat)

  /** What one handler call assigns: the row dictionary afterwards, and each
      of `timestamp`, `tx_raw` and `t_record` if it was assigned (None if
      not), and the error that stopped the handler, if any. */
  datatype Handled = Handled(
    rowDict: map<string, string>,
    timestamp: Option<int>,
    txRaw: Option<TxRawPos>,
    record: Option<Record>,
    error: Option<Error>)

  /** The shape of a record: a deposit has a buy side and nothing else; a
      withdrawal or spend has a sell side, no buy side, and its fee, when
      present, is in the sold asset. */
  predicate WellShaped(r: Record) {
    if r.trType == Deposit then
      r.buyQuantity.Some? && r.buyAsset.Some? &&
      r.sellQuantity.None? && r.sellAsset.None? && r.feeQuantity.None? && r.feeAsset.None?
    else
      r.buyQuantity.None? && r.buyAsset.None? &&
      r.sellQuantity.Some? && r.sellAsset.Some? &&
      r.feeQuantity.Some? == r.feeAsset.Some? &&
      (r.feeAsset.Some? ==> r.feeAsset == r.sellAsset)
  }

  /** `row_dict[name]`. */
  function Field(row: map<string, string>, name: string): (r: Result<string, Error>)
    ensures r.Success? <==> name in row
    ensures r.Success? ==> r.value == row[name]
    ensures r.Failure? ==> r.error == MissingField(name)
  {
    if name in row then Success(row[name]) else Failure(MissingField(name))
  }

  /** `Decimal(row_dict[name])`. */
  function Quantity(row: map<string, string>, name: string, c: Collaborators): (r: Result<real, Error>)
    ensures r.Success? <==> name in row && c.parseDecimal(row[name]).Some?
    ensures r.Success? ==> c.parseDecimal(row[name]) == Some(r.value)
    ensures r.Failure? ==> r.error == (if name in row then InvalidNumber(name) else MissingField(name))
  {
    var text :- Field(row, name);
    match c.parseDecimal(text)
    case Some(v) => Success(v)
    case None => Failure(InvalidNumber(name))
  }

  /** `int(row_dict["UnixTimestamp"])`, taken as the record's timestamp. */
  function Timestamp(row: map<string, string>, c: Collaborators): (r: Result<int, Error>)
    ensures r.Success? <==> UNIX_TIMESTAMP in row && c.parseInt(row[UNIX_TIMESTAMP]).Some?
    ensures r.Success? ==> c.parseInt(row[UNIX_TIMESTAMP]) == Some(r.value)
    ensures r.Failure? ==>
      r.error == (if UNIX_TIMESTAMP in row then InvalidNumber(UNIX_TIMESTAMP) else MissingField(UNIX_TIMESTAMP))
  {
    var text :- Field(row, UNIX_TIMESTAMP);
    match c.parseInt(text)
    case Some(t) => Success(t)
    case None => Failure(InvalidNumber(UNIX_TIMESTAMP))
  }

  /** `_get_wallet(row_dict[name])`. */
  function WalletOf(row: map<string, string>, name: string, c: Collaborators): (r: Result<string, Error>)
    ensures r.Success? <==> name in row
    ensures r.Success? ==> r.value == GetWallet(row[name], c.walletAddrLen)
  {
    var address :- Field(row, name);
    Success(GetWallet(address, c.walletAddrLen))
  }

  /** The `TxRawPos` of a handler: the first positions of "Txhash", "From" and
      the destination column in the header, looked up in that order. */
  function TxRawPosOf(header: seq<string>, dest: string): (r: Result<TxRawPos, Error>)
    ensures r.Success? <==> TXHASH in header && FROM in header && dest in header
    ensures r.Success? ==>
      && r.value.hashPos < |header| && header[r.value.hashPos] == TXHASH && TXHASH !in header[..r.value.hashPos]
      && r.value.fromPos < |header| && header[r.value.fromPos] == FROM && FROM !in header[..r.value.fromPos]
      && r.value.toPos < |header| && header[r.value.toPos] == dest && dest !in header[..r.value.toPos]
    ensures r.Failure? ==> r.error == NotInHeader(
      if TXHASH !in header then TXHASH else if FROM !in header then FROM else dest)
  {
    match (Layouts.IndexOf(header, TXHASH), Layouts.IndexOf(header, FROM), Layouts.IndexOf(header, dest))
    case (None, _, _) => Failure(NotInHeader(TXHASH))
    case (Some(_), None, _) => Failure(NotInHeader(FROM))
    case (Some(_), Some(_), None) => Failure(NotInHeader(dest))
    case (Some(h), Some(f), Some(t)) => Success(TxRawPos(h, f, t))
  }

  /** A failed transaction should not have an outbound value: a non-empty
      status replaces "Value_OUT(AVAX)" by "0". */
  function Corrected(row: map<string, string>): (r: map<string, string>)
    requires STATUS in row
    ensures row[STATUS] == "" ==> r == row
    ensures row[STATUS] != "" ==> r.Keys == row.Keys + {VALUE_OUT} && r[VALUE_OUT] == "0"
    ensures forall k :: k in row && k != VALUE_OUT ==> k in r && r[k] == row[k]
  {
    if row[STATUS] != "" then row[VALUE_OUT := "0"] else row
  }

  /** The classification of `parse_snowtrace` on the corrected row, with the
      timestamp already read: a deposit to the destination when value came in
      and the row succeeded, nothing when value came in and the row failed,
      otherwise a withdrawal (value went out) or a spend (none did) from the
      source, paying the row's fee. */
  function ClassifyPrimary(row: map<string, string>, t: int, c: Collaborators): (o: Result<Option<Record>, Error>)
    requires STATUS in row
    ensures o.Success? ==> Quantity(row, VALUE_IN, c).Success?
    ensures o.Success? && o.value.Some? ==>
      var r := o.value.value;
      WellShaped(r) && r.timestamp == t && r.note == Some(c.noteOf(row))
    ensures o.Success? ==>
      (o.value.None? <==> row[STATUS] != "" && Quantity(row, VALUE_IN, c).value > 0.0)
    ensures o.Success? && o.value.Some? && o.value.value.trType == Deposit ==>
      var r := o.value.value;
      && row[STATUS] == ""
      && Quantity(row, VALUE_IN, c).value > 0.0
      && r.buyQuantity == Some(Quantity(row, VALUE_IN, c).value) && r.buyAsset == Some(ASSET)
      && TO in row && r.wallet == GetWallet(row[TO], c.walletAddrLen)
    ensures o.Success? && o.value.Some? && o.value.value.trType != Deposit ==>
      var r := o.value.value;
      && Quantity(row, VALUE_IN, c).value <= 0.0
      && Quantity(row, VALUE_OUT, c).Success? && Quantity(row, TXN_FEE, c).Success?
      && r.sellQuantity == Some(Quantity(row, VALUE_OUT, c).value) && r.sellAsset == Some(ASSET)
      && r.feeQuantity == Some(Quantity(row, TXN_FEE, c).value) && r.feeAsset == Some(ASSET)
      && (r.trType == Withdrawal <==> Quantity(row, VALUE_OUT, c).value > 0.0)
      && FROM in row && r.wallet == GetWallet(row[FROM], c.walletAddrLen)
  {
    var valueIn :- Quantity(row, VALUE_IN, c);
    if valueIn > 0.0 then
      if row[STATUS] == "" then
        var wallet :- WalletOf(row, TO, c);
        Success(Some(Record(Deposit, t, Some(valueIn), Some(ASSET), None, None, None, None,
                            wallet, Some(c.noteOf(row)))))
      else
        Success(None)
    else
      var valueOut :- Quantity(row, VALUE_OUT, c);
      if valueOut > 0.0 then
        var fee :- Quantity(row, TXN_FEE, c);
        var wallet :- WalletOf(row, FROM, c);
        Success(Some(Record(Withdrawal, t, None, None, Some(valueOut), Some(ASSET), Some(fee), Some(ASSET),
                            wallet, Some(c.noteOf(row)))))
      else
        var fee :- Quantity(row, TXN_FEE, c);
        var wallet :- WalletOf(row, FROM, c);
        Success(Some(Record(Spend, t, None, None, Some(valueOut), Some(ASSET), Some(fee), Some(ASSET),
                            wallet, Some(c.noteOf(row)))))
  }

  /** Everything `parse_snowtrace` assigns for one row: the timestamp, then
      the header positions, then (status permitting) the corrected row and
      the record its classification gives. */
  function HandlePrimary(row: map<string, string>, header: seq<string>, c: Collaborators): (h: Handled)
    // an unreadable timestamp stops the handler before anything is assigned or changed
    ensures Timestamp(row, c).Failure? ==> h == Handled(row, None, None, None, Some(Timestamp(row, c).error))
    // a header lacking a looked-up name stops it after the timestamp, with the row unchanged
    ensures Timestamp(row, c).Success? && TxRawPosOf(header, TO).Failure? ==>
      h == Handled(row, Some(Timestamp(row, c).value), None, None, Some(TxRawPosOf(header, TO).error))
    // a handler that completes has assigned the timestamp and the positions
    ensures h.error.None? ==> h.timestamp.Some? && h.txRaw.Some?
    ensures h.txRaw.Some? ==> h.timestamp.Some? && h.txRaw == TxRawPosOf(header, TO).ToOption()
    ensures h.timestamp.Some? ==> h.timestamp == Timestamp(row, c).ToOption()
    ensures h.record.Some? ==> h.error.None? && WellShaped(h.record.value)
    ensures h.record.Some? ==> Some(h.record.value.timestamp) == h.timestamp
    // the only change to the row is the failure correction, made once the positions are known
    ensures h.rowDict == row || (STATUS in row && row[STATUS] != "" && h.rowDict == row[VALUE_OUT := "0"])
    ensures h.txRaw.Some? && STATUS in row && row[STATUS] != "" ==> h.rowDict == row[VALUE_OUT := "0"]
    // a failed row never yields a withdrawal or a deposit: it spends nothing but its fee
    ensures h.record.Some? && STATUS in row && row[STATUS] != "" ==>
      h.record.value.trType == Spend && h.record.value.sellQuantity == Some(0.0)
    // a withdrawal comes only from a successful row, with its recorded outbound value
    ensures h.record.Some? && h.record.value.trType == Withdrawal ==>
      STATUS in row && row[STATUS] == "" && Quantity(row, VALUE_OUT, c).Success? &&
      h.record.value.sellQuantity == Some(Quantity(row, VALUE_OUT, c).value) &&
      Quantity(row, VALUE_OUT, c).value > 0.0
    // every completed row but a failed inbound one yields exactly one record
    ensures h.error.None? ==>
      STATUS in row && Quantity(row, VALUE_IN, c).Success? &&
      (h.record.None? <==> row[STATUS] != "" && Quantity(row, VALUE_IN, c).value > 0.0)
  {
    match Timestamp(row, c)
    case Failure(e) => Handled(row, None, None, None, Some(e))
    case Success(t) =>
      match TxRawPosOf(header, TO)
      case Failure(e) => Handled(row, Some(t), None, None, Some(e))
      case Success(pos) =>
        if STATUS !in row then
          Handled(row, Some(t), Some(pos), None, Some(MissingField(STATUS)))
        else
          var corrected := Corrected(row);
          assert row[STATUS] != "" ==> corrected == row[VALUE_OUT := "0"];
          match ClassifyPrimary(corrected, t, c)
          case Failure(e) => Handled(corrected, Some(t), Some(pos), None, Some(e))
          case Success(record) => Handled(corrected, Some(t), Some(pos), record, None)
  }

  /** Everything `parse_snowtrace_internal` assigns for one row. Status "0"
      means success; any other status leaves the row without a record. A
      successful row is a deposit to "TxTo" when value came in, a fee-less
      withdrawal from "From" when value went out, and nothing otherwise. */
  function HandleInternal(row: map<string, string>, header: seq<string>, c: Collaborators): (h: Handled)
    ensures h.rowDict == row
    ensures Timestamp(row, c).Failure? ==> h == Handled(row, None, None, None, Some(Timestamp(row, c).error))
    ensures Timestamp(row, c).Success? && TxRawPosOf(header, TX_TO).Failure? ==>
      h == Handled(row, Some(Timestamp(row, c).value), None, None, Some(TxRawPosOf(header, TX_TO).error))
    ensures h.error.None? ==> h.timestamp.Some? && h.txRaw.Some?
    ensures h.txRaw.Some? ==> h.timestamp.Some? && h.txRaw == TxRawPosOf(header, TX_TO).ToOption()
    ensures h.timestamp.Some? ==> h.timestamp == Timestamp(row, c).ToOption()
    // a failed internal row yields nothing, whatever its value columns hold
    ensures h.txRaw.Some? && STATUS in row && row[STATUS] != "0" ==> h.record.None? && h.error.None?
    ensures h.record.Some? ==>
      var r := h.record.value;
      && h.error.None? && WellShaped(r) && Some(r.timestamp) == h.timestamp
      && STATUS in row && row[STATUS] == "0" && r.trType != Spend
      && r.feeQuantity.None? && r.note.None?
    ensures h.record.Some? && h.record.value.trType == Deposit ==>
      Quantity(row, VALUE_IN, c).Success? && Quantity(row, VALUE_IN, c).value > 0.0 &&
      h.record.value.buyQuantity == Some(Quantity(row, VALUE_IN, c).value) &&
      h.record.value.buyAsset == Some(ASSET) &&
      TX_TO in row && h.record.value.wallet == GetWallet(row[TX_TO], c.walletAddrLen)
    ensures h.record.Some? && h.record.value.trType == Withdrawal ==>
      Quantity(row, VALUE_IN, c).Success? && Quantity(row, VALUE_IN, c).value <= 0.0 &&
      Quantity(row, VALUE_OUT, c).Success? && Quantity(row, VALUE_OUT, c).value > 0.0 &&
      h.record.value.sellQuantity == Some(Quantity(row, VALUE_OUT, c).value) &&
      h.record.value.sellAsset == Some(ASSET) &&
      FROM in row && h.record.value.wallet == GetWallet(row[FROM], c.walletAddrLen)
    // a successful row yields nothing exactly when no value moved
    ensures h.error.None? && STATUS in row && row[STATUS] == "0" ==>
      Quantity(row, VALUE_IN, c).Success? &&
      (h.record.None? <==>
        Quantity(row, VALUE_IN, c).value <= 0.0 &&
        Quantity(row, VALUE_OUT, c).Success? && Quantity(row, VALUE_OUT, c).value <= 0.0)
  {
    match Timestamp(row, c)
    case Failure(e) => Handled(row, None, None, None, Some(e))
    case Success(t) =>
      match TxRawPosOf(header, TX_TO)
      case Failure(e) => Handled(row, Some(t), None, None, Some(e))
      case Success(pos) =>
        match ClassifyInternal(row, t, c)
        case Failure(e) => Handled(row, Some(t), Some(pos), None, Some(e))
        case Success(record) => Handled(row, Some(t), Some(pos), record, None)
  }

  /** The part of `parse_snowtrace_internal` after the timestamp and the
      positions: nothing for a failed row, a deposit to "TxTo" when value
      came in, a fee-less withdrawal from "From" when value went out. */
  function ClassifyInternal(row: map<string, string>, t: int, c: Collaborators): (o: Result<Option<Record>, Error>)
    // a missing status is the only way a row stops before its status is known
    ensures STATUS !in row ==> o == Failure(MissingField(STATUS))
    // a failed row yields nothing, whatever its value columns hold
    ensures STATUS in row && row[STATUS] != "0" ==> o == Success(None)
    ensures o.Success? && o.value.Some? ==>
      var r := o.value.value;
      && WellShaped(r) && r.timestamp == t
      && STATUS in row && row[STATUS] == "0" && r.trType != Spend
      && r.feeQuantity.None? && r.feeAsset.None? && r.note.None?
    ensures o.Success? && STATUS in row && row[STATUS] == "0" ==>
      Quantity(row, VALUE_IN, c).Success? &&
      (o.value.None? <==>
        Quantity(row, VALUE_IN, c).value <= 0.0 &&
        Quantity(row, VALUE_OUT, c).Success? && Quantity(row, VALUE_OUT, c).value <= 0.0)
    ensures o.Success? && o.value.Some? && o.value.value.trType == Deposit ==>
      var r := o.value.value;
      && Quantity(row, VALUE_IN, c).Success? && Quantity(row, VALUE_IN, c).value > 0.0
      && r.buyQuantity == Some(Quantity(row, VALUE_IN, c).value) && r.buyAsset == Some(ASSET)
      && TX_TO in row && r.wallet == GetWallet(row[TX_TO], c.walletAddrLen)
    ensures o.Success? && o.value.Some? && o.value.value.trType == Withdrawal ==>
      var r := o.value.value;
      && Quantity(row, VALUE_IN, c).Success? && Quantity(row, VALUE_IN, c).value <= 0.0
      && Quantity(row, VALUE_OUT, c).Success? && Quantity(row, VALUE_OUT, c).value > 0.0
      && r.sellQuantity == Some(Quantity(row, VALUE_OUT, c).value) && r.sellAsset == Some(ASSET)
      && FROM in row && r.wallet == GetWallet(row[FROM], c.walletAddrLen)
  {
    var status :- Field(row, STATUS);
    if status != "0" then
      Success(None)
    else
      var valueIn :- Quantity(row, VALUE_IN, c);
      if valueIn > 0.0 then
        var wallet :- WalletOf(row, TX_TO, c);
        Success(Some(Record(Deposit, t, Some(valueIn), Some(ASSET), None, None, None, None, wallet, None)))
      else
        var valueOut :- Quantity(row, VALUE_OUT, c);
        if valueOut > 0.0 then
          var wallet :- WalletOf(row, FROM, c);
          Success(Some(Record(Withdrawal, t, None, None, Some(valueOut), Some(ASSET), None, None, wallet, None)))
        else
          Success(None)
  }

  /** One row of an imported file: its dictionary keyed by column name, and
      what a handler assigns to it. */
  class DataRow {
    var rowDict: map<string, string>
    var timestamp: Option<int>
    var txRaw: Option<TxRawPos>
    var tRecord: Option<Record>

    constructor (row: map<string, string>)
      ensures rowDict == row && timestamp == None && txRaw == None && tRecord == None
    {
      rowDict := row;
      timestamp := None;
      txRaw := None;
      tRecord := None;
    }

    /** `parse_snowtrace`: assigns the fields in the source's order and stops
        at the first error, leaving what was assigned before it. */
    method ParseSnowtrace(inHeader: seq<string>, c: Collaborators) returns (err: Option<Error>)
      modifies this
      ensures var h := HandlePrimary(old(rowDict), inHeader, c);
        && rowDict == h.rowDict
        && timestamp == (if h.timestamp.Some? then h.timestamp else old(timestamp))
        && txRaw == (if h.txRaw.Some? then h.txRaw else old(txRaw))
        && tRecord == (if h.record.Some? then h.record else old(tRecord))
        && err == h.error
    {
      var t := Timestamp(rowDict, c);
      if t.Failure? {
        return Some(t.error);
      }
      timestamp := Some(t.value);
      var pos := TxRawPosOf(inHeader, TO);
      if pos.Failure? {
        return Some(pos.error);
      }
      txRaw := Some(pos.value);
      if STATUS !in rowDict {
        return Some(MissingField(STATUS));
      }
      if rowDict[STATUS] != "" {
        rowDict := rowDict[VALUE_OUT := "0"];
      }
      var record := ClassifyPrimary(rowDict, t.value, c);
      if record.Failure? {
        return Some(record.error);
      }
      if record.value.Some? {
        tRecord := record.value;
      }
      return None;
    }

    /** `parse_snowtrace_internal`: the same sequence, without the correction. */
    method ParseSnowtraceInternal(inHeader: seq<string>, c: Collaborators) returns (err: Option<Error>)
      modifies this
      ensures var h := HandleInternal(old(rowDict), inHeader, c);
        && rowDict == old(rowDict)
        && timestamp == (if h.timestamp.Some? then h.timestamp else old(timestamp))
        && txRaw == (if h.txRaw.Some? then h.txRaw else old(txRaw))
        && tRecord == (if h.record.Some? then h.record else old(tRecord))
        && err == h.error
    {
      var t := Timestamp(rowDict, c);
      if t.Failure? {
        return Some(t.error);
      }
      timestamp := Some(t.value);
      var pos := TxRawPosOf(inHeader, TX_TO);
      if pos.Failure? {
        return Some(pos.error);
      }
      txRaw := Some(pos.value);
      var record := ClassifyInternal(rowDict, t.value, c);
      if record.Failure? {
        return Some(record.error);
      }
      if record.value.Some? {
        tRecord := record.value;
      }
      return None;
    }
  }
}
