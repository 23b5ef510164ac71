/** What the registered layouts guarantee the handlers, and where they do
    not: a row whose header fits a layout is keyed by that header's names,
    and the handlers read some of those names and look others up in the
    header itself. */
module SchemaFacts {
  import opened Wrappers
  import opened Layouts
  import opened Snowtrace

  /** The row dictionary of a data row: one key per header column name. */
  predicate KeyedBy(row: map<string, string>, header: seq<string>) {
    row.Keys == set k | k in header
  }

  /** The names `parse_snowtrace` reads from the row or finds in the header. */
  predicate PrimaryColumnsPresent(header: seq<string>) {
    && UNIX_TIMESTAMP in header && TXHASH in header && FROM in header && TO in header
    && STATUS in header && VALUE_IN in header && VALUE_OUT in header && TXN_FEE in header
  }

  /** The names `parse_snowtrace_internal` reads from the row or finds in the header. */
  predicate InternalColumnsPresent(header: seq<string>) {
    && UNIX_TIMESTAMP in header && TXHASH in header && FROM in header && TX_TO in header
    && STATUS in header && VALUE_IN in header && VALUE_OUT in header
  }

  /** With every column it needs present, the primary handler can stop only
      on a value it cannot read as a number. */
  lemma PrimaryStopsOnlyOnNumbers(row: map<string, string>, header: seq<string>, c: Collaborators)
    requires KeyedBy(row, header) && PrimaryColumnsPresent(header)
    ensures HandlePrimary(row, header, c).error.Some? ==> HandlePrimary(row, header, c).error.value.InvalidNumber?
  {
  }

  /** With every column it needs present, the internal handler can stop only
      on a value it cannot read as a number. */
  lemma InternalStopsOnlyOnNumbers(row: map<string, string>, header: seq<string>, c: Collaborators)
    requires KeyedBy(row, header) && InternalColumnsPresent(header)
    ensures HandleInternal(row, header, c).error.Some? ==> HandleInternal(row, header, c).error.value.InvalidNumber?
  {
  }

  /** The older transaction layouts, and the current one when its first
      column carries the old name "Txhash", give the primary handler every
      column it needs. */
  lemma PrimaryLayoutsComplete(i: nat, header: seq<string>)
    requires i in {0, 2, 3} && Matches(REGISTERED[i], header)
    requires i == 0 ==> header[0] == TXHASH
    ensures PrimaryColumnsPresent(header)
  {
    var l := REGISTERED[i];
    assert Accepts(l.columns[0], header[0]);
    assert l.columns[2] == Lit(UNIX_TIMESTAMP) && l.columns[4] == Lit(FROM) && l.columns[5] == Lit(TO);
    assert l.columns[7] == Lit(VALUE_IN) && l.columns[8] == Lit(VALUE_OUT);
    assert l.columns[10] == Lit(TXN_FEE) && l.columns[13] == Lit(STATUS);
    forall name | name in {UNIX_TIMESTAMP, FROM, TO, VALUE_IN, VALUE_OUT, TXN_FEE, STATUS}
      ensures name in header
    {
      ProvidedInHeader(l, header, name);
    }
  }

  /** The internal layouts, when their first column carries the old name
      "Txhash", give the internal handler every column it needs. */
  lemma InternalLayoutsComplete(i: nat, header: seq<string>)
    requires i in {4, 5} && Matches(REGISTERED[i], header)
    requires header[0] == TXHASH
    ensures InternalColumnsPresent(header)
  {
    var l := REGISTERED[i];
    assert l.columns[2] == Lit(UNIX_TIMESTAMP) && l.columns[7] == Lit(FROM) && l.columns[8] == Lit(TX_TO);
    assert l.columns[10] == Lit(VALUE_IN) && l.columns[11] == Lit(VALUE_OUT) && l.columns[14] == Lit(STATUS);
    forall name | name in {UNIX_TIMESTAMP, FROM, TX_TO, VALUE_IN, VALUE_OUT, STATUS}
      ensures name in header
    {
      ProvidedInHeader(l, header, name);
    }
  }

  /** The transaction layout with a private note has no "UnixTimestamp"
      column: unless its unchecked column happens to carry that name, every
      row of such a file stops at the first line of `parse_snowtrace` with a
      missing key, and nothing is assigned. */
  lemma NoteLayoutLacksTimestamp(row: map<string, string>, header: seq<string>, c: Collaborators)
    requires Matches(AVAX_TXNS_NOTE, header) && header[9] != UNIX_TIMESTAMP
    requires KeyedBy(row, header)
    ensures HandlePrimary(row, header, c) == Handled(row, None, None, None, Some(MissingField(UNIX_TIMESTAMP)))
  {
    forall k | 0 <= k < |AVAX_TXNS_NOTE.columns| && AVAX_TXNS_NOTE.columns[k] != Any
      ensures Refuses(AVAX_TXNS_NOTE.columns[k], UNIX_TIMESTAMP)
    {
    }
    RefusedOutsideAny(AVAX_TXNS_NOTE, header, UNIX_TIMESTAMP);
  }

  /** In the layouts that accept the renamed hash column, a header that uses
      the new name "Transaction Hash" has no "Txhash" (unless the unchecked
      column is so named), so the handler stops at `in_header.index("Txhash")`
      after assigning the timestamp. */
  lemma RenamedHashNotFound(i: nat, row: map<string, string>, header: seq<string>, c: Collaborators)
    requires i in {0, 4, 5} && Matches(REGISTERED[i], header)
    requires header[0] == "Transaction Hash"
    requires forall k :: 0 <= k < |header| && REGISTERED[i].columns[k] == Any ==> header[k] != TXHASH
    requires Timestamp(row, c).Success?
    ensures i == 0 ==> (HandlePrimary(row, header, c) ==
      Handled(row, Some(Timestamp(row, c).value), None, None, Some(NotInHeader(TXHASH))))
    ensures i != 0 ==> (HandleInternal(row, header, c) ==
      Handled(row, Some(Timestamp(row, c).value), None, None, Some(NotInHeader(TXHASH))))
  {
    var l := REGISTERED[i];
    forall k | 0 <= k < |header|
      ensures header[k] != TXHASH
    {
      assert Accepts(l.columns[k], header[k]);
    }
  }

  /** A header the current transaction layout accepts, with the renamed hash
      and date columns: the case `RenamedHashNotFound` describes occurs. */
  lemma RenamedHeaderFits()
    ensures Matches(AVAX_TXNS, [
      "Transaction Hash", "Blockno", "UnixTimestamp", "DateTime (UTC)", "From", "To",
      "ContractAddress", "Value_IN(AVAX)", "Value_OUT(AVAX)", "CurrentValue @ $0/AVAX",
      "TxnFee(AVAX)", "TxnFee(USD)", "Historical $Price/AVAX", "Status", "ErrCode", "Method"])
  {
  }
}
