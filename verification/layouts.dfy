/** The six column layouts snowtrace.py registers, as data, with the
    position-by-position header test that selects one of them, and the
    `list.index` lookup the handlers use on the matched header. */
module Layouts {
  import opened Wrappers

  /** One expected column: an exact name, a column renamed between exporter
      versions (either name is accepted), or a column that is not checked. */
  datatype Matcher = Lit(name: string) | OneOf(names: set<string>) | Any

  /** Which row handler a layout is registered with. */
  datatype Handler = Primary | Internal

  datatype Layout = Layout(columns: seq<Matcher>, handler: Handler)

  predicate Accepts(m: Matcher, column: string) {
    match m
    case Lit(name) => column == name
    case OneOf(names) => column in names
    case Any => true
  }

  /** The transaction hash column, renamed in later exports. */
  const HASH_COLUMN: Matcher := OneOf({"Txhash", "Transaction Hash"})
  /** The date column, renamed in later exports. */
  const DATE_TIME_COLUMN: Matcher := OneOf({"DateTime", "DateTime (UTC)"})

  /** AVAX transactions, current export. */
  const AVAX_TXNS: Layout := Layout([
    HASH_COLUMN, Lit("Blockno"), Lit("UnixTimestamp"), DATE_TIME_COLUMN,
    Lit("From"), Lit("To"), Lit("ContractAddress"),
    Lit("Value_IN(AVAX)"), Lit("Value_OUT(AVAX)"), Any,
    Lit("TxnFee(AVAX)"), Lit("TxnFee(USD)"), Lit("Historical $Price/AVAX"),
    Lit("Status"), Lit("ErrCode"), Lit("Method")
  ], Primary)

  /** AVAX transactions with a private note. As registered it names the hash
      column twice and has no "UnixTimestamp" column. */
  const AVAX_TXNS_NOTE: Layout := Layout([
    HASH_COLUMN, Lit("Txhash"), Lit("Blockno"), DATE_TIME_COLUMN,
    Lit("From"), Lit("To"), Lit("ContractAddress"),
    Lit("Value_IN(AVAX)"), Lit("Value_OUT(AVAX)"), Any,
    Lit("TxnFee(AVAX)"), Lit("TxnFee(USD)"), Lit("Historical $Price/AVAX"),
    Lit("Status"), Lit("ErrCode"), Lit("Method"), Lit("PrivateNote")
  ], Primary)

  /** AVAX transactions, older export without the "Method" column. */
  const AVAX_TXNS_OLD: Layout := Layout([
    Lit("Txhash"), Lit("Blockno"), Lit("UnixTimestamp"), Lit("DateTime"),
    Lit("From"), Lit("To"), Lit("ContractAddress"),
    Lit("Value_IN(AVAX)"), Lit("Value_OUT(AVAX)"), Any,
    Lit("TxnFee(AVAX)"), Lit("TxnFee(USD)"), Lit("Historical $Price/AVAX"),
    Lit("Status"), Lit("ErrCode")
  ], Primary)

  /** AVAX transactions, older export with a private note. */
  const AVAX_TXNS_OLD_NOTE: Layout := Layout([
    Lit("Txhash"), Lit("Blockno"), Lit("UnixTimestamp"), Lit("DateTime"),
    Lit("From"), Lit("To"), Lit("ContractAddress"),
    Lit("Value_IN(AVAX)"), Lit("Value_OUT(AVAX)"), Any,
    Lit("TxnFee(AVAX)"), Lit("TxnFee(USD)"), Lit("Historical $Price/AVAX"),
    Lit("Status"), Lit("ErrCode"), Lit("PrivateNote")
  ], Primary)

  /** AVAX internal transactions. */
  const AVAX_INT: Layout := Layout([
    HASH_COLUMN, Lit("Blockno"), Lit("UnixTimestamp"), DATE_TIME_COLUMN,
    Lit("ParentTxFrom"), Lit("ParentTxTo"), Lit("ParentTxETH_Value"),
    Lit("From"), Lit("TxTo"), Lit("ContractAddress"),
    Lit("Value_IN(AVAX)"), Lit("Value_OUT(AVAX)"), Any,
    Lit("Historical $Price/AVAX"), Lit("Status"), Lit("ErrCode"), Lit("Type")
  ], Internal)

  /** AVAX internal transactions with a private note. */
  const AVAX_INT_NOTE: Layout := Layout([
    HASH_COLUMN, Lit("Blockno"), Lit("UnixTimestamp"), DATE_TIME_COLUMN,
    Lit("ParentTxFrom"), Lit("ParentTxTo"), Lit("ParentTxETH_Value"),
    Lit("From"), Lit("TxTo"), Lit("ContractAddress"),
    Lit("Value_IN(AVAX)"), Lit("Value_OUT(AVAX)"), Any,
    Lit("Historical $Price/AVAX"), Lit("Status"), Lit("ErrCode"), Lit("Type"),
    Lit("PrivateNote")
  ], Internal)

  /** The layouts in registration order. */
  const REGISTERED: seq<Layout> :=
    [AVAX_TXNS, AVAX_TXNS_NOTE, AVAX_TXNS_OLD, AVAX_TXNS_OLD_NOTE, AVAX_INT, AVAX_INT_NOTE]

  /** A header fits a layout: same number of columns, each accepted by the
      matcher at its position. */
  predicate Matches(l: Layout, header: seq<string>) {
    |header| == |l.columns| && forall i :: 0 <= i < |header| ==> Accepts(l.columns[i], header[i])
  }

  /** The position of the first layout the header fits, if any. */
  function FirstMatch(layouts: seq<Layout>, header: seq<string>): (r: Option<nat>)
    ensures r.Some? ==> r.value < |layouts| && Matches(layouts[r.value], header)
    ensures r.Some? ==> forall j :: 0 <= j < r.value ==> !Matches(layouts[j], header)
    ensures r.None? ==> forall j :: 0 <= j < |layouts| ==> !Matches(layouts[j], header)
  {
    if |layouts| == 0 then None
    else if Matches(layouts[0], header) then Some(0)
    else match FirstMatch(layouts[1..], header)
      case None => None
      case Some(k) => Some(k + 1)
  }

  /** `header.index(name)`: the first position holding `name`, or None where
      Python raises ValueError. */
  function IndexOf(header: seq<string>, name: string): (r: Option<nat>)
    ensures r.None? <==> name !in header
    ensures r.Some? ==> r.value < |header| && header[r.value] == name && name !in header[..r.value]
  {
    if |header| == 0 then None
    else if header[0] == name then Some(0)
    else match IndexOf(header[1..], name)
      case None => None
      case Some(k) =>
        assert header[..k + 1] == [header[0]] + header[1..][..k];
        Some(k + 1)
  }

  /** The layout has a column that only `name` satisfies. */
  predicate Provides(l: Layout, name: string) {
    Lit(name) in l.columns
  }

  /** The matcher can never accept `name`. */
  predicate Refuses(m: Matcher, name: string) {
    match m
    case Lit(n) => n != name
    case OneOf(ns) => name !in ns
    case Any => false
  }

  /** A column the layout provides is in every header that fits it. */
  lemma ProvidedInHeader(l: Layout, header: seq<string>, name: string)
    requires Matches(l, header) && Provides(l, name)
    ensures name in header
  {
    var i :| 0 <= i < |l.columns| && l.columns[i] == Lit(name);
    assert header[i] == name;
  }

  /** A name that every column but the `Any` ones refuses can only reach a
      fitting header through an `Any` column. */
  lemma RefusedOutsideAny(l: Layout, header: seq<string>, name: string)
    requires Matches(l, header)
    requires forall i :: 0 <= i < |l.columns| && l.columns[i] != Any ==> Refuses(l.columns[i], name)
    requires forall i :: 0 <= i < |l.columns| && l.columns[i] == Any ==> header[i] != name
    ensures name !in header
  {
    forall i | 0 <= i < |header|
      ensures header[i] != name
    {
      assert Accepts(l.columns[i], header[i]);
    }
  }

  /** No header fits two registered layouts, so the order of registration
      never decides which one is selected. */
  lemma RegisteredDisjoint(header: seq<string>, i: nat, j: nat)
    requires i < j < |REGISTERED|
    ensures !(Matches(REGISTERED[i], header) && Matches(REGISTERED[j], header))
  {
    if i == 0 && j == 3 && Matches(REGISTERED[i], header) {
      // the last column is "Method" in one and "PrivateNote" in the other
      assert Accepts(REGISTERED[i].columns[15], header[15]);
    } else if i == 1 && j == 4 && Matches(REGISTERED[i], header) {
      // the second column is "Txhash" in one and "Blockno" in the other
      assert Accepts(REGISTERED[i].columns[1], header[1]);
    }
  }

  /** The layout a header fits is the one selected. */
  lemma SelectsTheFittingLayout(header: seq<string>, i: nat)
    requires i < |REGISTERED| && Matches(REGISTERED[i], header)
    ensures FirstMatch(REGISTERED, header) == Some(i)
  {
    match FirstMatch(REGISTERED, header)
    case None =>
    case Some(k) =>
      if k < i {
        RegisteredDisjoint(header, k, i);
      }
  }
}
