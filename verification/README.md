# SnowTrace explorer-export parser, modelled in Dafny

This project models the SnowTrace parser of BittyTax
(`src/bittytax/conv/parsers/snowtrace.py`). The parser reads CSV exports from
the SnowTrace explorer of the Avalanche C-chain. It turns each row into at
most one accounting record: a deposit, a withdrawal or a spend of AVAX.

- `wallet.dfy` (module `Wallet`) builds the wallet label. It is
  `"Avalanche chain-"` followed by the lower-cased address, cut to the shared
  address length.
- `layouts.dfy` (module `Layouts`) holds the six registered column layouts as
  data. A column is an exact name (`Lit`), a renamed column accepting either
  name (`OneOf`), or an unchecked column (`Any`). The module also holds a
  positional header test, first-match layout selection, and Python's
  `list.index`.
- `snowtrace.dfy` (module `Snowtrace`) holds the two row handlers. Each is a
  pure function (`HandlePrimary`, `HandleInternal`) that gives everything the
  handler assigns for one row. Each is also an imperative method on a
  `DataRow` class (`ParseSnowtrace`, `ParseSnowtraceInternal`). The method
  assigns `timestamp`, `txRaw` and `tRecord` and overwrites the
  `"Value_OUT(AVAX)"` entry of its `rowDict` map in place. It is proved to
  end in the state the function gives, including after an error part-way.
- `properties.dfy` (module `Properties`) gives, for each kind of row, the
  exact record it yields.
- `schema_facts.dfy` (module `SchemaFacts`) ties the layouts to the handlers.
  It shows which layouts give a handler every column it reads, and which do
  not.
- `wrappers.dfy` (module `Wrappers`) holds `Option` and `Result`.

Errors are values, not preconditions. A key missing from the row dictionary
(Python `KeyError`) is `MissingField`. A name missing from the header
(`ValueError` from `in_header.index`) is `NotInHeader`. A value that `int()`
or `Decimal()` cannot read is `InvalidNumber`. The handler stops at the first
error, and what it assigned before that stays assigned.

Some collaborators are not defined here. The program calls `int()` on the
timestamp, `Decimal()` on the value columns and `_get_note`, and reads
`TransactionOutRecord.WALLET_ADDR_LEN`. The model passes these in as a
`Collaborators` value. The one fact used about them is that `Decimal("0")`
is zero, which the `DecimalReader` type encodes. Quantities are `real`, which
is exact, like Python's `Decimal`.

Two quirks of the layouts are kept as written and exposed by lemmas:

- The transaction layout with a private note (lines 132-156) names the hash
  column twice. It has no `"UnixTimestamp"` column, yet its handler reads
  that key on its first line. `NoteLayoutLacksTimestamp` covers a file in
  this layout whose unchecked tenth column is not named `"UnixTimestamp"`,
  with row keys exactly the header names. Every row of such a file stops
  with `MissingField("UnixTimestamp")`.
- Four layouts accept the renamed hash column `"Transaction Hash"` (lines
  111, 136, 211 and 237). The handlers look up the literal `"Txhash"` in
  the header. In the current transaction layout and the two internal
  layouts, such a header stops the handler with `NotInHeader("Txhash")`
  for every row whose timestamp reads (`RenamedHashNotFound`), unless the
  unchecked column is named `"Txhash"`. A row whose timestamp is missing or
  unreadable stops earlier, at line 24.
  `RenamedHeaderFits` shows such a header exists. The note layout also
  lists a literal `"Txhash"`, and its rows stop earlier, at
  `"UnixTimestamp"`.

Two consequences of the code are worth stating:

- The spend branch is taken whenever the inbound value is `<= 0` and the
  corrected outbound value is `<= 0`, not only when both are zero. A
  negative outbound value gives a spend with a negative sell quantity. The
  handlers never check signs.
- The note of a primary record comes from the row after the failure
  correction, because `_get_note` is called after line 33.

## Model

| member | source | states |
|---|---|---|
| `Wallet.Lower` | src/bittytax/conv/parsers/snowtrace.py:70 | lower-casing keeps the length and lower-cases each character in place |
| `Wallet.GetWallet` | src/bittytax/conv/parsers/snowtrace.py:69-70 | the label is `"Avalanche chain-"` followed by the first min(length, WALLET_ADDR_LEN) address characters lower-cased, and its length is 16 plus that count |
| `Wallet.LowerIgnoresCase` | src/bittytax/conv/parsers/snowtrace.py:70 | strings equal ignoring case lower-case to the same string |
| `Wallet.WalletIgnoresCase` | src/bittytax/conv/parsers/snowtrace.py:69-70 | addresses that differ only in letter case get the same label |
| `Wallet.WalletOfLowered` | src/bittytax/conv/parsers/snowtrace.py:69-70 | lower-casing an address before labelling it changes nothing |
| `Wallet.WalletFixedWidth` | src/bittytax/conv/parsers/snowtrace.py:69-70 | every address at least WALLET_ADDR_LEN long gives a label of width 16 + WALLET_ADDR_LEN |
| `Wallet.WalletEqualIff` | src/bittytax/conv/parsers/snowtrace.py:69-70 | two addresses share a label if and only if their kept prefixes are equal ignoring case |
| `Layouts.FirstMatch` | src/bittytax/conv/parsers/snowtrace.py:107-258 | the selected layout fits the header and no earlier one does; no selection means no layout fits |
| `Layouts.IndexOf` | src/bittytax/conv/parsers/snowtrace.py:26-28 | `list.index`: the first position holding the name, and absent exactly when the name is not in the header |
| `Layouts.ProvidedInHeader` | src/bittytax/conv/parsers/snowtrace.py:110-127 | an exact-name column of a layout is present in every header that fits it |
| `Layouts.RefusedOutsideAny` | src/bittytax/conv/parsers/snowtrace.py:135-153 | a name that every checked column refuses can only enter a fitting header through an unchecked column |
| `Layouts.RegisteredDisjoint` | src/bittytax/conv/parsers/snowtrace.py:107-258 | no header fits two of the six registered layouts |
| `Layouts.SelectsTheFittingLayout` | src/bittytax/conv/parsers/snowtrace.py:107-258 | the layout a header fits is the one `FirstMatch` selects from the registered sequence |
| `Snowtrace.Field` | src/bittytax/conv/parsers/snowtrace.py:31 | a row-dictionary lookup succeeds exactly when the key is present, and otherwise fails with a missing-key error |
| `Snowtrace.Quantity` | src/bittytax/conv/parsers/snowtrace.py:35 | `Decimal(row_dict[name])`: succeeds exactly when the column is present and readable, with the value read; otherwise a missing-key error, or an invalid-number error for a present but unreadable column |
| `Snowtrace.Timestamp` | src/bittytax/conv/parsers/snowtrace.py:24 | `int(row_dict["UnixTimestamp"])`: succeeds exactly when the column is present and readable as an integer; otherwise a missing-key or invalid-number error |
| `Snowtrace.WalletOf` | src/bittytax/conv/parsers/snowtrace.py:42 | the wallet of an address column is the label of its value, and fails when the column is missing |
| `Snowtrace.TxRawPosOf` | src/bittytax/conv/parsers/snowtrace.py:25-29 | the positions are the first occurrences of "Txhash", "From" and the destination column; the error names the first one missing, in lookup order |
| `Snowtrace.Corrected` | src/bittytax/conv/parsers/snowtrace.py:31-33 | a non-empty status sets "Value_OUT(AVAX)" to "0" and keeps every other entry; an empty status keeps the row |
| `Snowtrace.ClassifyPrimary` | src/bittytax/conv/parsers/snowtrace.py:35-66 | on the corrected row: no record exactly for a failed row with value in; a deposit has status "", buy = Value_IN > 0 and wallet from "To"; otherwise Value_IN <= 0, sell = Value_OUT, fee = TxnFee, wallet from "From", and withdrawal exactly when Value_OUT > 0; every record is well shaped |
| `Snowtrace.HandlePrimary` | src/bittytax/conv/parsers/snowtrace.py:22-66 | an unreadable timestamp stops it with nothing assigned and the row unchanged; a header lacking "Txhash", "From" or "To" stops it with only the timestamp assigned and the row unchanged; the only row change is the failure correction; a failed row yields only a spend of 0, never a withdrawal; a withdrawal comes from a successful row with its Value_OUT > 0; every completed row but a failed inbound one gets exactly one record |
| `Snowtrace.HandleInternal` | src/bittytax/conv/parsers/snowtrace.py:73-103 | the row is not changed; an unreadable timestamp stops it with nothing assigned, and a header lacking "Txhash", "From" or "TxTo" with only the timestamp assigned; a status other than "0" yields no record and no error whatever the values; a deposit has buy = Value_IN > 0 and wallet from "TxTo"; a withdrawal has sell = Value_OUT > 0 and wallet from "From"; neither has a fee or a note; a successful row yields nothing exactly when no value moved |
| `Snowtrace.ClassifyInternal` | src/bittytax/conv/parsers/snowtrace.py:85-103 | a missing status fails; a status other than "0" yields nothing whatever the values; a successful row yields nothing exactly when Value_IN <= 0 and Value_OUT <= 0; a deposit has buy = Value_IN > 0 and wallet from "TxTo"; a withdrawal has Value_IN <= 0, sell = Value_OUT > 0 and wallet from "From"; no record has a fee or a note, and none is a spend |
| `Snowtrace.DataRow.ParseSnowtrace` | src/bittytax/conv/parsers/snowtrace.py:22-66 | assigning in the source's order leaves the row dictionary, timestamp, positions and record exactly as HandlePrimary says, and keeps the old value of each field not assigned before an error |
| `Snowtrace.DataRow.ParseSnowtraceInternal` | src/bittytax/conv/parsers/snowtrace.py:73-103 | the same for HandleInternal, and the row dictionary is unchanged |
| `Properties.SuccessfulDeposit` | src/bittytax/conv/parsers/snowtrace.py:35-44 | empty status and Value_IN > 0 give a DEPOSIT of Value_IN AVAX to the "To" wallet, with no sell or fee side |
| `Properties.FailedInbound` | src/bittytax/conv/parsers/snowtrace.py:24-36 | non-empty status and Value_IN > 0 give no record; the timestamp and positions are assigned and Value_OUT is reset to "0" |
| `Properties.SuccessfulWithdrawal` | src/bittytax/conv/parsers/snowtrace.py:45-55 | empty status, Value_IN <= 0 and Value_OUT > 0 give a WITHDRAWAL of Value_OUT with fee TxnFee, both AVAX, from the "From" wallet |
| `Properties.SuccessfulSpend` | src/bittytax/conv/parsers/snowtrace.py:56-66 | empty status with Value_IN <= 0 and Value_OUT <= 0 gives a SPEND of Value_OUT with fee TxnFee from the "From" wallet |
| `Properties.FailedOutbound` | src/bittytax/conv/parsers/snowtrace.py:31-66 | non-empty status with Value_IN <= 0 gives a SPEND of 0 with fee TxnFee, whatever the raw Value_OUT holds |
| `Properties.InternalFailed` | src/bittytax/conv/parsers/snowtrace.py:77-86 | an internal row with status other than "0" yields no record and no error; the timestamp and the positions using "TxTo" are assigned |
| `Properties.InternalDeposit` | src/bittytax/conv/parsers/snowtrace.py:88-95 | status "0" and Value_IN > 0 give a DEPOSIT to the "TxTo" wallet with no fee and no note |
| `Properties.InternalWithdrawal` | src/bittytax/conv/parsers/snowtrace.py:96-103 | status "0", Value_IN <= 0 and Value_OUT > 0 give a WITHDRAWAL from the "From" wallet with no fee and no note |
| `Properties.InternalNoValue` | src/bittytax/conv/parsers/snowtrace.py:88-103 | status "0" with no value in or out gives no record |
| `SchemaFacts.PrimaryStopsOnlyOnNumbers` | src/bittytax/conv/parsers/snowtrace.py:22-66 | with every column it reads present, the primary handler can fail only on an unreadable number |
| `SchemaFacts.InternalStopsOnlyOnNumbers` | src/bittytax/conv/parsers/snowtrace.py:73-103 | with every column it reads present, the internal handler can fail only on an unreadable number |
| `SchemaFacts.PrimaryLayoutsComplete` | src/bittytax/conv/parsers/snowtrace.py:158-205 | the older transaction layouts, and the current one with a literal "Txhash" first column, provide every column the primary handler reads |
| `SchemaFacts.InternalLayoutsComplete` | src/bittytax/conv/parsers/snowtrace.py:207-258 | the internal layouts with a literal "Txhash" first column provide every column the internal handler reads |
| `SchemaFacts.NoteLayoutLacksTimestamp` | src/bittytax/conv/parsers/snowtrace.py:132-156 | for a header fitting the duplicated-"Txhash" layout whose unchecked tenth column is not "UnixTimestamp", every row keyed by that header stops with a missing "UnixTimestamp" key and nothing assigned |
| `SchemaFacts.RenamedHashNotFound` | src/bittytax/conv/parsers/snowtrace.py:111 | a header using the renamed "Transaction Hash" column stops the handler at the "Txhash" lookup, after the timestamp |
| `SchemaFacts.RenamedHeaderFits` | src/bittytax/conv/parsers/snowtrace.py:107-130 | a header with the renamed hash and date columns fits the current transaction layout |

## Left out

- Timestamp conversion (`DataParser.parse_timestamp`) and `int()` are not
  modelled: `parse_timestamp` is in dataparser.py, which is not part of this
  model. The record carries the integer Unix seconds that `int()` gives,
  through a supplied reader.
- `Decimal()` parsing is supplied, not defined. The supplied reader returns
  None for text that raises and for NaN, since comparing NaN with `>` raises.
  Infinite values are not modelled, because `real` has none. In the program,
  `Decimal("Infinity")` parses and is `> 0`. An infinite `Value_IN(AVAX)` or
  `Value_OUT(AVAX)` therefore gives a deposit or withdrawal of Infinity
  (lines 35-49 and 88-100), and a NaN or infinite fee is carried into the
  record unchecked. Here, what such values give depends on the supplied
  reader.
- `_get_note` is supplied as a function of the row dictionary. It comes from
  etherscan.py, which is not part of this model.
- `TransactionOutRecord` is a plain datatype. Its validation and the
  concrete value of `WALLET_ADDR_LEN` are not modelled: out_record.py is not
  part of this model, and the length is a parameter.
- The header matching loop and the registry of parsers are in dataparser.py,
  which is not part of this model. `Layouts.Matches` assumes the minimal
  reading: same number of columns, each accepted at its position. Header
  cleanup such as stripping spaces is not modelled. Only these six layouts
  are considered, not every registered parser.
- Building the row dictionary from the header and the cells (datarow.py) is
  not modelled. `SchemaFacts` assumes its keys are exactly the header names.
- Worksheet names, parser types and display names have no effect on
  classification and are left out.
- `Wallet.Lower` models ASCII lower-casing only, not Unicode `str.lower()`.
