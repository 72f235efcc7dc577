# Crypto portfolio ledger: loading and net positions

This project models, in Dafny, the two ledger queries of a small crypto
portfolio tracker whose transactions live in a spreadsheet.

* **Loading the ledger** (`get_all_transactions`, and the first half of
  `get_assets_composition`). The spreadsheet service returns the ledger range
  as rows of text cells. The first row is the header and every later row is a
  transaction. The cells are matched to the column names by their position in
  the header. The table is cut down to the four ledger columns `Date`,
  `Symbol`, `Action` and `Amount of Crypto`, in that order, whatever their
  order in the sheet. The amount column is then converted from text to a
  number.
* **Net positions** (`get_assets_composition`). Each amount is multiplied by
  +1 when the action is exactly `Buy` and by -1 for any other action. The
  signed amounts are then summed per symbol.

The model is pure: datatypes, functions and lemmas, with no state.

* `Wrappers` holds `Option` and `Result`.
* `Amount` defines the conversion of an amount cell to a number. A cell is
  read as an exact decimal, a mantissa over a power of ten. Reading is proved
  to accept exactly the signed decimal literals. It is also proved to invert a
  printer that writes a number with k decimals.
* `Ledger` covers loading. The response is a `seq<seq<string>>`, a header row
  followed by data rows. Loading yields the transactions or the first error the
  source would stop at:
  * no rows at all (the Python lookup of the first row fails);
  * data rows whose widest row is not exactly as wide as the header (the
    DataFrame constructor rejects them, whether the widest row is wider or
    every row is narrower);
  * duplicate header names (`reindex` rejects them);
  * a missing ledger column or cell (see "Left out");
  * an amount that is not a number (`astype(float)` rejects it).
* `Positions` covers the signing, the per-symbol sums and the composition
  query.
* `Seqs` holds generic facts about reordered sequences.

## Model

| member | source | states |
|---|---|---|
| Amount.ParseAmountAccepts | api/queries.py:41 | an amount cell converts exactly when it is an optionally signed decimal literal (digits, at most one point, at least one digit); every other text, the empty cell included, is rejected |
| Amount.ParseUnsignedAccepts | api/queries.py:41 | the unsigned reader accepts exactly the texts made of digits and at most one point with at least one digit |
| Amount.FixedPointRoundTrip | api/queries.py:41 | the conversion inverts a k-decimal fixed-point printer: the text of m / 10^k with k decimals, sign included, converts back to exactly m / 10^k |
| Ledger.IndexOf | api/queries.py:40 | the column found carries the name and no earlier column does; there is none exactly when the name is absent from the header |
| Ledger.MaxWidthIff | api/queries.py:40 | the table the data rows make, as wide as its widest row, is exactly n wide when no row is wider than n and some row is n wide |
| Ledger.NarrowRowsRejected | api/queries.py:40 | data rows that are all narrower than the header make the load fail with a column-count mismatch, whatever the header holds |
| Ledger.Locate | api/queries.py:40 | finds each of the four ledger columns by name; it fails exactly when one is missing, and then names the first one missing in ledger order |
| Ledger.ProjectRows | api/queries.py:40 | succeeds exactly when every row reaches the four columns; it then keeps one record per row, in order, holding the cells under Date, Symbol, Action and Amount of Crypto; otherwise it reports the first row that falls short |
| Ledger.ConvertAmounts | api/queries.py:41 | succeeds exactly when every amount cell converts, keeping the other fields and the order; otherwise it reports the first row whose amount does not convert, with the cell's text |
| Ledger.LoadTransactions | api/queries.py:38-42 | fails with NoHeader exactly on an empty response; on success there is one transaction per data row |
| Ledger.LoadSucceedsIff | api/queries.py:39-41 | a load succeeds exactly when the header names every column once and includes the four ledger columns, some data row (if there is any) is exactly as wide as the header, and every data row fits the header, reaches the ledger columns and has a decimal literal as its amount |
| Ledger.LoadReadsCellsByName | api/queries.py:39-40 | transaction i holds exactly the cells of data row i+1 under the header names Date, Symbol, Action and Amount of Crypto (the amount read as a number), so the header row is never a transaction |
| Ledger.LoadReportsFirstBadAmount | api/queries.py:41 | with a sound header, a widest data row as wide as the header and every data row reaching the four ledger columns, a failed load is BadAmount for the first row whose amount cell is not a decimal literal, and carries that cell's text |
| Ledger.LoadIgnoresColumnOrder | api/queries.py:40 | permuting the columns of every row (header included) leaves the load unchanged, error included, when all rows are as wide as the header |
| Ledger.LoadIsRowwise | api/queries.py:39-41 | a successful load reads each data row independently by the layout of the header; each row reaches the ledger columns and has an amount that converts |
| Ledger.LoadedReordered | api/queries.py:39-41 | two successful loads of the same data rows in different orders under one header hold the same multiset of transactions |
| Ledger.LoadIgnoresRowOrder | api/queries.py:39-41 | shuffling the data rows keeps success or failure, and on success yields the same multiset of transactions |
| Ledger.RearrangeHeader | api/queries.py:40 | moving columns keeps the set of header names and whether they are distinct |
| Ledger.RowsConvertIff | api/queries.py:40-41 | under the located columns, projecting and converting the rows succeeds exactly when every row is loadable |
| Positions.Multiplier | api/queries.py:60 | the sign is +1 exactly for the action "Buy" and -1 for every other action |
| Positions.ApplyMultiplier | api/queries.py:60-61 | keeps every transaction in place, with a Buy amount unchanged and any other amount negated |
| Positions.GroupSum | api/queries.py:62 | the result has exactly the symbols that occur as keys |
| Positions.GroupSumTotals | api/queries.py:62 | each symbol's sum is the total of the amounts of that symbol's transactions |
| Positions.TotalSigned | api/queries.py:59-61 | a symbol's signed total is its Buy amounts minus the amounts of all its other actions |
| Positions.NetPositionsSpec | api/queries.py:59-62 | the composition has exactly the symbols of the ledger as keys, each mapped to bought minus everything else |
| Positions.NetPositionsReordered | api/queries.py:62 | the net positions do not depend on the order of the transactions |
| Positions.AssetsComposition | api/queries.py:54-63 | fails exactly when loading fails, passing on the same error; on success its keys are the symbols of the loaded ledger, each mapped to the amount bought minus the amounts of every other action |
| Positions.CompositionIgnoresRowOrder | api/queries.py:54-63 | shuffling the data rows of the sheet leaves the composition unchanged, and keeps it failing when it fails |
| Positions.TransferCountsAgainstPosition | api/queries.py:60 | an action other than Buy (a transfer) is subtracted: buying 2 BTC and transferring 0.5 leaves 1.5 BTC |
| Positions.PurchasesMinusSales | api/queries.py:59-62 | for the ledger [Buy 2 BTC, Sell 0.5 BTC, Buy 1 ETH] the composition has exactly the symbols BTC and ETH, with 1.5 and 1 |

## Left out

- The spreadsheet fetch at api/queries.py:38 and :54, the service set-up `get_google_service` (api/queries.py:9-24), the secrets read at api/queries.py:7 and the caching decorator. These are network, configuration and framework concerns. The response is a parameter of the model.
- `upload_transaction` (api/mutations.py:6-23), the home page and the portfolio and pricing pages. They are user interface and writes to the sheet. How the sheet itself formats a stored number when it is read back is not modelled; `Amount.FixedPointRoundTrip` only relates the conversion to a k-decimal printer.
- Floating point. Amounts are exact rationals, so rounding in the conversion and in the sums is not modelled.
- Amount.ParseAmount accepts only `[+-]digits[.digits]` with ASCII digits (one digit run may be empty). The source's float conversion also accepts surrounding whitespace, exponents, `inf`, `nan`, digit-group underscores and non-ASCII Unicode decimal digits. Those texts are rejected here.
- Ledger.Locate reports a ledger column missing from the header as an error. pandas would instead fill that column with NaN and carry on.
- Ledger.ProjectRows reports a row that stops before a ledger column as an error. pandas would instead fill the missing cells with NaN. Together with the previous line, the model has no NaN at all.
- Ledger.LoadIgnoresColumnOrder is stated only for rows as wide as the header. A short row is filled at its end, so moving columns changes which cells are missing.
- Ledger.LoadIgnoresRowOrder and Positions.CompositionIgnoresRowOrder compare only successful results. On failure, the row number in the error depends on the order.
- The DataFrame index, the column-name metadata of the results and the sorted order of the grouped result are not modelled. The composition is a map from symbol to amount.
