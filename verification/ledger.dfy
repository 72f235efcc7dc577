/**
 * Loading the transaction ledger from the spreadsheet.
 *
 * The spreadsheet service returns the ledger range as a list of rows of text
 * cells; the first row is the header. Every later row is one transaction.
 * Cells are matched to column names by their position in the header, the
 * table is cut down to the four ledger columns in a fixed order whatever the
 * order in the sheet, and the amount column is converted from text to a
 * number. Both ledger queries (the transaction list and the asset
 * composition) start with this same load, so it is defined once here.
 */
module Ledger {
  import opened Wrappers
  import opened Amount
  import opened Seqs

  const DATE: string := "Date"
  const SYMBOL: string := "Symbol"
  const ACTION: string := "Action"
  const AMOUNT: string := "Amount of Crypto"

  /** One spreadsheet row: its cells as text, in column order. */
  type Row = seq<string>

  /** One ledger entry, with its fields in the order the ledger shows them. */
  datatype Transaction = Transaction(date: string, symbol: string, action: string, amount: real)

  /** A data row cut down to the four ledger columns; the amount is still text. */
  datatype Record = Record(date: string, symbol: string, action: string, amount: string)

  /** Where the four ledger columns sit in the header. */
  datatype Layout = Layout(date: nat, symbol: nat, action: nat, amount: nat)

  /** Why a load fails. Rows are numbered from 0, starting after the header. */
  datatype LoadError =
    | NoHeader                        // the response holds no rows at all
    | ColumnCountMismatch(passed: nat, data: nat) // the widest data row is not as wide as the header
    | DuplicateColumns                // two header cells carry the same name
    | MissingColumn(name: string)     // a ledger column is absent from the header
    | MissingCell(row: nat, name: string) // a row stops before a ledger column
    | BadAmount(row: nat, text: string)   // an amount cell is not a number

  predicate IsLedgerColumn(name: string) {
    name == DATE || name == SYMBOL || name == ACTION || name == AMOUNT
  }

  predicate Distinct(header: Row) {
    forall i, j :: 0 <= i < j < |header| ==> header[i] != header[j]
  }

  /** Position of the first header cell called `name`. */
  function IndexOf(header: Row, name: string): (r: Option<nat>)
    ensures r.Some? ==> r.value < |header| && header[r.value] == name
    ensures r.Some? ==> forall j :: 0 <= j < r.value ==> header[j] != name
    ensures r.None? <==> name !in header
  {
    if header == [] then None
    else if header[0] == name then Some(0)
    else
      match IndexOf(header[1..], name)
      case Some(i) => Some(i + 1)
      case None => None
  }

  /** The number of cells in the widest row: the width of the table the rows make. */
  function MaxWidth(rows: seq<Row>): (w: nat)
    ensures forall i :: 0 <= i < |rows| ==> |rows[i]| <= w
    ensures |rows| == 0 ==> w == 0
  {
    if rows == [] then 0
    else
      var rest := MaxWidth(rows[1..]);
      assert forall i :: 1 <= i < |rows| ==> rows[i] == rows[1..][i - 1];
      if |rows[0]| >= rest then |rows[0]| else rest
  }

  /** Some row is as wide as the table. */
  lemma {:induction false} MaxWidthAttained(rows: seq<Row>)
    requires |rows| > 0
    ensures exists i :: 0 <= i < |rows| && |rows[i]| == MaxWidth(rows)
  {
    if |rows[0]| < MaxWidth(rows) {
      MaxWidthAttained(rows[1..]);
      var i :| 0 <= i < |rows[1..]| && |rows[1..][i]| == MaxWidth(rows[1..]);
      assert rows[i + 1] == rows[1..][i];
    }
  }

  /** The table the rows make is exactly `n` wide when no row is wider and one row is that wide. */
  lemma MaxWidthIff(rows: seq<Row>, n: nat)
    requires |rows| > 0
    ensures MaxWidth(rows) == n <==>
      (forall i :: 0 <= i < |rows| ==> |rows[i]| <= n) && (exists i :: 0 <= i < |rows| && |rows[i]| == n)
  {
    MaxWidthAttained(rows);
  }

  predicate Locates(header: Row, layout: Layout) {
    && layout.date < |header| && header[layout.date] == DATE
    && layout.symbol < |header| && header[layout.symbol] == SYMBOL
    && layout.action < |header| && header[layout.action] == ACTION
    && layout.amount < |header| && header[layout.amount] == AMOUNT
  }

  /** Finds the four ledger columns by name; the first one missing, in ledger order, is reported. */
  function Locate(header: Row): (r: Result<Layout, LoadError>)
    ensures r.Success? <==> DATE in header && SYMBOL in header && ACTION in header && AMOUNT in header
    ensures r.Success? ==> Locates(header, r.value)
    ensures DATE !in header ==> r == Failure(MissingColumn(DATE))
    ensures DATE in header && SYMBOL !in header ==> r == Failure(MissingColumn(SYMBOL))
    ensures DATE in header && SYMBOL in header && ACTION !in header ==> r == Failure(MissingColumn(ACTION))
    ensures DATE in header && SYMBOL in header && ACTION in header && AMOUNT !in header
        ==> r == Failure(MissingColumn(AMOUNT))
  {
    match (IndexOf(header, DATE), IndexOf(header, SYMBOL), IndexOf(header, ACTION), IndexOf(header, AMOUNT))
    case (None, _, _, _) => Failure(MissingColumn(DATE))
    case (_, None, _, _) => Failure(MissingColumn(SYMBOL))
    case (_, _, None, _) => Failure(MissingColumn(ACTION))
    case (_, _, _, None) => Failure(MissingColumn(AMOUNT))
    case (Some(d), Some(s), Some(a), Some(m)) => Success(Layout(d, s, a, m))
  }

  /** The row has a cell under each of the four ledger columns. */
  predicate Covers(layout: Layout, row: Row) {
    layout.date < |row| && layout.symbol < |row| && layout.action < |row| && layout.amount < |row|
  }

  /** Cuts row number `index` down to the ledger columns, in ledger order. */
  function Project(layout: Layout, row: Row, index: nat): Result<Record, LoadError>
  {
    if layout.date >= |row| then Failure(MissingCell(index, DATE))
    else if layout.symbol >= |row| then Failure(MissingCell(index, SYMBOL))
    else if layout.action >= |row| then Failure(MissingCell(index, ACTION))
    else if layout.amount >= |row| then Failure(MissingCell(index, AMOUNT))
    else Success(Record(row[layout.date], row[layout.symbol], row[layout.action], row[layout.amount]))
  }

  /** Cuts every data row down to the ledger columns; the first row lacking a cell stops it. */
  function ProjectRows(layout: Layout, rows: seq<Row>): (r: Result<seq<Record>, LoadError>)
    ensures r.Success? <==> forall i :: 0 <= i < |rows| ==> Covers(layout, rows[i])
    ensures r.Success? ==> |r.value| == |rows|
    ensures r.Success? ==> forall i :: 0 <= i < |rows| ==>
      r.value[i] == Record(rows[i][layout.date], rows[i][layout.symbol], rows[i][layout.action], rows[i][layout.amount])
    ensures r.Failure? ==> r.error.MissingCell? && r.error.row < |rows| && !Covers(layout, rows[r.error.row])
    ensures r.Failure? ==> forall j :: 0 <= j < r.error.row ==> Covers(layout, rows[j])
  {
    if rows == [] then Success([])
    else
      var n := |rows| - 1;
      var init :- ProjectRows(layout, rows[..n]);
      var last :- Project(layout, rows[n], n);
      Success(init + [last])
  }

  /** The amount cell of each record, read as a number where it is one. */
  function ParsedAmounts(records: seq<Record>): (ps: seq<Option<Decimal>>)
    ensures |ps| == |records|
    ensures forall i :: 0 <= i < |records| ==> ps[i] == ParseAmount(records[i].amount)
  {
    seq(|records|, i requires 0 <= i < |records| => ParseAmount(records[i].amount))
  }

  /** Builds the transactions from the records and their amounts already read;
      the first amount that could not be read stops it. */
  function Assemble(records: seq<Record>, ps: seq<Option<Decimal>>): (r: Result<seq<Transaction>, LoadError>)
    requires |ps| == |records|
    ensures r.Success? <==> forall i :: 0 <= i < |ps| ==> ps[i].Some?
    ensures r.Success? ==> |r.value| == |records|
    ensures r.Success? ==> forall i :: 0 <= i < |records| ==>
      ps[i].Some? && r.value[i] == Transaction(records[i].date, records[i].symbol, records[i].action, ps[i].value.Value())
    ensures r.Failure? ==> r.error.BadAmount? && r.error.row < |records|
    ensures r.Failure? ==> r.error.text == records[r.error.row].amount && ps[r.error.row].None?
    ensures r.Failure? ==> forall j :: 0 <= j < r.error.row ==> ps[j].Some?
  {
    if records == [] then Success([])
    else
      var n := |records| - 1;
      var init :- Assemble(records[..n], ps[..n]);
      var rec := records[n];
      match ps[n]
      case None => Failure(BadAmount(n, rec.amount))
      case Some(d) => Success(init + [Transaction(rec.date, rec.symbol, rec.action, d.Value())])
  }

  /** Converts the amount column from text to numbers; the first cell that is not a number stops it. */
  function ConvertAmounts(records: seq<Record>): (r: Result<seq<Transaction>, LoadError>)
    ensures r.Success? <==> forall i :: 0 <= i < |records| ==> ParseAmount(records[i].amount).Some?
    ensures r.Success? ==> |r.value| == |records|
    ensures r.Success? ==> forall i :: 0 <= i < |records| ==>
      && ParseAmount(records[i].amount).Some?
      && r.value[i] == Transaction(records[i].date, records[i].symbol, records[i].action,
                                   ParseAmount(records[i].amount).value.Value())
    ensures r.Failure? ==> r.error.BadAmount? && r.error.row < |records|
    ensures r.Failure? ==> r.error.text == records[r.error.row].amount
    ensures r.Failure? ==> ParseAmount(records[r.error.row].amount).None?
    ensures r.Failure? ==> forall j :: 0 <= j < r.error.row ==> ParseAmount(records[j].amount).Some?
  {
    Assemble(records, ParsedAmounts(records))
  }

  /**
   * Loads the ledger from the rows the spreadsheet returned: the header row,
   * then one row per transaction.
   */
  function LoadTransactions(values: seq<Row>): (r: Result<seq<Transaction>, LoadError>)
    ensures r == Failure(NoHeader) <==> |values| == 0
    ensures r.Success? ==> |r.value| == |values| - 1
  {
    if |values| == 0 then Failure(NoHeader)
    else
      var header, rows := values[0], values[1..];
      if |rows| > 0 && MaxWidth(rows) != |header| then Failure(ColumnCountMismatch(|header|, MaxWidth(rows)))
      else if !Distinct(header) then Failure(DuplicateColumns)
      else
        var layout :- Locate(header);
        var records :- ProjectRows(layout, rows);
        ConvertAmounts(records)
  }

  // ---------------------------------------------------------------------
  // What a load means, stated by column name rather than by position.

  /** `cell` sits in `row` under a header column called `name`. */
  predicate Under(header: Row, row: Row, name: string, cell: string) {
    exists k :: 0 <= k < |header| && k < |row| && header[k] == name && row[k] == cell
  }

  /** The cell under the amount column of `row` reads as the number `x`. */
  predicate AmountUnder(header: Row, row: Row, x: real) {
    exists k :: 0 <= k < |header| && k < |row| && header[k] == AMOUNT
      && ParseAmount(row[k]).Some? && ParseAmount(row[k]).value.Value() == x
  }

  /** The transaction holds exactly the cells of `row` under the four ledger column names. */
  predicate TakenFrom(header: Row, row: Row, t: Transaction) {
    && Under(header, row, DATE, t.date)
    && Under(header, row, SYMBOL, t.symbol)
    && Under(header, row, ACTION, t.action)
    && AmountUnder(header, row, t.amount)
  }

  /** A data row can be loaded under `header`: it reaches every ledger column,
      and its amount cell is a decimal literal. */
  predicate RowLoadable(header: Row, row: Row) {
    && (forall k :: 0 <= k < |header| && IsLedgerColumn(header[k]) ==> k < |row|)
    && (forall k :: 0 <= k < |header| && k < |row| && header[k] == AMOUNT ==> AmountLiteral(row[k]))
  }

  /** The header names each column once, among them the four ledger columns. */
  predicate HeaderLoadable(header: Row) {
    Distinct(header) && DATE in header && SYMBOL in header && ACTION in header && AMOUNT in header
  }

  /** Every data row is no wider than the header and is loadable under it. */
  predicate RowsLoadable(header: Row, rows: seq<Row>) {
    forall i :: 0 <= i < |rows| ==> |rows[i]| <= |header| && RowLoadable(header, rows[i])
  }

  /** When there are data rows, at least one of them is exactly as wide as the header. */
  predicate SomeRowFull(header: Row, rows: seq<Row>) {
    |rows| == 0 || exists i :: 0 <= i < |rows| && |rows[i]| == |header|
  }

  /** The response can be loaded: a loadable header followed by loadable data rows,
      the widest of them as wide as the header. */
  predicate Loadable(values: seq<Row>) {
    && |values| > 0 && HeaderLoadable(values[0])
    && SomeRowFull(values[0], values[1..]) && RowsLoadable(values[0], values[1..])
  }

  /** With distinct names, the located column of a name is its only column. */
  lemma LocatedColumnsAreUnique(header: Row, layout: Layout)
    requires Distinct(header) && Locates(header, layout)
    ensures forall k :: 0 <= k < |header| && header[k] == DATE ==> k == layout.date
    ensures forall k :: 0 <= k < |header| && header[k] == SYMBOL ==> k == layout.symbol
    ensures forall k :: 0 <= k < |header| && header[k] == ACTION ==> k == layout.action
    ensures forall k :: 0 <= k < |header| && header[k] == AMOUNT ==> k == layout.amount
  {
  }

  /** Under a located layout, a row is covered and its amount parses exactly when it is loadable. */
  lemma RowLoadableIff(header: Row, layout: Layout, row: Row)
    requires Distinct(header) && Locates(header, layout)
    ensures RowLoadable(header, row) <==>
      Covers(layout, row) && ParseAmount(row[layout.amount]).Some?
  {
    LocatedColumnsAreUnique(header, layout);
    if Covers(layout, row) {
      ParseAmountAccepts(row[layout.amount]);
    }
  }

  /** Under a located layout, projecting and converting the rows succeeds exactly
      when every row is loadable. */
  lemma RowsConvertIff(header: Row, layout: Layout, rows: seq<Row>)
    requires Distinct(header) && Locates(header, layout)
    ensures (forall i :: 0 <= i < |rows| ==> RowLoadable(header, rows[i])) <==>
      ProjectRows(layout, rows).Success? && ConvertAmounts(ProjectRows(layout, rows).value).Success?
  {
    forall i | 0 <= i < |rows| {
      RowLoadableIff(header, layout, rows[i]);
    }
    if ProjectRows(layout, rows).Success? {
      var records := ProjectRows(layout, rows).value;
      assert forall i :: 0 <= i < |rows| ==> records[i].amount == rows[i][layout.amount];
    } else {
      assert !RowLoadable(header, rows[ProjectRows(layout, rows).error.row]);
    }
  }

  /** A load succeeds exactly on a loadable response. */
  lemma LoadSucceedsIff(values: seq<Row>)
    ensures LoadTransactions(values).Success? <==> Loadable(values)
  {
    if |values| > 0 {
      var header, rows := values[0], values[1..];
      if |rows| > 0 {
        MaxWidthIff(rows, |header|);
      }
      if (|rows| == 0 || MaxWidth(rows) == |header|) && Distinct(header) && Locate(header).Success? {
        RowsConvertIff(header, Locate(header).value, rows);
      }
    }
  }

  /** Every loaded transaction is made of the cells of the data row it came from,
      read by column name; the header row is never a transaction. */
  lemma LoadReadsCellsByName(values: seq<Row>)
    ensures LoadTransactions(values).Success? ==>
      forall i :: 0 <= i < |LoadTransactions(values).value| ==>
        TakenFrom(values[0], values[i + 1], LoadTransactions(values).value[i])
  {
    // Transaction i is built from the projection of values[i + 1] through the
    // located layout, whose columns carry the ledger's names in the header.
  }

  /** Data rows that are all narrower than the header make a table narrower than
      the header's names, and the load fails on that, whatever the header holds. */
  lemma NarrowRowsRejected(values: seq<Row>)
    requires |values| > 1
    requires forall i :: 1 <= i < |values| ==> |values[i]| < |values[0]|
    ensures LoadTransactions(values) == Failure(ColumnCountMismatch(|values[0]|, MaxWidth(values[1..])))
    ensures MaxWidth(values[1..]) < |values[0]|
  {
    var rows := values[1..];
    MaxWidthAttained(rows);
    var i :| 0 <= i < |rows| && |rows[i]| == MaxWidth(rows);
    assert rows[i] == values[i + 1];
  }

  /** Once the table shape, the header and every row's cells are in order,
      loading is converting the projected records. */
  lemma LoadPastStructure(values: seq<Row>)
    requires |values| > 0 && (|values| == 1 || MaxWidth(values[1..]) == |values[0]|)
    requires Distinct(values[0]) && Locate(values[0]).Success?
    requires ProjectRows(Locate(values[0]).value, values[1..]).Success?
    ensures LoadTransactions(values)
         == ConvertAmounts(ProjectRows(Locate(values[0]).value, values[1..]).value)
  {
  }

  /** Under a located layout and rows that reach every column, the conversion
      reports the first row whose amount is not a decimal literal. */
  lemma ConvertReportsFirstBad(header: Row, layout: Layout, rows: seq<Row>)
    requires Distinct(header) && Locates(header, layout)
    requires forall i :: 0 <= i < |rows| ==> Covers(layout, rows[i])
    ensures ConvertAmounts(ProjectRows(layout, rows).value).Failure? ==>
      var e := ConvertAmounts(ProjectRows(layout, rows).value).error;
      && e.BadAmount? && e.row < |rows|
      && !RowLoadable(header, rows[e.row])
      && (forall j :: 0 <= j < e.row ==> RowLoadable(header, rows[j]))
      && Under(header, rows[e.row], AMOUNT, e.text)
  {
    var records := ProjectRows(layout, rows).value;
    if ConvertAmounts(records).Success? {
      return;
    }
    var e := ConvertAmounts(records).error;
    RowLoadableIff(header, layout, rows[e.row]);
    forall j | 0 <= j < e.row {
      RowLoadableIff(header, layout, rows[j]);
    }
    assert header[layout.amount] == AMOUNT && rows[e.row][layout.amount] == e.text;
  }

  /** When the header is sound, the widest data row is as wide as the header and
      every data row reaches the ledger's four columns, a failed load reports the
      first data row whose amount cell is not a decimal literal, with that cell's
      text. */
  lemma LoadReportsFirstBadAmount(values: seq<Row>)
    requires |values| > 0 && HeaderLoadable(values[0])
    requires |values| == 1 || MaxWidth(values[1..]) == |values[0]|
    requires forall i :: 1 <= i < |values| ==> Covers(Locate(values[0]).value, values[i])
    ensures LoadTransactions(values).Failure? ==>
      var e := LoadTransactions(values).error;
      && e.BadAmount? && e.row < |values| - 1
      && !RowLoadable(values[0], values[e.row + 1])
      && (forall j :: 1 <= j <= e.row ==> RowLoadable(values[0], values[j]))
      && Under(values[0], values[e.row + 1], AMOUNT, e.text)
  {
    if LoadTransactions(values).Success? {
      return;
    }
    var header, rows := values[0], values[1..];
    var layout := Locate(header).value;
    forall i | 0 <= i < |rows| ensures Covers(layout, rows[i]) {
      assert rows[i] == values[i + 1];
    }
    LoadPastStructure(values);
    ConvertReportsFirstBad(header, layout, rows);
    var e := LoadTransactions(values).error;
    assert rows[e.row] == values[e.row + 1];
    forall j | 1 <= j <= e.row ensures RowLoadable(header, values[j]) {
      assert values[j] == rows[j - 1];
    }
  }

  // ---------------------------------------------------------------------
  // The order of the columns in the sheet does not matter.

  /** `p` and `q` are inverse permutations of 0 .. n-1. */
  predicate InversePermutations(p: seq<nat>, q: seq<nat>, n: nat) {
    && |p| == n && |q| == n
    && (forall j :: 0 <= j < n ==> p[j] < n && q[p[j]] == j)
    && (forall k :: 0 <= k < n ==> q[k] < n && p[q[k]] == k)
  }

  /** The row with its columns moved: column j of the result is column p[j] of `row`. */
  function Rearrange(row: Row, p: seq<nat>): (r: Row)
    requires forall j :: 0 <= j < |p| ==> p[j] < |row|
    ensures |r| == |p| && forall j :: 0 <= j < |p| ==> r[j] == row[p[j]]
  {
    seq(|p|, j requires 0 <= j < |p| => row[p[j]])
  }

  /** Every row of the response with its columns moved the same way. */
  function RearrangeAll(values: seq<Row>, p: seq<nat>): (r: seq<Row>)
    requires forall i, j :: 0 <= i < |values| && 0 <= j < |p| ==> p[j] < |values[i]|
    ensures |r| == |values| && forall i :: 0 <= i < |values| ==> r[i] == Rearrange(values[i], p)
  {
    seq(|values|, i requires 0 <= i < |values| => Rearrange(values[i], p))
  }

  /** Rows all of one width make a table of that width. */
  lemma FullWidth(rows: seq<Row>, n: nat)
    requires forall i :: 0 <= i < |rows| ==> |rows[i]| == n
    ensures |rows| == 0 || MaxWidth(rows) == n
  {
    if |rows| > 0 {
      MaxWidthAttained(rows);
    }
  }

  /** Moving the columns keeps the set of names and whether they are distinct. */
  lemma RearrangeHeader(header: Row, p: seq<nat>, q: seq<nat>)
    requires InversePermutations(p, q, |header|)
    ensures forall name :: name in header <==> name in Rearrange(header, p)
    ensures Distinct(header) <==> Distinct(Rearrange(header, p))
  {
    var h' := Rearrange(header, p);
    forall name | name in header ensures name in h' {
      var k :| 0 <= k < |header| && header[k] == name;
      assert h'[q[k]] == name;
    }
    if Distinct(header) {
      forall i, j | 0 <= i < j < |h'| ensures h'[i] != h'[j] {
        assert q[p[i]] == i && q[p[j]] == j;
      }
    }
    if Distinct(h') {
      forall i, j | 0 <= i < j < |header| ensures header[i] != header[j] {
        assert h'[q[i]] == header[i] && h'[q[j]] == header[j];
      }
    }
  }

  /** After moving the columns, each ledger column is found where it was moved to. */
  lemma RearrangeLocate(header: Row, p: seq<nat>, q: seq<nat>)
    requires InversePermutations(p, q, |header|)
    requires Distinct(header) && Locate(header).Success?
    ensures var layout := Locate(header).value;
      Locate(Rearrange(header, p))
        == Success(Layout(q[layout.date], q[layout.symbol], q[layout.action], q[layout.amount]))
  {
    var layout := Locate(header).value;
    var h' := Rearrange(header, p);
    RearrangeHeader(header, p, q);
    var layout' := Locate(h').value;
    var moved := Layout(q[layout.date], q[layout.symbol], q[layout.action], q[layout.amount]);
    assert Locates(h', moved);
    LocatedColumnsAreUnique(h', moved);
  }

  /** Moving the columns of full-width rows, and the layout with them, projects the same records. */
  lemma RearrangeProject(layout: Layout, rows: seq<Row>, n: nat, p: seq<nat>, q: seq<nat>)
    requires InversePermutations(p, q, n)
    requires layout.date < n && layout.symbol < n && layout.action < n && layout.amount < n
    requires forall i :: 0 <= i < |rows| ==> |rows[i]| == n
    ensures ProjectRows(Layout(q[layout.date], q[layout.symbol], q[layout.action], q[layout.amount]),
                        RearrangeAll(rows, p))
         == ProjectRows(layout, rows)
  {
    var layout' := Layout(q[layout.date], q[layout.symbol], q[layout.action], q[layout.amount]);
    var rows' := RearrangeAll(rows, p);
    assert forall i :: 0 <= i < |rows| ==> Covers(layout, rows[i]) && Covers(layout', rows'[i]);
    var records, records' := ProjectRows(layout, rows).value, ProjectRows(layout', rows').value;
    forall i | 0 <= i < |rows| ensures records'[i] == records[i] {
      assert rows'[i] == Rearrange(rows[i], p);
    }
    assert records' == records;
  }

  /** Moving the columns of a response whose rows are all as wide as the header
      does not change what is loaded, or the error reported. */
  lemma LoadIgnoresColumnOrder(values: seq<Row>, p: seq<nat>, q: seq<nat>)
    requires |values| > 0 && InversePermutations(p, q, |values[0]|)
    requires forall i :: 0 <= i < |values| ==> |values[i]| == |values[0]|
    ensures LoadTransactions(RearrangeAll(values, p)) == LoadTransactions(values)
  {
    var values' := RearrangeAll(values, p);
    var header, rows := values[0], values[1..];
    var header', rows' := values'[0], values'[1..];
    assert rows' == RearrangeAll(rows, p);
    FullWidth(rows, |header|);
    FullWidth(rows', |header|);
    RearrangeHeader(header, p, q);
    if Distinct(header) && Locate(header).Success? {
      RearrangeLocate(header, p, q);
      RearrangeProject(Locate(header).value, rows, |header|, p, q);
    }
  }

  // ---------------------------------------------------------------------
  // The order of the data rows does not matter beyond the order of the result.

  /** The transaction one data row loads to under `layout`, each row on its own. */
  function Read(layout: Layout, row: Row): Transaction
    requires Covers(layout, row) && ParseAmount(row[layout.amount]).Some?
  {
    Transaction(row[layout.date], row[layout.symbol], row[layout.action],
                ParseAmount(row[layout.amount]).value.Value())
  }

  /** A successful load reads each data row on its own, by the layout of the header. */
  lemma LoadIsRowwise(values: seq<Row>)
    ensures LoadTransactions(values).Success? ==> Locate(values[0]).Success?
    ensures LoadTransactions(values).Success? ==>
      forall i :: 0 <= i < |values| - 1 ==>
        && Covers(Locate(values[0]).value, values[i + 1])
        && ParseAmount(values[i + 1][Locate(values[0]).value.amount]).Some?
        && LoadTransactions(values).value[i] == Read(Locate(values[0]).value, values[i + 1])
  {
    if LoadTransactions(values).Failure? {
      return;
    }
    var header, rows := values[0], values[1..];
    var layout := Locate(header).value;
    var records := ProjectRows(layout, rows).value;
    forall i | 0 <= i < |rows|
      ensures && Covers(layout, values[i + 1])
              && ParseAmount(values[i + 1][layout.amount]).Some?
              && LoadTransactions(values).value[i] == Read(layout, values[i + 1])
    {
      assert rows[i] == values[i + 1];
      assert rows[i][layout.amount] == records[i].amount;
    }
  }

  /** Loadability of the data rows depends only on which rows there are. */
  lemma RowsLoadableReordered(header: Row, rows: seq<Row>, rows': seq<Row>)
    requires multiset(rows) == multiset(rows')
    requires SomeRowFull(header, rows) && RowsLoadable(header, rows)
    ensures SomeRowFull(header, rows') && RowsLoadable(header, rows')
  {
    if |rows| > 0 {
      var i :| 0 <= i < |rows| && |rows[i]| == |header|;
      assert rows[i] in multiset(rows');
      var j :| 0 <= j < |rows'| && rows'[j] == rows[i];
    } else {
      assert |multiset(rows')| == 0;
    }
    forall i | 0 <= i < |rows'| ensures |rows'[i]| <= |header| && RowLoadable(header, rows'[i]) {
      assert rows'[i] in multiset(rows);
      var j :| 0 <= j < |rows| && rows[j] == rows'[i];
    }
  }

  /** Two successful loads under one header of the same rows in any order hold
      the same transactions. */
  lemma LoadedReordered(values: seq<Row>, values': seq<Row>)
    requires |values| > 0 && |values'| > 0 && values'[0] == values[0]
    requires multiset(values[1..]) == multiset(values'[1..])
    requires LoadTransactions(values).Success? && LoadTransactions(values').Success?
    ensures multiset(LoadTransactions(values).value) == multiset(LoadTransactions(values').value)
  {
    LoadIsRowwise(values);
    LoadIsRowwise(values');
    var layout := Locate(values[0]).value;
    var rows, rows' := values[1..], values'[1..];
    assert forall i :: 0 <= i < |rows| ==> rows[i] == values[i + 1];
    assert forall i :: 0 <= i < |rows'| ==> rows'[i] == values'[i + 1];
    MultisetImage(rows, rows', LoadTransactions(values).value, LoadTransactions(values').value,
                  row requires Covers(layout, row) && ParseAmount(row[layout.amount]).Some? => Read(layout, row));
  }

  /** Shuffling the data rows keeps whether the load succeeds, and a successful
      load yields the same transactions, each as often as before. */
  lemma LoadIgnoresRowOrder(values: seq<Row>, values': seq<Row>)
    requires |values| > 0 && |values'| > 0 && values'[0] == values[0]
    requires multiset(values[1..]) == multiset(values'[1..])
    ensures LoadTransactions(values).Success? <==> LoadTransactions(values').Success?
    ensures LoadTransactions(values).Success? ==>
      multiset(LoadTransactions(values).value) == multiset(LoadTransactions(values').value)
  {
    var header := values[0];
    LoadSucceedsIff(values);
    LoadSucceedsIff(values');
    if SomeRowFull(header, values[1..]) && RowsLoadable(header, values[1..]) {
      RowsLoadableReordered(header, values[1..], values'[1..]);
    }
    if SomeRowFull(header, values'[1..]) && RowsLoadable(header, values'[1..]) {
      RowsLoadableReordered(header, values'[1..], values[1..]);
    }
    if LoadTransactions(values).Success? {
      LoadedReordered(values, values');
    }
  }
}
