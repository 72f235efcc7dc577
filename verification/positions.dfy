/**
 * The asset composition: the net amount held of each crypto symbol.
 *
 * Every loaded transaction gets a sign from its action (a purchase counts
 * positively, any other action negatively), the signed amounts are summed
 * per symbol, and the result maps each symbol that occurs in the ledger to
 * its net position.
 */
module Positions {
  import opened Wrappers
  import opened Ledger
  import opened Seqs

  const BUY: string := "Buy"

  /** The sign an action gives to its amount: only a purchase adds. */
  function Multiplier(action: string): (m: real)
    ensures m == 1.0 <==> action == BUY
    ensures m == -1.0 <==> action != BUY
  {
    if action == BUY then 1.0 else -1.0
  }

  /** The transaction with its amount multiplied by the sign of its action. */
  function Signed(t: Transaction): Transaction {
    t.(amount := t.amount * Multiplier(t.action))
  }

  /** Every transaction signed by its action, in the same order. */
  function ApplyMultiplier(ts: seq<Transaction>): (r: seq<Transaction>)
    ensures |r| == |ts|
    ensures forall i :: 0 <= i < |ts| ==>
      && r[i].date == ts[i].date && r[i].symbol == ts[i].symbol && r[i].action == ts[i].action
      && r[i].amount == (if ts[i].action == BUY then ts[i].amount else -ts[i].amount)
  {
    seq(|ts|, i requires 0 <= i < |ts| => Signed(ts[i]))
  }

  /** The symbols that occur in the transactions. */
  function Symbols(ts: seq<Transaction>): set<string> {
    set i | 0 <= i < |ts| :: ts[i].symbol
  }

  /** Sum of the amounts of the transactions in `symbol`. */
  function Total(ts: seq<Transaction>, symbol: string): real {
    if ts == [] then 0.0
    else
      var n := |ts| - 1;
      Total(ts[..n], symbol) + (if ts[n].symbol == symbol then ts[n].amount else 0.0)
  }

  /** Sum of the amounts of the transactions in `symbol` that are purchases
      (`buy`) or that are not (`!buy`). */
  function ActionTotal(ts: seq<Transaction>, symbol: string, buy: bool): real {
    if ts == [] then 0.0
    else
      var n := |ts| - 1;
      var t := ts[n];
      ActionTotal(ts[..n], symbol, buy) + (if t.symbol == symbol && (t.action == BUY) == buy then t.amount else 0.0)
  }

  /** Sums the amounts per symbol, one transaction after the other. */
  function GroupSum(ts: seq<Transaction>): (r: map<string, real>)
    ensures r.Keys == Symbols(ts)
  {
    if ts == [] then map[]
    else
      var n := |ts| - 1;
      var acc := GroupSum(ts[..n]);
      assert Symbols(ts) == Symbols(ts[..n]) + {ts[n].symbol} by {
        assert forall i :: 0 <= i < n ==> ts[..n][i] == ts[i];
      }
      var t := ts[n];
      acc[t.symbol := (if t.symbol in acc then acc[t.symbol] else 0.0) + t.amount]
  }

  /** A symbol that does not occur sums to zero. */
  lemma {:induction false} TotalAbsent(ts: seq<Transaction>, symbol: string)
    requires symbol !in Symbols(ts)
    ensures Total(ts, symbol) == 0.0
  {
    if ts != [] {
      var n := |ts| - 1;
      assert symbol !in Symbols(ts[..n]) by {
        assert forall i :: 0 <= i < n ==> ts[..n][i] == ts[i];
      }
      TotalAbsent(ts[..n], symbol);
    }
  }

  /** The per-symbol sums are the totals of each symbol. */
  lemma {:induction false} GroupSumTotals(ts: seq<Transaction>)
    ensures forall s :: s in GroupSum(ts) ==> GroupSum(ts)[s] == Total(ts, s)
  {
    if ts != [] {
      var n := |ts| - 1;
      GroupSumTotals(ts[..n]);
      var acc := GroupSum(ts[..n]);
      if ts[n].symbol !in acc {
        TotalAbsent(ts[..n], ts[n].symbol);
      }
    }
  }

  /** The net position of each symbol in the ledger. */
  function NetPositions(ts: seq<Transaction>): map<string, real> {
    GroupSum(ApplyMultiplier(ts))
  }

  /** Loads the ledger and computes its net positions; a load error is passed on. */
  function AssetsComposition(values: seq<Row>): (r: Result<map<string, real>, LoadError>)
    ensures r.Success? <==> LoadTransactions(values).Success?
    ensures r.Failure? ==> r.error == LoadTransactions(values).error
    ensures r.Success? ==> r.value.Keys == Symbols(LoadTransactions(values).value)
    ensures r.Success? ==> forall s :: s in r.value ==>
      r.value[s] == ActionTotal(LoadTransactions(values).value, s, true)
                  - ActionTotal(LoadTransactions(values).value, s, false)
  {
    var ts :- LoadTransactions(values);
    NetPositionsSpec(ts);
    Success(NetPositions(ts))
  }

  // ---------------------------------------------------------------------
  // What the net positions are.

  lemma SymbolsSigned(ts: seq<Transaction>)
    ensures Symbols(ApplyMultiplier(ts)) == Symbols(ts)
  {
    var r := ApplyMultiplier(ts);
    assert forall i :: 0 <= i < |ts| ==> r[i].symbol == ts[i].symbol;
  }

  /** The signed total of a symbol is its purchases minus everything else. */
  lemma {:induction false} TotalSigned(ts: seq<Transaction>, symbol: string)
    ensures Total(ApplyMultiplier(ts), symbol)
         == ActionTotal(ts, symbol, true) - ActionTotal(ts, symbol, false)
  {
    if ts != [] {
      var n := |ts| - 1;
      TotalSigned(ts[..n], symbol);
      assert ApplyMultiplier(ts)[..n] == ApplyMultiplier(ts[..n]);
    }
  }

  /** The composition lists exactly the symbols of the ledger, each with the
      amount bought minus the amount of every other action. */
  lemma NetPositionsSpec(ts: seq<Transaction>)
    ensures NetPositions(ts).Keys == Symbols(ts)
    ensures forall s :: s in NetPositions(ts) ==>
      NetPositions(ts)[s] == ActionTotal(ts, s, true) - ActionTotal(ts, s, false)
  {
    SymbolsSigned(ts);
    GroupSumTotals(ApplyMultiplier(ts));
    forall s | s in NetPositions(ts) {
      TotalSigned(ts, s);
    }
  }

  // ---------------------------------------------------------------------
  // The order of the transactions does not matter.

  lemma {:induction false} TotalAppend(a: seq<Transaction>, b: seq<Transaction>, symbol: string)
    ensures Total(a + b, symbol) == Total(a, symbol) + Total(b, symbol)
  {
    if b == [] {
      assert a + b == a;
    } else {
      var n := |b| - 1;
      TotalAppend(a, b[..n], symbol);
      assert (a + b)[..|a| + n] == a + b[..n];
    }
  }

  /** Taking one transaction out takes its amount out of its symbol's total. */
  lemma TotalRemove(ts: seq<Transaction>, k: nat, symbol: string)
    requires k < |ts|
    ensures Total(ts, symbol) == Total(ts[..k] + ts[k + 1..], symbol)
                               + (if ts[k].symbol == symbol then ts[k].amount else 0.0)
  {
    assert ts == (ts[..k] + [ts[k]]) + ts[k + 1..];
    TotalAppend(ts[..k] + [ts[k]], ts[k + 1..], symbol);
    TotalAppend(ts[..k], ts[k + 1..], symbol);
    assert (ts[..k] + [ts[k]])[..k] == ts[..k];
  }

  /** A total depends only on which transactions there are, not on their order. */
  lemma {:induction false} TotalReordered(ts: seq<Transaction>, ts': seq<Transaction>, symbol: string)
    requires multiset(ts) == multiset(ts')
    ensures Total(ts, symbol) == Total(ts', symbol)
    decreases |ts|
  {
    if ts == [] {
      assert |multiset(ts')| == 0;
    } else {
      var n := |ts| - 1;
      var t := ts[n];
      assert t in multiset(ts') by {
        assert ts == ts[..n] + [t];
      }
      var k :| 0 <= k < |ts'| && ts'[k] == t;
      var rest := ts'[..k] + ts'[k + 1..];
      assert multiset(rest) == multiset(ts[..n]) by {
        RemoveAt(ts', k);
        RemoveAt(ts, n);
        assert ts[..n] + ts[n + 1..] == ts[..n];
        Cancel(multiset(rest), multiset(ts[..n]), t);
      }
      TotalReordered(ts[..n], rest, symbol);
      TotalRemove(ts', k, symbol);
    }
  }

  lemma SymbolsReordered(ts: seq<Transaction>, ts': seq<Transaction>)
    requires multiset(ts) == multiset(ts')
    ensures Symbols(ts) == Symbols(ts')
  {
    forall s | s in Symbols(ts) ensures s in Symbols(ts') {
      var i :| 0 <= i < |ts| && ts[i].symbol == s;
      assert ts[i] in multiset(ts');
    }
    forall s | s in Symbols(ts') ensures s in Symbols(ts) {
      var i :| 0 <= i < |ts'| && ts'[i].symbol == s;
      assert ts'[i] in multiset(ts);
    }
  }

  /** The net positions do not depend on the order of the transactions. */
  lemma NetPositionsReordered(ts: seq<Transaction>, ts': seq<Transaction>)
    requires multiset(ts) == multiset(ts')
    ensures NetPositions(ts) == NetPositions(ts')
  {
    var a, a' := ApplyMultiplier(ts), ApplyMultiplier(ts');
    MultisetImage(ts, ts', a, a', Signed);
    SymbolsReordered(a, a');
    GroupSumTotals(a);
    GroupSumTotals(a');
    forall s | s in NetPositions(ts) ensures NetPositions(ts)[s] == NetPositions(ts')[s] {
      TotalReordered(a, a', s);
    }
  }

  /** Shuffling the data rows of the sheet leaves the composition, or the fact
      that it fails, unchanged. */
  lemma CompositionIgnoresRowOrder(values: seq<Row>, values': seq<Row>)
    requires |values| > 0 && |values'| > 0 && values'[0] == values[0]
    requires multiset(values[1..]) == multiset(values'[1..])
    ensures AssetsComposition(values).Success? <==> AssetsComposition(values').Success?
    ensures AssetsComposition(values).Success? ==> AssetsComposition(values) == AssetsComposition(values')
  {
    LoadIgnoresRowOrder(values, values');
    if LoadTransactions(values).Success? {
      NetPositionsReordered(LoadTransactions(values).value, LoadTransactions(values').value);
    }
  }

  /** Any action other than a purchase, here a transfer, counts against the position like a sale. */
  lemma TransferCountsAgainstPosition()
    ensures NetPositions([
      Transaction("2024-01-05", "BTC", "Buy", 2.0),
      Transaction("2024-02-10", "BTC", "Transfer", 0.5)]) == map["BTC" := 1.5]
  {
    var ts := [
      Transaction("2024-01-05", "BTC", "Buy", 2.0),
      Transaction("2024-02-10", "BTC", "Transfer", 0.5)];
    var signed := [
      Transaction("2024-01-05", "BTC", "Buy", 2.0),
      Transaction("2024-02-10", "BTC", "Transfer", -0.5)];
    assert "Transfer" != BUY;
    assert ApplyMultiplier(ts) == signed;
    assert GroupSum(signed[..1]) == map["BTC" := 2.0];
  }

  /** Adding one transaction adds its amount to its own symbol's purchases or to the rest. */
  lemma ActionTotalAppend(ts: seq<Transaction>, t: Transaction, symbol: string)
    ensures ActionTotal(ts + [t], symbol, true)
         == ActionTotal(ts, symbol, true) + (if t.symbol == symbol && t.action == BUY then t.amount else 0.0)
    ensures ActionTotal(ts + [t], symbol, false)
         == ActionTotal(ts, symbol, false) + (if t.symbol == symbol && t.action != BUY then t.amount else 0.0)
  {
    assert (ts + [t])[..|ts|] == ts;
  }

  /** The ledger of the example below: two purchases and a sale. */
  predicate IsSampleLedger(ts: seq<Transaction>) {
    ts == [
      Transaction("2024-01-05", "BTC", "Buy", 2.0),
      Transaction("2024-02-10", "BTC", "Sell", 0.5),
      Transaction("2024-03-01", "ETH", "Buy", 1.0)]
  }

  lemma SampleTotals(ts: seq<Transaction>, symbol: string)
    requires IsSampleLedger(ts) && (symbol == "BTC" || symbol == "ETH")
    ensures symbol == "BTC" ==> ActionTotal(ts, symbol, true) == 2.0 && ActionTotal(ts, symbol, false) == 0.5
    ensures symbol == "ETH" ==> ActionTotal(ts, symbol, true) == 1.0 && ActionTotal(ts, symbol, false) == 0.0
  {
    var t0, t1, t2 := ts[0], ts[1], ts[2];
    assert t0.action == BUY && t1.action != BUY && t2.action == BUY;
    ActionTotalAppend([], t0, symbol);
    ActionTotalAppend([t0], t1, symbol);
    ActionTotalAppend([t0, t1], t2, symbol);
    assert [] + [t0] == [t0] && [t0] + [t1] == [t0, t1] && [t0, t1] + [t2] == ts;
  }

  /** Two purchases and a sale: each symbol nets its purchases minus its sale. */
  lemma PurchasesMinusSales(ts: seq<Transaction>)
    requires IsSampleLedger(ts)
    ensures NetPositions(ts).Keys == {"BTC", "ETH"}
    ensures NetPositions(ts)["BTC"] == 1.5 && NetPositions(ts)["ETH"] == 1.0
  {
    SampleTotals(ts, "BTC");
    SampleTotals(ts, "ETH");
    assert Symbols(ts) == {"BTC", "ETH"} by {
      assert ts[0].symbol == "BTC" && ts[1].symbol == "BTC" && ts[2].symbol == "ETH";
    }
    NetPositionsSpec(ts);
  }
}
