/**
 * The imperative trade simulator: the loop of `simulate_trades_with_risk` over a
 * `Portfolio` object whose `cash`, `held` and `trades` fields each row updates in
 * place. `Portfolio.Step` is proved to perform `Trading.Step`, and `Simulate` to
 * return the (intended) final ledger of `Trading.Run`.
 */
module Simulator {
  import opened Signals
  import opened Trading
  import opened Ledger

  /** The mutable state of one simulation: shared cash, open positions, closed trades. */
  class Portfolio {
    const initialCash: real
    const risk: Risk
    var cash: real
    var held: map<string, Position>
    var trades: seq<Trade>
    /** Timestamp of the last row processed. */
    ghost var clock: int

    /** The current state as a `Book` value. */
    function Snapshot(): Book
      reads this
    {
      Book(cash, held, trades)
    }

    ghost predicate Valid()
      reads this
    {
      Inv(Snapshot(), initialCash, clock)
    }

    constructor (initialCash: real, risk: Risk, ghost start: int)
      ensures Valid()
      ensures Snapshot() == Init(initialCash)
      ensures this.initialCash == initialCash && this.risk == risk && clock == start
    {
      this.initialCash := initialCash;
      this.risk := risk;
      cash := initialCash;
      held := map[];
      trades := [];
      clock := start;
      new;
      InitInv(initialCash, start);
    }

    /** One iteration of the loop: the exit check, then the all-in entry check. */
    method Step(row: Row)
      requires Valid() && row.close > 0.0 && clock <= row.timestamp
      modifies this
      ensures Valid() && clock == row.timestamp
      ensures Snapshot() == Trading.Step(old(Snapshot()), row, risk)
    {
      ghost var before := Snapshot();
      ghost var start := clock;
      assert WellFormed(before);
      if row.ticker in held {
        var position := held[row.ticker];
        var pnlPct := (row.close - position.entryPrice) / position.entryPrice;
        var stopLossHit := pnlPct <= -risk.stopLoss;
        var takeProfitHit := pnlPct >= risk.takeProfit;
        if row.signal == SellSignal || stopLossHit || takeProfitHit {
          var pnl := pnlPct * position.allocatedCash;
          trades := trades + [CloseTrade(row.ticker, position, row, risk)];
          cash := cash + (position.allocatedCash + pnl);
          held := held - {row.ticker};
        }
      }
      assert Snapshot() == ExitCheck(before, row, risk);
      if row.signal == BuySignal && row.ticker !in held && cash > 0.0 {
        var cashPerPosition := cash;
        var positionSize := cashPerPosition / row.close;
        held := held[row.ticker := Position(row.close, row.timestamp, cashPerPosition, positionSize)];
        cash := cash - cashPerPosition;
      }
      assert Snapshot() == Trading.Step(before, row, risk);
      StepKeepsInv(before, row, risk, initialCash, start);
      clock := row.timestamp;
    }
  }

  /**
   * `simulate_trades_with_risk` on rows already in `(timestamp, ticker)` order: the
   * ledger is that of `Run`, it is in entry order, and the final sort leaves it as it is.
   */
  method Simulate(rows: seq<Row>, initialCash: real, risk: Risk) returns (ledger: seq<Trade>)
    requires PositiveCloses(rows) && SortedByKey(rows)
    ensures ledger == Run(Init(initialCash), rows, risk).trades
    ensures SortedByEntry(ledger)
  {
    var portfolio := new Portfolio(initialCash, risk, if rows == [] then 0 else rows[0].timestamp);
    for i := 0 to |rows|
      invariant portfolio.Valid()
      invariant portfolio.initialCash == initialCash && portfolio.risk == risk
      invariant portfolio.Snapshot() == Run(Init(initialCash), rows[..i], risk)
      invariant i < |rows| ==> portfolio.clock <= rows[i].timestamp
    {
      assert PositiveCloses(rows[..i]);
      portfolio.Step(rows[i]);
      assert rows[..i + 1][..i] == rows[..i];
    }
    assert rows[..|rows|] == rows;
    ledger := FinalLedger(portfolio.trades);
  }
}
