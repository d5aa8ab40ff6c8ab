/**
 * Concrete runs of the simulator: buy, hold and sell; a stop loss; a take profit;
 * two simultaneous buys; and a run whose ledger is empty, where the final sort as
 * written raises.
 */
module Scenarios {
  import opened Wrappers
  import opened Trading
  import opened Ledger

  const DefaultRisk: Risk := Risk(0.05, 0.15)

  /**
   * Buy at 100, hold at 110, sell at 90. One trade of -10 % on 1000,
   * labelled as a strategy exit although the 5 % stop loss is breached too.
   */
  lemma SellSignalExit()
    ensures var rows := [Row(0, "ABC", 100.0, 1), Row(900, "ABC", 110.0, 0), Row(1800, "ABC", 90.0, -1)];
            Run(Init(1000.0), rows, DefaultRisk)
            == Book(900.0, map[], [Trade("ABC", 0, 1800, 100.0, 90.0, -10.0, -100.0, 1000.0, 10.0, 2.0, StrategyLogic)])
  {
    var rows := [Row(0, "ABC", 100.0, 1), Row(900, "ABC", 110.0, 0), Row(1800, "ABC", 90.0, -1)];
    var p := Position(100.0, 0, 1000.0, 10.0);
    var bought := Book(0.0, map["ABC" := p], []);
    assert rows[..1][..0] == [] && rows[..2][..1] == rows[..1] && rows[..3][..2] == rows[..2] && rows[..3] == rows;
    assert Step(Init(1000.0), rows[0], DefaultRisk) == bought;
    assert Run(Init(1000.0), rows[..1], DefaultRisk) == bought;
    assert Step(bought, rows[1], DefaultRisk) == bought;
    assert Run(Init(1000.0), rows[..2], DefaultRisk) == bought;
    assert map["ABC" := p] - {"ABC"} == map[];
  }

  /** Entry at 100, a hold at 94 breaches the 5 % stop loss: -6 %. */
  lemma StopLossExit()
    ensures var rows := [Row(0, "ABC", 100.0, 1), Row(900, "ABC", 94.0, 0)];
            Run(Init(1000.0), rows, DefaultRisk)
            == Book(940.0, map[], [Trade("ABC", 0, 900, 100.0, 94.0, -6.0, -60.0, 1000.0, 10.0, 1.0, StopLossRaised)])
  {
  }

  /** Entry at 100, a hold at 116 reaches the 15 % take profit: +16 %. */
  lemma TakeProfitExit()
    ensures var rows := [Row(0, "ABC", 100.0, 1), Row(900, "ABC", 116.0, 0)];
            Run(Init(1000.0), rows, DefaultRisk)
            == Book(1160.0, map[], [Trade("ABC", 0, 900, 100.0, 116.0, 16.0, 160.0, 1000.0, 10.0, 1.0, StopGainRaised)])
  {
  }

  /** "A" and "B" buy at the same timestamp; "A" sorts first and takes all the cash. */
  lemma SimultaneousBuys()
    ensures var rows := [Row(0, "A", 100.0, 1), Row(0, "B", 50.0, 1)];
            SortedByKey(rows)
            && Run(Init(1000.0), rows, DefaultRisk) == Book(0.0, map["A" := Position(100.0, 0, 1000.0, 10.0)], [])
  {
  }

  /**
   * A run that opens a position and never closes it leaves the ledger empty, and the
   * final sort as written then raises `KeyError: 'entry_datetime'`.
   */
  lemma OpenOnlyRunRaises()
    ensures var rows := [Row(0, "ABC", 100.0, 1), Row(900, "ABC", 101.0, 0)];
            var r := Run(Init(1000.0), rows, DefaultRisk);
            r.held != map[] && r.trades == []
            && LedgerAsWritten(r.trades) == Failure(KeyError("entry_datetime"))
            && FinalLedger(r.trades) == []
  {
  }
}
