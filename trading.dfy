/**
 * The trade simulator as a pure state machine. A `Book` is the simulator's whole
 * state: one shared cash balance, the open position per ticker, and the ledger of
 * closed trades. `Step` is the per-row transition (exit check first, then the
 * all-in entry check) and `Run` folds it over the time-ordered rows.
 *
 * `Inv` is the invariant the transition keeps: capital is conserved, at most one
 * position is open (and then no cash is free), and the ledger is in entry order.
 * The imperative simulator in module Simulator is proved to follow `Step`.
 */
module Trading {
  import opened Signals

  /** One signalled bar as the simulator sees it; `timestamp` in seconds. */
  datatype Row = Row(timestamp: int, ticker: string, close: real, signal: int)

  /** `config['risk']`: the stop-loss and take-profit fractions. */
  datatype Risk = Risk(stopLoss: real, takeProfit: real)

  /** An open position: what the simulator keeps in `held_positions[ticker]`. */
  datatype Position = Position(entryPrice: real, entryTime: int, allocatedCash: real, shares: real)

  /** One closed trade of the ledger (values unrounded). */
  datatype Trade = Trade(
    ticker: string,
    entryTime: int,
    exitTime: int,
    entryPrice: real,
    exitPrice: real,
    returnPct: real,
    pnl: real,
    allocatedCash: real,
    shares: real,
    holdingTicks: real,
    exitReason: string)

  /** The simulator's state: `cash`, `held_positions` and `trades`. */
  datatype Book = Book(cash: real, held: map<string, Position>, trades: seq<Trade>)

  /** One tick is one 15-minute bar. */
  const BarSeconds: int := 15 * 60

  const StrategyLogic: string := "Strategy logic"
  const StopLossRaised: string := "Stop loss raised"
  const StopGainRaised: string := "Stop gain raised"

  function Init(initialCash: real): Book
  {
    Book(initialCash, map[], [])
  }

  /** Every open position was bought at a positive price. */
  predicate WellFormed(b: Book)
  {
    forall k :: k in b.held ==> b.held[k].entryPrice > 0.0
  }

  predicate PositiveCloses(rows: seq<Row>)
  {
    forall i :: 0 <= i < |rows| ==> rows[i].close > 0.0
  }

  /** Fractional gain of a position at `price`. */
  function PnlPct(p: Position, price: real): real
    requires p.entryPrice > 0.0
  {
    (price - p.entryPrice) / p.entryPrice
  }

  predicate StopLossHit(p: Position, price: real, risk: Risk)
    requires p.entryPrice > 0.0
  {
    PnlPct(p, price) <= -risk.stopLoss
  }

  predicate TakeProfitHit(p: Position, price: real, risk: Risk)
    requires p.entryPrice > 0.0
  {
    PnlPct(p, price) >= risk.takeProfit
  }

  /** The exit trigger of a held position on a row of its ticker. */
  predicate ExitFires(p: Position, row: Row, risk: Risk)
    requires p.entryPrice > 0.0
  {
    row.signal == SellSignal || StopLossHit(p, row.close, risk) || TakeProfitHit(p, row.close, risk)
  }

  /** First-match labelling: sell signal, then stop loss, then take profit. */
  function ExitReason(signal: int, stopLossHit: bool): (r: string)
    ensures r == StrategyLogic || r == StopLossRaised || r == StopGainRaised
    ensures r == StrategyLogic <==> signal == SellSignal
    ensures r == StopLossRaised <==> signal != SellSignal && stopLossHit
  {
    if signal == SellSignal then StrategyLogic
    else if stopLossHit then StopLossRaised
    else StopGainRaised
  }

  /** The ledger record emitted when position `p` of `ticker` exits on `row`. */
  function CloseTrade(ticker: string, p: Position, row: Row, risk: Risk): (t: Trade)
    requires p.entryPrice > 0.0
    ensures t.ticker == ticker && t.entryTime == p.entryTime && t.entryPrice == p.entryPrice
    ensures t.allocatedCash == p.allocatedCash && t.shares == p.shares
    ensures t.exitTime == row.timestamp && t.exitPrice == row.close
    ensures t.pnl == t.returnPct / 100.0 * t.allocatedCash
    ensures t.holdingTicks * (BarSeconds as real) == (t.exitTime - t.entryTime) as real
  {
    var pct := PnlPct(p, row.close);
    Trade(ticker, p.entryTime, row.timestamp, p.entryPrice, row.close,
          pct * 100.0, pct * p.allocatedCash, p.allocatedCash, p.shares,
          ((row.timestamp - p.entryTime) as real) / (BarSeconds as real),
          ExitReason(row.signal, StopLossHit(p, row.close, risk)))
  }

  /** The exit check of one row. */
  function ExitCheck(b: Book, row: Row, risk: Risk): (r: Book)
    requires WellFormed(b)
    ensures WellFormed(r)
    ensures r == b || r.held == b.held - {row.ticker}
    ensures b.trades <= r.trades && |r.trades| <= |b.trades| + 1
  {
    if row.ticker in b.held && ExitFires(b.held[row.ticker], row, risk) then
      var p := b.held[row.ticker];
      var pnl := PnlPct(p, row.close) * p.allocatedCash;
      Book(b.cash + (p.allocatedCash + pnl), b.held - {row.ticker},
           b.trades + [CloseTrade(row.ticker, p, row, risk)])
    else b
  }

  /** The all-in entry check of one row. */
  function EntryCheck(b: Book, row: Row): (r: Book)
    requires WellFormed(b) && row.close > 0.0
    ensures WellFormed(r)
    ensures r.trades == b.trades
    ensures r == b || r.cash == 0.0
    ensures forall k :: k in b.held ==> k in r.held && r.held[k] == b.held[k]
    ensures forall k :: k in r.held ==> k in b.held || k == row.ticker
  {
    if row.signal == BuySignal && row.ticker !in b.held && b.cash > 0.0 then
      var allocatedCash := b.cash;
      Book(b.cash - allocatedCash,
           b.held[row.ticker := Position(row.close, row.timestamp, allocatedCash, allocatedCash / row.close)],
           b.trades)
    else b
  }

  /** One row of the simulation loop: exit check, then entry check. */
  function Step(b: Book, row: Row, risk: Risk): (r: Book)
    requires WellFormed(b) && row.close > 0.0
    ensures WellFormed(r)
    ensures b.trades <= r.trades && |r.trades| <= |b.trades| + 1
  {
    EntryCheck(ExitCheck(b, row, risk), row)
  }

  /** The simulation loop over rows in processing order. */
  function Run(b: Book, rows: seq<Row>, risk: Risk): (r: Book)
    requires WellFormed(b) && PositiveCloses(rows)
    ensures WellFormed(r)
    ensures b.trades <= r.trades && |r.trades| <= |b.trades| + |rows|
    decreases |rows|
  {
    if rows == [] then b
    else
      var n := |rows| - 1;
      assert PositiveCloses(rows[..n]);
      Step(Run(b, rows[..n], risk), rows[n], risk)
  }

  // ---------------------------------------------------------------------------
  // Processing order

  /** Python's string order: lexicographic by character. */
  predicate TickerLe(a: string, b: string): (r: bool)
    ensures a <= b ==> r
    ensures r && a != [] ==> b != [] && a[0] <= b[0]
    decreases |a|
  {
    a == [] || (b != [] && (a[0] < b[0] || (a[0] == b[0] && TickerLe(a[1..], b[1..]))))
  }

  /** Row order of `sort_values(['timestamp', 'ticker'])`. */
  predicate KeyLe(a: Row, b: Row): (r: bool)
    ensures a.timestamp < b.timestamp ==> r
    ensures r ==> a.timestamp <= b.timestamp
  {
    a.timestamp < b.timestamp || (a.timestamp == b.timestamp && TickerLe(a.ticker, b.ticker))
  }

  predicate Chronological(rows: seq<Row>)
  {
    forall i, j :: 0 <= i < j < |rows| ==> rows[i].timestamp <= rows[j].timestamp
  }

  /** `sort_values(['timestamp', 'ticker'])` order; in particular non-decreasing timestamps. */
  predicate SortedByKey(rows: seq<Row>): (r: bool)
    ensures r ==> Chronological(rows)
  {
    forall i, j :: 0 <= i < j < |rows| ==> KeyLe(rows[i], rows[j])
  }

  /** Python's string order is total. */
  lemma {:induction false} TickerLeTotal(a: string, b: string)
    ensures TickerLe(a, b) || TickerLe(b, a)
    decreases |a|
  {
    if a != [] && b != [] && a[0] == b[0] {
      TickerLeTotal(a[1..], b[1..]);
    }
  }

  /** The row order is total: of two rows, one sorts no later than the other. */
  lemma KeyLeTotal(a: Row, b: Row)
    ensures KeyLe(a, b) || KeyLe(b, a)
  {
    TickerLeTotal(a.ticker, b.ticker);
  }

  predicate SortedByEntry(trades: seq<Trade>)
  {
    forall i, j :: 0 <= i < j < |trades| ==> trades[i].entryTime <= trades[j].entryTime
  }

  // ---------------------------------------------------------------------------
  // Capital accounting

  ghost function PickKey(m: map<string, Position>): (k: string)
    requires m != map[]
    ensures k in m
  {
    var k :| k in m; k
  }

  lemma RemoveKeySize(m: map<string, Position>, k: string)
    requires k in m
    ensures |m - {k}| == |m| - 1
  {
  }

  /** Cash committed to open positions: the sum of their `allocatedCash`. */
  ghost function Allocated(m: map<string, Position>): real
    decreases |m|
  {
    if m == map[] then 0.0
    else
      var k := PickKey(m);
      RemoveKeySize(m, k);
      m[k].allocatedCash + Allocated(m - {k})
  }

  /** Removing any one position takes exactly its allocation out of the sum. */
  lemma {:induction false} AllocatedRemove(m: map<string, Position>, k: string)
    requires k in m
    ensures Allocated(m) == m[k].allocatedCash + Allocated(m - {k})
    decreases |m|
  {
    var j := PickKey(m);
    if j != k {
      RemoveKeySize(m, j);
      RemoveKeySize(m, k);
      AllocatedRemove(m - {j}, k);
      AllocatedRemove(m - {k}, j);
      assert m - {j} - {k} == m - {k} - {j};
    }
  }

  lemma AllocatedInsert(m: map<string, Position>, k: string, p: Position)
    requires k !in m
    ensures Allocated(m[k := p]) == p.allocatedCash + Allocated(m)
  {
    AllocatedRemove(m[k := p], k);
    assert m[k := p] - {k} == m;
  }

  /** Realised profit and loss of the ledger. */
  function TotalPnl(trades: seq<Trade>): real
  {
    if trades == [] then 0.0 else TotalPnl(trades[..|trades| - 1]) + trades[|trades| - 1].pnl
  }

  // ---------------------------------------------------------------------------
  // The invariant

  /** Cash plus allocatedCash cash is initial capital plus realised PnL. */
  ghost predicate Conserved(b: Book, initialCash: real)
  {
    b.cash + Allocated(b.held) == initialCash + TotalPnl(b.trades)
  }

  /** At most one ticker is held, and while one is, no cash is free. */
  predicate SinglePosition(b: Book)
  {
    |b.held| <= 1 && (b.held != map[] ==> b.cash == 0.0)
  }

  /** Each open position holds `allocatedCash / entryPrice` shares of a positive allocation. */
  predicate PositionsSized(b: Book)
  {
    forall k :: k in b.held ==>
      b.held[k].allocatedCash > 0.0 && b.held[k].shares * b.held[k].entryPrice == b.held[k].allocatedCash
  }

  /**
   * Nothing happened after `clock`, every trade exited no earlier than it entered,
   * the ledger is in entry order and every open position entered after the last exit.
   */
  predicate Timeline(b: Book, clock: int)
  {
    (forall k :: k in b.held ==> b.held[k].entryTime <= clock)
    && (forall i :: 0 <= i < |b.trades| ==> b.trades[i].entryTime <= b.trades[i].exitTime <= clock)
    && SortedByEntry(b.trades)
    && (forall k, i :: k in b.held && 0 <= i < |b.trades| ==> b.trades[i].exitTime <= b.held[k].entryTime)
  }

  ghost predicate Inv(b: Book, initialCash: real, clock: int)
  {
    WellFormed(b) && Conserved(b, initialCash) && SinglePosition(b) && PositionsSized(b) && Timeline(b, clock)
  }

  lemma InitInv(initialCash: real, clock: int)
    ensures Inv(Init(initialCash), initialCash, clock)
  {
  }

  lemma SingleHeld(m: map<string, Position>, k: string)
    requires |m| <= 1 && k in m
    ensures m - {k} == map[]
  {
    RemoveKeySize(m, k);
  }

  /** An exit moves `allocated + pnl` from the position back to cash and books `pnl`. */
  lemma ExitCheckConserves(b: Book, row: Row, risk: Risk, initialCash: real)
    requires WellFormed(b) && Conserved(b, initialCash)
    ensures Conserved(ExitCheck(b, row, risk), initialCash)
  {
    if row.ticker in b.held && ExitFires(b.held[row.ticker], row, risk) {
      var e := ExitCheck(b, row, risk);
      AllocatedRemove(b.held, row.ticker);
      assert e.trades[..|e.trades| - 1] == b.trades;
    }
  }

  lemma ExitCheckKeepsTimeline(b: Book, row: Row, risk: Risk)
    requires WellFormed(b) && SinglePosition(b) && Timeline(b, row.timestamp)
    ensures Timeline(ExitCheck(b, row, risk), row.timestamp)
  {
    if row.ticker in b.held && ExitFires(b.held[row.ticker], row, risk) {
      var p := b.held[row.ticker];
      var e := ExitCheck(b, row, risk);
      SingleHeld(b.held, row.ticker);
      assert e.held == map[];
      forall i, j | 0 <= i < j < |e.trades|
        ensures e.trades[i].entryTime <= e.trades[j].entryTime
      {
        if j == |b.trades| {
          assert b.trades[i].exitTime <= p.entryTime;
        }
      }
    }
  }

  lemma ExitCheckKeepsInv(b: Book, row: Row, risk: Risk, initialCash: real)
    requires Inv(b, initialCash, row.timestamp)
    ensures Inv(ExitCheck(b, row, risk), initialCash, row.timestamp)
  {
    ExitCheckConserves(b, row, risk, initialCash);
    ExitCheckKeepsTimeline(b, row, risk);
    if row.ticker in b.held && ExitFires(b.held[row.ticker], row, risk) {
      SingleHeld(b.held, row.ticker);
    }
  }

  /** An entry moves all the cash into the new position. */
  lemma EntryCheckConserves(b: Book, row: Row, initialCash: real)
    requires WellFormed(b) && SinglePosition(b) && Conserved(b, initialCash) && row.close > 0.0
    ensures Conserved(EntryCheck(b, row), initialCash)
  {
  }

  lemma EntryCheckKeepsInv(b: Book, row: Row, initialCash: real)
    requires Inv(b, initialCash, row.timestamp) && row.close > 0.0
    ensures Inv(EntryCheck(b, row), initialCash, row.timestamp)
  {
  }

  /**
   * Capital conservation, the single-position rule and the ledger order survive one
   * row, given that rows arrive in time order.
   */
  lemma StepKeepsInv(b: Book, row: Row, risk: Risk, initialCash: real, clock: int)
    requires Inv(b, initialCash, clock) && row.close > 0.0 && clock <= row.timestamp
    ensures Inv(Step(b, row, risk), initialCash, row.timestamp)
  {
    assert Inv(b, initialCash, row.timestamp);
    ExitCheckKeepsInv(b, row, risk, initialCash);
    EntryCheckKeepsInv(ExitCheck(b, row, risk), row, initialCash);
  }

  function LastTime(rows: seq<Row>, clock: int): int
  {
    if rows == [] then clock else rows[|rows| - 1].timestamp
  }

  /** A prefix of time-ordered rows is time-ordered and ends no later than the next row. */
  lemma PrefixOrdered(rows: seq<Row>, clock: int)
    requires rows != [] && PositiveCloses(rows) && Chronological(rows)
    requires clock <= rows[0].timestamp
    ensures var n := |rows| - 1;
            PositiveCloses(rows[..n]) && Chronological(rows[..n])
            && LastTime(rows[..n], clock) <= rows[n].timestamp
            && (rows[..n] != [] ==> clock <= rows[..n][0].timestamp)
  {
  }

  /** The invariant holds after every prefix of a time-ordered run. */
  lemma {:induction false} RunKeepsInv(b: Book, rows: seq<Row>, risk: Risk, initialCash: real, clock: int)
    requires Inv(b, initialCash, clock) && PositiveCloses(rows) && Chronological(rows)
    requires rows != [] ==> clock <= rows[0].timestamp
    ensures Inv(Run(b, rows, risk), initialCash, LastTime(rows, clock))
    decreases |rows|
  {
    if rows != [] {
      var n := |rows| - 1;
      var prefix := rows[..n];
      PrefixOrdered(rows, clock);
      RunKeepsInv(b, prefix, risk, initialCash, clock);
      var before := Run(b, prefix, risk);
      StepKeepsInv(before, rows[n], risk, initialCash, LastTime(prefix, clock));
      assert Run(b, rows, risk) == Step(before, rows[n], risk);
    }
  }

  /** Capital conservation for a whole run from the initial state. */
  lemma RunConservesCapital(initialCash: real, rows: seq<Row>, risk: Risk)
    requires PositiveCloses(rows) && SortedByKey(rows)
    ensures var r := Run(Init(initialCash), rows, risk);
            r.cash + Allocated(r.held) == initialCash + TotalPnl(r.trades)
            && |r.held| <= 1 && (r.held != map[] ==> r.cash == 0.0)
            && SortedByEntry(r.trades)
  {
    var clock := if rows == [] then 0 else rows[0].timestamp;
    InitInv(initialCash, clock);
    RunKeepsInv(Init(initialCash), rows, risk, initialCash, clock);
  }

  // ---------------------------------------------------------------------------
  // Properties of one row

  /**
   * A row emits a trade exactly when its ticker is held and the exit trigger fires;
   * the exit deletes the position and returns `allocatedCash + pnl_pct * allocatedCash`.
   */
  lemma ExitExactly(b: Book, row: Row, risk: Risk)
    requires WellFormed(b) && row.close > 0.0
    ensures |Step(b, row, risk).trades| == |b.trades| + 1
            <==> row.ticker in b.held && ExitFires(b.held[row.ticker], row, risk)
    ensures !(row.ticker in b.held && ExitFires(b.held[row.ticker], row, risk))
            ==> Step(b, row, risk).trades == b.trades
    ensures row.ticker in b.held && ExitFires(b.held[row.ticker], row, risk) ==>
            var p := b.held[row.ticker];
            var e := ExitCheck(b, row, risk);
            Step(b, row, risk).trades == b.trades + [CloseTrade(row.ticker, p, row, risk)]
            && e.held == b.held - {row.ticker}
            && e.cash == b.cash + p.allocatedCash + PnlPct(p, row.close) * p.allocatedCash
  {
  }

  /**
   * Entry, checked after the exit on the same row: a position opens exactly when the
   * signal is 1, the ticker is (no longer) held and cash is positive; it takes all the
   * cash at the row's close.
   */
  lemma EntryRule(b: Book, row: Row, risk: Risk)
    requires WellFormed(b) && row.close > 0.0
    ensures var e := ExitCheck(b, row, risk);
            (Step(b, row, risk) != e <==> row.signal == BuySignal && row.ticker !in e.held && e.cash > 0.0)
    ensures var e := ExitCheck(b, row, risk);
            Step(b, row, risk) != e ==>
            Step(b, row, risk) == Book(0.0,
              e.held[row.ticker := Position(row.close, row.timestamp, e.cash, e.cash / row.close)], e.trades)
  {
    var e := ExitCheck(b, row, risk);
    if row.signal == BuySignal && row.ticker !in e.held && e.cash > 0.0 {
      assert row.ticker in Step(b, row, risk).held;
    }
  }

  /** The exit reason is the first of sell signal, stop loss, take profit that holds. */
  lemma ExitReasonFirstMatch(ticker: string, p: Position, row: Row, risk: Risk)
    requires p.entryPrice > 0.0 && ExitFires(p, row, risk)
    ensures var reason := CloseTrade(ticker, p, row, risk).exitReason;
            (reason == StrategyLogic <==> row.signal == SellSignal)
            && (reason == StopLossRaised <==> row.signal != SellSignal && StopLossHit(p, row.close, risk))
            && (reason == StopGainRaised <==>
                  row.signal != SellSignal && !StopLossHit(p, row.close, risk) && TakeProfitHit(p, row.close, risk))
  {
  }

  /**
   * The fields of a trade record agree with each other: the return is the percentage
   * price change, the PnL is that fraction of the allocation, allocation plus PnL is
   * the value of the shares at the exit price, and the holding time is in 900-second ticks.
   */
  lemma TradeRecordFields(ticker: string, p: Position, row: Row, risk: Risk)
    requires p.entryPrice > 0.0 && p.shares * p.entryPrice == p.allocatedCash
    ensures var t := CloseTrade(ticker, p, row, risk);
            t.returnPct == (t.exitPrice - t.entryPrice) / t.entryPrice * 100.0
            && t.pnl == t.returnPct / 100.0 * t.allocatedCash
            && t.allocatedCash + t.pnl == t.shares * t.exitPrice
            && t.holdingTicks * 900.0 == (t.exitTime - t.entryTime) as real
            && t.ticker == ticker && t.entryTime == p.entryTime && t.exitTime == row.timestamp
  {
  }

  /** The position an all-in entry of `cash` on `row` opens. */
  function ReopenedAt(cash: real, row: Row): Position
    requires row.close > 0.0
  {
    Position(row.close, row.timestamp, cash, cash / row.close)
  }

  /**
   * A ticker closed by stop loss or take profit on a row whose signal is 1 reopens on
   * that row, at its close, with all the cash the exit released.
   */
  lemma ReentryOnSameRow(b: Book, row: Row, risk: Risk, initialCash: real, clock: int)
    requires Inv(b, initialCash, clock) && row.close > 0.0
    requires row.ticker in b.held && row.signal == BuySignal
    requires StopLossHit(b.held[row.ticker], row.close, risk) || TakeProfitHit(b.held[row.ticker], row.close, risk)
    ensures b.held[row.ticker].shares * row.close > 0.0
    ensures Step(b, row, risk) == Book(0.0,
              map[row.ticker := ReopenedAt(b.held[row.ticker].shares * row.close, row)],
              b.trades + [CloseTrade(row.ticker, b.held[row.ticker], row, risk)])
  {
    var p := b.held[row.ticker];
    TradeRecordFields(row.ticker, p, row, risk);
    SingleHeld(b.held, row.ticker);
    assert b.cash == 0.0;
    assert p.shares > 0.0;
    var released := p.shares * row.close;
    assert released > 0.0;
    var e := ExitCheck(b, row, risk);
    assert e.cash == released;
    assert e.held == map[];
    assert e.trades == b.trades + [CloseTrade(row.ticker, p, row, risk)];
    assert Step(b, row, risk) == EntryCheck(e, row);
    var q := ReopenedAt(released, row);
    assert row.ticker !in e.held && e.cash > 0.0;
    assert EntryCheck(e, row) == Book(e.cash - e.cash, e.held[row.ticker := q], e.trades);
    assert e.held[row.ticker := q] == map[row.ticker := q];
    assert Step(b, row, risk) == Book(0.0, map[row.ticker := q], b.trades + [CloseTrade(row.ticker, p, row, risk)]);
    assert q == ReopenedAt(b.held[row.ticker].shares * row.close, row);
  }

  // ---------------------------------------------------------------------------
  // Properties of a run

  /**
   * From a flat book with cash, the first row with signal 1 takes all the cash:
   * the rows before it change nothing, and it opens the one position.
   */
  lemma {:induction false} FirstBuyTakesAllCash(b: Book, rows: seq<Row>, risk: Risk)
    requires WellFormed(b) && b.held == map[] && b.cash > 0.0
    requires PositiveCloses(rows) && rows != [] && rows[|rows| - 1].signal == BuySignal
    requires forall i :: 0 <= i < |rows| - 1 ==> rows[i].signal != BuySignal
    ensures var last := rows[|rows| - 1];
            Run(b, rows, risk) == Book(0.0,
              map[last.ticker := Position(last.close, last.timestamp, b.cash, b.cash / last.close)], b.trades)
  {
    var n := |rows| - 1;
    FlatRowsChangeNothing(b, rows[..n], risk);
  }

  /** Rows without a buy signal leave a flat book as it is. */
  lemma {:induction false} FlatRowsChangeNothing(b: Book, rows: seq<Row>, risk: Risk)
    requires WellFormed(b) && b.held == map[] && PositiveCloses(rows)
    requires forall i :: 0 <= i < |rows| ==> rows[i].signal != BuySignal
    ensures Run(b, rows, risk) == b
    decreases |rows|
  {
    if rows != [] {
      var n := |rows| - 1;
      FlatRowsChangeNothing(b, rows[..n], risk);
    }
  }

  /**
   * While the one open position does not exit, every row changes nothing: buys of
   * other tickers find no cash and the held ticker cannot be bought again.
   */
  lemma {:induction false} HeldPositionBlocksEntries(b: Book, rows: seq<Row>, risk: Risk, k: string)
    requires WellFormed(b) && SinglePosition(b) && k in b.held && PositiveCloses(rows)
    requires forall i :: 0 <= i < |rows| ==> rows[i].ticker != k || !ExitFires(b.held[k], rows[i], risk)
    ensures Run(b, rows, risk) == b
    decreases |rows|
  {
    if rows != [] {
      var n := |rows| - 1;
      HeldPositionBlocksEntries(b, rows[..n], risk, k);
      SingleHeld(b.held, k);
      var row := rows[n];
      if row.ticker != k {
        assert row.ticker !in b.held by {
          assert row.ticker in b.held ==> row.ticker in b.held - {k};
        }
      }
    }
  }
}
