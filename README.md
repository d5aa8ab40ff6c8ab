# Backtest core of trade-strategy-testing, in Dafny

This project models the computation at the centre of the strategy backtester in
`main.py`. It has three parts.

- **Moving averages** (`Indicators`). `compute_indicators` gives each ticker's bars a
  short and a long simple moving average of the close. It then drops every row where
  either average is still undefined. The rolling mean is written as a running window
  sum: add the newest close, subtract the one that left the window. It is proved
  equal to the mean of the trailing `w` closes.
- **Signal column** (`Signals`). `evaluate_signals` starts the column at 0, writes 1
  under the buy mask, then writes -1 under the sell mask. The buy and sell booleans are
  inputs.
- **Trade simulator** (`Trading`, `Ledger`, `Simulator`). `simulate_trades_with_risk`
  walks the rows in `(timestamp, ticker)` order and updates one shared `cash` balance,
  the map `held_positions` and the list `trades`.
  - Each row first gets an exit check: a sell signal, a stop loss or a take profit,
    with the reason taken from the first one that matches.
  - It then gets an all-in entry check.
  - `Trading` gives the state as a `Book` value, the per-row transition `Step` and the
    loop `Run`.
  - `Simulator.Portfolio` is the imperative object: its fields are updated in place,
    and its `Step` method is proved to perform `Trading.Step`.
  - `Simulator.Simulate` runs the loop and returns the ledger.
  - `Ledger` models the final sort by `entry_datetime`.

Main results:
- **Capital conservation.** `cash` plus the cash allocated to open positions equals
  initial capital plus the realised PnL of the ledger.
- **Single position.** At most one ticker is held, and while one is, `cash` is 0. The
  first buy row takes all the cash; later rows change nothing until that position exits.
- **Ledger order.** The ledger is already in entry order, so the final sort returns it
  unchanged.
- **Concrete runs.** Four end-to-end runs are proved about concrete rows: buy, hold
  and sell; a stop loss; a take profit; two simultaneous buys.

Timestamps are integer seconds, prices are exact `real`s, and one holding tick is 900
seconds (`15 * 60`, main.py:81). The exit reasons are the strings of main.py:83-85:
`"Strategy logic"`, `"Stop loss raised"` and `"Stop gain raised"`.

## Model

| member | source | states |
|---|---|---|
| `Indicators.WindowSums` | main.py:113-114 | one running window sum per close; `WindowSumsAt` states the value of each |
| `Indicators.WindowSumsPrefix` | main.py:113-114 | the running sums are causal: those of a prefix of the closes are the prefix of the running sums |
| `Indicators.WindowSumsAt` | main.py:113-114 | the running window sum at index t equals the sum of the closes in the trailing window ending at t (clipped at the series start) |
| `Indicators.RollingMean` | main.py:113-114 | one entry per close, undefined exactly at the first `w - 1` positions |
| `Indicators.RollingMeanIsTrailingMean` | main.py:113-114 | `rolling(w).mean()` at index t is undefined exactly when t < w-1, and otherwise is the mean of `close[t-w+1..t]` |
| `Indicators.WithMovingAverages` | main.py:110-114 | each of a ticker's bars keeps its bar and gets `short_ma` and `long_ma`, each undefined exactly during its window's warm-up and otherwise the trailing mean |
| `Indicators.DropIncomplete` | main.py:133 | `dropna` keeps only rows with both averages defined: every kept row is complete, and a row is kept iff it is in the input and complete |
| `Indicators.DropIncompleteSplit` | main.py:133 | when the incomplete rows form a prefix, dropping returns exactly the rest, in the original order |
| `Indicators.WarmupRowsDropped` | main.py:133 | for one ticker, the surviving rows are exactly the bars from index max(short, long) - 1 on, in order (none if fewer bars) |
| `Indicators.ComputeMovingAverages` | main.py:131-133 | over all tickers' groups, every row that survives has both moving averages defined, and the result is each group's rows from index max(short, long) - 1 on (none for a shorter group), concatenated in group order |
| `Indicators.ComputeMovingAveragesMembers` | main.py:131-133 | a row survives iff it is a row of some ticker's group with both averages defined |
| `Indicators.SmaExample` | main.py:113 | closes [1, 2, 3, 4] with window 3 give [undefined, undefined, 2, 3] |
| `Signals.Mask` | main.py:204-205 | a masked assignment keeps the column's length, sets every masked cell to the value and keeps every other cell |
| `Signals.Signals` | main.py:203-205 | signal is -1 iff sell holds, 1 iff buy holds and sell does not, 0 iff neither holds (sell overrides buy) |
| `Trading.TickerLe` | main.py:50 | string order: a prefix sorts first (so the order is reflexive), and a non-empty string sorts before another only if its first character is not greater |
| `Trading.TickerLeTotal` | main.py:50 | of two tickers, one sorts no later than the other |
| `Trading.KeyLe` | main.py:50 | `(timestamp, ticker)` order: an earlier timestamp comes first, and a row comes first only if its timestamp is not later |
| `Trading.KeyLeTotal` | main.py:50 | of two rows, one sorts no later than the other |
| `Trading.SortedByKey` | main.py:50 | rows sorted by `(timestamp, ticker)` have non-decreasing timestamps |
| `Trading.ExitReason` | main.py:82-86 | the reason is one of the three strings; "Strategy logic" iff the signal is -1, "Stop loss raised" iff not that and the stop loss is hit |
| `Trading.CloseTrade` | main.py:71-86 | the record carries the ticker, the position's entry time, price, cash and shares, the row's time and close; pnl is return_pct/100 of the allocation, and holding_ticks times 900 is the elapsed seconds |
| `Trading.ExitCheck` | main.py:62-89 | the exit check deletes at most the row's ticker and otherwise leaves the state alone; the ledger is only appended to, by at most one trade |
| `Trading.EntryCheck` | main.py:92-101 | the entry check emits no trade, either changes nothing or leaves cash 0, keeps every held position unchanged and opens none but the row's ticker |
| `Trading.Step` | main.py:56-101 | one row appends at most one trade and keeps the earlier ones as they were; every open position has a positive entry price |
| `Trading.Run` | main.py:55-101 | a run keeps the starting ledger as a prefix and appends at most one trade per row |
| `Trading.ExitCheckConserves` | main.py:88-89 | an exit keeps cash + allocated cash = initial capital + realised PnL: the position's cash plus its pnl returns to cash and the pnl is booked |
| `Trading.ExitCheckKeepsTimeline` | main.py:71-89 | an exit appends a trade that entered after every earlier trade exited, so the ledger stays in entry order |
| `Trading.EntryCheckConserves` | main.py:92-101 | an all-in entry moves all the cash into the new position and keeps the conservation equation |
| `Trading.StepKeepsInv` | main.py:55-101 | one row keeps conservation, at most one held ticker with cash 0 while held, positive positions sized `cash/close`, and the ledger in entry order |
| `Trading.RunKeepsInv` | main.py:55-101 | the invariant holds after every prefix of a time-ordered run |
| `Trading.RunConservesCapital` | main.py:50-103 | for a whole run from `initial_cash`: final cash + allocated = initial cash + sum of pnl, at most one ticker held (cash 0 while held), and the ledger is in entry order |
| `Trading.ExitExactly` | main.py:62-89 | a row emits a trade iff its ticker is held and (signal -1, or pnl_pct <= -stop_loss, or pnl_pct >= take_profit); the trade is the closed position, which is deleted, and cash grows by allocated + pnl_pct * allocated; other rows emit nothing |
| `Trading.EntryRule` | main.py:92-101 | after the exit check, a position opens iff the signal is 1, the ticker is not held and cash > 0; it takes all the cash at the row's close with `cash/close` shares and leaves cash 0 |
| `Trading.ExitReasonFirstMatch` | main.py:82-86 | the reason is "Strategy logic" iff the signal is -1, "Stop loss raised" iff not that and the stop loss is hit, "Stop gain raised" iff neither and the take profit is hit |
| `Trading.TradeRecordFields` | main.py:64-81 | return_pct is the price change times 100, pnl is return_pct/100 of the allocation, allocation + pnl is shares times exit price, holding_ticks is the elapsed seconds / 900 |
| `Trading.ReentryOnSameRow` | main.py:62-101 | a position closed by stop loss or take profit on a row with signal 1 reopens on that row at its close, with all the cash the exit released (shares * close > 0) |
| `Trading.FlatRowsChangeNothing` | main.py:62-101 | with nothing held, rows without a buy signal change nothing |
| `Trading.FirstBuyTakesAllCash` | main.py:92-101 | from a flat book with cash, the first row with signal 1 opens the only position with all the cash, and no trade is emitted before it |
| `Trading.HeldPositionBlocksEntries` | main.py:92 | while the one open position does not exit, every row (buys of other tickers included) changes nothing |
| `Ledger.InsertByEntry` | main.py:103 | inserting a trade adds exactly that trade (as a multiset) |
| `Ledger.SortByEntry` | main.py:103 | the sort by `entry_datetime` is a permutation of the trades |
| `Ledger.InsertKeepsSorted` | main.py:103 | inserting into a ledger in entry order keeps it in entry order |
| `Ledger.SortByEntrySorted` | main.py:103 | the sorted ledger is in entry order |
| `Ledger.SortByEntryOfSorted` | main.py:103 | a ledger already in entry order sorts to itself |
| `Ledger.LedgerAsWritten` | main.py:103 | as written, building and sorting the frame fails iff there are no trades |
| `Ledger.FinalLedger` | main.py:103 | as intended, the final ledger is a permutation of the trades in entry order, and equals them when they are already in order (the empty ledger included) |
| `Simulator.Portfolio.constructor` | main.py:51-53 | a new portfolio has cash = initial cash, no positions, an empty ledger, and satisfies the invariant |
| `Simulator.Portfolio.Step` | main.py:55-101 | one loop iteration updates cash, held and trades in place exactly as `Trading.Step` and keeps the invariant |
| `Simulator.Simulate` | main.py:39-103 | on rows sorted by (timestamp, ticker) with positive closes, the returned ledger is the corrected one of `Ledger.FinalLedger` (the run's trades after the sort by entry time, and `[]` where main.py:103 raises `KeyError` on an empty ledger); it equals the trades of `Run` from `initial_cash` and is in entry order |
| `Scenarios.SellSignalExit` | main.py:62-101 | buy at 100, hold at 110, sell at 90 with 1000 cash: one trade of -10 % and pnl -100, labelled "Strategy logic" though the stop loss is breached too; final cash 900 |
| `Scenarios.StopLossExit` | main.py:62-89 | entry at 100, hold at 94, stop loss 5 %: exit "Stop loss raised" with return -6 % |
| `Scenarios.TakeProfitExit` | main.py:62-89 | entry at 100, hold at 116, take profit 15 %: exit "Stop gain raised" with return 16 % |
| `Scenarios.SimultaneousBuys` | main.py:50-101 | "A" and "B" both buy at the same timestamp; "A" sorts first, takes all the cash, and "B" opens nothing |
| `Scenarios.OpenOnlyRunRaises` | main.py:103 | a run whose only position is still open at the end has an empty ledger; as written the final sort raises `KeyError: 'entry_datetime'`, the corrected ledger is empty |

## Left out

- Fetching bars and credentials (main.py:177-195): network and file I/O. Rows are inputs.
- Loading the strategy configuration (main.py:137-174): JSON file reading and
  reshaping. The windows, the risk fractions and the initial cash are parameters.
  `rebalance` and `sizing` are never read by the simulator.
- RSI, MACD and Bollinger bands (main.py:116-125): these call an external indicator
  library whose code is not part of this model. The only effect modelled is that
  these columns do not take part in the row drop.
- Predicate evaluation with `pd.eval` (main.py:201-202): a generic expression
  evaluator. The per-row buy and sell booleans are inputs.
- Rounding of the trade record (main.py:75-80): the ledger stores rounded copies of
  prices, return, pnl, cash and shares, while cash is updated with the unrounded pnl
  (main.py:88), so this rounding never feeds back into the state. The model keeps the
  record's fields exact.
- Indicators.WithMovingAverages: does not model the rounding of the moving averages
  to 4 decimals (main.py:128). That rounding changes the values the buy and sell
  predicates read. The model keeps the averages exact, and the predicates' booleans
  are inputs.
- Floating-point arithmetic: prices, cash and PnL are exact reals. `cash - cash` is
  exactly 0 both in floats and here.
- Pandas mechanics: `groupby`/`apply` partitioning, `iterrows` and the CSV output
  (main.py:132, 208, 217). The indicator stage takes the per-ticker groups as a
  sequence of time-ordered bar series. `Simulate` takes rows already sorted by
  `(timestamp, ticker)` as a precondition, rather than performing the sort of
  main.py:50.
- Ledger sort stability: `sort_values` uses an unstable sort by default. The model
  uses a stable sort. The ledger is proved already in entry order. Two trades with
  the same entry time need duplicate `(timestamp, ticker)` rows; their relative order
  under pandas' sort is not modelled.
- Windows of 0: `WithMovingAverages`, `RollingMean` and `ComputeMovingAverages`
  require windows of at least 1.
- Closes: the simulator requires positive closes, since it divides by the entry price.
- pdfgen.py: report rendering and file output.

## Findings

| source | as written | input that shows it | evidently intended | confidence | as-written member | corrected member |
|---|---|---|---|---|---|---|
| main.py:103 | `pd.DataFrame(trades).sort_values(by='entry_datetime')` on an empty `trades` list sorts a frame that has no columns, which raises `KeyError` | any run that closes no trade, e.g. one buy row at 100 followed by a hold at 101 (`Scenarios.OpenOnlyRunRaises`) | return an empty ledger when no trade closed | high (pandas semantics; not executed) | `Ledger.LedgerAsWritten` | `Ledger.FinalLedger` |
