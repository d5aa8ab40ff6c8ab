/**
 * The final ledger: `pd.DataFrame(trades).sort_values(by='entry_datetime')`.
 * The sort is modelled as a stable insertion sort on entry time.
 */
module Ledger {
  import opened Wrappers
  import opened Trading

  /** Insert `t` after every trade that entered no later than it. */
  function InsertByEntry(t: Trade, s: seq<Trade>): (r: seq<Trade>)
    ensures multiset(r) == multiset(s) + multiset{t}
    decreases |s|
  {
    if s == [] || s[|s| - 1].entryTime <= t.entryTime then s + [t]
    else
      var n := |s| - 1;
      assert s == s[..n] + [s[n]];
      InsertByEntry(t, s[..n]) + [s[n]]
  }

  /** Stable sort by entry time. */
  function SortByEntry(s: seq<Trade>): (r: seq<Trade>)
    ensures multiset(r) == multiset(s)
    decreases |s|
  {
    if s == [] then []
    else
      var n := |s| - 1;
      assert s == s[..n] + [s[n]];
      InsertByEntry(s[n], SortByEntry(s[..n]))
  }

  /** Inserting keeps every entry time at most `bound` if it was before. */
  lemma {:induction false} InsertBelow(t: Trade, s: seq<Trade>, bound: int)
    requires t.entryTime <= bound
    requires forall i :: 0 <= i < |s| ==> s[i].entryTime <= bound
    ensures forall i :: 0 <= i < |InsertByEntry(t, s)| ==> InsertByEntry(t, s)[i].entryTime <= bound
    decreases |s|
  {
    if s != [] && s[|s| - 1].entryTime > t.entryTime {
      InsertBelow(t, s[..|s| - 1], bound);
    }
  }

  lemma {:induction false} InsertKeepsSorted(t: Trade, s: seq<Trade>)
    requires SortedByEntry(s)
    ensures SortedByEntry(InsertByEntry(t, s))
    decreases |s|
  {
    if s != [] && s[|s| - 1].entryTime > t.entryTime {
      var n := |s| - 1;
      var front := InsertByEntry(t, s[..n]);
      InsertKeepsSorted(t, s[..n]);
      InsertBelow(t, s[..n], s[n].entryTime);
      assert InsertByEntry(t, s) == front + [s[n]];
    }
  }

  /** The sorted ledger is in entry order. */
  lemma {:induction false} SortByEntrySorted(s: seq<Trade>)
    ensures SortedByEntry(SortByEntry(s))
    decreases |s|
  {
    if s != [] {
      var n := |s| - 1;
      SortByEntrySorted(s[..n]);
      InsertKeepsSorted(s[n], SortByEntry(s[..n]));
    }
  }

  /** A ledger already in entry order is returned as it is. */
  lemma {:induction false} SortByEntryOfSorted(s: seq<Trade>)
    ensures SortedByEntry(s) ==> SortByEntry(s) == s
    decreases |s|
  {
    if s != [] && SortedByEntry(s) {
      var n := |s| - 1;
      assert SortedByEntry(s[..n]);
      SortByEntryOfSorted(s[..n]);
      assert s[..n] + [s[n]] == s;
    }
  }

  /** `KeyError`, as pandas raises it for a missing column. */
  datatype LedgerError = KeyError(column: string)

  /**
   * Line 103 as written: a DataFrame built from an empty list has no columns, so
   * sorting it by `entry_datetime` raises instead of returning an empty ledger.
   */
  function LedgerAsWritten(trades: seq<Trade>): (r: Result<seq<Trade>, LedgerError>)
    ensures r.Failure? <==> trades == []
  {
    if trades == [] then Failure(KeyError("entry_datetime")) else Success(SortByEntry(trades))
  }

  /** The ledger as evidently intended: every list of trades, the empty one included, sorts. */
  function FinalLedger(trades: seq<Trade>): (r: seq<Trade>)
    ensures multiset(r) == multiset(trades) && SortedByEntry(r)
    ensures SortedByEntry(trades) ==> r == trades
  {
    SortByEntrySorted(trades);
    SortByEntryOfSorted(trades);
    SortByEntry(trades)
  }
}
