/**
 * The moving-average part of the indicator engine: per ticker, the short and the
 * long simple moving average of the close, followed by dropping every row where
 * either average is still undefined.
 *
 * The rolling mean is computed the way a streaming rolling window does it: a running
 * window sum that adds the newest close and subtracts the close that just left the
 * window. `RollingMeanIsTrailingMean` proves that this equals the arithmetic mean of
 * the trailing `w` closes.
 */
module Indicators {
  import opened Wrappers

  /** One price bar of one ticker; only the fields the averages use. */
  datatype Bar = Bar(ticker: string, timestamp: int, close: real)

  /** A bar with its two moving averages attached (None while warming up). */
  datatype IndicatorRow = IndicatorRow(bar: Bar, shortMa: Option<real>, longMa: Option<real>)

  /** Sum of a sequence, from the front. */
  function Sum(s: seq<real>): real
  {
    if s == [] then 0.0 else s[0] + Sum(s[1..])
  }

  /** Arithmetic mean of a non-empty sequence. */
  function Mean(s: seq<real>): real
    requires |s| > 0
  {
    Sum(s) / (|s| as real)
  }

  lemma {:induction false} SumAppend(s: seq<real>, x: real)
    ensures Sum(s + [x]) == Sum(s) + x
  {
    if s == [] {
      assert s + [x] == [x];
    } else {
      assert (s + [x])[1..] == s[1..] + [x];
      SumAppend(s[1..], x);
    }
  }

  /**
   * Running window sums: element `t` is built from element `t - 1` by adding
   * `c[t]` and, once the window is full, subtracting `c[t - w]`.
   */
  function WindowSums(c: seq<real>, w: nat): (r: seq<real>)
    requires w >= 1
    ensures |r| == |c|
    decreases |c|
  {
    if c == [] then []
    else
      var n := |c| - 1;
      var prev := WindowSums(c[..n], w);
      var before := if n == 0 then 0.0 else prev[n - 1];
      prev + [before + c[n] - (if n >= w then c[n - w] else 0.0)]
  }

  /** First index of the window ending at `t`: `t - w + 1`, clipped at 0. */
  function WindowStart(t: nat, w: nat): nat
  {
    if t + 1 >= w then t + 1 - w else 0
  }

  /** One unfolding of `WindowSums`: the prefix, and the newest element. */
  lemma WindowSumsUnfold(c: seq<real>, w: nat)
    requires w >= 1 && |c| > 0
    ensures var n := |c| - 1;
            WindowSums(c, w)[..n] == WindowSums(c[..n], w)
            && WindowSums(c, w)[n]
               == (if n == 0 then 0.0 else WindowSums(c[..n], w)[n - 1]) + c[n] - (if n >= w then c[n - w] else 0.0)
  {
  }

  /** Sliding the window one place: add the new close, drop the one leaving. */
  lemma SlideWindow(c: seq<real>, w: nat, n: nat)
    requires w >= 1 && 0 < n < |c|
    ensures Sum(c[WindowStart(n, w)..n + 1])
            == Sum(c[WindowStart(n - 1, w)..n]) + c[n] - (if n >= w then c[n - w] else 0.0)
  {
    var a, b := WindowStart(n, w), WindowStart(n - 1, w);
    assert c[b..n + 1] == c[b..n] + [c[n]];
    SumAppend(c[b..n], c[n]);
    if n >= w {
      assert a == b + 1 && b == n - w;
      assert c[b..n + 1][1..] == c[a..n + 1];
    }
  }

  /** Running sums of a prefix are the prefix of the running sums. */
  lemma {:induction false} WindowSumsPrefix(c: seq<real>, w: nat, m: nat)
    requires w >= 1 && m <= |c|
    ensures WindowSums(c[..m], w) == WindowSums(c, w)[..m]
    decreases |c|
  {
    if m < |c| {
      var n := |c| - 1;
      WindowSumsUnfold(c, w);
      WindowSumsPrefix(c[..n], w, m);
      assert c[..n][..m] == c[..m];
      assert WindowSums(c, w)[..n][..m] == WindowSums(c, w)[..m];
    } else {
      assert c[..m] == c;
    }
  }

  /** The newest running sum is the sum of the (clipped) trailing window. */
  lemma {:induction false} WindowSumsLast(c: seq<real>, w: nat)
    requires w >= 1 && |c| >= 1
    ensures WindowSums(c, w)[|c| - 1] == Sum(c[WindowStart(|c| - 1, w)..|c|])
    decreases |c|
  {
    var n := |c| - 1;
    if n == 0 {
      WindowSumsUnfold(c, w);
      assert c[0..1] == [c[0]];
    } else {
      WindowSumsLast(c[..n], w);
      WindowSumsNewest(c, w);
    }
  }

  /** The newest running sum is the trailing window sum, given that the previous one is. */
  lemma WindowSumsNewest(c: seq<real>, w: nat)
    requires w >= 1 && |c| >= 2
    requires var n := |c| - 1;
             WindowSums(c[..n], w)[n - 1] == Sum(c[..n][WindowStart(n - 1, w)..n])
    ensures WindowSums(c, w)[|c| - 1] == Sum(c[WindowStart(|c| - 1, w)..|c|])
  {
    var n := |c| - 1;
    WindowSumsUnfold(c, w);
    assert c[..n][WindowStart(n - 1, w)..n] == c[WindowStart(n - 1, w)..n];
    SlideWindow(c, w, n);
  }

  /** The running sum at `t` is the sum of the (clipped) trailing window ending at `t`. */
  lemma WindowSumsAt(c: seq<real>, w: nat, t: nat)
    requires w >= 1 && t < |c|
    ensures WindowSums(c, w)[t] == Sum(c[WindowStart(t, w)..t + 1])
  {
    var d := c[..t + 1];
    WindowSumsPrefix(c, w, t + 1);
    WindowSumsLast(d, w);
    assert d[WindowStart(t, w)..t + 1] == c[WindowStart(t, w)..t + 1];
  }

  /**
   * `close.rolling(w).mean()`: undefined until `w` closes exist, then the window
   * sum divided by `w`.
   */
  function RollingMean(c: seq<real>, w: nat): (r: seq<Option<real>>)
    requires w >= 1
    ensures |r| == |c|
    ensures forall t :: 0 <= t < |c| ==> (r[t].None? <==> t + 1 < w)
  {
    var sums := WindowSums(c, w);
    seq(|c|, t requires 0 <= t < |c| => if t + 1 < w then None else Some(sums[t] / (w as real)))
  }

  /** Rolling mean at `t`: None exactly when `t < w - 1`, else the mean of `c[t-w+1..t]`. */
  lemma RollingMeanIsTrailingMean(c: seq<real>, w: nat, t: nat)
    requires w >= 1 && t < |c|
    ensures RollingMean(c, w)[t].None? <==> t + 1 < w
    ensures t + 1 >= w ==> RollingMean(c, w)[t] == Some(Mean(c[t + 1 - w..t + 1]))
  {
    if t + 1 >= w {
      WindowSumsAt(c, w, t);
      assert |c[t + 1 - w..t + 1]| == w;
    }
  }

  /** The closes of a series of bars, in order. */
  function Closes(bars: seq<Bar>): (r: seq<real>)
    ensures |r| == |bars| && forall i :: 0 <= i < |bars| ==> r[i] == bars[i].close
  {
    seq(|bars|, i requires 0 <= i < |bars| => bars[i].close)
  }

  /** One ticker's time-ordered bars with `short_ma` and `long_ma` attached. */
  function WithMovingAverages(group: seq<Bar>, shortWindow: nat, longWindow: nat): (r: seq<IndicatorRow>)
    requires shortWindow >= 1 && longWindow >= 1
    ensures |r| == |group|
    ensures forall t :: 0 <= t < |group| ==>
      r[t].bar == group[t] &&
      (r[t].shortMa.None? <==> t + 1 < shortWindow) &&
      (r[t].longMa.None? <==> t + 1 < longWindow) &&
      (t + 1 >= shortWindow ==> r[t].shortMa == Some(Mean(Closes(group)[t + 1 - shortWindow..t + 1]))) &&
      (t + 1 >= longWindow ==> r[t].longMa == Some(Mean(Closes(group)[t + 1 - longWindow..t + 1])))
  {
    var c := Closes(group);
    var s := RollingMean(c, shortWindow);
    var l := RollingMean(c, longWindow);
    forall t | 0 <= t < |group|
      ensures (s[t].None? <==> t + 1 < shortWindow) && (l[t].None? <==> t + 1 < longWindow)
      ensures t + 1 >= shortWindow ==> s[t] == Some(Mean(c[t + 1 - shortWindow..t + 1]))
      ensures t + 1 >= longWindow ==> l[t] == Some(Mean(c[t + 1 - longWindow..t + 1]))
    {
      RollingMeanIsTrailingMean(c, shortWindow, t);
      RollingMeanIsTrailingMean(c, longWindow, t);
    }
    seq(|group|, t requires 0 <= t < |group| => IndicatorRow(group[t], s[t], l[t]))
  }

  predicate Complete(row: IndicatorRow)
  {
    row.shortMa.Some? && row.longMa.Some?
  }

  /** `dropna(subset=['short_ma', 'long_ma'])`: keep the complete rows, in order. */
  function DropIncomplete(rows: seq<IndicatorRow>): (r: seq<IndicatorRow>)
    ensures forall i :: 0 <= i < |r| ==> Complete(r[i])
    ensures forall x :: x in r <==> x in rows && Complete(x)
    ensures |r| <= |rows|
  {
    if rows == [] then []
    else if Complete(rows[0]) then [rows[0]] + DropIncomplete(rows[1..])
    else DropIncomplete(rows[1..])
  }

  /** Every row of the sequence is complete: dropping keeps them all. */
  lemma {:induction false} DropIncompleteKeepsComplete(rows: seq<IndicatorRow>)
    requires forall i :: 0 <= i < |rows| ==> Complete(rows[i])
    ensures DropIncomplete(rows) == rows
  {
    if rows != [] {
      var rest := rows[1..];
      assert Complete(rows[0]);
      assert forall i :: 0 <= i < |rest| ==> rest[i] == rows[i + 1];
      DropIncompleteKeepsComplete(rest);
      assert [rows[0]] + rest == rows;
    }
  }

  /** Incomplete rows up to `cut`, complete ones after: exactly the suffix survives. */
  lemma {:induction false} DropIncompleteSplit(rows: seq<IndicatorRow>, cut: nat)
    requires cut <= |rows|
    requires forall i :: 0 <= i < cut ==> !Complete(rows[i])
    requires forall i :: cut <= i < |rows| ==> Complete(rows[i])
    ensures DropIncomplete(rows) == rows[cut..]
    decreases cut
  {
    if cut == 0 {
      DropIncompleteKeepsComplete(rows);
    } else {
      var rest := rows[1..];
      assert forall i :: 0 <= i < |rest| ==> rest[i] == rows[i + 1];
      DropIncompleteSplit(rest, cut - 1);
      assert rest[cut - 1..] == rows[cut..];
    }
  }

  /** Rows whose averages are undefined exactly during the first `k` positions. */
  lemma DropWarmupPrefix(rows: seq<IndicatorRow>, shortWindow: nat, longWindow: nat)
    requires shortWindow >= 1 && longWindow >= 1
    requires forall t :: 0 <= t < |rows| ==>
      (rows[t].shortMa.None? <==> t + 1 < shortWindow) && (rows[t].longMa.None? <==> t + 1 < longWindow)
    ensures var k := if shortWindow >= longWindow then shortWindow - 1 else longWindow - 1;
            DropIncomplete(rows) == if |rows| <= k then [] else rows[k..]
  {
    var k := if shortWindow >= longWindow then shortWindow - 1 else longWindow - 1;
    var cut := if |rows| <= k then |rows| else k;
    DropIncompleteSplit(rows, cut);
  }

  /** One ticker's rows after the warm-up: from index max(short, long) - 1 on, or none. */
  function AfterWarmup(group: seq<Bar>, shortWindow: nat, longWindow: nat): seq<IndicatorRow>
    requires shortWindow >= 1 && longWindow >= 1
  {
    var rows := WithMovingAverages(group, shortWindow, longWindow);
    var k := if shortWindow >= longWindow then shortWindow - 1 else longWindow - 1;
    if |rows| <= k then [] else rows[k..]
  }

  /**
   * For one ticker, the rows that survive are exactly the bars from index
   * `max(shortWindow, longWindow) - 1` on, in their original order.
   */
  lemma WarmupRowsDropped(group: seq<Bar>, shortWindow: nat, longWindow: nat)
    requires shortWindow >= 1 && longWindow >= 1
    ensures DropIncomplete(WithMovingAverages(group, shortWindow, longWindow)) == AfterWarmup(group, shortWindow, longWindow)
  {
    DropWarmupPrefix(WithMovingAverages(group, shortWindow, longWindow), shortWindow, longWindow);
  }

  /** Every group's rows after the warm-up, concatenated in group order. */
  function AllAfterWarmup(groups: seq<seq<Bar>>, shortWindow: nat, longWindow: nat): seq<IndicatorRow>
    requires shortWindow >= 1 && longWindow >= 1
  {
    if groups == [] then []
    else AfterWarmup(groups[0], shortWindow, longWindow) + AllAfterWarmup(groups[1..], shortWindow, longWindow)
  }

  /**
   * The moving-average stage over all tickers: each group is one ticker's bars in
   * time order; the groups' surviving rows are concatenated.
   */
  function ComputeMovingAverages(groups: seq<seq<Bar>>, shortWindow: nat, longWindow: nat): (r: seq<IndicatorRow>)
    requires shortWindow >= 1 && longWindow >= 1
    ensures forall i :: 0 <= i < |r| ==> Complete(r[i])
    ensures r == AllAfterWarmup(groups, shortWindow, longWindow)
    decreases |groups|
  {
    if groups == [] then []
    else
      WarmupRowsDropped(groups[0], shortWindow, longWindow);
      DropIncomplete(WithMovingAverages(groups[0], shortWindow, longWindow))
      + ComputeMovingAverages(groups[1..], shortWindow, longWindow)
  }

  /** A row survives the stage iff it is a complete row of one of the groups. */
  lemma {:induction false} ComputeMovingAveragesMembers(groups: seq<seq<Bar>>, shortWindow: nat, longWindow: nat, x: IndicatorRow)
    requires shortWindow >= 1 && longWindow >= 1
    ensures x in ComputeMovingAverages(groups, shortWindow, longWindow)
        <==> exists g :: g in groups && x in WithMovingAverages(g, shortWindow, longWindow) && Complete(x)
    decreases |groups|
  {
    if groups != [] {
      var tail := groups[1..];
      ComputeMovingAveragesMembers(tail, shortWindow, longWindow, x);
      assert forall g :: g in groups <==> g == groups[0] || g in tail;
    }
  }

  /** A worked case: closes [1, 2, 3, 4] with window 3 give [undefined, undefined, 2, 3]. */
  lemma SmaExample()
    ensures RollingMean([1.0, 2.0, 3.0, 4.0], 3) == [None, None, Some(2.0), Some(3.0)]
  {
    var c := [1.0, 2.0, 3.0, 4.0];
    var r := RollingMean(c, 3);
    RollingMeanIsTrailingMean(c, 3, 0);
    RollingMeanIsTrailingMean(c, 3, 1);
    RollingMeanIsTrailingMean(c, 3, 2);
    RollingMeanIsTrailingMean(c, 3, 3);
    assert c[0..3] == [1.0, 2.0, 3.0];
    assert c[1..4] == [2.0, 3.0, 4.0];
    assert Sum([3.0]) == 3.0;
    assert Sum([4.0]) == 4.0;
    assert Sum([2.0, 3.0]) == 5.0;
    assert Sum([3.0, 4.0]) == 7.0;
    assert Sum([1.0, 2.0, 3.0]) == 6.0;
    assert Sum([2.0, 3.0, 4.0]) == 9.0;
    assert r[2] == Some(2.0) && r[3] == Some(3.0);
  }
}
