/**
 * The signal column of the signal evaluator. The buy and sell predicates are taken
 * as given boolean columns; the column starts at 0, the buy mask writes 1 and then
 * the sell mask writes -1, so a sell overrides a buy on the same bar.
 */
module Signals {

  const BuySignal: int := 1
  const SellSignal: int := -1
  const HoldSignal: int := 0

  /** `col.loc[mask] = v`: the masked assignment on a column. */
  function Mask(col: seq<int>, mask: seq<bool>, v: int): (r: seq<int>)
    requires |col| == |mask|
    ensures |r| == |col|
    ensures forall i :: 0 <= i < |r| && mask[i] ==> r[i] == v
    ensures forall i :: 0 <= i < |r| && !mask[i] ==> r[i] == col[i]
    decreases |col|
  {
    if col == [] then []
    else
      [if mask[0] then v else col[0]] + Mask(col[1..], mask[1..], v)
  }

  /** A column of `n` zeros. */
  function Zeros(n: nat): (r: seq<int>)
    ensures |r| == n
  {
    seq(n, _ => HoldSignal)
  }

  /**
   * The signal column: zeros, then the buy mask, then the sell mask. The tie-break,
   * both directions: a bar is -1 exactly when sell holds, 1 exactly when buy holds
   * and sell does not, and 0 exactly when neither holds.
   */
  function Signals(buy: seq<bool>, sell: seq<bool>): (r: seq<int>)
    requires |buy| == |sell|
    ensures |r| == |buy|
    ensures forall i :: 0 <= i < |r| ==> (r[i] == SellSignal <==> sell[i])
    ensures forall i :: 0 <= i < |r| ==> (r[i] == BuySignal <==> buy[i] && !sell[i])
    ensures forall i :: 0 <= i < |r| ==> (r[i] == HoldSignal <==> !buy[i] && !sell[i])
  {
    Mask(Mask(Zeros(|buy|), buy, BuySignal), sell, SellSignal)
  }
}
