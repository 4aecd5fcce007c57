/**
 * `computeStats`, the per-piece figures shown in the table of available
 * pieces, in the single-time-budget variant: a piece may be bought while the
 * current age plus its time cost stays within the 53 time spaces of the
 * board. The two ratios are exact quotients (the table rounds them with
 * `toFixed(2)` for display only).
 */
module Scoring {
  import opened Pieces

  /** Total time spaces on the board. */
  const TotalTime := 53

  datatype Stats = Stats(
    area: int,
    pointsPerCost: real,
    pointsPerCostPerArea: real,
    netPoints: int,
    valid: bool)

  /** `computeStats(piece)` at the current age `currentAge`. The ratios fall
      back to the plain button count (cost 0) or to 0 (cost or area 0), so no
      figure ever divides by zero. */
  function ComputeStats(piece: Piece, currentAge: int): (st: Stats)
    ensures st.area == |piece.shape|
    ensures st.netPoints == piece.buttons - piece.cost
    ensures piece.cost != 0 ==> st.pointsPerCost * piece.cost as real == piece.buttons as real
    ensures piece.cost == 0 ==> st.pointsPerCost == piece.buttons as real
    ensures piece.cost != 0 && st.area != 0 ==>
              st.pointsPerCostPerArea * (piece.cost * st.area) as real == piece.buttons as real
    ensures piece.cost == 0 || st.area == 0 ==> st.pointsPerCostPerArea == 0.0
    ensures st.valid <==> currentAge + piece.time <= TotalTime
  {
    var area := |piece.shape|;
    var pointsPerCost :=
      if piece.cost != 0 then piece.buttons as real / piece.cost as real else piece.buttons as real;
    var pointsPerCostPerArea :=
      if piece.cost != 0 && area != 0 then piece.buttons as real / (piece.cost * area) as real else 0.0;
    var netPoints := piece.buttons - piece.cost;
    var remaining := TotalTime - currentAge - piece.time;
    Stats(area, pointsPerCost, pointsPerCostPerArea, netPoints, remaining >= 0)
  }

  /** A piece that cannot be bought at some age cannot be bought at any later
      age either. */
  lemma {:induction false} ValidityOnlyExpires(piece: Piece, age: int, later: int)
    requires age <= later
    ensures ComputeStats(piece, later).valid ==> ComputeStats(piece, age).valid
  {
  }
}
