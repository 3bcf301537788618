/** Logic/Rule/NakedSingle.cs: a square with a single candidate is solved
    by that candidate. */
module NakedSingleRule {
  import opened Grid
  import opened Steps
  import opened Text

  predicate IsNakedSingle(b: Board, p: Pos)
  {
    |Cands(b, p)| == 1
  }

  function Explanation(n: int): string
  {
    "The number " + IntToString(n) + " is the only number that can go in this square."
  }

  /** The first square in row-major order with exactly one candidate,
      reported as solved with that candidate. */
  function Run(b: Board): (s: SolveStep)
    ensures s.rule == Rule.NakedSingle
    ensures !s.removedInHighlighted && !s.removedInNonHighlighted
    ensures s.solved <==> exists p :: IsNakedSingle(b, p)
    ensures s.solved ==>
              0 <= s.row < 9 && 0 <= s.column < 9
              && Cands(b, Pos(s.row, s.column)) == {s.number}
              && s.explanation == Explanation(s.number)
              && s.highlighted == {} && s.removedSquares == {} && s.removedNumbers == []
              && forall q :: Before(q, Pos(s.row, s.column)) ==> !IsNakedSingle(b, q)
    ensures !s.solved ==> s == Blank(Rule.NakedSingle)
  {
    var ps := AllPositions();
    var i := FirstHit(ps, p => IsNakedSingle(b, p));
    if i < |ps| then
      var p := ps[i];
      var n := Sole(Cands(b, p));
      assert forall q :: Before(q, p) ==> !IsNakedSingle(b, q) by {
        forall q | Before(q, p)
          ensures !IsNakedSingle(b, q)
        {
          AllPositionsIndex(q);
          AllPositionsOrder(9 * q.row + q.col, i);
        }
      }
      SolveStep(Rule.NakedSingle, true, n, p.row, p.col, Explanation(n), {}, {}, [], false, false)
    else
      assert forall q :: !IsNakedSingle(b, q) by {
        forall q
          ensures !IsNakedSingle(b, q)
        {
          AllPositionsIndex(q);
        }
      }
      Blank(Rule.NakedSingle)
  }
}
