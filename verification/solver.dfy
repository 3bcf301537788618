/** The backtracking solvers SudokuSolver.Solve and its twin
    Logic/SudokuSolver.Solve: fill the first empty square (0) in row-major
    order with the smallest digit the safety test allows, recurse, and on
    failure reset the square and try the next digit. The C# solvers fill
    the array in place; here Solve returns the verdict with the grid as the
    call leaves it. */
module Solver {
  import opened Wrappers
  import opened Grid
  import BoardHelpers

  /** The empty squares. */
  ghost function ZeroSet(g: Numbers): set<Pos>
  {
    set p | p in AllPositions() && Get(g, p) == 0
  }

  /** No square is empty. */
  ghost predicate Full(g: Numbers)
  {
    forall p :: Get(g, p) != 0
  }

  /** The first empty square in row-major order, if any. */
  function FirstZero(g: Numbers): (r: Option<Pos>)
    ensures r.None? <==> Full(g)
    ensures r.Some? ==> Get(g, r.value) == 0 && forall q :: Before(q, r.value) ==> Get(g, q) != 0
  {
    var ps := AllPositions();
    var i := FirstHit(ps, (p: Pos) => Get(g, p) == 0);
    if i < 81 then
      forall q | Before(q, ps[i])
        ensures Get(g, q) != 0
      {
        AllPositionsIndex(q);
        AllPositionsOrder(9 * q.row + q.col, i);
      }
      Some(ps[i])
    else
      forall q
        ensures Get(g, q) != 0
      {
        AllPositionsIndex(q);
      }
      None
  }

  /** SudokuSolver.IsSafe: n is in none of p's row, column and box, p
      itself included. */
  function IsSafe(g: Numbers, p: Pos, n: int): (safe: bool)
    ensures safe <==> forall q :: Peers(p, q) ==> Get(g, q) != n
  {
    BoardHelpers.NumberNotInRowColumnBox(g, p, n)
  }

  /** The safety test the solver calls. */
  type SafeTest = (Numbers, Pos, int) -> bool

  /** Filling an empty square leaves one empty square fewer: the measure
      that makes the recursion end. */
  lemma FewerZeros(g: Numbers, p: Pos, n: int)
    requires Get(g, p) == 0 && n != 0
    ensures |ZeroSet(Put(g, p, n))| < |ZeroSet(g)|
  {
    AllPositionsIndex(p);
    assert ZeroSet(Put(g, p, n)) == ZeroSet(g) - {p};
  }

  /** Resetting a square that was empty gives the grid back. */
  lemma ResetRestores(g: Numbers, p: Pos, n: int)
    requires Get(g, p) == 0
    ensures Put(Put(g, p, n), p, 0) == g
  {
    Extensionality(Put(Put(g, p, n), p, 0), g);
  }

  /** Solve: a full grid is solved as it stands; otherwise the first empty
      square is tried with the digits from 1. */
  function Solve(safe: SafeTest, g: Numbers): (r: (bool, Numbers))
    decreases |ZeroSet(g)|, 10
    ensures r.0 ==> Full(r.1)
    ensures !r.0 ==> r.1 == g
    ensures forall p :: Get(g, p) != 0 ==> Get(r.1, p) == Get(g, p)
    ensures forall p :: Get(r.1, p) != Get(g, p) ==> 1 <= Get(r.1, p) <= 9
    ensures Full(g) ==> r == (true, g)
  {
    match FirstZero(g)
    case None => (true, g)
    case Some(p) => TryFrom(safe, g, p, 1)
  }

  /** The digit loop at the empty square p, from num on: a safe digit is
      placed and the rest solved; if that fails the square is reset to 0
      and the next digit tried; past 9 the call fails. */
  function TryFrom(safe: SafeTest, g: Numbers, p: Pos, num: int): (r: (bool, Numbers))
    requires Get(g, p) == 0 && 1 <= num <= 10
    decreases |ZeroSet(g)|, 10 - num
    ensures r.0 ==> Full(r.1)
    ensures !r.0 ==> r.1 == g
    ensures forall q :: Get(g, q) != 0 ==> Get(r.1, q) == Get(g, q)
    ensures forall q :: Get(r.1, q) != Get(g, q) ==> 1 <= Get(r.1, q) <= 9
  {
    if num == 10 then (false, g)
    else if safe(g, p, num) then
      var placed := Put(g, p, num);
      FewerZeros(g, p, num);
      var r := Solve(safe, placed);
      if r.0 then r
      else
        var reset := Put(r.1, p, 0);
        ResetRestores(g, p, num);
        TryFrom(safe, reset, p, num + 1)
    else
      TryFrom(safe, g, p, num + 1)
  }

  /** Logic/SudokuSolver.Solve: the same algorithm over the safety test of
      Logic/Helpers/GridHelper.cs, which is not part of this model and is
      therefore a parameter. */
  function LogicSolve(gridHelperIsSafe: SafeTest, grid: Numbers): (r: (bool, Numbers))
    ensures r.0 ==> Full(r.1)
    ensures !r.0 ==> r.1 == grid
    ensures forall p :: Get(grid, p) != 0 ==> Get(r.1, p) == Get(grid, p)
    ensures Full(grid) ==> r == (true, grid)
  {
    Solve(gridHelperIsSafe, grid)
  }

  // ---------------------------------------------------------------------
  // Soundness and completeness of SudokuSolver.Solve

  /** Every square the solver fills (empty in g0) differs from every other
      square of its row, column and box in g. */
  ghost predicate PlacedFit(g0: Numbers, g: Numbers)
  {
    forall p, q :: Get(g0, p) == 0 && Peers(p, q) && p != q ==> Get(g, q) != Get(g, p)
  }

  /** A valid grid: every square holds a digit, and no two squares of a
      row, column or box hold the same one. */
  ghost predicate Valid(s: Numbers)
  {
    && (forall p :: 1 <= Get(s, p) <= 9)
    && forall p, q :: Peers(p, q) && p != q ==> Get(s, p) != Get(s, q)
  }

  /** The givens are digits and do not clash with each other. */
  ghost predicate GivensFit(g: Numbers)
  {
    && (forall p :: Get(g, p) != 0 ==> 1 <= Get(g, p) <= 9)
    && forall p, q :: Peers(p, q) && p != q && Get(g, p) != 0 && Get(g, q) != 0 ==> Get(g, p) != Get(g, q)
  }

  /** s fills in g: every given of g is in s. */
  ghost predicate Extends(s: Numbers, g: Numbers)
  {
    forall p :: Get(g, p) != 0 ==> Get(s, p) == Get(g, p)
  }

  lemma {:induction false} SolveFits(g: Numbers)
    decreases |ZeroSet(g)|, 10
    ensures Solve(IsSafe, g).0 ==> PlacedFit(g, Solve(IsSafe, g).1)
  {
    match FirstZero(g)
    case None =>
    case Some(p) => TryFromFits(g, p, 1);
  }

  lemma {:induction false} TryFromFits(g: Numbers, p: Pos, num: int)
    requires Get(g, p) == 0 && 1 <= num <= 10
    decreases |ZeroSet(g)|, 10 - num
    ensures TryFrom(IsSafe, g, p, num).0 ==> PlacedFit(g, TryFrom(IsSafe, g, p, num).1)
  {
    if num < 10 {
      if IsSafe(g, p, num) {
        var placed := Put(g, p, num);
        FewerZeros(g, p, num);
        var r := Solve(IsSafe, placed);
        if r.0 {
          SolveFits(placed);
          PlacedStep(g, p, num, r.1);
        } else {
          ResetRestores(g, p, num);
          TryFromFits(g, p, num + 1);
        }
      } else {
        TryFromFits(g, p, num + 1);
      }
    }
  }

  /** A digit placed safely at p, with the rest filled so that every later
      placement fits, fits as well. */
  lemma PlacedStep(g: Numbers, p: Pos, num: int, s: Numbers)
    requires Get(g, p) == 0 && num != 0 && IsSafe(g, p, num)
    requires PlacedFit(Put(g, p, num), s)
    requires forall q :: Get(Put(g, p, num), q) != 0 ==> Get(s, q) == Get(Put(g, p, num), q)
    ensures PlacedFit(g, s)
  {
    var placed := Put(g, p, num);
    assert Get(s, p) == num;
    forall p', q | Get(g, p') == 0 && Peers(p', q) && p' != q
      ensures Get(s, q) != Get(s, p')
    {
      if p' == p {
        if Get(g, q) == 0 {
          assert Get(placed, q) == 0 && Peers(q, p);
        } else {
          assert Get(g, q) != num;
        }
      } else {
        assert Get(placed, p') == 0;
      }
    }
  }

  /** With givens that fit, a solved grid is a valid Sudoku. */
  lemma SolvedIsValid(g: Numbers)
    requires GivensFit(g)
    requires Solve(IsSafe, g).0
    ensures Valid(Solve(IsSafe, g).1)
    ensures Extends(Solve(IsSafe, g).1, g)
  {
    var s := Solve(IsSafe, g).1;
    SolveFits(g);
    forall p, q | Peers(p, q) && p != q
      ensures Get(s, p) != Get(s, q)
    {
      if Get(g, p) == 0 {
      } else if Get(g, q) == 0 {
        assert Peers(q, p);
      }
    }
  }

  /** When the grid can be completed to a valid Sudoku, Solve succeeds:
      the search misses no completion. */
  lemma {:induction false} SolveComplete(g: Numbers, s: Numbers)
    requires Valid(s) && Extends(s, g)
    decreases |ZeroSet(g)|, 10, 2
    ensures Solve(IsSafe, g).0
  {
    match FirstZero(g)
    case None =>
    case Some(p) => TryFromComplete(g, p, 1, s);
  }

  lemma {:induction false} TryFromComplete(g: Numbers, p: Pos, num: int, s: Numbers)
    requires Get(g, p) == 0 && 1 <= num <= Get(s, p)
    requires Valid(s) && Extends(s, g)
    decreases |ZeroSet(g)|, 10 - num, 1
    ensures TryFrom(IsSafe, g, p, num).0
  {
    if num == Get(s, p) {
      TryFromHit(g, p, s);
    } else {
      TryFromMiss(g, p, num, s);
    }
  }

  /** At the completion's own digit the search places it, and the rest of
      the grid can then be completed as well. */
  lemma {:induction false} TryFromHit(g: Numbers, p: Pos, s: Numbers)
    requires Get(g, p) == 0
    requires Valid(s) && Extends(s, g)
    decreases |ZeroSet(g)|, 10 - Get(s, p), 0
    ensures TryFrom(IsSafe, g, p, Get(s, p)).0
  {
    var num := Get(s, p);
    assert 1 <= num <= 9;
    CompletionIsSafe(g, p, s);
    FewerZeros(g, p, num);
    ExtendsPlaced(g, p, s);
    SolveComplete(Put(g, p, num), s);
    PlaceSucceeds(g, p, num);
  }

  /** A completion of g also completes g with one of its own digits
      placed. */
  lemma ExtendsPlaced(g: Numbers, p: Pos, s: Numbers)
    requires Extends(s, g)
    ensures Extends(s, Put(g, p, Get(s, p)))
  {
  }

  /** Below the completion's digit the search either succeeds at once or
      goes on to the next digit. */
  lemma {:induction false} TryFromMiss(g: Numbers, p: Pos, num: int, s: Numbers)
    requires Get(g, p) == 0 && 1 <= num < Get(s, p)
    requires Valid(s) && Extends(s, g)
    decreases |ZeroSet(g)|, 10 - num, 0
    ensures TryFrom(IsSafe, g, p, num).0
  {
    TryFromComplete(g, p, num + 1, s);
    NextDigit(g, p, num);
  }

  /** A safe digit whose placement leads to a solution ends the loop with
      success. */
  lemma PlaceSucceeds(g: Numbers, p: Pos, num: int)
    requires Get(g, p) == 0 && 1 <= num <= 9
    requires IsSafe(g, p, num)
    requires Solve(IsSafe, Put(g, p, num)).0
    ensures TryFrom(IsSafe, g, p, num).0
  {
  }

  /** One turn of the digit loop: it succeeds, or the loop goes on from the
      next digit with the grid as it was. */
  lemma NextDigit(g: Numbers, p: Pos, num: int)
    requires Get(g, p) == 0 && 1 <= num <= 9
    ensures TryFrom(IsSafe, g, p, num).0 || TryFrom(IsSafe, g, p, num) == TryFrom(IsSafe, g, p, num + 1)
  {
    ResetRestores(g, p, num);
  }

  /** The digit a completion puts at an empty square is safe there. */
  lemma CompletionIsSafe(g: Numbers, p: Pos, s: Numbers)
    requires Get(g, p) == 0
    requires Valid(s) && Extends(s, g)
    ensures IsSafe(g, p, Get(s, p))
  {
    forall q | Peers(p, q)
      ensures Get(g, q) != Get(s, p)
    {
      if q != p && Get(g, q) != 0 {
        assert Get(s, q) == Get(g, q);
      }
    }
  }

  /** A grid that fits its givens and can be completed is solved, validly:
      Solve returns true exactly when a completion exists. */
  lemma SolveDecides(g: Numbers)
    requires GivensFit(g)
    ensures Solve(IsSafe, g).0 <==> exists s :: Valid(s) && Extends(s, g)
  {
    if Solve(IsSafe, g).0 {
      SolvedIsValid(g);
    }
    if exists s :: Valid(s) && Extends(s, g) {
      var s :| Valid(s) && Extends(s, g);
      SolveComplete(g, s);
    }
  }
}
