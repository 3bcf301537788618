/** The board helpers of the rule engine: placement safety, candidate
    computation and bookkeeping after a square is solved
    (Logic/Helpers/RulesHelper.cs), and the grid copies and resets
    (Logic/Helpers/GridHelper.cs). The C# helpers update the squares in
    place; here each returns the updated board. */
module BoardHelpers {
  import opened Grid
  import opened Steps

  // ---------------------------------------------------------------------
  // Logic/Helpers/GridHelper.cs

  /** The placed numbers of the board. */
  function GetNumbers(b: Board): (g: Numbers)
    ensures forall p :: Get(g, p) == Get(b, p).number
  {
    Build(p => Get(b, p).number)
  }

  /** Every square emptied: number 0 and no candidates. */
  function ClearSquares(b: Board): (r: Board)
    ensures forall p :: Get(r, p) == Cell(0, {})
  {
    Build(p => Cell(0, {}))
  }

  /** Resetting for a new puzzle is the plain reset. */
  function ClearSquaresNewPuzzle(b: Board): (r: Board)
    ensures forall p :: Get(r, p).number == 0 && Get(r, p).candidates == {}
  {
    ClearSquares(b)
  }

  /** The reset forgets the board: any two boards reset to the same one,
      which holds no number. */
  lemma ClearSquaresForgets(b: Board, b': Board)
    ensures ClearSquaresNewPuzzle(b) == ClearSquares(b')
    ensures PuzzleSolved(ClearSquares(b)) == false
  {
    Extensionality(ClearSquares(b), ClearSquares(b'));
    assert Get(ClearSquares(b), Pos(0, 0)).number == 0;
  }

  /** A copy of every square's candidate set. */
  function GetPossibleNumbersGrid(b: Board): (g: seq<seq<set<int>>>)
    ensures IsNineByNine(g)
    ensures forall p :: Get(g, p) == Cands(b, p)
  {
    Build(p => Cands(b, p))
  }

  // ---------------------------------------------------------------------
  // Logic/Helpers/RulesHelper.cs

  /** Placing n at p breaks no rule: the row and column loop, then the box
      loop, each returning false on a square already holding n. The square
      p itself is among those checked. */
  function IsSafe(b: Board, p: Pos, n: int): (safe: bool)
    ensures safe <==> forall q :: Peers(p, q) ==> Get(b, q).number != n
  {
    var lineHit := (i: Index) => Get(b, Pos(p.row, i)).number == n || Get(b, Pos(i, p.col)).number == n;
    var boxHit := (q: Pos) => Get(b, q).number == n;
    var result := !Any(Indices(), lineHit) && !Any(Cells(BoxOf(p)), boxHit);
    assert !result ==> exists q :: Peers(p, q) && Get(b, q).number == n by {
      if Any(Indices(), lineHit) {
        var i :| 0 <= i < 9 && lineHit(Indices()[i]);
        if Get(b, Pos(p.row, i)).number == n {
          assert Peers(p, Pos(p.row, i));
        } else {
          assert Peers(p, Pos(i, p.col));
        }
      } else if Any(Cells(BoxOf(p)), boxHit) {
        var j :| 0 <= j < 9 && boxHit(Cells(BoxOf(p))[j]);
        assert Peers(p, Cells(BoxOf(p))[j]);
      }
    }
    assert result ==> forall q :: Peers(p, q) ==> Get(b, q).number != n by {
      if result {
        forall q | Peers(p, q)
          ensures Get(b, q).number != n
        {
          if q.row == p.row {
            assert Indices()[q.col] == q.col && lineHit(q.col) == (Get(b, q).number == n || Get(b, Pos(q.col, p.col)).number == n);
          } else if q.col == p.col {
            assert Indices()[q.row] == q.row && lineHit(q.row) == (Get(b, Pos(p.row, q.row)).number == n || Get(b, q).number == n);
          } else {
            assert q in Cells(BoxOf(p));
          }
        }
      }
    }
    result
  }

  /** The inner check of GetPossibleNumbers: n is in none of p's row, column
      and box of the number grid. */
  function NumberNotInRowColumnBox(g: Numbers, p: Pos, n: int): (free: bool)
    ensures free <==> forall q :: Peers(p, q) ==> Get(g, q) != n
  {
    var rowHit := (c: Index) => Get(g, Pos(p.row, c)) == n;
    var colHit := (r: Index) => Get(g, Pos(r, p.col)) == n;
    var boxHit := (q: Pos) => Get(g, q) == n;
    var result := !Any(Indices(), rowHit) && !Any(Indices(), colHit) && !Any(Cells(BoxOf(p)), boxHit);
    assert !result ==> exists q :: Peers(p, q) && Get(g, q) == n by {
      if Any(Indices(), rowHit) {
        var i :| 0 <= i < 9 && rowHit(Indices()[i]);
        assert Peers(p, Pos(p.row, i));
      } else if Any(Indices(), colHit) {
        var i :| 0 <= i < 9 && colHit(Indices()[i]);
        assert Peers(p, Pos(i, p.col));
      } else if Any(Cells(BoxOf(p)), boxHit) {
        var j :| 0 <= j < 9 && boxHit(Cells(BoxOf(p))[j]);
        assert Peers(p, Cells(BoxOf(p))[j]);
      }
    }
    assert result ==> forall q :: Peers(p, q) ==> Get(g, q) != n by {
      if result {
        forall q | Peers(p, q)
          ensures Get(g, q) != n
        {
          if q.row == p.row {
            assert Indices()[q.col] == q.col && Pos(p.row, q.col) == q;
          } else if q.col == p.col {
            assert Indices()[q.row] == q.row && Pos(q.row, p.col) == q;
          } else {
            assert q in Cells(BoxOf(p));
          }
        }
      }
    }
    result
  }

  /** The digits 1..9 that no peer of p holds in the number grid. */
  function GetPossibleNumbers(g: Numbers, p: Pos): (ds: set<int>)
    ensures forall d :: d in ds <==> 1 <= d <= 9 && forall q :: Peers(p, q) ==> Get(g, q) != d
  {
    set d | d in Digits() && NumberNotInRowColumnBox(g, p, d)
  }

  /** Every empty square gets the candidates its peers leave open, computed
      from the numbers as they were before the call; every filled square
      loses its candidates. Numbers do not change. */
  function SetPossibleNumbers(b: Board): (r: Board)
    ensures forall p :: Get(r, p).number == Get(b, p).number
    ensures forall p :: Get(b, p).number != 0 ==> Cands(r, p) == {}
    ensures forall p, d :: Get(b, p).number == 0 ==>
              (d in Cands(r, p) <==> 1 <= d <= 9 && forall q :: Peers(p, q) ==> Get(b, q).number != d)
  {
    var g := GetNumbers(b);
    Build(p => Cell(Get(b, p).number, if Get(b, p).number == 0 then GetPossibleNumbers(g, p) else {}))
  }

  /** After SetPossibleNumbers a digit is a candidate exactly where the
      square is empty and placing the digit there is safe. */
  lemma CandidatesAreSafePlacements(b: Board, p: Pos, d: int)
    ensures d in Cands(SetPossibleNumbers(b), p) <==>
              Get(b, p).number == 0 && 1 <= d <= 9 && IsSafe(b, p, d)
  {
  }

  /** Recomputing the candidates of an already recomputed board changes
      nothing. */
  lemma SetPossibleNumbersIdempotent(b: Board)
    ensures SetPossibleNumbers(SetPossibleNumbers(b)) == SetPossibleNumbers(b)
  {
    var once := SetPossibleNumbers(b);
    var twice := SetPossibleNumbers(once);
    forall p
      ensures Get(twice, p) == Get(once, p)
    {
      assert Cands(twice, p) == Cands(once, p);
    }
    Extensionality(twice, once);
  }

  /** Bookkeeping after a solved square: the solved square loses all its
      candidates, and the solved number is removed from every square in the
      same row, column or box. Nothing else changes. */
  function RemovePossibleNumbersFromGridAfterSquareSolved(b: Board, step: SolveStep): (r: Board)
    requires 0 <= step.row < 9 && 0 <= step.column < 9
    ensures forall q :: Get(r, q).number == Get(b, q).number
    ensures Cands(r, Pos(step.row, step.column)) == {}
    ensures forall q :: q != Pos(step.row, step.column) && Peers(Pos(step.row, step.column), q) ==>
              Cands(r, q) == Cands(b, q) - {step.number}
    ensures forall q :: !Peers(Pos(step.row, step.column), q) ==> Get(r, q) == Get(b, q)
  {
    var solved := Pos(step.row, step.column);
    var startRow := step.row - step.row % 3;
    var startColumn := step.column - step.column % 3;
    Build(q =>
      if q == solved then Get(b, q).(candidates := {})
      else
        var sameRow := q.row == step.row;
        var sameColumn := q.col == step.column;
        var sameBox := startRow <= q.row < startRow + 3 && startColumn <= q.col < startColumn + 3;
        if (sameRow || sameColumn || sameBox) && step.number in Cands(b, q)
        then Get(b, q).(candidates := Cands(b, q) - {step.number})
        else Get(b, q))
  }

  /** The puzzle is solved when no square is empty. */
  function PuzzleSolved(b: Board): (solved: bool)
    ensures solved <==> forall p :: Get(b, p).number != 0
  {
    var empty := (p: Pos) => Get(b, p).number == 0;
    var result := !Any(AllPositions(), empty);
    assert !result ==> exists p :: Get(b, p).number == 0 by {
      if !result {
        var i :| 0 <= i < 81 && empty(AllPositions()[i]);
        assert Get(b, AllPositions()[i]).number == 0;
      }
    }
    assert result ==> forall p :: Get(b, p).number != 0 by {
      if result {
        forall p
          ensures Get(b, p).number != 0
        {
          AllPositionsIndex(p);
          assert !empty(AllPositions()[9 * p.row + p.col]);
        }
      }
    }
    result
  }

  /** Removes one number from a square's candidates when present. */
  function RemovePossibleNumber(c: Cell, n: int): (r: Cell)
    ensures r.number == c.number
    ensures r.candidates == c.candidates - {n}
    ensures n !in c.candidates ==> r == c
  {
    if n in c.candidates then c.(candidates := c.candidates - {n}) else c
  }

  /** Removing the same number twice is removing it once. */
  lemma RemovePossibleNumberIdempotent(c: Cell, n: int)
    ensures RemovePossibleNumber(RemovePossibleNumber(c, n), n) == RemovePossibleNumber(c, n)
  {
  }

  /** The digits 1..9 outside keep, ascending. */
  function RemoveOtherNumbers(keep: seq<int>): (ds: seq<int>)
    ensures forall d :: d in ds <==> 1 <= d <= 9 && d !in keep
    ensures forall i, j :: 0 <= i < j < |ds| ==> ds[i] < ds[j]
  {
    RemoveOtherNumbersFrom(keep, 1)
  }

  /** The loop of RemoveOtherNumbers from number `from` on. */
  function RemoveOtherNumbersFrom(keep: seq<int>, from: int): (ds: seq<int>)
    requires 1 <= from <= 10
    decreases 10 - from
    ensures forall d :: d in ds <==> from <= d <= 9 && d !in keep
    ensures forall i, j :: 0 <= i < j < |ds| ==> ds[i] < ds[j]
    ensures forall i :: 0 <= i < |ds| ==> from <= ds[i]
  {
    if from == 10 then []
    else
      var rest := RemoveOtherNumbersFrom(keep, from + 1);
      if from !in keep then [from] + rest else rest
  }
}
