/** The board the step-by-step rules read and the step record they return. */
module Steps {
  import opened Grid

  /** A square of the board: its placed number (0 when empty) and its
      candidate set. The two square classes of the application share this
      shape. */
  datatype Cell = Cell(number: int, candidates: set<int>)

  /** A 9x9 board of squares. */
  type Board = b: seq<seq<Cell>> | IsNineByNine(b) witness seq(9, _ => seq(9, _ => Cell(0, {})))

  function Cands(b: Board, p: Pos): set<int>
  {
    Get(b, p).candidates
  }

  /** The tags of the solving rules. PointingTriples is the tag of a rule
      file that is still a placeholder. */
  datatype Rule =
    | NakedSingle | HiddenSingle | OnlyInOnePlace | NakedPairs | PointingPairs
    | PointingTriples | HiddenPairs | NakedTriples | HiddenTriples | NakedQuads | XWing

  /** What a rule reports: the square it solves, or the candidates it
      removes and where, with the squares to highlight and an explanation. */
  datatype SolveStep = SolveStep(
    rule: Rule,
    solved: bool,
    number: int,
    row: int,
    column: int,
    explanation: string,
    highlighted: set<Pos>,
    removedSquares: set<Pos>,
    removedNumbers: seq<int>,
    removedInHighlighted: bool,
    removedInNonHighlighted: bool)

  /** The step a rule returns when it finds nothing: only the tag is set. */
  function Blank(rule: Rule): SolveStep
  {
    SolveStep(rule, false, 0, 0, 0, "", {}, {}, [], false, false)
  }

  /** A step the engine accepts: it solves a square or removes candidates. */
  predicate Effective(s: SolveStep)
  {
    s.solved || s.removedInNonHighlighted || s.removedInHighlighted
  }
}
