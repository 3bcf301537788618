/** Logic/Rule/PointingPairs.cs: when the squares of a box that can take a
    digit all lie in one row (or column), no other square of that row (or
    column) can take it; and when exactly two squares of a row (or column)
    can take a digit and both lie in one box, no other square of that box
    can take it. */
module PointingPairsRule {
  import opened Wrappers
  import opened Grid
  import opened Steps
  import opened Text

  // ---------------------------------------------------------------------
  // Probes and their scan order

  /** One test of the rule: a box against the row or the column its
      candidates share, or a row or column against the box its two
      candidates share, for one digit d. */
  datatype Probe =
    | BoxToRow(br: Band, bc: Band, d: int)
    | BoxToColumn(br: Band, bc: Band, d: int)
    | RowToBox(r: Index, d: int)
    | ColumnToBox(c: Index, d: int)

  predicate ValidProbe(pr: Probe)
  {
    1 <= pr.d <= 9
  }

  /** The probe tried t-th: first every box by index 3 * br + bc, digits
      ascending and the row test before the column test; then, digit by
      digit, every row and after them every column. */
  function ProbeAt(t: nat): (pr: Probe)
    requires t < 324
    ensures ValidProbe(pr)
  {
    if t < 162 then
      var box, d := t / 18, t % 18 / 2 + 1;
      if t % 2 == 0 then BoxToRow(box / 3, box % 3, d) else BoxToColumn(box / 3, box % 3, d)
    else
      var s := t - 162;
      var d, line := s / 18 + 1, s % 18;
      if line < 9 then RowToBox(line, d) else ColumnToBox(line - 9, d)
  }

  function Probes(): (ps: seq<Probe>)
    ensures |ps| == 324
    ensures forall t :: 0 <= t < 324 ==> ps[t] == ProbeAt(t)
  {
    seq(324, t requires 0 <= t < 324 => ProbeAt(t))
  }

  /** Where a probe stands in the scan. */
  function ProbeIndex(pr: Probe): (t: nat)
    requires ValidProbe(pr)
    ensures t < 324 && ProbeAt(t) == pr
  {
    match pr
    case BoxToRow(br, bc, d) =>
      var t := 18 * (3 * br + bc) + 2 * (d - 1);
      assert t / 18 == 3 * br + bc && t % 18 == 2 * (d - 1);
      t
    case BoxToColumn(br, bc, d) =>
      var t := 18 * (3 * br + bc) + 2 * (d - 1) + 1;
      assert t / 18 == 3 * br + bc && t % 18 == 2 * (d - 1) + 1;
      t
    case RowToBox(r, d) =>
      var t := 162 + 18 * (d - 1) + r;
      assert (t - 162) / 18 == d - 1 && (t - 162) % 18 == r;
      t
    case ColumnToBox(c, d) =>
      var t := 162 + 18 * (d - 1) + 9 + c;
      assert (t - 162) / 18 == d - 1 && (t - 162) % 18 == 9 + c;
      t
  }

  lemma ProbeAtIndex(t: nat)
    requires t < 324
    ensures ProbeIndex(ProbeAt(t)) == t
  {
    if t < 162 {
      var box, rest := t / 18, t % 18;
      assert t == 18 * box + rest;
      assert box == 3 * (box / 3) + box % 3;
      assert rest == 2 * (rest / 2) + t % 2;
    } else {
      var s := t - 162;
      assert s == 18 * (s / 18) + s % 18;
    }
  }

  /** The scan order written as a lexicographic key: phase, then box and
      digit with the row test first in the box phase, or digit and rows
      before columns in the line phase. */
  function Key(pr: Probe): (int, int, int, int)
  {
    match pr
    case BoxToRow(br, bc, d) => (0, 3 * br + bc, d, 0)
    case BoxToColumn(br, bc, d) => (0, 3 * br + bc, d, 1)
    case RowToBox(r, d) => (1, d, 0, r)
    case ColumnToBox(c, d) => (1, d, 1, c)
  }

  predicate ProbeBefore(p: Probe, q: Probe)
  {
    var (a0, a1, a2, a3) := Key(p);
    var (b0, b1, b2, b3) := Key(q);
    a0 < b0 || (a0 == b0 && (a1 < b1 || (a1 == b1 && (a2 < b2 || (a2 == b2 && a3 < b3)))))
  }

  /** The probe list follows the key order. */
  lemma ProbeOrder(p: Probe, q: Probe)
    requires ValidProbe(p) && ValidProbe(q)
    ensures ProbeBefore(p, q) <==> ProbeIndex(p) < ProbeIndex(q)
  {
  }

  // ---------------------------------------------------------------------
  // The scan

  /** The candidate tables of the source, boxCandidates / rowCandidates /
      colCandidates: the squares of u holding d, in loop order. */
  function Holders(b: Board, u: Unit, d: int): (hs: seq<Pos>)
    ensures Distinct(hs)
    ensures forall q :: q in hs <==> InUnit(q, u) && d in Cands(b, q)
  {
    Filter(Cells(u), q => d in Cands(b, q))
  }

  /** The unit whose candidate list a probe reads. */
  function Source(pr: Probe): Unit
  {
    match pr
    case BoxToRow(br, bc, _) => Box(br, bc)
    case BoxToColumn(br, bc, _) => Box(br, bc)
    case RowToBox(r, _) => Row(r)
    case ColumnToBox(c, _) => Column(c)
  }

  /** The shape test on the candidate positions: at least two, all in the
      first one's row (or column); or exactly two, both in the first one's
      box. */
  predicate Aligned(pr: Probe, hs: seq<Pos>)
  {
    match pr
    case BoxToRow(_, _, _) => |hs| >= 2 && forall q | q in hs :: q.row == hs[0].row
    case BoxToColumn(_, _, _) => |hs| >= 2 && forall q | q in hs :: q.col == hs[0].col
    case RowToBox(_, _) => |hs| == 2 && forall q | q in hs :: SameBox(q, hs[0])
    case ColumnToBox(_, _) => |hs| == 2 && forall q | q in hs :: SameBox(q, hs[0])
  }

  /** The unit the eliminations are taken from. */
  function Target(pr: Probe, first: Pos): Unit
  {
    match pr
    case BoxToRow(_, _, _) => Row(first.row)
    case BoxToColumn(_, _, _) => Column(first.col)
    case RowToBox(_, _) => BoxOf(first)
    case ColumnToBox(_, _) => BoxOf(first)
  }

  /** Whether a square of the target unit lies outside the pattern: outside
      the box's columns (rows) for a box probe, not one of the two positions
      for a line probe. */
  predicate Outside(pr: Probe, hs: seq<Pos>, q: Pos)
  {
    match pr
    case BoxToRow(_, bc, _) => BandOf(q.col) != bc
    case BoxToColumn(br, _, _) => BandOf(q.row) != br
    case RowToBox(_, _) => q !in hs
    case ColumnToBox(_, _) => q !in hs
  }

  /** The eliminations list: the squares of the target unit outside the
      pattern that hold the digit. */
  function Eliminations(b: Board, pr: Probe, hs: seq<Pos>): (es: seq<Pos>)
    requires |hs| > 0
    ensures forall q :: q in es <==> InUnit(q, Target(pr, hs[0])) && Outside(pr, hs, q) && pr.d in Cands(b, q)
  {
    Filter(Cells(Target(pr, hs[0])), q => Outside(pr, hs, q) && pr.d in Cands(b, q))
  }

  predicate Fires(b: Board, pr: Probe)
  {
    var hs := Holders(b, Source(pr), pr.d);
    Aligned(pr, hs) && |Eliminations(b, pr, hs)| > 0
  }

  function Explanation(pr: Probe, first: Pos): string
  {
    var n := IntToString(pr.d);
    match pr
    case BoxToRow(_, _, _) =>
      "Pointing Pair: " + n + "s in box are all in row " + IntToString(first.row + 1) + ". Remove " + n + "s from other squares in row."
    case BoxToColumn(_, _, _) =>
      "Pointing Pair: " + n + "s in box are all in column " + IntToString(first.col + 1) + ". Remove " + n + "s from other squares in column."
    case RowToBox(r, _) =>
      "Pointing Pair: " + n + "s in row " + IntToString(r + 1) + " are in same box. Remove " + n + "s from other squares in box."
    case ColumnToBox(c, _) =>
      "Pointing Pair: " + n + "s in column " + IntToString(c + 1) + " are in same box. Remove " + n + "s from other squares in box."
  }

  // ---------------------------------------------------------------------
  // The definition

  /** The squares of u that can take d. */
  ghost function HolderSet(b: Board, u: Unit, d: int): set<Pos>
  {
    set q | q in Cells(u) && d in Cands(b, q)
  }

  /** The probe pr shows a pointing pattern: hl are the candidate squares
      of its source unit, they all lie in one target unit, and rm are the
      squares of that target outside the pattern that still hold the digit,
      at least one of them. */
  ghost predicate PointingAt(b: Board, pr: Probe, hl: set<Pos>, rm: set<Pos>)
  {
    var d := pr.d;
    && hl == HolderSet(b, Source(pr), d)
    && rm != {}
    && match pr
       case BoxToRow(_, bc, _) =>
         && |hl| >= 2
         && exists r: Index ::
              && (forall q :: q in hl ==> q.row == r)
              && rm == set q | q in Cells(Row(r)) && BandOf(q.col) != bc && d in Cands(b, q)
       case BoxToColumn(br, _, _) =>
         && |hl| >= 2
         && exists c: Index ::
              && (forall q :: q in hl ==> q.col == c)
              && rm == set q | q in Cells(Column(c)) && BandOf(q.row) != br && d in Cands(b, q)
       case RowToBox(_, _) =>
         && |hl| == 2
         && exists u: Unit ::
              && u.Box?
              && (forall q :: q in hl ==> InUnit(q, u))
              && rm == set q | q in Cells(u) && q !in hl && d in Cands(b, q)
       case ColumnToBox(_, _) =>
         && |hl| == 2
         && exists u: Unit ::
              && u.Box?
              && (forall q :: q in hl ==> InUnit(q, u))
              && rm == set q | q in Cells(u) && q !in hl && d in Cands(b, q)
  }

  /** The squares a pointing pattern clears hold the digit and lie outside
      the pattern. */
  lemma PointingDisjoint(b: Board, pr: Probe, hl: set<Pos>, rm: set<Pos>)
    requires PointingAt(b, pr, hl, rm)
    ensures hl * rm == {}
    ensures forall q :: q in rm ==> pr.d in Cands(b, q)
  {
    forall q | q in hl
      ensures q !in rm
    {
      match pr
      case BoxToRow(br, bc, d) =>
        assert BandOf(q.col) == bc;
      case BoxToColumn(br, bc, d) =>
        assert BandOf(q.row) == br;
      case RowToBox(_, _) =>
      case ColumnToBox(_, _) =>
    }
  }

  /** The list test of the source against the definition. */
  lemma FiresIsPointing(b: Board, pr: Probe)
    requires Fires(b, pr)
    ensures var hs := Holders(b, Source(pr), pr.d);
      PointingAt(b, pr, Elements(hs), Elements(Eliminations(b, pr, hs)))
  {
    var hs := Holders(b, Source(pr), pr.d);
    var es := Eliminations(b, pr, hs);
    assert Elements(hs) == HolderSet(b, Source(pr), pr.d);
    DistinctCard(hs);
    assert es[0] in Elements(es);
    match pr
    case BoxToRow(_, _, _) => BoxToRowPattern(b, pr, hs, es);
    case BoxToColumn(_, _, _) => BoxToColumnPattern(b, pr, hs, es);
    case RowToBox(_, _) => LineToBoxPattern(b, pr, hs, es);
    case ColumnToBox(_, _) => LineToBoxPattern(b, pr, hs, es);
  }

  lemma BoxToRowPattern(b: Board, pr: Probe, hs: seq<Pos>, es: seq<Pos>)
    requires pr.BoxToRow? && Aligned(pr, hs) && es == Eliminations(b, pr, hs)
    ensures forall q :: q in Elements(hs) ==> q.row == hs[0].row
    ensures Elements(es) == set q | q in Cells(Row(hs[0].row)) && BandOf(q.col) != pr.bc && pr.d in Cands(b, q)
  {
  }

  lemma BoxToColumnPattern(b: Board, pr: Probe, hs: seq<Pos>, es: seq<Pos>)
    requires pr.BoxToColumn? && Aligned(pr, hs) && es == Eliminations(b, pr, hs)
    ensures forall q :: q in Elements(hs) ==> q.col == hs[0].col
    ensures Elements(es) == set q | q in Cells(Column(hs[0].col)) && BandOf(q.row) != pr.br && pr.d in Cands(b, q)
  {
  }

  lemma LineToBoxPattern(b: Board, pr: Probe, hs: seq<Pos>, es: seq<Pos>)
    requires (pr.RowToBox? || pr.ColumnToBox?) && Aligned(pr, hs) && es == Eliminations(b, pr, hs)
    ensures forall q :: q in Elements(hs) ==> InUnit(q, BoxOf(hs[0]))
    ensures Elements(es) == set q | q in Cells(BoxOf(hs[0])) && q !in Elements(hs) && pr.d in Cands(b, q)
  {
  }

  /** A pointing pattern makes its probe fire. */
  lemma PointingFires(b: Board, pr: Probe, hl: set<Pos>, rm: set<Pos>)
    requires PointingAt(b, pr, hl, rm)
    ensures Fires(b, pr)
  {
    var hs := Holders(b, Source(pr), pr.d);
    assert Elements(hs) == hl;
    DistinctCard(hs);
    var q :| q in rm;
    assert hs[0] in hl;
    match pr
    case BoxToRow(_, _, _) => BoxToRowFires(b, pr, hs, rm, q);
    case BoxToColumn(_, _, _) => BoxToColumnFires(b, pr, hs, rm, q);
    case RowToBox(_, _) => LineToBoxFires(b, pr, hs, rm, q);
    case ColumnToBox(_, _) => LineToBoxFires(b, pr, hs, rm, q);
  }

  lemma BoxToRowFires(b: Board, pr: Probe, hs: seq<Pos>, rm: set<Pos>, q: Pos)
    requires pr.BoxToRow? && |hs| >= 2 && hs == Holders(b, Source(pr), pr.d)
    requires PointingAt(b, pr, Elements(hs), rm) && q in rm
    ensures Fires(b, pr)
  {
    var r: Index :| (forall q :: q in Elements(hs) ==> q.row == r)
                   && rm == set q | q in Cells(Row(r)) && BandOf(q.col) != pr.bc && pr.d in Cands(b, q);
    assert hs[0] in Elements(hs);
    assert q in Eliminations(b, pr, hs);
  }

  lemma BoxToColumnFires(b: Board, pr: Probe, hs: seq<Pos>, rm: set<Pos>, q: Pos)
    requires pr.BoxToColumn? && |hs| >= 2 && hs == Holders(b, Source(pr), pr.d)
    requires PointingAt(b, pr, Elements(hs), rm) && q in rm
    ensures Fires(b, pr)
  {
    var c: Index :| (forall q :: q in Elements(hs) ==> q.col == c)
                   && rm == set q | q in Cells(Column(c)) && BandOf(q.row) != pr.br && pr.d in Cands(b, q);
    assert hs[0] in Elements(hs);
    assert q in Eliminations(b, pr, hs);
  }

  lemma LineToBoxFires(b: Board, pr: Probe, hs: seq<Pos>, rm: set<Pos>, q: Pos)
    requires (pr.RowToBox? || pr.ColumnToBox?) && |hs| == 2 && hs == Holders(b, Source(pr), pr.d)
    requires PointingAt(b, pr, Elements(hs), rm) && q in rm
    ensures Fires(b, pr)
  {
    var u: Unit :| u.Box? && (forall q :: q in Elements(hs) ==> InUnit(q, u))
                   && rm == set q | q in Cells(u) && q !in Elements(hs) && pr.d in Cands(b, q);
    assert hs[0] in Elements(hs) && hs[1] in Elements(hs);
    assert BoxOf(hs[0]) == u;
    assert Aligned(pr, hs);
    assert q in Eliminations(b, pr, hs);
  }

  // ---------------------------------------------------------------------
  // The rule

  /** The precompute loop files every candidate under index number - 1 of
      its tables, so a candidate outside 1..9 throws. */
  predicate CandidatesInRange(b: Board)
  {
    forall r, c | 0 <= r < 9 && 0 <= c < 9 :: forall d | d in Cands(b, Pos(r, c)) :: 1 <= d <= 9
  }

  const IndexOutOfRange: string := "Index was outside the bounds of the array."

  /** What a reported step says about the pattern found by probe pr, the
      first probe in scan order that shows one. */
  ghost predicate Reports(b: Board, pr: Probe, s: SolveStep)
  {
    && ValidProbe(pr)
    && PointingAt(b, pr, s.highlighted, s.removedSquares)
    && s.highlighted * s.removedSquares == {}
    && s.removedNumbers == [pr.d]
    && (exists p :: p in s.highlighted && s.explanation == Explanation(pr, p))
    && forall pr', hl, rm :: ValidProbe(pr') && ProbeBefore(pr', pr) ==> !PointingAt(b, pr', hl, rm)
  }

  /** PointingPairs.Run. */
  function Run(b: Board): (r: Result<SolveStep, string>)
    ensures r.Failure? <==> !CandidatesInRange(b)
    ensures r.Failure? ==> r.error == IndexOutOfRange
    ensures r.Success? ==>
              && r.value.rule == Rule.PointingPairs
              && !r.value.solved && r.value.number == 0 && !r.value.removedInHighlighted
    ensures r.Success? ==>
              (r.value.removedInNonHighlighted <==> exists pr, hl, rm :: ValidProbe(pr) && PointingAt(b, pr, hl, rm))
    ensures r.Success? && !r.value.removedInNonHighlighted ==> r.value == Blank(Rule.PointingPairs)
    ensures r.Success? && r.value.removedInNonHighlighted ==> exists pr :: Reports(b, pr, r.value)
  {
    if !CandidatesInRange(b) then
      Failure(IndexOutOfRange)
    else
      var ps := Probes();
      var i := FirstHit(ps, pr => Fires(b, pr));
      if i < |ps| then
        Success(Hit(b, ps[i], i))
      else
        NoProbeFires(b);
        Success(Blank(Rule.PointingPairs))
  }

  /** The step reported for the first firing probe pr, the i-th. */
  function Hit(b: Board, pr: Probe, i: nat): (s: SolveStep)
    requires i < 324 && Probes()[i] == pr && Fires(b, pr)
    requires forall j :: 0 <= j < i ==> !Fires(b, Probes()[j])
    ensures s.rule == Rule.PointingPairs && !s.solved && s.number == 0
    ensures !s.removedInHighlighted && s.removedInNonHighlighted
    ensures Reports(b, pr, s)
  {
    var hs := Holders(b, Source(pr), pr.d);
    var es := Eliminations(b, pr, hs);
    FiresIsPointing(b, pr);
    PointingDisjoint(b, pr, Elements(hs), Elements(es));
    EarlierProbesMiss(b, pr, i);
    assert hs[0] in Elements(hs);
    SolveStep(Rule.PointingPairs, false, 0, 0, 0, Explanation(pr, hs[0]),
              Elements(hs), Elements(es), [pr.d], false, true)
  }

  lemma EarlierProbesMiss(b: Board, pr: Probe, i: nat)
    requires i < 324 && Probes()[i] == pr
    requires forall j :: 0 <= j < i ==> !Fires(b, Probes()[j])
    ensures forall pr', hl, rm :: ValidProbe(pr') && ProbeBefore(pr', pr) ==> !PointingAt(b, pr', hl, rm)
  {
    ProbeAtIndex(i);
    forall pr', hl, rm | ValidProbe(pr') && ProbeBefore(pr', pr)
      ensures !PointingAt(b, pr', hl, rm)
    {
      ProbeOrder(pr', pr);
      assert !Fires(b, Probes()[ProbeIndex(pr')]);
      if PointingAt(b, pr', hl, rm) {
        PointingFires(b, pr', hl, rm);
      }
    }
  }

  lemma NoProbeFires(b: Board)
    requires forall j :: 0 <= j < 324 ==> !Fires(b, Probes()[j])
    ensures forall pr, hl, rm :: ValidProbe(pr) ==> !PointingAt(b, pr, hl, rm)
  {
    forall pr, hl, rm | ValidProbe(pr)
      ensures !PointingAt(b, pr, hl, rm)
    {
      assert !Fires(b, Probes()[ProbeIndex(pr)]);
      if PointingAt(b, pr, hl, rm) {
        PointingFires(b, pr, hl, rm);
      }
    }
  }
}
