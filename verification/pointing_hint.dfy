/** SolvingRules.ApplyPointingPairs: a digit whose candidate squares in a
    box all lie in one row (or one column) is removed from the rest of that
    row (column), and the first box and digit for which that removes
    something is reported. */
module PointingHint {
  import opened Wrappers
  import opened Grid
  import opened CandidateBoard
  import opened Hints

  /** One pass of the innermost loop body: a box and a digit. */
  datatype Probe = Probe(br: Band, bc: Band, n: int)

  predicate ValidProbe(pr: Probe)
  {
    1 <= pr.n <= 9
  }

  /** The t-th probe: boxes row by row, digits ascending within a box. */
  function ProbeAt(t: nat): (pr: Probe)
    requires t < 81
    ensures ValidProbe(pr)
  {
    Probe(t / 27, t / 9 % 3, t % 9 + 1)
  }

  function Probes(): (ps: seq<Probe>)
    ensures |ps| == 81
  {
    seq(81, t requires 0 <= t < 81 => ProbeAt(t))
  }

  function ProbeIndex(pr: Probe): (t: nat)
    requires ValidProbe(pr)
    ensures t < 81 && Probes()[t] == pr
  {
    27 * pr.br + 9 * pr.bc + pr.n - 1
  }

  lemma ProbeAtIndex(t: nat)
    requires t < 81
    ensures ProbeIndex(ProbeAt(t)) == t
  {
    assert t == 27 * (t / 27) + t % 27;
    assert t % 27 == 9 * (t / 9 % 3) + t % 9;
  }

  /** Scan order: box row, then box column, then digit. */
  predicate ProbeBefore(a: Probe, b: Probe)
  {
    a.br < b.br || (a.br == b.br && (a.bc < b.bc || (a.bc == b.bc && a.n < b.n)))
  }

  lemma ProbeOrder(a: Probe, b: Probe)
    requires ValidProbe(a) && ValidProbe(b)
    ensures ProbeBefore(a, b) <==> ProbeIndex(a) < ProbeIndex(b)
  {
  }

  function BoxOfProbe(pr: Probe): Unit
  {
    Box(pr.br, pr.bc)
  }

  /** The squares of the box that hold the digit, in loop order. */
  function Holders(g: CandidateGrid, pr: Probe): (cs: seq<Pos>)
    ensures Distinct(cs)
    ensures forall q :: q in cs <==> InUnit(q, BoxOfProbe(pr)) && pr.n in Cand(g, q)
    ensures forall i, j :: 0 <= i < j < |cs| ==> Before(cs[i], cs[j])
  {
    var box := Cells(BoxOfProbe(pr));
    assert forall i, j :: 0 <= i < j < |box| ==> Before(box[i], box[j]);
    FilterBefore(box, q => pr.n in Cand(g, q));
    Filter(box, q => pr.n in Cand(g, q))
  }

  predicate AllInRow(cs: seq<Pos>)
    requires |cs| > 0
  {
    forall i :: 0 <= i < |cs| ==> cs[i].row == cs[0].row
  }

  predicate AllInColumn(cs: seq<Pos>)
    requires |cs| > 0
  {
    forall i :: 0 <= i < |cs| ==> cs[i].col == cs[0].col
  }

  /** The squares of row r whose column is outside box column bc. */
  function RowOutside(r: Index, bc: Band): (qs: seq<Pos>)
    ensures Distinct(qs)
    ensures forall q :: q in qs <==> q.row == r && BandOf(q.col) != bc
  {
    Filter(Cells(Row(r)), (q: Pos) => BandOf(q.col) != bc)
  }

  /** The squares of column c whose row is outside box row br. */
  function ColumnOutside(c: Index, br: Band): (qs: seq<Pos>)
    ensures Distinct(qs)
    ensures forall q :: q in qs <==> q.col == c && BandOf(q.row) != br
  {
    Filter(Cells(Column(c)), (q: Pos) => BandOf(q.row) != br)
  }

  /** The strike along the holders' row, outside the box. */
  function RowStrike(g: CandidateGrid, pr: Probe, cs: seq<Pos>): (CandidateGrid, bool)
    requires HintBoard(g) && ValidProbe(pr) && |cs| > 0
  {
    Strike(g, RowOutside(cs[0].row, pr.bc), [pr.n])
  }

  /** The strike along the holders' column, outside the box. */
  function ColumnStrike(g: CandidateGrid, pr: Probe, cs: seq<Pos>): (CandidateGrid, bool)
    requires HintBoard(g) && ValidProbe(pr) && |cs| > 0
  {
    Strike(g, ColumnOutside(cs[0].col, pr.br), [pr.n])
  }

  /** The row test passes and its strike met the digit. */
  predicate RowFires(g: CandidateGrid, pr: Probe, cs: seq<Pos>)
    requires HintBoard(g) && ValidProbe(pr) && |cs| > 0
  {
    AllInRow(cs) && RowStrike(g, pr, cs).1
  }

  /** The column test passes and its strike met the digit. */
  predicate ColumnFires(g: CandidateGrid, pr: Probe, cs: seq<Pos>)
    requires HintBoard(g) && ValidProbe(pr) && |cs| > 0
  {
    AllInColumn(cs) && ColumnStrike(g, pr, cs).1
  }

  /** The loop body for one box and digit: fewer than two holders is
      skipped; holders in one row strike the digit from the row outside the
      box; failing that, holders in one column strike it from the column
      outside the box. A strike that met the digit ends the scan. */
  function Try(g: CandidateGrid, pr: Probe): (h: PairsHint)
    requires HintBoard(g) && ValidProbe(pr)
    ensures !h.found ==> h == NoPairs(g)
  {
    var cs := Holders(g, pr);
    if |cs| <= 1 then NoPairs(g)
    else if RowFires(g, pr, cs) then PairsHint(true, RowStrike(g, pr, cs).0, [pr.n], cs, Some(RowGroup))
    else if ColumnFires(g, pr, cs) then PairsHint(true, ColumnStrike(g, pr, cs).0, [pr.n], cs, Some(ColumnGroup))
    else NoPairs(g)
  }

  /** The pattern: at least two squares of the box hold the digit, all of
      them lie in the line u (a row or a column), and some square of u
      outside the box holds the digit too. */
  ghost predicate PointingAt(g: CandidateGrid, pr: Probe, u: Unit)
  {
    && ValidProbe(pr)
    && !u.Box?
    && (exists q1, q2 :: q1 != q2 && InUnit(q1, BoxOfProbe(pr)) && InUnit(q2, BoxOfProbe(pr))
                         && pr.n in Cand(g, q1) && pr.n in Cand(g, q2))
    && (forall q :: InUnit(q, BoxOfProbe(pr)) && pr.n in Cand(g, q) ==> InUnit(q, u))
    && (exists q :: InUnit(q, u) && !InUnit(q, BoxOfProbe(pr)) && pr.n in Cand(g, q))
  }

  /** What a hint for the pattern says: the digit, the holders as the pair
      cells, the kind of line, and a board in which the squares of the line
      outside the box have lost the digit (unless it was their last
      candidate) while every other square is as it was. */
  ghost predicate Reports(g: CandidateGrid, pr: Probe, u: Unit, h: PairsHint)
  {
    && h.found
    && h.pairValues == [pr.n]
    && h.groupType == Some(GroupTypeOf(u))
    && Distinct(h.pairCells)
    && (forall q :: q in h.pairCells <==> InUnit(q, BoxOfProbe(pr)) && pr.n in Cand(g, q))
    && (forall i, j :: 0 <= i < j < |h.pairCells| ==> Before(h.pairCells[i], h.pairCells[j]))
    && HintBoard(h.board)
    && forall q ::
         if InUnit(q, u) && !InUnit(q, BoxOfProbe(pr))
         then Cand(h.board, q) == (if Cand(g, q) == {pr.n} then {pr.n} else Cand(g, q) - {pr.n})
         else Get(h.board, q) == Get(g, q)
  }

  /** A strike along a line u holding all the holders, which met the digit,
      is the pattern, and the hint built from it reports it. */
  lemma LineHit(g: CandidateGrid, pr: Probe, u: Unit, qs: seq<Pos>, cs: seq<Pos>)
    requires HintBoard(g) && ValidProbe(pr) && !u.Box?
    requires cs == Holders(g, pr) && |cs| >= 2
    requires forall i :: 0 <= i < |cs| ==> InUnit(cs[i], u)
    requires Distinct(qs)
    requires forall q :: q in qs <==> InUnit(q, u) && !InUnit(q, BoxOfProbe(pr))
    requires Strike(g, qs, [pr.n]).1
    ensures PointingAt(g, pr, u)
    ensures Reports(g, pr, u, PairsHint(true, Strike(g, qs, [pr.n]).0, [pr.n], cs, Some(GroupTypeOf(u))))
  {
    var h := PairsHint(true, Strike(g, qs, [pr.n]).0, [pr.n], cs, Some(GroupTypeOf(u)));
    var box := BoxOfProbe(pr);
    assert cs[0] in cs && cs[1] in cs && cs[0] != cs[1];
    forall q | InUnit(q, box) && pr.n in Cand(g, q)
      ensures InUnit(q, u)
    {
      var i :| 0 <= i < |cs| && cs[i] == q;
    }
    var q, v :| q in qs && v in [pr.n] && v in Cand(g, q);
    assert InUnit(q, u) && !InUnit(q, box);
    forall q | q in qs
      ensures Cand(h.board, q) == (if Cand(g, q) == {pr.n} then {pr.n} else Cand(g, q) - {pr.n})
    {
      StruckOne(Cand(g, q), pr.n, Cand(h.board, q));
    }
  }

  /** A hint from Try is the pattern, reported. */
  lemma TrySound(g: CandidateGrid, pr: Probe)
    requires HintBoard(g) && ValidProbe(pr)
    requires Try(g, pr).found
    ensures exists u :: PointingAt(g, pr, u) && Reports(g, pr, u, Try(g, pr))
  {
    var cs := Holders(g, pr);
    var box := BoxOfProbe(pr);
    assert cs[0] in cs;
    if RowFires(g, pr, cs) {
      var u := Row(cs[0].row);
      var qs := RowOutside(cs[0].row, pr.bc);
      assert forall q :: q in qs <==> InUnit(q, u) && !InUnit(q, box);
      LineHit(g, pr, u, qs, cs);
    } else {
      var u := Column(cs[0].col);
      var qs := ColumnOutside(cs[0].col, pr.br);
      assert forall q :: q in qs <==> InUnit(q, u) && !InUnit(q, box);
      LineHit(g, pr, u, qs, cs);
    }
  }

  /** At least two squares of the box hold the digit. */
  lemma TwoHolders(g: CandidateGrid, pr: Probe, u: Unit)
    requires PointingAt(g, pr, u)
    ensures |Holders(g, pr)| >= 2
  {
    var cs := Holders(g, pr);
    var box := BoxOfProbe(pr);
    var q1, q2 :| q1 != q2 && InUnit(q1, box) && InUnit(q2, box) && pr.n in Cand(g, q1) && pr.n in Cand(g, q2);
    assert q1 in cs && q2 in cs;
    TwoIn(cs, q1, q2);
  }

  /** The pattern makes Try report. */
  lemma TryComplete(g: CandidateGrid, pr: Probe, u: Unit)
    requires HintBoard(g)
    requires PointingAt(g, pr, u)
    ensures Try(g, pr).found
  {
    var cs := Holders(g, pr);
    var box := BoxOfProbe(pr);
    TwoHolders(g, pr, u);
    assert cs[0] in cs;
    var q :| InUnit(q, u) && !InUnit(q, box) && pr.n in Cand(g, q);
    assert pr.n in [pr.n];
    if u.Row? {
      assert AllInRow(cs) by {
        forall i | 0 <= i < |cs|
          ensures cs[i].row == cs[0].row
        {
          assert cs[i] in cs;
        }
      }
      assert q in RowOutside(cs[0].row, pr.bc);
      assert RowFires(g, pr, cs);
    } else {
      assert AllInColumn(cs) by {
        forall i | 0 <= i < |cs|
          ensures cs[i].col == cs[0].col
        {
          assert cs[i] in cs;
        }
      }
      assert q in ColumnOutside(cs[0].col, pr.br);
      if !RowFires(g, pr, cs) {
        assert ColumnFires(g, pr, cs);
      }
    }
  }

  /** The test the scan applies to each probe. */
  function FiresOn(g: CandidateGrid): (fires: Probe -> bool)
    requires HintBoard(g)
  {
    pr => ValidProbe(pr) && Try(g, pr).found
  }

  /** ApplyPointingPairs. The source never reads its hintedGroups
      argument, and neither does the model: the hint is the same whatever
      groups were shown before. */
  function ApplyPointingPairs(g: CandidateGrid, hintedGroups: seq<set<Pos>>): (h: PairsHint)
    requires HintBoard(g)
    ensures h.found <==> exists pr, u :: PointingAt(g, pr, u)
    ensures !h.found ==> h == NoPairs(g)
    ensures h.found ==>
              exists pr, u ::
                && PointingAt(g, pr, u) && Reports(g, pr, u, h)
                && forall pr', u' :: ProbeBefore(pr', pr) ==> !PointingAt(g, pr', u')
  {
    var ps := Probes();
    var i := FirstHit(ps, FiresOn(g));
    if i < |ps| then
      TrySound(g, ps[i]);
      EarlierProbesMiss(g, ps[i], i);
      Try(g, ps[i])
    else
      NoProbeFires(g);
      NoPairs(g)
  }

  lemma EarlierProbesMiss(g: CandidateGrid, pr: Probe, i: nat)
    requires HintBoard(g) && i < 81 && Probes()[i] == pr
    requires forall j :: 0 <= j < i ==> !FiresOn(g)(Probes()[j])
    ensures forall pr', u' :: ProbeBefore(pr', pr) ==> !PointingAt(g, pr', u')
  {
    ProbeAtIndex(i);
    forall pr', u' | ProbeBefore(pr', pr) && ValidProbe(pr')
      ensures !PointingAt(g, pr', u')
    {
      ProbeOrder(pr', pr);
      assert !FiresOn(g)(Probes()[ProbeIndex(pr')]);
      if PointingAt(g, pr', u') {
        TryComplete(g, pr', u');
      }
    }
  }

  lemma NoProbeFires(g: CandidateGrid)
    requires HintBoard(g)
    requires forall j :: 0 <= j < 81 ==> !FiresOn(g)(Probes()[j])
    ensures forall pr, u :: !PointingAt(g, pr, u)
  {
    forall pr, u | ValidProbe(pr)
      ensures !PointingAt(g, pr, u)
    {
      assert !FiresOn(g)(Probes()[ProbeIndex(pr)]);
      if PointingAt(g, pr, u) {
        TryComplete(g, pr, u);
      }
    }
  }
}
