/** SolvingRules.OnlyValue: the first row, column or box in which a digit
    has exactly one square that may take it. It reads the board and does
    not change it. */
module OnlyValueHint {
  import opened Wrappers
  import opened Grid
  import opened CandidateBoard
  import opened Hints
  import HiddenSingleRule

  /** The source's test for a square: its set is not empty, holds n, and
      RulesHelper.IsSafe allows n there. */
  predicate Possible(g: CandidateGrid, q: Pos, n: int)
  {
    |Cand(g, q)| > 0 && n in Cand(g, q) && IsSafe(g, q, n)
  }

  /** The squares of u that pass the test, in the order the loops visit
      them. */
  function Spots(g: CandidateGrid, u: Unit, n: int): (qs: seq<Pos>)
    ensures Distinct(qs)
    ensures forall q :: q in qs <==> InUnit(q, u) && Possible(g, q, n)
  {
    Filter(Cells(u), q => Possible(g, q, n))
  }

  /** n may go at q: q lists n and no other square of q's row, column or
      box is the placed value n. */
  ghost predicate CanTake(g: CandidateGrid, q: Pos, n: int)
  {
    n in Cand(g, q) && forall q' :: Peers(q, q') && q' != q ==> !HoldsOnly(g, q', n)
  }

  lemma PossibleIsCanTake(g: CandidateGrid, q: Pos, n: int)
    ensures Possible(g, q, n) <==> CanTake(g, q, n)
  {
  }

  lemma SpotsCanTake(g: CandidateGrid, u: Unit, n: int)
    ensures forall q :: q in Spots(g, u, n) <==> InUnit(q, u) && CanTake(g, q, n)
  {
    forall q
      ensures q in Spots(g, u, n) <==> InUnit(q, u) && CanTake(g, q, n)
    {
      PossibleIsCanTake(g, q, n);
    }
  }

  /** p is the only square of u that may take the digit n. */
  ghost predicate OnlyValueAt(g: CandidateGrid, u: Unit, n: int, p: Pos)
  {
    1 <= n <= 9 && InUnit(p, u) && CanTake(g, p, n)
    && forall q :: InUnit(q, u) && CanTake(g, q, n) ==> q == p
  }

  /** The count test of the source against the definition. */
  lemma SpotsSingle(g: CandidateGrid, u: Unit, n: int)
    requires 1 <= n <= 9
    ensures |Spots(g, u, n)| == 1 <==> exists p :: OnlyValueAt(g, u, n, p)
    ensures |Spots(g, u, n)| == 1 ==> OnlyValueAt(g, u, n, Spots(g, u, n)[0])
  {
    var qs := Spots(g, u, n);
    SpotsCanTake(g, u, n);
    if exists p :: OnlyValueAt(g, u, n, p) {
      var p :| OnlyValueAt(g, u, n, p);
      assert p in qs;
      forall i | 0 <= i < |qs|
        ensures qs[i] == p
      {
        assert qs[i] in qs;
      }
      AtMostOne(qs, p);
    }
    if |qs| == 1 {
      assert qs[0] in qs;
      assert forall q :: q in qs ==> q == qs[0];
      assert OnlyValueAt(g, u, n, qs[0]);
    }
  }

  /** The out-parameters of OnlyValue next to its boolean result. */
  datatype Hint = Hint(found: bool, numberSolved: int, rowSolved: int, columnSolved: int, groupType: Option<CellGroupType>)

  /** The values the out-parameters are given before the scan. */
  const NoHint: Hint := Hint(false, 0, -1, -1, None)

  /** The test for one (unit, digit) pair of the scan. */
  predicate Fires(g: CandidateGrid, pr: (Unit, int))
  {
    1 <= pr.1 <= 9 && |Spots(g, pr.0, pr.1)| == 1
  }

  /** OnlyValue: rows, then columns, then boxes, digits ascending within a
      unit (the scan order of HiddenSingleRule); the first pair with exactly
      one possible square names that square, the digit and the kind of
      unit. */
  function OnlyValue(g: CandidateGrid): (h: Hint)
    requires HintBoard(g)
    ensures h.found <==> exists u, n, p :: OnlyValueAt(g, u, n, p)
    ensures !h.found ==> h == NoHint
    ensures h.found ==>
              && 0 <= h.rowSolved < 9 && 0 <= h.columnSolved < 9
              && exists u ::
                   && OnlyValueAt(g, u, h.numberSolved, Pos(h.rowSolved, h.columnSolved))
                   && h.groupType == Some(GroupTypeOf(u))
                   && forall u', n', q :: HiddenSingleRule.ScanBefore(u', n', u, h.numberSolved) ==> !OnlyValueAt(g, u', n', q)
  {
    var ps := HiddenSingleRule.Probes();
    var i := FirstHit(ps, pr => Fires(g, pr));
    if i < |ps| then
      Hit(g, ps[i].0, ps[i].1, i)
    else
      NoProbeFires(g);
      NoHint
  }

  /** The hint reported for the first firing pair (u, n), the i-th. */
  function Hit(g: CandidateGrid, u: Unit, n: int, i: nat): (h: Hint)
    requires i < 243 && HiddenSingleRule.Probes()[i] == (u, n) && Fires(g, (u, n))
    requires forall j :: 0 <= j < i ==> !Fires(g, HiddenSingleRule.Probes()[j])
    ensures h.found && h.numberSolved == n && h.groupType == Some(GroupTypeOf(u))
    ensures 0 <= h.rowSolved < 9 && 0 <= h.columnSolved < 9
    ensures OnlyValueAt(g, u, n, Pos(h.rowSolved, h.columnSolved))
    ensures forall u', n', q :: HiddenSingleRule.ScanBefore(u', n', u, n) ==> !OnlyValueAt(g, u', n', q)
  {
    SpotsSingle(g, u, n);
    var p := Spots(g, u, n)[0];
    EarlierProbesMiss(g, u, n, i);
    Hint(true, n, p.row, p.col, Some(GroupTypeOf(u)))
  }

  lemma EarlierProbesMiss(g: CandidateGrid, u: Unit, n: int, i: nat)
    requires 1 <= n <= 9 && i < 243 && HiddenSingleRule.Probes()[i] == (u, n)
    requires forall j :: 0 <= j < i ==> !Fires(g, HiddenSingleRule.Probes()[j])
    ensures forall u', n', q :: HiddenSingleRule.ScanBefore(u', n', u, n) ==> !OnlyValueAt(g, u', n', q)
  {
    HiddenSingleRule.ProbeAtIndex(i);
    forall u', n', q | HiddenSingleRule.ScanBefore(u', n', u, n)
      ensures !OnlyValueAt(g, u', n', q)
    {
      if 1 <= n' <= 9 {
        HiddenSingleRule.ProbeOrder(u', n', u, n);
        var j := HiddenSingleRule.ProbeIndex(u', n');
        assert !Fires(g, HiddenSingleRule.Probes()[j]);
        Quiet(g, u', n', q);
      }
    }
  }

  lemma NoProbeFires(g: CandidateGrid)
    requires forall j :: 0 <= j < 243 ==> !Fires(g, HiddenSingleRule.Probes()[j])
    ensures forall u, n, p :: !OnlyValueAt(g, u, n, p)
  {
    forall u, n, p
      ensures !OnlyValueAt(g, u, n, p)
    {
      if 1 <= n <= 9 {
        var j := HiddenSingleRule.ProbeIndex(u, n);
        assert !Fires(g, HiddenSingleRule.Probes()[j]);
        Quiet(g, u, n, p);
      }
    }
  }

  /** A pair the scan passed over has no only square. */
  lemma Quiet(g: CandidateGrid, u: Unit, n: int, p: Pos)
    requires 1 <= n <= 9 && !Fires(g, (u, n))
    ensures !OnlyValueAt(g, u, n, p)
  {
    SpotsSingle(g, u, n);
  }
}
