/** Logic/Rule/HiddenSingle.cs and its twin Logic/Rule/OnlyInOnePlace.cs: a
    digit that only one square of a row, column or box can take goes in
    that square. */
module HiddenSingleRule {
  import opened Grid
  import opened Steps
  import opened Text

  /** The squares of u whose candidates hold d (the C# test is "Count > 0
      and Contains"), in the order the loops visit them. */
  function Holders(b: Board, u: Unit, d: int): (hs: seq<Pos>)
    ensures Distinct(hs)
    ensures forall q :: q in hs <==> InUnit(q, u) && d in Cands(b, q)
  {
    Filter(Cells(u), q => |Cands(b, q)| > 0 && d in Cands(b, q))
  }

  /** p is the only square of u that can take the digit d. */
  ghost predicate HiddenSingleAt(b: Board, u: Unit, d: int, p: Pos)
  {
    1 <= d <= 9 && InUnit(p, u) && d in Cands(b, p)
    && forall q :: InUnit(q, u) && d in Cands(b, q) ==> q == p
  }

  /** The list test of the source against the definition. */
  lemma HoldersSingle(b: Board, u: Unit, d: int)
    requires 1 <= d <= 9
    ensures |Holders(b, u, d)| == 1 <==> exists p :: HiddenSingleAt(b, u, d, p)
    ensures |Holders(b, u, d)| == 1 ==> HiddenSingleAt(b, u, d, Holders(b, u, d)[0])
  {
    var hs := Holders(b, u, d);
    if exists p :: HiddenSingleAt(b, u, d, p) {
      var p :| HiddenSingleAt(b, u, d, p);
      assert p in hs;
      forall i | 0 <= i < |hs|
        ensures hs[i] == p
      {
        assert hs[i] in hs;
      }
      AtMostOne(hs, p);
    }
    if |hs| == 1 {
      assert hs[0] in hs;
      assert forall q :: q in hs ==> q == hs[0];
      assert HiddenSingleAt(b, u, d, hs[0]);
    }
  }

  /** Scan order: unit u' with digit d' is checked before unit u with digit
      d (units as in Units(), digits ascending within a unit). */
  predicate ScanBefore(u': Unit, d': int, u: Unit, d: int)
  {
    UnitIndex(u') < UnitIndex(u) || (u' == u && d' < d)
  }

  /** Every (unit, digit) pair in scan order. */
  function Probes(): (ps: seq<(Unit, int)>)
    ensures |ps| == 243
  {
    seq(243, t requires 0 <= t < 243 => (Units()[t / 9], t % 9 + 1))
  }

  function ProbeIndex(u: Unit, d: int): (t: nat)
    requires 1 <= d <= 9
    ensures t < 243 && Probes()[t] == (u, d)
  {
    var k := UnitIndex(u);
    assert (9 * k + d - 1) / 9 == k && (9 * k + d - 1) % 9 == d - 1;
    9 * k + d - 1
  }

  /** ProbeIndex undoes indexing into Probes(). */
  lemma ProbeAtIndex(t: nat)
    requires t < 243
    ensures 1 <= Probes()[t].1 <= 9
    ensures ProbeIndex(Probes()[t].0, Probes()[t].1) == t
  {
    UnitsIndexed(t / 9);
  }

  lemma ProbeOrder(u': Unit, d': int, u: Unit, d: int)
    requires 1 <= d' <= 9 && 1 <= d <= 9
    ensures ScanBefore(u', d', u, d) <==> ProbeIndex(u', d') < ProbeIndex(u, d)
  {
  }

  function Explanation(u: Unit, d: int): string
  {
    match u
    case Row(r) => "The number " + IntToString(d) + " can only fit in this square in row " + IntToString(r + 1) + "."
    case Column(c) => "The number " + IntToString(d) + " can only fit in this square in column " + IntToString(c + 1) + "."
    case Box(_, _) => "The number " + IntToString(d) + " can only fit in this square in its 3x3 grid."
  }

  /** The source's test for one (unit, digit) pair. */
  predicate Fires(b: Board, pr: (Unit, int))
  {
    1 <= pr.1 <= 9 && |Holders(b, pr.0, pr.1)| == 1
  }

  /** The shared body of HiddenSingle.Run and OnlyInOnePlace.Run, run under
      the given tag: the first (unit, digit) in scan order with exactly one
      possible square solves that square, highlighting the rest of the
      unit. */
  function Scan(b: Board, rule: Rule): (s: SolveStep)
    ensures s.rule == rule
    ensures !s.removedInHighlighted && !s.removedInNonHighlighted
    ensures s.solved <==> exists u, d, p :: HiddenSingleAt(b, u, d, p)
    ensures s.solved ==> 0 <= s.row < 9 && 0 <= s.column < 9
    ensures s.solved ==>
              exists u ::
                && HiddenSingleAt(b, u, s.number, Pos(s.row, s.column))
                && s.highlighted == UnitSet(u) - {Pos(s.row, s.column)}
                && s.explanation == Explanation(u, s.number)
                && forall u', d', q :: ScanBefore(u', d', u, s.number) ==> !HiddenSingleAt(b, u', d', q)
    ensures !s.solved ==> s == Blank(rule)
  {
    var ps := Probes();
    var i := FirstHit(ps, pr => Fires(b, pr));
    if i < |ps| then
      Hit(b, ps[i].0, ps[i].1, rule, i)
    else
      NoProbeFires(b);
      Blank(rule)
  }

  /** The step reported for the first firing probe (u, d), the i-th. */
  function Hit(b: Board, u: Unit, d: int, rule: Rule, i: nat): (s: SolveStep)
    requires i < 243 && Probes()[i] == (u, d) && Fires(b, (u, d))
    requires forall j :: 0 <= j < i ==> !Fires(b, Probes()[j])
    ensures s.rule == rule && s.solved && s.number == d
    ensures !s.removedInHighlighted && !s.removedInNonHighlighted
    ensures 0 <= s.row < 9 && 0 <= s.column < 9
    ensures HiddenSingleAt(b, u, d, Pos(s.row, s.column))
    ensures s.highlighted == UnitSet(u) - {Pos(s.row, s.column)}
    ensures s.explanation == Explanation(u, d)
    ensures forall u', d', q :: ScanBefore(u', d', u, d) ==> !HiddenSingleAt(b, u', d', q)
  {
    HoldersSingle(b, u, d);
    var p := Holders(b, u, d)[0];
    EarlierProbesMiss(b, u, d, i);
    var highlighted := set q | q in Cells(u) && q != p;
    assert highlighted == UnitSet(u) - {p};
    SolveStep(rule, true, d, p.row, p.col, Explanation(u, d), highlighted, {}, [], false, false)
  }

  lemma EarlierProbesMiss(b: Board, u: Unit, d: int, i: nat)
    requires 1 <= d <= 9 && i < 243 && Probes()[i] == (u, d)
    requires forall j :: 0 <= j < i ==> !Fires(b, Probes()[j])
    ensures forall u', d', q :: ScanBefore(u', d', u, d) ==> !HiddenSingleAt(b, u', d', q)
  {
    ProbeAtIndex(i);
    forall u', d', q | ScanBefore(u', d', u, d)
      ensures !HiddenSingleAt(b, u', d', q)
    {
      if 1 <= d' <= 9 {
        ProbeOrder(u', d', u, d);
        assert !Fires(b, Probes()[ProbeIndex(u', d')]);
        HoldersSingle(b, u', d');
      }
    }
  }

  lemma NoProbeFires(b: Board)
    requires forall j :: 0 <= j < 243 ==> !Fires(b, Probes()[j])
    ensures forall u, d, p :: !HiddenSingleAt(b, u, d, p)
  {
    forall u, d, p
      ensures !HiddenSingleAt(b, u, d, p)
    {
      if 1 <= d <= 9 {
        assert !Fires(b, Probes()[ProbeIndex(u, d)]);
        HoldersSingle(b, u, d);
      }
    }
  }

  /** HiddenSingle.Run. */
  function Run(b: Board): (s: SolveStep)
    ensures s.rule == Rule.HiddenSingle
    ensures !s.removedInHighlighted && !s.removedInNonHighlighted
    ensures s.solved <==> exists u, d, p :: HiddenSingleAt(b, u, d, p)
    ensures s.solved ==> 0 <= s.row < 9 && 0 <= s.column < 9
    ensures s.solved ==> |s.highlighted| == 8 && Pos(s.row, s.column) !in s.highlighted
  {
    var s := Scan(b, Rule.HiddenSingle);
    assert s.solved ==> |s.highlighted| == 8 by {
      if s.solved {
        var p := Pos(s.row, s.column);
        var u :| HiddenSingleAt(b, u, s.number, p) && s.highlighted == UnitSet(u) - {p};
        OtherCellsOfUnit(u, p);
      }
    }
    s
  }

  /** The rest of a unit besides one of its cells has eight cells. */
  lemma OtherCellsOfUnit(u: Unit, p: Pos)
    requires InUnit(p, u)
    ensures |UnitSet(u) - {p}| == 8
  {
    UnitSetSize(u);
  }

  /** OnlyInOnePlace.Run: the same scan under its own tag. */
  function OnlyInOnePlace(b: Board): (s: SolveStep)
    ensures s.rule == Rule.OnlyInOnePlace
    ensures s.solved <==> exists u, d, p :: HiddenSingleAt(b, u, d, p)
  {
    Scan(b, Rule.OnlyInOnePlace)
  }

  /** The twins agree on every board in every field but the tag. */
  lemma OnlyInOnePlaceIsHiddenSingle(b: Board)
    ensures OnlyInOnePlace(b) == Run(b).(rule := Rule.OnlyInOnePlace)
  {
    var s := Scan(b, Rule.HiddenSingle);
    var t := Scan(b, Rule.OnlyInOnePlace);
    assert s.(rule := Rule.OnlyInOnePlace) == t;
  }
}
