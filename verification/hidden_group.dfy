/** Logic/Rule/HiddenPairs.cs and Logic/Rule/HiddenTriples.cs: when k digits
    of a unit can only go in the same k squares, and every one of those
    squares holds all k of them, those squares can hold nothing else. The
    two files run the same scan at k = 2 and k = 3. */
module HiddenGroupRule {
  import opened Grid
  import opened Steps
  import opened Text
  import opened Combinatorics
  import opened UnitScan
  import BoardHelpers

  // ---------------------------------------------------------------------
  // The definition

  /** The squares of u whose candidates include every digit of ds. */
  ghost function CellsHolding(b: Board, u: Unit, ds: set<int>): set<Pos>
  {
    set q | q in Cells(u) && ds <= Cands(b, q)
  }

  /** ds is a hidden group of size k in u: k digits that k squares of u hold
      together, that no other square of u holds, and beside which each of
      those squares has another candidate to lose. */
  ghost predicate HiddenGroupAt(b: Board, u: Unit, k: nat, ds: set<int>)
  {
    && |ds| == k
    && (forall d :: d in ds ==> 1 <= d <= 9)
    && |CellsHolding(b, u, ds)| == k
    && (forall q :: InUnit(q, u) && q !in CellsHolding(b, u, ds) ==> Cands(b, q) * ds == {})
    && (forall q :: q in CellsHolding(b, u, ds) ==> |Cands(b, q)| > k)
  }

  // ---------------------------------------------------------------------
  // The scan

  predicate HoldsAll(c: set<int>, ds: seq<int>)
  {
    forall d :: d in ds ==> d in c
  }

  predicate HoldsAny(c: set<int>, ds: seq<int>)
  {
    exists d :: d in ds && d in c
  }

  /** pairColumns / tripleColumns / tripleCells: the squares of u holding
      every digit of ds, in loop order. */
  function Holders(b: Board, u: Unit, ds: seq<int>): (hs: seq<Pos>)
    ensures Distinct(hs)
    ensures forall q :: q in hs <==> InUnit(q, u) && HoldsAll(Cands(b, q), ds)
  {
    Filter(Cells(u), q => HoldsAll(Cands(b, q), ds))
  }

  /** The digit groups tried in every unit: a < b (< c), lexicographically.
      The list of digits is taken through a slice so that the verifier does
      not expand the groups of the literal list wherever a scan is unfolded. */
  function DigitGroups(k: nat): Unit -> seq<seq<int>>
  {
    u => Combinations(Digits()[..9], k)
  }

  /** The onlyInPair / onlyInTriple loop: no square of u outside hs holds
      a digit of ds. */
  function OnlyInHolders(b: Board, u: Unit, ds: seq<int>, hs: seq<Pos>): (only: bool)
    ensures only <==> forall q :: InUnit(q, u) && q !in hs ==> !HoldsAny(Cands(b, q), ds)
  {
    var cs := Cells(u);
    var found := Any(cs, q => q !in hs && HoldsAny(Cands(b, q), ds));
    assert !found ==> forall q :: InUnit(q, u) && q !in hs ==> !HoldsAny(Cands(b, q), ds) by {
      forall q | !found && InUnit(q, u) && q !in hs
        ensures !HoldsAny(Cands(b, q), ds)
      {
        var j :| 0 <= j < 9 && cs[j] == q;
      }
    }
    !found
  }

  /** The All(... Count > k) test on the holders. */
  function AllLarger(b: Board, hs: seq<Pos>, k: nat): (large: bool)
    ensures large <==> forall q :: q in hs ==> |Cands(b, q)| > k
  {
    !Any(hs, q => |Cands(b, q)| <= k)
  }

  /** The three tests of the source: exactly k holders, no other square of
      the unit holds any of the digits, and every holder has more than k
      candidates. */
  predicate Fires(b: Board, k: nat, pr: (Unit, seq<int>))
  {
    var hs := Holders(b, pr.0, pr.1);
    |hs| == k && OnlyInHolders(b, pr.0, pr.1, hs) && AllLarger(b, hs, k)
  }

  function FiresOn(b: Board, k: nat): ((Unit, seq<int>)) -> bool
  {
    pr => Fires(b, k, pr)
  }

  /** Where the group lies, as the explanation names it. */
  function Place(u: Unit): string
  {
    match u
    case Row(r) => "row " + IntToString(r + 1)
    case Column(c) => "column " + IntToString(c + 1)
    case Box(_, _) => "the box"
  }

  function Explanation(k: nat, u: Unit, ds: seq<int>): string
    requires |ds| == k && (2 <= k <= 3)
  {
    if k == 2 then
      "Hidden Pair: Numbers " + IntToString(ds[0]) + " and " + IntToString(ds[1])
      + " only appear together in two squares in " + Place(u) + "." + NewLine
      + "Remove other candidates from those squares."
    else
      "Hidden Triple: Numbers " + IntToString(ds[0]) + ", " + IntToString(ds[1]) + " and " + IntToString(ds[2])
      + " only appear together in three squares in " + Place(u) + "." + NewLine
      + "Remove other candidates from those squares."
  }

  /** What a reported step says about the hidden group ds of u. */
  ghost predicate Describes(b: Board, k: nat, u: Unit, ds: set<int>, s: SolveStep)
    requires 2 <= k <= 3
  {
    && s.highlighted == CellsHolding(b, u, ds)
    && s.removedSquares == s.highlighted
    && (forall q :: q in s.removedSquares ==> Cands(b, q) - ds != {})
    && (forall n :: n in s.removedNumbers <==> 1 <= n <= 9 && n !in ds)
    && (forall i, j :: 0 <= i < j < |s.removedNumbers| ==> s.removedNumbers[i] < s.removedNumbers[j])
    && |ds| == k
    && s.explanation == Explanation(k, u, Ascending(ds))
  }

  /** The step s reports a hidden group of u, and no earlier unit has
      one. */
  ghost predicate Found(b: Board, k: nat, s: SolveStep)
    requires 2 <= k <= 3
  {
    exists u, ds ::
      && HiddenGroupAt(b, u, k, ds)
      && Describes(b, k, u, ds, s)
      && forall u', ds' :: UnitIndex(u') < UnitIndex(u) ==> !HiddenGroupAt(b, u', k, ds')
  }

  /** The shared body of HiddenPairs.Run (k = 2) and HiddenTriples.Run
      (k = 3): the first firing (unit, digits) probe, units in scan order and
      digit groups in lexicographic order within a unit. */
  function Scan(b: Board, k: nat, rule: Rule): (s: SolveStep)
    requires 2 <= k <= 3
    ensures s.rule == rule && !s.solved && s.number == 0 && !s.removedInNonHighlighted
    ensures s.removedInHighlighted <==> exists u, ds :: HiddenGroupAt(b, u, k, ds)
    ensures !s.removedInHighlighted ==> s == Blank(rule)
    ensures s.removedInHighlighted ==> Found(b, k, s)
  {
    var ps := Probes(DigitGroups(k));
    var i := FirstHit(ps, FiresOn(b, k));
    if i < |ps| then
      HitFound(b, k, rule);
      GroupStep(b, k, rule, ps[i].0, ps[i].1)
    else
      NoGroupFires(b, k);
      Blank(rule)
  }

  lemma HitFound(b: Board, k: nat, rule: Rule)
    requires 2 <= k <= 3
    requires FirstHit(Probes(DigitGroups(k)), FiresOn(b, k)) < |Probes(DigitGroups(k))|
    ensures var pr := Probes(DigitGroups(k))[FirstHit(Probes(DigitGroups(k)), FiresOn(b, k))];
      && |pr.1| == k
      && HiddenGroupAt(b, pr.0, k, Elements(pr.1))
      && Found(b, k, GroupStep(b, k, rule, pr.0, pr.1))
  {
    var ps := Probes(DigitGroups(k));
    var i := FirstHit(ps, FiresOn(b, k));
    var (u, ds) := ps[i];
    assert Digits()[..9] == Digits();
    ProbesMembers(DigitGroups(k), u, ds);
    EarlierUnitsQuiet(b, k);
    FiringGroupIsHidden(b, k, u, ds);
    GroupStepDescribes(b, k, rule, u, ds);
  }

  /** The step built for a firing probe: the holders are highlighted and
      lose every candidate outside the group. */
  function GroupStep(b: Board, k: nat, rule: Rule, u: Unit, ds: seq<int>): SolveStep
    requires |ds| == k && (2 <= k <= 3)
  {
    var hs := Elements(Holders(b, u, ds));
    SolveStep(rule, false, 0, 0, 0, Explanation(k, u, ds), hs, hs,
              BoardHelpers.RemoveOtherNumbers(ds), true, false)
  }

  /** HiddenPairs.Run. */
  function HiddenPairs(b: Board): (s: SolveStep)
    ensures s.rule == Rule.HiddenPairs && !s.solved && !s.removedInNonHighlighted
    ensures s.removedInHighlighted <==> exists u, ds :: HiddenGroupAt(b, u, 2, ds)
    ensures s.removedInHighlighted ==> |s.highlighted| == 2 && |s.removedNumbers| == 7
  {
    var s := Scan(b, 2, Rule.HiddenPairs);
    assert s.removedInHighlighted ==> |s.highlighted| == 2 && |s.removedNumbers| == 7 by {
      if s.removedInHighlighted {
        ReportedCounts(b, 2, s);
      }
    }
    s
  }

  /** HiddenTriples.Run. */
  function HiddenTriples(b: Board): (s: SolveStep)
    ensures s.rule == Rule.HiddenTriples && !s.solved && !s.removedInNonHighlighted
    ensures s.removedInHighlighted <==> exists u, ds :: HiddenGroupAt(b, u, 3, ds)
    ensures s.removedInHighlighted ==> |s.highlighted| == 3 && |s.removedNumbers| == 6
  {
    var s := Scan(b, 3, Rule.HiddenTriples);
    assert s.removedInHighlighted ==> |s.highlighted| == 3 && |s.removedNumbers| == 6 by {
      if s.removedInHighlighted {
        ReportedCounts(b, 3, s);
      }
    }
    s
  }

  // ---------------------------------------------------------------------
  // The scan against the definition

  /** A tried digit group is k distinct digits in ascending order. */
  lemma DigitGroupShape(k: nat, ds: seq<int>)
    requires ds in Combinations(Digits(), k)
    ensures |ds| == k && |Elements(ds)| == k
    ensures forall d :: d in ds ==> 1 <= d <= 9
    ensures Ascending(Elements(ds)) == ds
  {
    CombinationsShape(Digits(), k);
    SubseqMembers(ds, Digits());
    DigitsIncreasing();
    SubseqIncreasing(ds, Digits());
    DistinctCard(ds);
    AscendingUnique(Elements(ds), ds);
  }

  lemma DigitsIncreasing()
    ensures Increasing(Digits())
  {
  }

  /** An increasing list is the ascending listing of its set. */
  lemma {:induction false} AscendingUnique(s: set<int>, xs: seq<int>)
    requires Increasing(xs)
    requires forall x :: x in xs <==> x in s
    decreases |xs|
    ensures Ascending(s) == xs
  {
    if |xs| == 0 {
      assert forall x :: x !in s;
    } else {
      LeastOfIncreasing(s, xs);
      TailOfIncreasing(s, xs);
      AscendingUnique(s - {xs[0]}, xs[1..]);
      AscendingCons(s, xs);
    }
  }

  lemma AscendingCons(s: set<int>, xs: seq<int>)
    requires |xs| > 0 && s != {} && Least(s) == xs[0]
    requires Ascending(s - {xs[0]}) == xs[1..]
    ensures Ascending(s) == xs
  {
    AscendingUnfold(s);
    assert xs == [xs[0]] + xs[1..];
  }

  lemma LeastOfIncreasing(s: set<int>, xs: seq<int>)
    requires Increasing(xs) && |xs| > 0
    requires forall x :: x in xs <==> x in s
    ensures s != {} && Least(s) == xs[0]
  {
    assert xs[0] in xs;
    var m := Least(s);
    var i :| 0 <= i < |xs| && xs[i] == m;
  }

  lemma TailOfIncreasing(s: set<int>, xs: seq<int>)
    requires Increasing(xs) && |xs| > 0
    requires forall x :: x in xs <==> x in s
    ensures Increasing(xs[1..])
    ensures forall x :: x in xs[1..] <==> x in s - {xs[0]}
  {
    forall x
      ensures x in xs[1..] <==> x in s - {xs[0]}
    {
      if x in s - {xs[0]} {
        var i :| 0 <= i < |xs| && xs[i] == x;
        assert xs[1..][i - 1] == x;
      }
      if x in xs[1..] {
        var i :| 0 <= i < |xs| - 1 && xs[1..][i] == x;
        assert xs[0] < xs[i + 1];
      }
    }
  }

  /** A probe that fires is a hidden group. */
  lemma FiringGroupIsHidden(b: Board, k: nat, u: Unit, ds: seq<int>)
    requires 2 <= k <= 3
    requires ds in Combinations(Digits(), k) && Fires(b, k, (u, ds))
    ensures |ds| == k
    ensures HiddenGroupAt(b, u, k, Elements(ds))
  {
    DigitGroupShape(k, ds);
    HoldersAreCellsHolding(b, u, ds);
    MissesAsSets(b, ds);
    DistinctCard(Holders(b, u, ds));
  }

  /** The step built for a firing probe describes its group. */
  lemma GroupStepDescribes(b: Board, k: nat, rule: Rule, u: Unit, ds: seq<int>)
    requires 2 <= k <= 3
    requires ds in Combinations(Digits(), k) && Fires(b, k, (u, ds))
    ensures |ds| == k
    ensures Describes(b, k, u, Elements(ds), GroupStep(b, k, rule, u, ds))
  {
    DigitGroupShape(k, ds);
    HoldersAreCellsHolding(b, u, ds);
    var D := Elements(ds);
    forall q | q in CellsHolding(b, u, D)
      ensures Cands(b, q) - D != {}
    {
      LargerNotInside(Cands(b, q), D);
    }
  }

  lemma HoldersAreCellsHolding(b: Board, u: Unit, ds: seq<int>)
    ensures Elements(Holders(b, u, ds)) == CellsHolding(b, u, Elements(ds))
  {
    forall q
      ensures HoldsAll(Cands(b, q), ds) <==> Elements(ds) <= Cands(b, q)
    {
      HoldsAsSets(Cands(b, q), ds);
    }
  }

  lemma MissesAsSets(b: Board, ds: seq<int>)
    ensures forall q :: !HoldsAny(Cands(b, q), ds) <==> Cands(b, q) * Elements(ds) == {}
  {
    forall q
      ensures !HoldsAny(Cands(b, q), ds) <==> Cands(b, q) * Elements(ds) == {}
    {
      HoldsAsSets(Cands(b, q), ds);
    }
  }

  /** The list tests against set inclusion and intersection. */
  lemma HoldsAsSets(c: set<int>, ds: seq<int>)
    ensures HoldsAll(c, ds) <==> Elements(ds) <= c
    ensures !HoldsAny(c, ds) <==> c * Elements(ds) == {}
  {
    var D := Elements(ds);
    if HoldsAll(c, ds) {
      forall d | d in D
        ensures d in c
      {
      }
    }
    if D <= c {
      forall d | d in ds
        ensures d in c
      {
        assert d in D;
      }
    }
    if HoldsAny(c, ds) {
      var d :| d in ds && d in c;
      assert d in c * D;
    } else {
      forall d
        ensures d !in c * D
      {
        assert d in ds ==> d !in c;
      }
    }
  }

  /** Every hidden group is found by the scan, in its own unit or an
      earlier one. */
  lemma GroupFound(b: Board, k: nat, u: Unit, D: set<int>)
    requires HiddenGroupAt(b, u, k, D)
    ensures FirstHit(Probes(DigitGroups(k)), FiresOn(b, k)) < |Probes(DigitGroups(k))|
    ensures UnitIndex(Probes(DigitGroups(k))[FirstHit(Probes(DigitGroups(k)), FiresOn(b, k))].0) <= UnitIndex(u)
  {
    assert Digits()[..9] == Digits();
    var ds := Selection(Digits(), D);
    SelectionIsCombination(Digits(), D);
    assert Elements(ds) == D;
    assert ds in DigitGroups(k)(u);
    var hs := Holders(b, u, ds);
    HoldersAreCellsHolding(b, u, ds);
    MissesAsSets(b, ds);
    DistinctCard(hs);
    assert Fires(b, k, (u, ds));
    EarliestUnit(DigitGroups(k), FiresOn(b, k), u, ds);
  }

  lemma NoGroupFires(b: Board, k: nat)
    requires FirstHit(Probes(DigitGroups(k)), FiresOn(b, k)) == |Probes(DigitGroups(k))|
    ensures forall u, D :: !HiddenGroupAt(b, u, k, D)
  {
    forall u, D | HiddenGroupAt(b, u, k, D)
      ensures false
    {
      GroupFound(b, k, u, D);
    }
  }

  lemma EarlierUnitsQuiet(b: Board, k: nat)
    requires FirstHit(Probes(DigitGroups(k)), FiresOn(b, k)) < |Probes(DigitGroups(k))|
    ensures forall u', D' ::
              UnitIndex(u') < UnitIndex(Probes(DigitGroups(k))[FirstHit(Probes(DigitGroups(k)), FiresOn(b, k))].0)
              ==> !HiddenGroupAt(b, u', k, D')
  {
    forall u', D' | HiddenGroupAt(b, u', k, D')
      ensures UnitIndex(Probes(DigitGroups(k))[FirstHit(Probes(DigitGroups(k)), FiresOn(b, k))].0) <= UnitIndex(u')
    {
      GroupFound(b, k, u', D');
    }
  }

  /** A reported step highlights k squares and removes the 9 - k digits
      outside the group. */
  lemma ReportedCounts(b: Board, k: nat, s: SolveStep)
    requires 2 <= k <= 3
    requires Found(b, k, s)
    ensures |s.highlighted| == k && |s.removedNumbers| == 9 - k
  {
    var u, ds :| HiddenGroupAt(b, u, k, ds) && Describes(b, k, u, ds, s);
    OtherDigitsCount(s.removedNumbers, ds);
  }

  /** The increasing list of the digits outside a set of digits. */
  lemma OtherDigitsCount(ns: seq<int>, ds: set<int>)
    requires forall d :: d in ds ==> 1 <= d <= 9
    requires forall n :: n in ns <==> 1 <= n <= 9 && n !in ds
    requires forall i, j :: 0 <= i < j < |ns| ==> ns[i] < ns[j]
    ensures |ns| == 9 - |ds|
  {
    var others := set n | n in ns;
    DistinctCard(ns);
    DigitSetSize();
    forall d
      ensures d in DigitSet() <==> d in others + ds
    {
      assert d in ns <==> d in others;
    }
    assert DigitSet() == others + ds;
    assert others * ds == {};
  }
}
