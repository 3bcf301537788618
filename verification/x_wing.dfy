/** Logic/Rule/XWing.cs: when a digit can go in exactly the same two
    columns of two rows, those four squares hold it twice between them, so
    no other square of those two columns can take it; the same holds with
    rows and columns exchanged. */
module XWingRule {
  import opened Grid
  import opened Steps
  import opened Text
  import opened Combinatorics

  // ---------------------------------------------------------------------
  // Lines and cross indices

  /** The square on line l at cross index x: row l and column x in the
      row-based search, column l and row x in the column-based one. */
  function At(byRows: bool, l: Index, x: Index): Pos
  {
    if byRows then Pos(l, x) else Pos(x, l)
  }

  /** The line a square lies on, and its cross index. */
  function LineOf(byRows: bool, q: Pos): Index
  {
    if byRows then q.row else q.col
  }

  function CrossOf(byRows: bool, q: Pos): Index
  {
    if byRows then q.col else q.row
  }

  function HoldsAt(b: Board, byRows: bool, d: int, l: Index): int -> bool
  {
    x => 0 <= x < 9 && d in Cands(b, At(byRows, l, x))
  }

  /** The cols (rows) list of the source: the cross indices at which line l
      can take d, ascending. */
  function Spots(b: Board, byRows: bool, d: int, l: Index): (xs: seq<int>)
    ensures Increasing(xs)
    ensures forall x :: x in xs <==> 0 <= x < 9 && d in Cands(b, At(byRows, l, x))
  {
    var ix := Lines();
    FilterIncreasing(ix, HoldsAt(b, byRows, d, l));
    Filter(ix, HoldsAt(b, byRows, d, l))
  }

  /** The indices 0..8 as numbers. */
  function Lines(): (ix: seq<int>)
    ensures Increasing(ix)
    ensures forall x :: x in ix <==> 0 <= x < 9
  {
    var ix := seq(9, i requires 0 <= i < 9 => i);
    assert forall x :: x in ix <==> 0 <= x < 9 by {
      forall x
        ensures x in ix <==> 0 <= x < 9
      {
        if 0 <= x < 9 {
          assert ix[x] == x;
        }
        if x in ix {
          var i :| 0 <= i < 9 && ix[i] == x;
        }
      }
    }
    ix
  }

  // ---------------------------------------------------------------------
  // Probes and their scan order

  /** The test of lines l1 and l2 for digit d. The source pairs entries i <
      j of the list of lines with exactly two spots; running over every pair
      of lines l1 < l2 and requiring two spots on each meets the qualifying
      pairs in the same order. */
  datatype Probe = Probe(byRows: bool, d: int, l1: Index, l2: Index)

  predicate ValidProbe(pr: Probe)
  {
    1 <= pr.d <= 9
  }

  /** The probe tried t-th: the row-based search before the column-based
      one, then digits ascending, then pairs of lines in lexicographic
      order. */
  function ProbeAt(t: nat): (pr: Probe)
    requires t < 1458
    ensures ValidProbe(pr)
  {
    var rest := t % 729;
    Probe(t < 729, rest / 81 + 1, rest % 81 / 9, rest % 9)
  }

  function Probes(): (ps: seq<Probe>)
    ensures |ps| == 1458
    ensures forall t :: 0 <= t < 1458 ==> ps[t] == ProbeAt(t)
  {
    seq(1458, t requires 0 <= t < 1458 => ProbeAt(t))
  }

  function ProbeIndex(pr: Probe): (t: nat)
    requires ValidProbe(pr)
    ensures t < 1458 && ProbeAt(t) == pr
  {
    var low := 9 * pr.l1 + pr.l2;
    var rest := 81 * (pr.d - 1) + low;
    var t := (if pr.byRows then 0 else 729) + rest;
    assert t % 729 == rest;
    assert rest / 81 == pr.d - 1 && rest % 81 == low;
    assert low / 9 == pr.l1 && low % 9 == pr.l2;
    t
  }

  lemma ProbeAtIndex(t: nat)
    requires t < 1458
    ensures ProbeIndex(ProbeAt(t)) == t
  {
    var rest := t % 729;
    assert t == (if t < 729 then 0 else 729) + rest;
    assert rest == 81 * (rest / 81) + rest % 81;
    assert rest % 81 == 9 * (rest % 81 / 9) + rest % 9;
  }

  /** Scan order: rows before columns, then digit, then the pair of lines
      lexicographically. */
  predicate ProbeBefore(p: Probe, q: Probe)
  {
    (p.byRows && !q.byRows)
    || (p.byRows == q.byRows
        && (p.d < q.d || (p.d == q.d && (p.l1 < q.l1 || (p.l1 == q.l1 && p.l2 < q.l2)))))
  }

  lemma ProbeOrder(p: Probe, q: Probe)
    requires ValidProbe(p) && ValidProbe(q)
    ensures ProbeBefore(p, q) <==> ProbeIndex(p) < ProbeIndex(q)
  {
  }

  // ---------------------------------------------------------------------
  // The scan

  /** The four corners of the wing. */
  function Corners(byRows: bool, l1: Index, l2: Index, x1: Index, x2: Index): set<Pos>
  {
    {At(byRows, l1, x1), At(byRows, l1, x2), At(byRows, l2, x1), At(byRows, l2, x2)}
  }

  /** A square on one of the wing's cross lines but on neither of its
      lines. */
  predicate OffWing(pr: Probe, x1: int, x2: int, q: Pos)
  {
    LineOf(pr.byRows, q) != pr.l1 && LineOf(pr.byRows, q) != pr.l2
    && (CrossOf(pr.byRows, q) == x1 || CrossOf(pr.byRows, q) == x2)
  }

  /** The squares the source adds to CandidatesRemovedSquares. */
  function Removals(b: Board, pr: Probe, x1: int, x2: int): (rs: seq<Pos>)
    ensures forall q :: q in rs <==> OffWing(pr, x1, x2, q) && pr.d in Cands(b, q)
  {
    var ps := AllPositions();
    assert forall q :: q in ps by {
      forall q
        ensures q in ps
      {
        AllPositionsIndex(q);
      }
    }
    Filter(ps, q => OffWing(pr, x1, x2, q) && pr.d in Cands(b, q))
  }

  /** Two lines with the same two spots and something to remove. */
  predicate Fires(b: Board, pr: Probe)
  {
    var s1 := Spots(b, pr.byRows, pr.d, pr.l1);
    && pr.l1 < pr.l2
    && |s1| == 2
    && Spots(b, pr.byRows, pr.d, pr.l2) == s1
    && |Removals(b, pr, s1[0], s1[1])| > 0
  }

  function FiresOn(b: Board): Probe -> bool
  {
    pr => Fires(b, pr)
  }

  function Explanation(pr: Probe): string
  {
    var n := IntToString(pr.d);
    var lines := "(" + IntToString(pr.l1 + 1) + ", " + IntToString(pr.l2 + 1) + ")." + NewLine;
    if pr.byRows then
      "X-Wing (rows): " + n + " appears in exactly two columns in two rows " + lines
      + "Remove " + n + " from other rows in those columns."
    else
      "X-Wing (columns): " + n + " appears in exactly two rows in two columns " + lines
      + "Remove " + n + " from other columns in those rows."
  }

  // ---------------------------------------------------------------------
  // The definition

  ghost function SpotSet(b: Board, byRows: bool, d: int, l: Index): set<int>
  {
    set x | 0 <= x < 9 && d in Cands(b, At(byRows, l, x))
  }

  /** Lines l1 < l2 can take the digit at the same two cross indices, hl
      are the four corners, and rm, not empty, are the other squares of the
      two cross lines that can take it. */
  ghost predicate XWingAt(b: Board, pr: Probe, hl: set<Pos>, rm: set<Pos>)
  {
    && pr.l1 < pr.l2
    && rm != {}
    && exists x1: Index, x2: Index :: Wing(b, pr, x1, x2, hl, rm)
  }

  /** The wing on cross indices x1 and x2. */
  ghost predicate Wing(b: Board, pr: Probe, x1: Index, x2: Index, hl: set<Pos>, rm: set<Pos>)
  {
    && x1 != x2
    && SpotSet(b, pr.byRows, pr.d, pr.l1) == {x1, x2}
    && SpotSet(b, pr.byRows, pr.d, pr.l2) == {x1, x2}
    && hl == Corners(pr.byRows, pr.l1, pr.l2, x1, x2)
    && forall q :: q in rm <==>
         && LineOf(pr.byRows, q) !in {pr.l1, pr.l2}
         && CrossOf(pr.byRows, q) in {x1, x2}
         && pr.d in Cands(b, q)
  }

  /** The corners hold the digit and are never cleared. */
  lemma WingDisjoint(b: Board, pr: Probe, hl: set<Pos>, rm: set<Pos>)
    requires XWingAt(b, pr, hl, rm)
    ensures hl * rm == {}
    ensures forall q :: q in hl ==> pr.d in Cands(b, q)
  {
    var x1: Index, x2: Index :| Wing(b, pr, x1, x2, hl, rm);
    assert x1 in SpotSet(b, pr.byRows, pr.d, pr.l1) && x2 in SpotSet(b, pr.byRows, pr.d, pr.l1);
    assert x1 in SpotSet(b, pr.byRows, pr.d, pr.l2) && x2 in SpotSet(b, pr.byRows, pr.d, pr.l2);
    forall q | q in hl
      ensures q !in rm
    {
      assert LineOf(pr.byRows, q) in {pr.l1, pr.l2};
    }
  }

  /** The list test of the source against the definition. */
  lemma FiresIsXWing(b: Board, pr: Probe)
    requires Fires(b, pr)
    ensures var s := Spots(b, pr.byRows, pr.d, pr.l1);
      && 0 <= s[0] < 9 && 0 <= s[1] < 9
      && XWingAt(b, pr, Corners(pr.byRows, pr.l1, pr.l2, s[0], s[1]), Elements(Removals(b, pr, s[0], s[1])))
  {
    var s := Spots(b, pr.byRows, pr.d, pr.l1);
    TwoSpots(b, pr.byRows, pr.d, pr.l1);
    TwoSpots(b, pr.byRows, pr.d, pr.l2);
    var x1: Index, x2: Index := s[0], s[1];
    var rs := Removals(b, pr, x1, x2);
    RemovalsMatch(b, pr, x1, x2);
    assert rs[0] in Elements(rs);
    assert Wing(b, pr, x1, x2, Corners(pr.byRows, pr.l1, pr.l2, x1, x2), Elements(rs));
  }

  /** A line with two spots can take the digit at exactly those two cross
      indices. */
  lemma TwoSpots(b: Board, byRows: bool, d: int, l: Index)
    requires |Spots(b, byRows, d, l)| == 2
    ensures var s := Spots(b, byRows, d, l);
      && 0 <= s[0] < s[1] < 9
      && SpotSet(b, byRows, d, l) == {s[0], s[1]}
  {
    var s := Spots(b, byRows, d, l);
    assert s[0] in s && s[1] in s;
    forall x
      ensures x in SpotSet(b, byRows, d, l) <==> x in {s[0], s[1]}
    {
      assert x in s <==> x == s[0] || x == s[1];
    }
  }

  /** The removals list against the definition's removal set. */
  lemma RemovalsMatch(b: Board, pr: Probe, x1: Index, x2: Index)
    ensures forall q :: q in Elements(Removals(b, pr, x1, x2)) <==>
              && LineOf(pr.byRows, q) !in {pr.l1, pr.l2}
              && CrossOf(pr.byRows, q) in {x1, x2}
              && pr.d in Cands(b, q)
  {
  }

  /** A wing makes its probe fire. */
  lemma XWingFires(b: Board, pr: Probe, hl: set<Pos>, rm: set<Pos>)
    requires XWingAt(b, pr, hl, rm)
    ensures Fires(b, pr)
  {
    var x1: Index, x2: Index :| Wing(b, pr, x1, x2, hl, rm);
    var q :| q in rm;
    WingFires(b, pr, x1, x2, hl, rm, q);
  }

  lemma WingFires(b: Board, pr: Probe, x1: Index, x2: Index, hl: set<Pos>, rm: set<Pos>, q: Pos)
    requires pr.l1 < pr.l2
    requires Wing(b, pr, x1, x2, hl, rm) && q in rm
    ensures Fires(b, pr)
  {
    var s1 := Spots(b, pr.byRows, pr.d, pr.l1);
    SameSpots(b, pr.byRows, pr.d, pr.l1, pr.l2, x1, x2);
    RemovalsMatch(b, pr, s1[0], s1[1]);
    assert q in Elements(Removals(b, pr, s1[0], s1[1]));
  }

  /** Two lines that can take the digit at the same two cross indices have
      equal spot lists of length two. */
  lemma SameSpots(b: Board, byRows: bool, d: int, l1: Index, l2: Index, x1: Index, x2: Index)
    requires x1 != x2
    requires SpotSet(b, byRows, d, l1) == {x1, x2} && SpotSet(b, byRows, d, l2) == {x1, x2}
    ensures var s1 := Spots(b, byRows, d, l1);
      && |s1| == 2 && Spots(b, byRows, d, l2) == s1 && {s1[0], s1[1]} == {x1, x2}
  {
    var s1 := Spots(b, byRows, d, l1);
    var s2 := Spots(b, byRows, d, l2);
    SpotsAre(b, byRows, d, l1, x1, x2);
    SpotsAre(b, byRows, d, l2, x1, x2);
    IncreasingUnique(s1, s2);
    assert Distinct(s1) by {
      forall i, j | 0 <= i < j < |s1|
        ensures s1[i] != s1[j]
      {
      }
    }
    TwoMembers(s1, x1, x2);
  }

  /** The spot list of a line is its spot set. */
  lemma SpotsAre(b: Board, byRows: bool, d: int, l: Index, x1: Index, x2: Index)
    requires SpotSet(b, byRows, d, l) == {x1, x2}
    ensures forall x :: x in Spots(b, byRows, d, l) <==> x == x1 || x == x2
  {
    forall x
      ensures x in Spots(b, byRows, d, l) <==> x == x1 || x == x2
    {
      assert x in SpotSet(b, byRows, d, l) <==> x in {x1, x2};
    }
  }

  // ---------------------------------------------------------------------
  // The rule

  /** What a reported step says about the wing found by probe pr, the
      first probe in scan order that shows one. */
  ghost predicate Reports(b: Board, pr: Probe, s: SolveStep)
  {
    && ValidProbe(pr)
    && XWingAt(b, pr, s.highlighted, s.removedSquares)
    && s.highlighted * s.removedSquares == {}
    && s.number == pr.d
    && s.removedNumbers == [pr.d]
    && s.explanation == Explanation(pr)
    && forall pr', hl, rm :: ValidProbe(pr') && ProbeBefore(pr', pr) ==> !XWingAt(b, pr', hl, rm)
  }

  /** Some pair of lines forms a wing that clears something. */
  ghost predicate SomeWing(b: Board)
  {
    exists pr, hl, rm :: ValidProbe(pr) && XWingAt(b, pr, hl, rm)
  }

  /** XWing.Run. */
  function Run(b: Board): (s: SolveStep)
    ensures s.rule == Rule.XWing && !s.solved && !s.removedInHighlighted
    ensures s.removedInNonHighlighted <==> SomeWing(b)
    ensures !s.removedInNonHighlighted ==> s == Blank(Rule.XWing)
    ensures s.removedInNonHighlighted ==> exists pr :: Reports(b, pr, s)
  {
    var ps := Probes();
    var i := FirstHit(ps, FiresOn(b));
    if i < |ps| then
      Hit(b, ps[i], i)
    else
      NoProbeFires(b);
      Blank(Rule.XWing)
  }

  /** The step reported for the first firing probe pr, the i-th. */
  function Hit(b: Board, pr: Probe, i: nat): (s: SolveStep)
    requires i < 1458 && Probes()[i] == pr && Fires(b, pr)
    requires forall j :: 0 <= j < i ==> !FiresOn(b)(Probes()[j])
    ensures s.rule == Rule.XWing && !s.solved
    ensures !s.removedInHighlighted && s.removedInNonHighlighted
    ensures Reports(b, pr, s)
    ensures SomeWing(b)
  {
    var xs := Spots(b, pr.byRows, pr.d, pr.l1);
    FiresIsXWing(b, pr);
    var x1: Index, x2: Index := xs[0], xs[1];
    var hl := Corners(pr.byRows, pr.l1, pr.l2, x1, x2);
    var rm := Elements(Removals(b, pr, x1, x2));
    WingDisjoint(b, pr, hl, rm);
    EarlierProbesMiss(b, pr, i);
    SolveStep(Rule.XWing, false, pr.d, 0, 0, Explanation(pr), hl, rm, [pr.d], false, true)
  }

  lemma EarlierProbesMiss(b: Board, pr: Probe, i: nat)
    requires i < 1458 && Probes()[i] == pr
    requires forall j :: 0 <= j < i ==> !FiresOn(b)(Probes()[j])
    ensures forall pr', hl, rm :: ValidProbe(pr') && ProbeBefore(pr', pr) ==> !XWingAt(b, pr', hl, rm)
  {
    ProbeAtIndex(i);
    forall pr', hl, rm | ValidProbe(pr') && ProbeBefore(pr', pr)
      ensures !XWingAt(b, pr', hl, rm)
    {
      ProbeOrder(pr', pr);
      assert !FiresOn(b)(Probes()[ProbeIndex(pr')]);
      if XWingAt(b, pr', hl, rm) {
        XWingFires(b, pr', hl, rm);
      }
    }
  }

  lemma NoProbeFires(b: Board)
    requires forall j :: 0 <= j < 1458 ==> !FiresOn(b)(Probes()[j])
    ensures !SomeWing(b)
  {
    forall pr, hl, rm | ValidProbe(pr)
      ensures !XWingAt(b, pr, hl, rm)
    {
      assert !FiresOn(b)(Probes()[ProbeIndex(pr)]);
      if XWingAt(b, pr, hl, rm) {
        XWingFires(b, pr, hl, rm);
      }
    }
  }
}
