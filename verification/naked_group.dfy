/** Logic/Rule/NakedGroup.cs: k squares of one unit whose candidates
    together are exactly k digits hold those digits between them, so no
    other square of the unit can take any of them. NakedPairs.cs,
    NakedTriples.cs and NakedQuads.cs run it at sizes 2, 3 and 4. */
module NakedGroupRule {
  import opened Wrappers
  import opened Grid
  import opened Steps
  import opened Text
  import opened Combinatorics
  import opened UnitScan

  // ---------------------------------------------------------------------
  // The definition

  /** The digits the squares of gs may take between them. */
  ghost function UnionOf(b: Board, gs: set<Pos>): set<int>
  {
    set q, d | q in gs && d in Cands(b, q) :: d
  }

  /** gs is a naked group of size k in u: k squares of u, each with between
      2 and k candidates, whose candidates together are k digits. */
  ghost predicate NakedGroupIn(b: Board, u: Unit, k: nat, gs: set<Pos>)
  {
    && |gs| == k
    && (forall q :: q in gs ==> InUnit(q, u) && 2 <= |Cands(b, q)| <= k)
    && |UnionOf(b, gs)| == k
  }

  /** The other squares of u that still hold a digit of the group. */
  ghost function Eliminations(b: Board, u: Unit, gs: set<Pos>): set<Pos>
  {
    set q | q in Cells(u) && q !in gs && Cands(b, q) * UnionOf(b, gs) != {}
  }

  /** A naked group that lets the rule remove something. */
  ghost predicate NakedGroupAt(b: Board, u: Unit, k: nat, gs: set<Pos>)
  {
    NakedGroupIn(b, u, k, gs) && Eliminations(b, u, gs) != {}
  }

  // ---------------------------------------------------------------------
  // The scan

  /** The squares of u with between 2 and k candidates, in loop order. */
  function Eligible(b: Board, u: Unit, k: nat): (cs: seq<Pos>)
    ensures Distinct(cs)
    ensures forall q :: q in cs <==> InUnit(q, u) && 2 <= |Cands(b, q)| <= k
  {
    Filter(Cells(u), q => 2 <= |Cands(b, q)| <= k)
  }

  /** The groups tried in u: nothing when fewer than k squares are eligible,
      otherwise every k-combination of the eligible squares. */
  function Groups(b: Board, u: Unit, k: nat): seq<seq<Pos>>
  {
    var cells := Eligible(b, u, k);
    if |cells| >= k then Combinations(cells, k) else []
  }

  function GroupsOf(b: Board, k: nat): Unit -> seq<seq<Pos>>
  {
    u => Groups(b, u, k)
  }

  /** The squares of a group as a set. */
  /** The union of the group's candidates (groupCandidates). */
  function GroupCands(b: Board, g: seq<Pos>): (ds: set<int>)
    ensures forall d :: d in ds <==> exists q :: q in g && d in Cands(b, q)
  {
    if g == [] then {}
    else
      var rest := GroupCands(b, g[1..]);
      assert forall q :: q in g <==> q == g[0] || q in g[1..];
      Cands(b, g[0]) + rest
  }

  /** groupCandidates as its loops enumerate it. UnionWith adds each
      square's candidates, square by square in g's order, and a set that
      only grows enumerates in the order of insertion. A square's candidate
      list is ascending: it is filled from the digits 1..9 in turn and only
      loses entries afterwards. */
  function GroupDigits(b: Board, g: seq<Pos>): (ds: seq<int>)
    ensures Distinct(ds)
    ensures forall d :: d in ds <==> d in GroupCands(b, g)
    ensures |ds| == |GroupCands(b, g)|
  {
    var ds := UnionInOrder(b, g, []);
    assert Elements(ds) == GroupCands(b, g);
    DistinctCard(ds);
    ds
  }

  /** The UnionWith loop from the digits acc already inserted. */
  function UnionInOrder(b: Board, g: seq<Pos>, acc: seq<int>): (r: seq<int>)
    ensures Distinct(acc) ==> Distinct(r)
    ensures forall d :: d in r <==> d in acc || exists q :: q in g && d in Cands(b, q)
  {
    if g == [] then acc
    else
      var c := Cands(b, g[0]);
      var r := UnionInOrder(b, g[1..], AddFound(c, Ascending(c), acc));
      assert forall q :: q in g <==> q == g[0] || q in g[1..];
      r
  }

  /** The index in g of the first square holding d, or |g| if none does. */
  function FirstHolder(b: Board, g: seq<Pos>, d: int): (i: nat)
    ensures i <= |g|
    ensures i < |g| ==> d in Cands(b, g[i])
    ensures forall j :: 0 <= j < i ==> d !in Cands(b, g[j])
  {
    if g == [] then 0
    else if d in Cands(b, g[0]) then 0
    else 1 + FirstHolder(b, g[1..], d)
  }

  /** x comes before y in first-met order along g: its first holder is
      earlier, or both first lie in the same square and x is smaller. */
  predicate MetBefore(b: Board, g: seq<Pos>, x: int, y: int)
  {
    || FirstHolder(b, g, x) < FirstHolder(b, g, y)
    || (FirstHolder(b, g, x) == FirstHolder(b, g, y) && x < y)
  }

  /** The digits of groupCandidates come out in first-met order. */
  lemma GroupDigitsOrder(b: Board, g: seq<Pos>)
    ensures forall i, j :: 0 <= i < j < |GroupDigits(b, g)| ==>
              MetBefore(b, g, GroupDigits(b, g)[i], GroupDigits(b, g)[j])
  {
    UnionInOrderShape(b, g, []);
  }

  /** The UnionWith loop keeps the digits already inserted in front and
      appends the new ones in first-met order. */
  lemma {:induction false} UnionInOrderShape(b: Board, g: seq<Pos>, acc: seq<int>)
    requires Distinct(acc)
    decreases |g|
    ensures |acc| <= |UnionInOrder(b, g, acc)|
    ensures UnionInOrder(b, g, acc)[..|acc|] == acc
    ensures forall i, j :: |acc| <= i < j < |UnionInOrder(b, g, acc)| ==>
              MetBefore(b, g, UnionInOrder(b, g, acc)[i], UnionInOrder(b, g, acc)[j])
  {
    if g != [] {
      var c := Cands(b, g[0]);
      var acc1 := AddFound(c, Ascending(c), acc);
      var r := UnionInOrder(b, g[1..], acc1);
      assert r == UnionInOrder(b, g, acc);
      AddFoundShape(c, Ascending(c), acc);
      UnionInOrderShape(b, g[1..], acc1);
      assert r[..|acc|] == acc by {
        assert r[..|acc1|] == acc1;
        assert acc1[..|acc|] == acc;
      }
      forall i, j | |acc| <= i < j < |r|
        ensures MetBefore(b, g, r[i], r[j])
      {
        MetBeforeStep(b, g, acc, acc1, r, i, j);
      }
    }
  }

  /** One turn of the UnionWith loop: digits of the first square come
      first, in ascending order, and the later ones keep their order. */
  lemma MetBeforeStep(b: Board, g: seq<Pos>, acc: seq<int>, acc1: seq<int>, r: seq<int>, i: nat, j: nat)
    requires g != [] && Distinct(acc)
    requires acc1 == AddFound(Cands(b, g[0]), Ascending(Cands(b, g[0])), acc)
    requires r == UnionInOrder(b, g[1..], acc1)
    requires |acc| <= |acc1| && acc1[..|acc|] == acc
    requires forall i, j :: |acc| <= i < j < |acc1| ==> acc1[i] < acc1[j]
    requires forall i :: |acc| <= i < |acc1| ==> acc1[i] in Cands(b, g[0])
    requires |acc1| <= |r| && r[..|acc1|] == acc1
    requires forall i, j :: |acc1| <= i < j < |r| ==> MetBefore(b, g[1..], r[i], r[j])
    requires |acc| <= i < j < |r|
    ensures MetBefore(b, g, r[i], r[j])
  {
    if j < |acc1| {
      assert r[i] == acc1[i] && r[j] == acc1[j];
    } else {
      LaterNotInFirst(b, g, acc, acc1, r, j);
      if i >= |acc1| {
        LaterNotInFirst(b, g, acc, acc1, r, i);
      } else {
        assert r[i] == acc1[i];
      }
    }
  }

  /** After the first square's turn, a digit appended later is not one of
      that square's candidates. */
  lemma LaterNotInFirst(b: Board, g: seq<Pos>, acc: seq<int>, acc1: seq<int>, r: seq<int>, i: nat)
    requires g != [] && Distinct(acc)
    requires acc1 == AddFound(Cands(b, g[0]), Ascending(Cands(b, g[0])), acc)
    requires r == UnionInOrder(b, g[1..], acc1)
    requires |acc1| <= |r| && r[..|acc1|] == acc1
    requires |acc1| <= i < |r|
    ensures r[i] !in Cands(b, g[0])
  {
    var c := Cands(b, g[0]);
    assert Distinct(acc1);
    assert Distinct(r);
    NotInPrefix(acc1, r, i);
    assert forall n :: n in c ==> n in Ascending(c) && n in acc1;
  }

  /** In a list without repeats, nothing after a prefix is in the prefix. */
  lemma NotInPrefix(p: seq<int>, r: seq<int>, i: nat)
    requires Distinct(r) && |p| <= |r| && r[..|p|] == p
    requires |p| <= i < |r|
    ensures r[i] !in p
  {
    forall m | 0 <= m < |p|
      ensures p[m] != r[i]
    {
      assert r[m] == p[m];
    }
  }

  /** The inner loop keeps acc in front and appends, in the order of ds,
      the digits of ds in c that acc lacks. */
  lemma {:induction false} AddFoundShape(c: set<int>, ds: seq<int>, acc: seq<int>)
    requires Distinct(acc)
    requires forall i, j :: 0 <= i < j < |ds| ==> ds[i] < ds[j]
    decreases |ds|
    ensures |acc| <= |AddFound(c, ds, acc)|
    ensures AddFound(c, ds, acc)[..|acc|] == acc
    ensures forall i :: |acc| <= i < |AddFound(c, ds, acc)| ==> AddFound(c, ds, acc)[i] in c
    ensures forall i, j :: |acc| <= i < j < |AddFound(c, ds, acc)| ==>
              AddFound(c, ds, acc)[i] < AddFound(c, ds, acc)[j]
  {
    if ds != [] {
      var acc' := if ds[0] in c && ds[0] !in acc then acc + [ds[0]] else acc;
      var r := AddFound(c, ds[1..], acc');
      assert r == AddFound(c, ds, acc);
      AddFoundShape(c, ds[1..], acc');
      assert r[..|acc|] == acc by {
        assert r[..|acc'|] == acc';
        assert acc'[..|acc|] == acc;
      }
      forall i | |acc'| <= i < |r|
        ensures ds[0] < r[i]
      {
        AppendedLater(c, ds, acc', r, i);
      }
    }
  }

  /** A digit the inner loop appends after its first turn comes from the
      rest of ds. */
  lemma AppendedLater(c: set<int>, ds: seq<int>, acc': seq<int>, r: seq<int>, i: nat)
    requires ds != [] && Distinct(acc')
    requires forall i, j :: 0 <= i < j < |ds| ==> ds[i] < ds[j]
    requires r == AddFound(c, ds[1..], acc')
    requires |acc'| <= |r| && r[..|acc'|] == acc'
    requires |acc'| <= i < |r|
    ensures ds[0] < r[i]
  {
    assert Distinct(r);
    NotInPrefix(acc', r, i);
    assert r[i] in r;
    assert r[i] in ds[1..];
    var m :| 0 <= m < |ds[1..]| && ds[1..][m] == r[i];
    assert ds[m + 1] == r[i];
  }

  /** The squares of u outside g holding a digit of the group. */
  function RemovalSquares(b: Board, u: Unit, g: seq<Pos>): (rs: set<Pos>)
    ensures forall q :: q in rs <==> InUnit(q, u) && q !in g && Cands(b, q) * GroupCands(b, g) != {}
  {
    set q | q in Cells(u) && q !in g && Cands(b, q) * GroupCands(b, g) != {}
  }

  /** CheckGroup's test: the group's candidates are k digits (every square's
      candidates lie in the union by construction) and some other square of
      the unit holds one of them. */
  predicate Fires(b: Board, k: nat, pr: (Unit, seq<Pos>))
  {
    |GroupCands(b, pr.1)| == k && RemovalSquares(b, pr.0, pr.1) != {}
  }

  function FiresOn(b: Board, k: nat): ((Unit, seq<Pos>)) -> bool
  {
    pr => Fires(b, k, pr)
  }

  /** The inner loop of CheckGroup for one square with candidates c: every
      digit of ds it holds is appended unless already listed. */
  function AddFound(c: set<int>, ds: seq<int>, acc: seq<int>): (r: seq<int>)
    ensures Distinct(acc) ==> Distinct(r)
    ensures forall n :: n in r <==> n in acc || (n in ds && n in c)
  {
    if ds == [] then acc
    else
      var acc' := if ds[0] in c && ds[0] !in acc then acc + [ds[0]] else acc;
      assert Distinct(acc) ==> Distinct(acc');
      AddFound(c, ds[1..], acc')
  }

  /** The outer loop of CheckGroup over the squares qs outside the group. */
  function CollectNumbers(b: Board, qs: seq<Pos>, ds: seq<int>, acc: seq<int>): (r: seq<int>)
    ensures Distinct(acc) ==> Distinct(r)
    ensures forall n :: n in r <==> n in acc || (n in ds && exists q :: q in qs && n in Cands(b, q))
  {
    if qs == [] then acc
    else
      var r := CollectNumbers(b, qs[1..], ds, AddFound(Cands(b, qs[0]), ds, acc));
      assert forall q :: q in qs <==> q == qs[0] || q in qs[1..];
      r
  }

  /** CandidatesRemovedNumbers: the group digits found in the squares of u
      outside g, each once, in the order the loops meet them: square by
      square, and within a square in groupCandidates' order. */
  function RemovedNumbers(b: Board, u: Unit, g: seq<Pos>): (ns: seq<int>)
    ensures Distinct(ns)
    ensures forall n :: n in ns <==>
              n in GroupCands(b, g) && exists q :: q in RemovalSquares(b, u, g) && n in Cands(b, q)
  {
    var others := Outside(u, g);
    var ns := CollectNumbers(b, others, GroupDigits(b, g), []);
    CollectedNumbers(b, u, g, others, ns);
    ns
  }

  /** allCells.Except(cells): the squares of u outside g, in unit order. */
  function Outside(u: Unit, g: seq<Pos>): (qs: seq<Pos>)
    ensures forall q :: q in qs <==> InUnit(q, u) && q !in g
  {
    Filter(Cells(u), q => q !in g)
  }

  /** The index of x in ds, or |ds| if x is absent. */
  function Rank(ds: seq<int>, x: int): (i: nat)
    ensures i <= |ds|
    ensures i < |ds| ==> ds[i] == x
    ensures forall j :: 0 <= j < i ==> ds[j] != x
  {
    if ds == [] then 0
    else if ds[0] == x then 0
    else 1 + Rank(ds[1..], x)
  }

  /** x is met before y by the removal loops over the squares qs, each
      square scanning the digits ds: x first lies in an earlier square, or
      both first lie in the same square and x comes earlier in ds. */
  predicate CollectedBefore(b: Board, qs: seq<Pos>, ds: seq<int>, x: int, y: int)
  {
    || FirstHolder(b, qs, x) < FirstHolder(b, qs, y)
    || (FirstHolder(b, qs, x) == FirstHolder(b, qs, y) && Rank(ds, x) < Rank(ds, y))
  }

  /** CandidatesRemovedNumbers lists the digits in the order the loops meet
      them: square by square outside the group, and within one square in
      the order of groupCandidates. */
  lemma RemovedNumbersOrder(b: Board, u: Unit, g: seq<Pos>)
    ensures forall i, j :: 0 <= i < j < |RemovedNumbers(b, u, g)| ==>
              CollectedBefore(b, Outside(u, g), GroupDigits(b, g),
                              RemovedNumbers(b, u, g)[i], RemovedNumbers(b, u, g)[j])
  {
    CollectShape(b, Outside(u, g), GroupDigits(b, g), []);
  }

  /** The outer removal loop keeps the digits already listed in front and
      appends the new ones in the order it meets them. */
  lemma {:induction false} CollectShape(b: Board, qs: seq<Pos>, ds: seq<int>, acc: seq<int>)
    requires Distinct(acc) && Distinct(ds)
    decreases |qs|
    ensures |acc| <= |CollectNumbers(b, qs, ds, acc)|
    ensures CollectNumbers(b, qs, ds, acc)[..|acc|] == acc
    ensures forall i, j :: |acc| <= i < j < |CollectNumbers(b, qs, ds, acc)| ==>
              CollectedBefore(b, qs, ds, CollectNumbers(b, qs, ds, acc)[i], CollectNumbers(b, qs, ds, acc)[j])
  {
    if qs != [] {
      var acc1 := AddFound(Cands(b, qs[0]), ds, acc);
      var r := CollectNumbers(b, qs[1..], ds, acc1);
      assert r == CollectNumbers(b, qs, ds, acc);
      AddFoundRanked(Cands(b, qs[0]), ds, acc);
      CollectShape(b, qs[1..], ds, acc1);
      assert r[..|acc|] == acc by {
        assert r[..|acc1|] == acc1;
        assert acc1[..|acc|] == acc;
      }
      forall i, j | |acc| <= i < j < |r|
        ensures CollectedBefore(b, qs, ds, r[i], r[j])
      {
        CollectedBeforeStep(b, qs, ds, acc, acc1, r, i, j);
      }
    }
  }

  /** One turn of the outer removal loop: the first square's digits come
      first, in the order of ds, and the later ones keep their order. */
  lemma CollectedBeforeStep(b: Board, qs: seq<Pos>, ds: seq<int>, acc: seq<int>, acc1: seq<int>,
                            r: seq<int>, i: nat, j: nat)
    requires qs != [] && Distinct(acc) && Distinct(ds)
    requires acc1 == AddFound(Cands(b, qs[0]), ds, acc)
    requires r == CollectNumbers(b, qs[1..], ds, acc1)
    requires |acc| <= |acc1| && acc1[..|acc|] == acc
    requires forall i, j :: |acc| <= i < j < |acc1| ==> Rank(ds, acc1[i]) < Rank(ds, acc1[j])
    requires forall i :: |acc| <= i < |acc1| ==> acc1[i] in Cands(b, qs[0])
    requires |acc1| <= |r| && r[..|acc1|] == acc1
    requires forall i, j :: |acc1| <= i < j < |r| ==> CollectedBefore(b, qs[1..], ds, r[i], r[j])
    requires |acc| <= i < j < |r|
    ensures CollectedBefore(b, qs, ds, r[i], r[j])
  {
    if j < |acc1| {
      assert r[i] == acc1[i] && r[j] == acc1[j];
    } else {
      CollectedLater(b, qs, ds, acc, acc1, r, j);
      if i >= |acc1| {
        CollectedLater(b, qs, ds, acc, acc1, r, i);
      } else {
        assert r[i] == acc1[i];
      }
    }
  }

  /** After the first square's turn, a digit appended later is not one of
      that square's candidates. */
  lemma CollectedLater(b: Board, qs: seq<Pos>, ds: seq<int>, acc: seq<int>, acc1: seq<int>, r: seq<int>, i: nat)
    requires qs != [] && Distinct(acc)
    requires acc1 == AddFound(Cands(b, qs[0]), ds, acc)
    requires r == CollectNumbers(b, qs[1..], ds, acc1)
    requires |acc1| <= |r| && r[..|acc1|] == acc1
    requires |acc1| <= i < |r|
    ensures r[i] !in Cands(b, qs[0])
  {
    assert Distinct(acc1);
    assert Distinct(r);
    NotInPrefix(acc1, r, i);
    assert r[i] in r;
    assert r[i] in ds;
  }

  /** The inner removal loop keeps acc in front and appends, in the order
      of ds, the digits of ds in c that acc lacks. */
  lemma {:induction false} AddFoundRanked(c: set<int>, ds: seq<int>, acc: seq<int>)
    requires Distinct(acc) && Distinct(ds)
    decreases |ds|
    ensures |acc| <= |AddFound(c, ds, acc)|
    ensures AddFound(c, ds, acc)[..|acc|] == acc
    ensures forall i :: |acc| <= i < |AddFound(c, ds, acc)| ==> AddFound(c, ds, acc)[i] in c
    ensures forall i, j :: |acc| <= i < j < |AddFound(c, ds, acc)| ==>
              Rank(ds, AddFound(c, ds, acc)[i]) < Rank(ds, AddFound(c, ds, acc)[j])
  {
    if ds != [] {
      var acc' := if ds[0] in c && ds[0] !in acc then acc + [ds[0]] else acc;
      var r := AddFound(c, ds[1..], acc');
      assert r == AddFound(c, ds, acc);
      AddFoundRanked(c, ds[1..], acc');
      assert r[..|acc|] == acc by {
        assert r[..|acc'|] == acc';
        assert acc'[..|acc|] == acc;
      }
      forall i | |acc'| <= i < |r|
        ensures r[i] != ds[0] && Rank(ds, r[i]) == 1 + Rank(ds[1..], r[i])
      {
        AppendedFromRest(c, ds, acc', r, i);
      }
    }
  }

  /** A digit the inner loop appends after its first turn is not ds[0]. */
  lemma AppendedFromRest(c: set<int>, ds: seq<int>, acc': seq<int>, r: seq<int>, i: nat)
    requires ds != [] && Distinct(acc') && Distinct(ds)
    requires ds[0] in c ==> ds[0] in acc'
    requires r == AddFound(c, ds[1..], acc')
    requires |acc'| <= |r| && r[..|acc'|] == acc'
    requires |acc'| <= i < |r|
    ensures r[i] != ds[0]
  {
    assert Distinct(r);
    NotInPrefix(acc', r, i);
    assert r[i] in r;
  }

  lemma CollectedNumbers(b: Board, u: Unit, g: seq<Pos>, others: seq<Pos>, ns: seq<int>)
    requires forall q :: q in others <==> InUnit(q, u) && q !in g
    requires ns == CollectNumbers(b, others, GroupDigits(b, g), [])
    ensures forall n :: n in ns <==>
              n in GroupCands(b, g) && exists q :: q in RemovalSquares(b, u, g) && n in Cands(b, q)
  {
    forall n | n in GroupCands(b, g) {
      SameWitness(b, u, g, others, n);
    }
  }

  /** A digit of the group lies in some square of u outside g exactly when
      it lies in one of the removal squares. */
  lemma SameWitness(b: Board, u: Unit, g: seq<Pos>, others: seq<Pos>, n: int)
    requires forall q :: q in others <==> InUnit(q, u) && q !in g
    requires n in GroupCands(b, g)
    ensures (exists q :: q in others && n in Cands(b, q)) <==> (exists q :: q in RemovalSquares(b, u, g) && n in Cands(b, q))
  {
    if q :| q in others && n in Cands(b, q) {
      assert n in Cands(b, q) * GroupCands(b, g);
      assert q in RemovalSquares(b, u, g);
    }
  }

  function GroupName(k: nat): string
  {
    if k == 2 then "pair" else if k == 3 then "triple" else "quad"
  }

  /** The lower-case name of the unit's kind. */
  function TypeName(u: Unit): string
  {
    match u
    case Row(_) => "row"
    case Column(_) => "column"
    case Box(_, _) => "box"
  }

  /** FormatCandidates: "Numbers a and b", "Numbers a, b and c" or
      "Numbers a, b, c and d"; any other count raises an exception. */
  function FormatCandidates(xs: seq<int>): (f: Option<string>)
    ensures f.Some? <==> 2 <= |xs| <= 4
  {
    if |xs| == 2 then
      Some("Numbers " + IntToString(xs[0]) + " and " + IntToString(xs[1]))
    else if |xs| == 3 then
      Some("Numbers " + IntToString(xs[0]) + ", " + IntToString(xs[1]) + " and " + IntToString(xs[2]))
    else if |xs| == 4 then
      Some("Numbers " + IntToString(xs[0]) + ", " + IntToString(xs[1]) + ", " + IntToString(xs[2])
           + " and " + IntToString(xs[3]))
    else None
  }

  function Explanation(k: nat, u: Unit, formatted: string): string
  {
    "Naked " + GroupName(k) + ": " + formatted + " only appear in " + IntToString(k)
    + " squares in the same " + TypeName(u) + "." + NewLine
    + "Remove these numbers from other squares in the " + TypeName(u) + "."
  }

  const UnexpectedCount := "Unexpected number of candidates"

  /** What a reported step says about the naked group g of u, whose
      squares are listed in loop order: the explanation names the group's
      digits in the order groupCandidates enumerates them. */
  ghost predicate Describes(b: Board, k: nat, u: Unit, g: seq<Pos>, s: SolveStep)
  {
    var gs := Elements(g);
    && s.removedSquares == Eliminations(b, u, gs)
    && s.highlighted == UnitSet(u) - s.removedSquares
    && s.highlighted * s.removedSquares == {}
    && s.highlighted + s.removedSquares == UnitSet(u)
    && Distinct(s.removedNumbers)
    && (forall n :: n in s.removedNumbers <==>
          n in UnionOf(b, gs) && exists q :: q in s.removedSquares && n in Cands(b, q))
    && FormatCandidates(GroupDigits(b, g)).Some?
    && s.explanation == Explanation(k, u, FormatCandidates(GroupDigits(b, g)).value)
  }

  /** The step CheckGroup builds for a firing group g of u. */
  function Report(b: Board, k: nat, rule: Rule, u: Unit, g: seq<Pos>): (r: Result<SolveStep, string>)
    requires g in Groups(b, u, k) && Fires(b, k, (u, g))
    ensures r.Failure? <==> k > 4
    ensures r.Failure? ==> r.error == UnexpectedCount
    ensures NakedGroupAt(b, u, k, Elements(g))
    ensures r.Success? ==>
              && r.value.rule == rule && !r.value.solved
              && r.value.removedInNonHighlighted && !r.value.removedInHighlighted
              && Describes(b, k, u, g, r.value)
  {
    FiringGroupIsNaked(b, u, k, g);
    match FormatCandidates(GroupDigits(b, g))
    case None => Failure(UnexpectedCount)
    case Some(formatted) =>
      GroupStepDescribes(b, k, rule, u, g, formatted);
      Success(GroupStep(b, k, rule, u, g, formatted))
  }

  function GroupStep(b: Board, k: nat, rule: Rule, u: Unit, g: seq<Pos>, formatted: string): SolveStep
  {
    var removed := RemovalSquares(b, u, g);
    SolveStep(rule, false, 0, 0, 0, Explanation(k, u, formatted),
              UnitSet(u) - removed, removed, RemovedNumbers(b, u, g), false, true)
  }

  lemma GroupStepDescribes(b: Board, k: nat, rule: Rule, u: Unit, g: seq<Pos>, formatted: string)
    requires g in Groups(b, u, k) && Fires(b, k, (u, g))
    requires FormatCandidates(GroupDigits(b, g)) == Some(formatted)
    ensures Describes(b, k, u, g, GroupStep(b, k, rule, u, g, formatted))
  {
    FiringGroupIsNaked(b, u, k, g);
    SplitUnit(u, RemovalSquares(b, u, g));
    NumbersOfGroup(b, u, g);
  }

  /** The rest of a unit and a set of its squares split it in two. */
  lemma SplitUnit(u: Unit, rs: set<Pos>)
    requires forall q :: q in rs ==> InUnit(q, u)
    ensures (UnitSet(u) - rs) * rs == {}
    ensures (UnitSet(u) - rs) + rs == UnitSet(u)
  {
  }

  lemma NumbersOfGroup(b: Board, u: Unit, g: seq<Pos>)
    ensures forall n :: n in RemovedNumbers(b, u, g) <==>
              n in UnionOf(b, Elements(g)) && exists q :: q in RemovalSquares(b, u, g) && n in Cands(b, q)
  {
    UnionOfList(b, g);
  }

  /** NakedGroup.Run at size k under the given tag. The source raises an
      exception, modelled as a failure, when a group of more than four digits
      fires. */
  function Run(b: Board, k: nat, rule: Rule): (r: Result<SolveStep, string>)
    ensures k <= 4 ==> r.Success?
    ensures r.Failure? ==> r.error == UnexpectedCount
    ensures (r.Failure? || r.value.removedInNonHighlighted) <==> exists u, gs :: NakedGroupAt(b, u, k, gs)
    ensures r.Success? ==> r.value.rule == rule && !r.value.solved && !r.value.removedInHighlighted
    ensures r.Success? && !r.value.removedInNonHighlighted ==> r.value == Blank(rule)
    ensures r.Success? && r.value.removedInNonHighlighted ==>
              exists u, g ::
                && g in Groups(b, u, k)
                && NakedGroupAt(b, u, k, Elements(g))
                && Describes(b, k, u, g, r.value)
                && forall u', gs' :: UnitIndex(u') < UnitIndex(u) ==> !NakedGroupAt(b, u', k, gs')
  {
    var ps := Probes(GroupsOf(b, k));
    var i := FirstHit(ps, FiresOn(b, k));
    if i < |ps| then
      var (u, g) := ps[i];
      ProbesMembers(GroupsOf(b, k), u, g);
      EarlierUnitsQuiet(b, k);
      var r := Report(b, k, rule, u, g);
      assert NakedGroupAt(b, u, k, Elements(g));
      assert r.Success? ==> Describes(b, k, u, g, r.value);
      r
    else
      NoGroupFires(b, k);
      Success(Blank(rule))
  }

  // ---------------------------------------------------------------------
  // The scan against the definition

  /** A tried group lists k distinct eligible squares of its unit. */
  lemma GroupSound(b: Board, u: Unit, k: nat, g: seq<Pos>)
    requires g in Groups(b, u, k)
    ensures Distinct(g) && |Elements(g)| == k
    ensures forall q :: q in g ==> InUnit(q, u) && 2 <= |Cands(b, q)| <= k
    ensures GroupCands(b, g) == UnionOf(b, Elements(g))
    ensures RemovalSquares(b, u, g) == Eliminations(b, u, Elements(g))
  {
    var cells := Eligible(b, u, k);
    CombinationsShape(cells, k);
    SubseqDistinct(g, cells);
    SubseqMembers(g, cells);
    DistinctCard(g);
    UnionOfList(b, g);
    RemovalsAsSet(b, u, g);
  }

  lemma RemovalsAsSet(b: Board, u: Unit, g: seq<Pos>)
    ensures RemovalSquares(b, u, g) == Eliminations(b, u, Elements(g))
  {
    UnionOfList(b, g);
  }

  /** A tried group that fires is a naked group with eliminations. */
  lemma FiringGroupIsNaked(b: Board, u: Unit, k: nat, g: seq<Pos>)
    requires g in Groups(b, u, k) && Fires(b, k, (u, g))
    ensures NakedGroupAt(b, u, k, Elements(g))
    ensures GroupCands(b, g) == UnionOf(b, Elements(g))
    ensures RemovalSquares(b, u, g) == Eliminations(b, u, Elements(g))
  {
    GroupSound(b, u, k, g);
  }

  lemma UnionOfList(b: Board, g: seq<Pos>)
    ensures GroupCands(b, g) == UnionOf(b, Elements(g))
  {
    var gs := Elements(g);
    forall d | d in UnionOf(b, gs)
      ensures d in GroupCands(b, g)
    {
      var q :| q in gs && d in Cands(b, q);
    }
    forall d | d in GroupCands(b, g)
      ensures d in UnionOf(b, gs)
    {
      var q :| q in g && d in Cands(b, q);
      assert q in gs;
    }
  }

  /** Every naked group with eliminations is found by the scan, in its own
      unit or an earlier one. */
  lemma GroupFound(b: Board, u: Unit, k: nat, gs: set<Pos>)
    requires NakedGroupAt(b, u, k, gs)
    ensures FirstHit(Probes(GroupsOf(b, k)), FiresOn(b, k)) < |Probes(GroupsOf(b, k))|
    ensures UnitIndex(Probes(GroupsOf(b, k))[FirstHit(Probes(GroupsOf(b, k)), FiresOn(b, k))].0) <= UnitIndex(u)
  {
    var g := FiringSelection(b, u, k, gs);
    EarliestUnit(GroupsOf(b, k), FiresOn(b, k), u, g);
  }

  /** The squares of a naked group, listed in loop order, are a tried group
      of their unit, and it fires. */
  lemma FiringSelection(b: Board, u: Unit, k: nat, gs: set<Pos>) returns (g: seq<Pos>)
    requires NakedGroupAt(b, u, k, gs)
    ensures g in GroupsOf(b, k)(u) && FiresOn(b, k)((u, g))
  {
    g := TriedSelection(b, u, k, gs);
    GroupSound(b, u, k, g);
    assert Fires(b, k, (u, g));
  }

  lemma TriedSelection(b: Board, u: Unit, k: nat, gs: set<Pos>) returns (g: seq<Pos>)
    requires NakedGroupIn(b, u, k, gs)
    ensures g in Groups(b, u, k) && Elements(g) == gs
  {
    var cells := Eligible(b, u, k);
    g := Selection(cells, gs);
    SelectionIsCombination(cells, gs);
  }

  lemma NoGroupFires(b: Board, k: nat)
    requires FirstHit(Probes(GroupsOf(b, k)), FiresOn(b, k)) == |Probes(GroupsOf(b, k))|
    ensures forall u, gs :: !NakedGroupAt(b, u, k, gs)
  {
    forall u, gs | NakedGroupAt(b, u, k, gs)
      ensures false
    {
      GroupFound(b, u, k, gs);
    }
  }

  lemma EarlierUnitsQuiet(b: Board, k: nat)
    requires FirstHit(Probes(GroupsOf(b, k)), FiresOn(b, k)) < |Probes(GroupsOf(b, k))|
    ensures forall u', gs' ::
              UnitIndex(u') < UnitIndex(Probes(GroupsOf(b, k))[FirstHit(Probes(GroupsOf(b, k)), FiresOn(b, k))].0)
              ==> !NakedGroupAt(b, u', k, gs')
  {
    forall u', gs' | NakedGroupAt(b, u', k, gs')
      ensures UnitIndex(Probes(GroupsOf(b, k))[FirstHit(Probes(GroupsOf(b, k)), FiresOn(b, k))].0) <= UnitIndex(u')
    {
      GroupFound(b, u', k, gs');
    }
  }

  // ---------------------------------------------------------------------
  // NakedPairs.cs, NakedTriples.cs, NakedQuads.cs

  function NakedPairs(b: Board): (s: SolveStep)
    ensures Run(b, 2, Rule.NakedPairs) == Success(s)
    ensures s.rule == Rule.NakedPairs
    ensures s.removedInNonHighlighted <==> exists u, gs :: NakedGroupAt(b, u, 2, gs)
  {
    Run(b, 2, Rule.NakedPairs).value
  }

  function NakedTriples(b: Board): (s: SolveStep)
    ensures Run(b, 3, Rule.NakedTriples) == Success(s)
    ensures s.rule == Rule.NakedTriples
    ensures s.removedInNonHighlighted <==> exists u, gs :: NakedGroupAt(b, u, 3, gs)
  {
    Run(b, 3, Rule.NakedTriples).value
  }

  function NakedQuads(b: Board): (s: SolveStep)
    ensures Run(b, 4, Rule.NakedQuads) == Success(s)
    ensures s.rule == Rule.NakedQuads
    ensures s.removedInNonHighlighted <==> exists u, gs :: NakedGroupAt(b, u, 4, gs)
  {
    Run(b, 4, Rule.NakedQuads).value
  }
}
