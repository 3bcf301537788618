/** What the older hint rules of SolvingRules.cs share: the kind of unit a
    hint names, the board they work on, and their removal loops, which
    strike values from squares through RulesHelper.RemoveCandidates. */
module Hints {
  import opened Wrappers
  import opened Grid
  import opened Text
  import opened CandidateBoard

  /** Enums.CellGroupType. */
  datatype CellGroupType = ColumnGroup | RowGroup | GridGroup

  /** The kind of a unit, as the hints name it. */
  function GroupTypeOf(u: Unit): (t: CellGroupType)
    ensures t == RowGroup <==> u.Row?
    ensures t == ColumnGroup <==> u.Column?
    ensures t == GridGroup <==> u.Box?
  {
    match u
    case Row(_) => RowGroup
    case Column(_) => ColumnGroup
    case Box(_, _) => GridGroup
  }

  /** The result of NakedPairs and ApplyPointingPairs: the boolean, the
      board as the call leaves it, and the out-parameters. */
  datatype PairsHint = PairsHint(found: bool, board: CandidateGrid, pairValues: seq<int>, pairCells: seq<Pos>, groupType: Option<CellGroupType>)

  /** The result when nothing is found: the board untouched and the
      out-parameters at their initial values. */
  function NoPairs(g: CandidateGrid): PairsHint
  {
    PairsHint(false, g, [], [], None)
  }

  /** The board the hint rules read: every square is a C# HashSet<int>
      (the rules dereference each square without a null test), so no
      square is null and every candidate is a 32-bit integer. */
  ghost predicate HintBoard(g: CandidateGrid)
  {
    forall p :: Get(g, p).Some? && forall n :: n in Get(g, p).value ==> Int32Min <= n <= Int32Max
  }

  /** The candidates of a square; a null square holds none. */
  function Cand(g: CandidateGrid, p: Pos): set<int>
  {
    if Get(g, p).Some? then Get(g, p).value else {}
  }

  /** A square struck of the values vs, one after the other, keeps the
      values not in vs; it loses values of vs only, and, because
      RemoveCandidates leaves a square's last candidate alone, it is never
      emptied. When some value outside vs is present, every value of vs is
      gone. */
  ghost predicate Struck(before: set<int>, vs: seq<int>, after: set<int>)
  {
    && after <= before
    && (forall n :: n in before && n !in vs ==> n in after)
    && (before != {} ==> after != {})
    && ((exists n :: n in before && n !in vs) ==> forall n :: n in after ==> n !in vs)
  }

  /** The inner removal loop of the hint rules for one square q: for each
      value of vs in turn, if the square holds it, RemoveCandidates is
      called with the value's decimal text, and a removal is recorded
      (whether or not RemoveCandidates then removed anything). */
  function StrikeSquare(g: CandidateGrid, q: Pos, vs: seq<int>): (r: (CandidateGrid, bool))
    requires HintBoard(g)
    requires forall v :: v in vs ==> Int32Min <= v <= Int32Max
    decreases |vs|
    ensures HintBoard(r.0)
    ensures forall p :: p != q ==> Get(r.0, p) == Get(g, p)
    ensures Struck(Cand(g, q), vs, Cand(r.0, q))
    ensures r.1 <==> exists v :: v in vs && v in Cand(g, q)
    ensures !r.1 ==> r.0 == g
  {
    if |vs| == 0 then (g, false)
    else
      var v := vs[0];
      var held := v in Cand(g, q);
      assert v in vs && forall w :: w in vs[1..] ==> w in vs;
      var g1 := if held then RemoveCandidates(g, q, Some(IntToString(v))) else g;
      var r := StrikeSquare(g1, q, vs[1..]);
      StrikeStep(g, q, vs, g1, r.0);
      (r.0, r.1 || held)
  }

  /** One value struck, then the rest: the result is struck of all of vs. */
  lemma StrikeStep(g: CandidateGrid, q: Pos, vs: seq<int>, g1: CandidateGrid, g2: CandidateGrid)
    requires HintBoard(g)
    requires |vs| > 0 && Int32Min <= vs[0] <= Int32Max
    requires g1 == if vs[0] in Cand(g, q) then RemoveCandidates(g, q, Some(IntToString(vs[0]))) else g
    requires Struck(Cand(g1, q), vs[1..], Cand(g2, q))
    ensures Struck(Cand(g, q), vs, Cand(g2, q))
  {
    var v := vs[0];
    var s := Cand(g, q);
    assert forall n :: n in vs <==> n == v || n in vs[1..];
    if v in s {
      if |s| == 1 {
        assert s == {v} by { SingletonIs(s, v); }
      } else {
        RemoveOneNumber(g, q, v);
        assert Cand(g1, q) == s - {v};
        assert s - {v} != {} by {
          assert |s - {v}| == |s| - 1;
        }
      }
    }
  }

  /** The outer removal loop: each square of qs in turn goes through the
      inner loop. */
  function Strike(g: CandidateGrid, qs: seq<Pos>, vs: seq<int>): (r: (CandidateGrid, bool))
    requires HintBoard(g)
    requires Distinct(qs)
    requires forall v :: v in vs ==> Int32Min <= v <= Int32Max
    decreases |qs|
    ensures HintBoard(r.0)
    ensures forall p :: p !in qs ==> Get(r.0, p) == Get(g, p)
    ensures forall p :: p in qs ==> Struck(Cand(g, p), vs, Cand(r.0, p))
    ensures r.1 <==> exists p, v :: p in qs && v in vs && v in Cand(g, p)
    ensures !r.1 ==> r.0 == g
  {
    if |qs| == 0 then (g, false)
    else
      var r1 := StrikeSquare(g, qs[0], vs);
      var r2 := Strike(r1.0, qs[1..], vs);
      assert forall p :: p in qs <==> p == qs[0] || p in qs[1..];
      assert qs[0] !in qs[1..];
      (r2.0, r1.1 || r2.1)
  }

  /** Struck of one value only: a square keeps everything else, and loses
      the value unless it was its only candidate. */
  lemma StruckOne(before: set<int>, n: int, after: set<int>)
    requires Struck(before, [n], after)
    ensures after == if before == {n} then {n} else before - {n}
  {
    assert forall k :: k in [n] <==> k == n;
    if before == {n} {
    } else if n in before {
      assert before - {n} != {} by {
        SingletonIs(before, n);
        assert |before - {n}| == |before| - 1;
      }
      var m := Least(before - {n});
      assert m in before && m !in [n];
      StruckClears(before, [n], after, m);
      assert after == before - {n};
    } else {
      forall k | k in before
        ensures k in after
      {
        assert k !in [n];
      }
      assert after == before;
    }
  }

  /** A value kept from outside vs shows that every value of vs is gone. */
  lemma StruckClears(before: set<int>, vs: seq<int>, after: set<int>, m: int)
    requires Struck(before, vs, after)
    requires m in before && m !in vs
    ensures forall k :: k in after ==> k !in vs
  {
  }
}
