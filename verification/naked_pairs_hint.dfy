/** SolvingRules.NakedPairs: two squares of a row, column or box with the
    same two candidates, and no third square of the unit with that pair,
    take both digits; the digits are struck from the rest of the unit. The
    first such pair not shown before whose strike meets a digit is
    reported. */
module NakedPairsHint {
  import opened Wrappers
  import opened Grid
  import opened CandidateBoard
  import opened Hints
  import UnitScan

  /** The squares of u with exactly the two candidates s, in loop order
      (the source groups the two-candidate squares of a unit by their
      candidates). */
  function Twins(g: CandidateGrid, u: Unit, s: set<int>): (ts: seq<Pos>)
    ensures Distinct(ts)
    ensures forall q :: q in ts <==> InUnit(q, u) && |Cand(g, q)| == 2 && Cand(g, q) == s
  {
    Filter(Cells(u), (q: Pos) => |Cand(g, q)| == 2 && Cand(g, q) == s)
  }

  /** q opens a group of exactly two squares: the source keeps the groups
      of size two, in the order of their first square. */
  predicate PairHead(g: CandidateGrid, u: Unit, q: Pos)
  {
    |Cand(g, q)| == 2 && |Twins(g, u, Cand(g, q))| == 2 && Twins(g, u, Cand(g, q))[0] == q
  }

  /** The second square of the group q opens. */
  function Partner(g: CandidateGrid, u: Unit, q: Pos): Pos
    requires PairHead(g, u, q)
  {
    Twins(g, u, Cand(g, q))[1]
  }

  /** The pairs of u in loop order, named by their first square. */
  function Heads(g: CandidateGrid): Unit -> seq<Pos>
  {
    u => Filter(Cells(u), (q: Pos) => PairHead(g, u, q))
  }

  /** The squares of u other than the pair, in loop order. */
  function Others(u: Unit, p1: Pos, p2: Pos): (qs: seq<Pos>)
    ensures Distinct(qs)
    ensures forall q :: q in qs <==> InUnit(q, u) && q != p1 && q != p2
  {
    Filter(Cells(u), (q: Pos) => q != p1 && q != p2)
  }

  /** The pair's digits; the enumeration order of the C# set is not
      modelled and ascending order stands in. */
  function PairValues(g: CandidateGrid, q: Pos): (vs: seq<int>)
    ensures forall v :: v in vs <==> v in Cand(g, q)
  {
    Ascending(Cand(g, q))
  }

  /** The group's squares equal (as a set) a group shown before. */
  predicate Shown(shownGroups: seq<set<Pos>>, p1: Pos, p2: Pos)
  {
    exists k :: 0 <= k < |shownGroups| && shownGroups[k] == {p1, p2}
  }

  /** The loop body for one pair: a pair shown before is skipped;
      otherwise both digits are struck from the other squares of the unit,
      and a strike that met a digit ends the scan. */
  function TryPair(g: CandidateGrid, shownGroups: seq<set<Pos>>, u: Unit, q: Pos): (h: PairsHint)
    requires HintBoard(g) && PairHead(g, u, q)
    ensures !h.found ==> h == NoPairs(g)
  {
    var p2 := Partner(g, u, q);
    if Shown(shownGroups, q, p2) then NoPairs(g)
    else
      var st := Strike(g, Others(u, q, p2), PairValues(g, q));
      if st.1 then PairsHint(true, st.0, PairValues(g, q), [q, p2], Some(GroupTypeOf(u)))
      else NoPairs(g)
  }

  /** The pattern: p1 and p2 are two squares of u with the same two
      candidates, and no other square of u has exactly those. */
  ghost predicate NakedPairAt(g: CandidateGrid, u: Unit, p1: Pos, p2: Pos)
  {
    && p1 != p2 && InUnit(p1, u) && InUnit(p2, u)
    && |Cand(g, p1)| == 2 && Cand(g, p2) == Cand(g, p1)
    && forall q :: InUnit(q, u) && q != p1 && q != p2 ==> Cand(g, q) != Cand(g, p1)
  }

  /** The pair is reported: it was not shown before and some other square
      of the unit holds one of its digits. */
  ghost predicate Applies(g: CandidateGrid, shownGroups: seq<set<Pos>>, u: Unit, p1: Pos, p2: Pos)
  {
    && NakedPairAt(g, u, p1, p2)
    && !Shown(shownGroups, p1, p2)
    && exists q :: InUnit(q, u) && q != p1 && q != p2 && Cand(g, q) * Cand(g, p1) != {}
  }

  /** What the hint says: the pair's two digits ascending, its two squares,
      the kind of unit, and a board in which the other squares of the unit
      are struck of both digits while every other square is as it was. */
  ghost predicate Reports(g: CandidateGrid, u: Unit, p1: Pos, p2: Pos, h: PairsHint)
  {
    && h.found
    && |h.pairValues| == 2 && h.pairValues[0] < h.pairValues[1]
    && (forall v :: v in h.pairValues <==> v in Cand(g, p1))
    && h.pairCells == [p1, p2]
    && h.groupType == Some(GroupTypeOf(u))
    && HintBoard(h.board)
    && forall q ::
         if InUnit(q, u) && q != p1 && q != p2
         then Struck(Cand(g, q), h.pairValues, Cand(h.board, q))
         else Get(h.board, q) == Get(g, q)
  }

  /** A group opened by a head is a naked pair. */
  lemma HeadIsPair(g: CandidateGrid, u: Unit, q: Pos)
    requires PairHead(g, u, q)
    ensures NakedPairAt(g, u, q, Partner(g, u, q))
  {
    var ts := Twins(g, u, Cand(g, q));
    assert ts[0] in ts && ts[1] in ts;
    forall q' | q' in ts
      ensures q' == ts[0] || q' == ts[1]
    {
      var i :| 0 <= i < |ts| && ts[i] == q';
    }
  }

  /** The squares with a naked pair's candidates are the pair. */
  lemma TwinsOfPair(g: CandidateGrid, u: Unit, p1: Pos, p2: Pos)
    requires NakedPairAt(g, u, p1, p2)
    ensures |Twins(g, u, Cand(g, p1))| == 2
    ensures {Twins(g, u, Cand(g, p1))[0], Twins(g, u, Cand(g, p1))[1]} == {p1, p2}
  {
    TwinsAre(g, u, p1, p2);
    TwoMembers(Twins(g, u, Cand(g, p1)), p1, p2);
  }

  lemma TwinsAre(g: CandidateGrid, u: Unit, p1: Pos, p2: Pos)
    requires NakedPairAt(g, u, p1, p2)
    ensures forall x :: x in Twins(g, u, Cand(g, p1)) <==> x == p1 || x == p2
  {
    var ts := Twins(g, u, Cand(g, p1));
    forall x
      ensures x in ts <==> x == p1 || x == p2
    {
      if x != p1 && x != p2 && InUnit(x, u) {
        assert Cand(g, x) != Cand(g, p1);
      }
    }
  }

  /** Every naked pair is the group of a head. */
  lemma PairHasHead(g: CandidateGrid, u: Unit, p1: Pos, p2: Pos)
    requires NakedPairAt(g, u, p1, p2)
    ensures PairHead(g, u, Twins(g, u, Cand(g, p1))[0])
    ensures {Twins(g, u, Cand(g, p1))[0], Partner(g, u, Twins(g, u, Cand(g, p1))[0])} == {p1, p2}
  {
    var ts := Twins(g, u, Cand(g, p1));
    TwinsOfPair(g, u, p1, p2);
    assert ts[0] in ts;
    assert Cand(g, ts[0]) == Cand(g, p1);
  }

  /** A hint from TryPair is the pattern, reported. */
  lemma TryPairSound(g: CandidateGrid, shownGroups: seq<set<Pos>>, u: Unit, q: Pos)
    requires HintBoard(g) && PairHead(g, u, q)
    requires TryPair(g, shownGroups, u, q).found
    ensures Applies(g, shownGroups, u, q, Partner(g, u, q))
    ensures Reports(g, u, q, Partner(g, u, q), TryPair(g, shownGroups, u, q))
  {
    var p2 := Partner(g, u, q);
    HeadIsPair(g, u, q);
    var qs := Others(u, q, p2);
    var vs := PairValues(g, q);
    var q', v :| q' in qs && v in vs && v in Cand(g, q');
    assert v in Cand(g, q') * Cand(g, q);
  }

  /** A reportable pair makes TryPair report. */
  lemma TryPairComplete(g: CandidateGrid, shownGroups: seq<set<Pos>>, u: Unit, q: Pos)
    requires HintBoard(g) && PairHead(g, u, q)
    requires Applies(g, shownGroups, u, q, Partner(g, u, q))
    ensures TryPair(g, shownGroups, u, q).found
  {
    var p2 := Partner(g, u, q);
    var q' :| InUnit(q', u) && q' != q && q' != p2 && Cand(g, q') * Cand(g, q) != {};
    var v := Least(Cand(g, q') * Cand(g, q));
    var qs, vs := Others(u, q, p2), PairValues(g, q);
    assert q' in qs && v in vs && v in Cand(g, q');
    assert Strike(g, qs, vs).1;
  }

  /** A reportable pair, named either way round, is reported by its head. */
  lemma AppliesAtHead(g: CandidateGrid, shownGroups: seq<set<Pos>>, u: Unit, p1: Pos, p2: Pos) returns (h: Pos)
    requires Applies(g, shownGroups, u, p1, p2)
    ensures PairHead(g, u, h) && Applies(g, shownGroups, u, h, Partner(g, u, h))
  {
    PairHasHead(g, u, p1, p2);
    h := Twins(g, u, Cand(g, p1))[0];
    var h2 := Partner(g, u, h);
    if h != p1 {
      assert h == p2 && h2 == p1;
      assert {h, h2} == {p1, p2};
      var q :| InUnit(q, u) && q != p1 && q != p2 && Cand(g, q) * Cand(g, p1) != {};
      assert Cand(g, q) * Cand(g, h) != {};
    }
  }

  /** The test the scan applies to each (unit, head) probe. */
  function FiresOn(g: CandidateGrid, shownGroups: seq<set<Pos>>): (fires: ((Unit, Pos)) -> bool)
    requires HintBoard(g)
  {
    (pr: (Unit, Pos)) => PairHead(g, pr.0, pr.1) && TryPair(g, shownGroups, pr.0, pr.1).found
  }

  /** NakedPairs: rows, then columns, then boxes; within a unit its pairs in
      the order of their first square. */
  function NakedPairs(g: CandidateGrid, shownGroups: seq<set<Pos>>): (h: PairsHint)
    requires HintBoard(g)
    ensures h.found <==> exists u, p1, p2 :: Applies(g, shownGroups, u, p1, p2)
    ensures !h.found ==> h == NoPairs(g)
    ensures h.found ==>
              exists u, p1, p2 ::
                && Applies(g, shownGroups, u, p1, p2) && Reports(g, u, p1, p2, h)
                && forall u', p1', p2' :: UnitIndex(u') < UnitIndex(u) ==> !Applies(g, shownGroups, u', p1', p2')
  {
    var ps := UnitScan.Probes(Heads(g));
    var i := FirstHit(ps, FiresOn(g, shownGroups));
    if i < |ps| then
      var u, q := ps[i].0, ps[i].1;
      TryPairSound(g, shownGroups, u, q);
      EarlierUnitsMiss(g, shownGroups, i);
      TryPair(g, shownGroups, u, q)
    else
      NoPairFires(g, shownGroups);
      NoPairs(g)
  }

  /** Any reportable pair puts a firing probe in its unit. */
  lemma PairFires(g: CandidateGrid, shownGroups: seq<set<Pos>>, u: Unit, p1: Pos, p2: Pos) returns (h: Pos)
    requires HintBoard(g)
    requires Applies(g, shownGroups, u, p1, p2)
    ensures h in Heads(g)(u) && FiresOn(g, shownGroups)((u, h))
  {
    h := AppliesAtHead(g, shownGroups, u, p1, p2);
    TryPairComplete(g, shownGroups, u, h);
    assert InUnit(h, u) by {
      assert h in Twins(g, u, Cand(g, h));
    }
  }

  lemma EarlierUnitsMiss(g: CandidateGrid, shownGroups: seq<set<Pos>>, i: nat)
    requires HintBoard(g)
    requires i < |UnitScan.Probes(Heads(g))|
    requires i == FirstHit(UnitScan.Probes(Heads(g)), FiresOn(g, shownGroups))
    ensures forall u', p1', p2' :: UnitIndex(u') < UnitIndex(UnitScan.Probes(Heads(g))[i].0) ==> !Applies(g, shownGroups, u', p1', p2')
  {
    forall u', p1', p2' | Applies(g, shownGroups, u', p1', p2')
      ensures UnitIndex(u') >= UnitIndex(UnitScan.Probes(Heads(g))[i].0)
    {
      var h := PairFires(g, shownGroups, u', p1', p2');
      UnitScan.EarliestUnit(Heads(g), FiresOn(g, shownGroups), u', h);
    }
  }

  lemma NoPairFires(g: CandidateGrid, shownGroups: seq<set<Pos>>)
    requires HintBoard(g)
    requires FirstHit(UnitScan.Probes(Heads(g)), FiresOn(g, shownGroups)) == |UnitScan.Probes(Heads(g))|
    ensures forall u, p1, p2 :: !Applies(g, shownGroups, u, p1, p2)
  {
    forall u, p1, p2 | Applies(g, shownGroups, u, p1, p2)
      ensures false
    {
      var h := PairFires(g, shownGroups, u, p1, p2);
      UnitScan.EarliestUnit(Heads(g), FiresOn(g, shownGroups), u, h);
    }
  }

  /** The hint is given even when nothing is removed: if every other square
      of the unit that meets the pair's digits is down to one candidate,
      RemoveCandidates refuses each removal, yet a hint is reported and the
      board it leaves is the board it was given. */
  lemma ReportedWithoutRemoval(g: CandidateGrid, u: Unit, p1: Pos, p2: Pos, h: PairsHint)
    requires HintBoard(g)
    requires Reports(g, u, p1, p2, h)
    requires forall q :: InUnit(q, u) && q != p1 && q != p2 && Cand(g, q) * Cand(g, p1) != {} ==> |Cand(g, q)| == 1
    ensures h.found && h.board == g
  {
    forall q
      ensures Get(h.board, q) == Get(g, q)
    {
      if InUnit(q, u) && q != p1 && q != p2 {
        var before, after := Cand(g, q), Cand(h.board, q);
        assert Struck(before, h.pairValues, after);
        if before * Cand(g, p1) != {} {
          var v := Sole(before);
          assert after == before;
        } else {
          forall n | n in before
            ensures n !in h.pairValues
          {
            assert n !in before * Cand(g, p1);
          }
          assert forall n :: n in before ==> n in after;
          assert after == before;
        }
      }
    }
    Extensionality(h.board, g);
  }
}
