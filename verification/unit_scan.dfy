/** The scan shared by the group rules: units in the order of Units(), and
    within each unit the groups the rule proposes for it, in their own
    order. A rule reports the first (unit, group) probe that fires. */
module UnitScan {
  import opened Grid

  /** Pairs every group of gs with the unit u. */
  function Tag<G>(u: Unit, gs: seq<G>): (ps: seq<(Unit, G)>)
    ensures |ps| == |gs|
    ensures forall j :: 0 <= j < |ps| ==> ps[j] == (u, gs[j])
  {
    seq(|gs|, j requires 0 <= j < |gs| => (u, gs[j]))
  }

  /** The probes of the units from the m-th on. */
  function ProbesFrom<G>(groups: Unit -> seq<G>, m: nat): seq<(Unit, G)>
    requires m <= 27
    decreases 27 - m
  {
    if m == 27 then []
    else Tag(Units()[m], groups(Units()[m])) + ProbesFrom(groups, m + 1)
  }

  /** Every probe, rows first, then columns, then boxes. */
  function Probes<G>(groups: Unit -> seq<G>): seq<(Unit, G)>
  {
    ProbesFrom(groups, 0)
  }

  /** A probe is present exactly when its group is one the rule proposes for
      its unit. */
  lemma {:induction false} ProbesFromMembers<G>(groups: Unit -> seq<G>, m: nat, u: Unit, g: G)
    requires m <= 27
    decreases 27 - m
    ensures (u, g) in ProbesFrom(groups, m) <==> m <= UnitIndex(u) && g in groups(u)
  {
    if m < 27 {
      var here := Tag(Units()[m], groups(Units()[m]));
      ProbesFromMembers(groups, m + 1, u, g);
      UnitsIndexed(m);
      if (u, g) in here {
        var j :| 0 <= j < |here| && here[j] == (u, g);
      }
      if UnitIndex(u) == m && g in groups(u) {
        var j :| 0 <= j < |groups(u)| && groups(u)[j] == g;
        assert here[j] == (u, g);
      }
    }
  }

  lemma ProbesMembers<G>(groups: Unit -> seq<G>, u: Unit, g: G)
    ensures (u, g) in Probes(groups) <==> g in groups(u)
  {
    ProbesFromMembers(groups, 0, u, g);
  }

  /** Probes come unit by unit in scan order. */
  lemma {:induction false} ProbesFromSorted<G>(groups: Unit -> seq<G>, m: nat)
    requires m <= 27
    decreases 27 - m
    ensures forall i, j :: 0 <= i <= j < |ProbesFrom(groups, m)| ==>
              m <= UnitIndex(ProbesFrom(groups, m)[i].0) <= UnitIndex(ProbesFrom(groups, m)[j].0)
  {
    if m < 27 {
      var here := Tag(Units()[m], groups(Units()[m]));
      var rest := ProbesFrom(groups, m + 1);
      var ps := here + rest;
      ProbesFromSorted(groups, m + 1);
      UnitsIndexed(m);
      forall i, j | 0 <= i <= j < |ps|
        ensures m <= UnitIndex(ps[i].0) <= UnitIndex(ps[j].0)
      {
        if j < |here| {
          assert ps[i] == here[i] && ps[j] == here[j];
        } else if i < |here| {
          assert ps[i] == here[i] && ps[j] == rest[j - |here|];
        } else {
          assert ps[i] == rest[i - |here|] && ps[j] == rest[j - |here|];
        }
      }
    }
  }

  /** If any proposed group fires, the scan finds a firing probe, and the
      probe it reports lies in the same unit or an earlier one. */
  lemma EarliestUnit<G>(groups: Unit -> seq<G>, fires: ((Unit, G)) -> bool, u: Unit, g: G)
    requires g in groups(u) && fires((u, g))
    ensures FirstHit(Probes(groups), fires) < |Probes(groups)|
    ensures UnitIndex(Probes(groups)[FirstHit(Probes(groups), fires)].0) <= UnitIndex(u)
  {
    var ps := Probes(groups);
    ProbesMembers(groups, u, g);
    var j :| 0 <= j < |ps| && ps[j] == (u, g);
    var i := FirstHit(ps, fires);
    assert i <= j;
    ProbesFromSorted(groups, 0);
  }
}
