/** Positions, units (rows, columns, 3x3 boxes) and 9x9 matrices, shared by
    every board of the model, together with two generic scanning helpers. */
module Grid {

  /** A row or column index. */
  type Index = i: int | 0 <= i < 9

  /** The row or column index of a 3x3 box, i.e. an index divided by 3. */
  type Band = i: int | 0 <= i < 3

  /** A digit that may stand in a solved cell. */
  type Digit = d: int | 1 <= d <= 9 witness 1

  datatype Pos = Pos(row: Index, col: Index)

  /** The band an index lies in, written without division. */
  function BandOf(i: Index): (b: Band)
    ensures 3 * b <= i < 3 * b + 3
  {
    if i < 3 then 0 else if i < 6 then 1 else 2
  }

  /** The two ways the C# code computes the band agree with BandOf. */
  lemma BandOfIsDivision(i: Index)
    ensures BandOf(i) == i / 3
    ensures 3 * BandOf(i) == i - i % 3
  {
  }

  predicate SameBox(p: Pos, q: Pos)
  {
    BandOf(p.row) == BandOf(q.row) && BandOf(p.col) == BandOf(q.col)
  }

  /** p and q lie in a common row, column or box; every position is a peer
      of itself. */
  predicate Peers(p: Pos, q: Pos)
  {
    p.row == q.row || p.col == q.col || SameBox(p, q)
  }

  /** One of the 27 constraint groups. */
  datatype Unit = Row(r: Index) | Column(c: Index) | Box(br: Band, bc: Band)

  predicate InUnit(p: Pos, u: Unit)
  {
    match u
    case Row(r) => p.row == r
    case Column(c) => p.col == c
    case Box(br, bc) => BandOf(p.row) == br && BandOf(p.col) == bc
  }

  predicate Distinct<T(==)>(s: seq<T>)
  {
    forall i, j :: 0 <= i < j < |s| ==> s[i] != s[j]
  }

  /** The cells of a unit in the order the C# loops visit them: columns
      ascending along a row, rows ascending down a column, and a box row by
      row. */
  function Cells(u: Unit): (cs: seq<Pos>)
    ensures |cs| == 9
    ensures Distinct(cs)
    ensures forall p :: p in cs <==> InUnit(p, u)
  {
    match u
    case Row(r) =>
      var cs := seq(9, i requires 0 <= i < 9 => Pos(r, i));
      assert forall p :: InUnit(p, u) ==> cs[p.col] == p;
      cs
    case Column(c) =>
      var cs := seq(9, i requires 0 <= i < 9 => Pos(i, c));
      assert forall p :: InUnit(p, u) ==> cs[p.row] == p;
      cs
    case Box(br, bc) =>
      var r, c := 3 * br, 3 * bc;
      [Pos(r, c), Pos(r, c + 1), Pos(r, c + 2),
       Pos(r + 1, c), Pos(r + 1, c + 1), Pos(r + 1, c + 2),
       Pos(r + 2, c), Pos(r + 2, c + 1), Pos(r + 2, c + 2)]
  }

  /** The set of cells of a unit. */
  function UnitSet(u: Unit): (s: set<Pos>)
    ensures forall p :: p in s <==> InUnit(p, u)
  {
    set p | p in Cells(u)
  }

  lemma UnitSetSize(u: Unit)
    ensures |UnitSet(u)| == 9
  {
    DistinctCard(Cells(u));
  }

  /** The box a position lies in. */
  function BoxOf(p: Pos): (u: Unit)
    ensures u.Box? && InUnit(p, u)
    ensures forall q :: InUnit(q, u) <==> SameBox(p, q)
  {
    Box(BandOf(p.row), BandOf(p.col))
  }

  /** The indices 0..8 in ascending order. */
  function Indices(): (ix: seq<Index>)
    ensures |ix| == 9
    ensures forall i :: 0 <= i < 9 ==> ix[i] == i
  {
    [0, 1, 2, 3, 4, 5, 6, 7, 8]
  }

  /** Rows 0..8, then columns 0..8, then boxes in row-major order: the unit
      order every unit-scanning rule uses. */
  function Units(): (us: seq<Unit>)
    ensures |us| == 27
  {
    seq(9, i requires 0 <= i < 9 => Row(i))
    + seq(9, i requires 0 <= i < 9 => Column(i))
    + [Box(0, 0), Box(0, 1), Box(0, 2), Box(1, 0), Box(1, 1), Box(1, 2), Box(2, 0), Box(2, 1), Box(2, 2)]
  }

  /** The position of a unit in the scan order of Units(). */
  function UnitIndex(u: Unit): (k: nat)
    ensures k < 27 && Units()[k] == u
  {
    match u
    case Row(r) => r
    case Column(c) => 9 + c
    case Box(br, bc) => 18 + 3 * br + bc
  }

  /** UnitIndex undoes indexing into Units(). */
  lemma UnitsIndexed(m: nat)
    requires m < 27
    ensures UnitIndex(Units()[m]) == m
  {
  }

  /** The digits 1..9 in ascending order. */
  function Digits(): (ds: seq<int>)
    ensures |ds| == 9
    ensures forall i :: 0 <= i < 9 ==> ds[i] == i + 1
    ensures forall d :: d in ds <==> 1 <= d <= 9
  {
    [1, 2, 3, 4, 5, 6, 7, 8, 9]
  }

  function DigitSet(): set<int>
  {
    {1, 2, 3, 4, 5, 6, 7, 8, 9}
  }

  lemma DigitSetSize()
    ensures forall d :: d in DigitSet() <==> 1 <= d <= 9
    ensures |DigitSet()| == 9
  {
    var ds := Digits();
    assert Distinct(ds);
    DistinctCard(ds);
    assert (set x | x in ds) == DigitSet();
  }

  /** Every position, rows first and columns ascending within a row. */
  function AllPositions(): (ps: seq<Pos>)
    ensures |ps| == 81
    ensures forall i :: 0 <= i < 81 ==> ps[i] == Pos(i / 9, i % 9)
  {
    seq(81, i requires 0 <= i < 81 => Pos(i / 9, i % 9))
  }

  /** Row-major order on positions. */
  predicate Before(p: Pos, q: Pos)
  {
    p.row < q.row || (p.row == q.row && p.col < q.col)
  }

  lemma AllPositionsOrder(i: int, j: int)
    requires 0 <= i < 81 && 0 <= j < 81
    ensures i < j <==> Before(AllPositions()[i], AllPositions()[j])
  {
  }

  lemma AllPositionsIndex(p: Pos)
    ensures 0 <= 9 * p.row + p.col < 81
    ensures AllPositions()[9 * p.row + p.col] == p
  {
  }

  // ---------------------------------------------------------------------
  // 9x9 matrices

  predicate IsNineByNine<T>(m: seq<seq<T>>)
  {
    |m| == 9 && forall r :: 0 <= r < 9 ==> |m[r]| == 9
  }

  /** The read-only grid of solved values: 0 for an empty cell. */
  type Numbers = g: seq<seq<int>> | IsNineByNine(g) witness seq(9, _ => seq(9, _ => 0))

  function Get<T>(m: seq<seq<T>>, p: Pos): T
    requires IsNineByNine(m)
  {
    m[p.row][p.col]
  }

  /** m with the entry at p replaced by x. */
  function Put<T>(m: seq<seq<T>>, p: Pos, x: T): (m': seq<seq<T>>)
    requires IsNineByNine(m)
    ensures IsNineByNine(m')
    ensures forall q :: Get(m', q) == if q == p then x else Get(m, q)
  {
    m[p.row := m[p.row][p.col := x]]
  }

  /** The matrix whose entry at every position p is f(p). */
  function Build<T>(f: Pos -> T): (m: seq<seq<T>>)
    ensures IsNineByNine(m)
    ensures forall p :: Get(m, p) == f(p)
  {
    seq(9, r requires 0 <= r < 9 => seq(9, c requires 0 <= c < 9 => f(Pos(r, c))))
  }

  /** Two matrices with the same entries are equal. */
  lemma Extensionality<T>(m: seq<seq<T>>, n: seq<seq<T>>)
    requires IsNineByNine(m) && IsNineByNine(n)
    requires forall p :: Get(m, p) == Get(n, p)
    ensures m == n
  {
    forall r | 0 <= r < 9
      ensures m[r] == n[r]
    {
      forall c | 0 <= c < 9
        ensures m[r][c] == n[r][c]
      {
        assert Get(m, Pos(r, c)) == Get(n, Pos(r, c));
      }
    }
  }

  // ---------------------------------------------------------------------
  // Scanning helpers

  /** The index of the first element of ps that hits, or |ps| when none does:
      the "return on the first match" shape of every rule's loops. */
  function FirstHit<P>(ps: seq<P>, hit: P -> bool): (i: nat)
    ensures i <= |ps|
    ensures i < |ps| ==> hit(ps[i])
    ensures forall j :: 0 <= j < i ==> !hit(ps[j])
  {
    if |ps| == 0 then 0
    else if hit(ps[0]) then 0
    else 1 + FirstHit(ps[1..], hit)
  }

  /** Whether some element of xs hits: the "return false on the first
      match" shape of the checking loops. */
  function Any<P>(xs: seq<P>, hit: P -> bool): (b: bool)
    ensures b <==> exists i :: 0 <= i < |xs| && hit(xs[i])
  {
    FirstHit(xs, hit) < |xs|
  }

  /** The set of the elements of a sequence. */
  function Elements<T(!new)>(xs: seq<T>): (s: set<T>)
    ensures forall x :: x in s <==> x in xs
  {
    set x | x in xs
  }

  /** The elements of xs that satisfy keep, in their original order: the
      "collect into a List" shape of the C# loops. */
  function Filter<T(==,!new)>(xs: seq<T>, keep: T -> bool): (ys: seq<T>)
    ensures |ys| <= |xs|
    ensures forall y :: y in ys <==> y in xs && keep(y)
    ensures Distinct(xs) ==> Distinct(ys)
  {
    if |xs| == 0 then []
    else
      var rest := Filter(xs[1..], keep);
      assert Distinct(xs) ==> xs[0] !in xs[1..];
      if keep(xs[0]) then [xs[0]] + rest else rest
  }

  /** Filtering a list in row-major order keeps it in row-major order. */
  lemma {:induction false} FilterBefore(xs: seq<Pos>, keep: Pos -> bool)
    requires forall i, j :: 0 <= i < j < |xs| ==> Before(xs[i], xs[j])
    ensures forall i, j :: 0 <= i < j < |Filter(xs, keep)| ==> Before(Filter(xs, keep)[i], Filter(xs, keep)[j])
  {
    if |xs| > 0 {
      var rest := Filter(xs[1..], keep);
      FilterBefore(xs[1..], keep);
      forall j | 0 <= j < |rest|
        ensures Before(xs[0], rest[j])
      {
        assert rest[j] in xs[1..];
        var m :| 0 <= m < |xs[1..]| && xs[1..][m] == rest[j];
        assert xs[m + 1] == rest[j];
      }
    }
  }

  /** The least element of a non-empty finite set of numbers. */
  function Least(s: set<int>): (m: int)
    requires s != {}
    ensures m in s && forall x :: x in s ==> m <= x
  {
    LeastExists(s);
    var m :| m in s && forall x :: x in s ==> m <= x;
    m
  }

  lemma {:induction false} LeastExists(s: set<int>)
    requires s != {}
    decreases |s|
    ensures exists m :: m in s && forall x :: x in s ==> m <= x
  {
    if forall x :: x !in s {
      assert false;
    }
    var y :| y in s;
    var rest := s - {y};
    if rest == {} {
      forall x | x in s
        ensures y <= x
      {
        assert x !in rest;
      }
    } else {
      LeastExists(rest);
      var m :| m in rest && forall x :: x in rest ==> m <= x;
      var w := if y < m then y else m;
      forall x | x in s
        ensures w <= x
      {
        if x != y {
          assert x in rest;
        }
      }
      assert w in s;
    }
  }

  /** The elements of a finite set of numbers in ascending order. */
  function Ascending(s: set<int>): (xs: seq<int>)
    decreases |s|
    ensures |xs| == |s|
    ensures forall x :: x in xs <==> x in s
    ensures forall i, j :: 0 <= i < j < |xs| ==> xs[i] < xs[j]
  {
    if s == {} then []
    else
      var m := Least(s);
      [m] + Ascending(s - {m})
  }

  lemma AscendingUnfold(s: set<int>)
    requires s != {}
    ensures Ascending(s) == [Least(s)] + Ascending(s - {Least(s)})
  {
  }

  /** The only element of a one-element set. */
  function Sole(s: set<int>): (x: int)
    requires |s| == 1
    ensures s == {x}
  {
    var m := Least(s);
    assert |s - {m}| == 0;
    assert s - {m} == {};
    m
  }

  /** A subset is no larger than the set containing it. */
  lemma {:induction false} SubsetCard<T>(a: set<T>, b: set<T>)
    requires a <= b
    decreases |b|
    ensures |a| <= |b|
  {
    if a != {} {
      if forall x :: x !in a {
        assert false;
      }
      var x :| x in a;
      SubsetCard(a - {x}, b - {x});
    }
  }

  /** A set with more elements than d has an element outside d. */
  lemma LargerNotInside<T>(c: set<T>, d: set<T>)
    requires |c| > |d|
    ensures c - d != {}
  {
    if c - d == {} {
      forall x | x in c
        ensures x in d
      {
        assert x !in c - d;
      }
      SubsetCard(c, d);
    }
  }

  /** A duplicate-free sequence whose elements all equal x has at most one
      element. */
  lemma AtMostOne<T>(s: seq<T>, x: T)
    requires Distinct(s)
    requires forall i :: 0 <= i < |s| ==> s[i] == x
    ensures |s| <= 1
  {
    DistinctCard(s);
    if |s| > 0 {
      assert s[0] in s;
      assert (set y | y in s) == {x};
    }
  }

  /** A duplicate-free sequence has as many elements as its set. */
  lemma DistinctCard<T>(s: seq<T>)
    requires Distinct(s)
    ensures |set x | x in s| == |s|
  {
    if |s| > 0 {
      var t := s[1..];
      assert Distinct(t);
      DistinctCard(t);
      assert (set x | x in s) == {s[0]} + (set x | x in t);
      assert s[0] !in t;
    }
  }

  /** A sequence holding two different values has at least two elements. */
  lemma TwoIn<T>(s: seq<T>, a: T, b: T)
    requires a in s && b in s && a != b
    ensures |s| >= 2
  {
    var i :| 0 <= i < |s| && s[i] == a;
    var j :| 0 <= j < |s| && s[j] == b;
    assert i != j;
  }

  /** A list without repeats whose members are two values is those two. */
  lemma TwoMembers<T>(ts: seq<T>, a: T, b: T)
    requires Distinct(ts) && a != b
    requires forall x :: x in ts <==> x == a || x == b
    ensures |ts| == 2 && {ts[0], ts[1]} == {a, b}
  {
    assert (set x | x in ts) == {a, b};
    DistinctCard(ts);
    assert ts[0] in ts && ts[1] in ts;
  }
}
