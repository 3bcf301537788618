/** The k-element combinations iterator used to enumerate candidate groups. */
module Combinatorics {
  import opened Grid

  function Binomial(n: nat, k: nat): nat
  {
    if k == 0 then 1
    else if n == 0 then 0
    else Binomial(n - 1, k - 1) + Binomial(n - 1, k)
  }

  lemma {:induction false} BinomialTooMany(n: nat, k: nat)
    requires n < k
    ensures Binomial(n, k) == 0
  {
    if n > 0 {
      BinomialTooMany(n - 1, k - 1);
      BinomialTooMany(n - 1, k);
    }
  }

  /** c is an order-preserving subsequence of xs. */
  predicate IsSubseq<T(==)>(c: seq<T>, xs: seq<T>)
    decreases |xs|
  {
    if |c| == 0 then true
    else if |xs| == 0 then false
    else (c[0] == xs[0] && IsSubseq(c[1..], xs[1..])) || IsSubseq(c, xs[1..])
  }

  /** Puts x in front of every list of css. */
  function Prepend<T>(x: T, css: seq<seq<T>>): (r: seq<seq<T>>)
    ensures |r| == |css|
    ensures forall j :: 0 <= j < |r| ==> r[j] == [x] + css[j]
  {
    seq(|css|, j requires 0 <= j < |css| => [x] + css[j])
  }

  /** The lists the iterator yields for `xs.Combinations(k)`: the empty list
      alone when k is 0, nothing when xs is too short, and otherwise, for each
      head position i with enough elements left, xs[i] followed by every
      combination of the elements after it. */
  function Combinations<T>(xs: seq<T>, k: nat): (r: seq<seq<T>>)
    decreases k, |xs| + 1
    ensures k == 0 ==> r == [[]]
    ensures 0 < k && |xs| < k ==> r == []
  {
    if k == 0 then [[]]
    else if |xs| < k then []
    else HeadLoop(xs, k, 0)
  }

  /** The iterator's `for` loop over the head positions i .. |xs| - k. */
  function HeadLoop<T>(xs: seq<T>, k: nat, i: nat): seq<seq<T>>
    requires 1 <= k <= |xs|
    requires i <= |xs| - k + 1
    decreases k, |xs| - i
  {
    if i == |xs| - k + 1 then []
    else Prepend(xs[i], Combinations(xs[i + 1..], k - 1)) + HeadLoop(xs, k, i + 1)
  }

  lemma HeadLoopUnfold<T>(xs: seq<T>, k: nat, i: nat)
    requires 1 <= k <= |xs|
    requires i < |xs| - k + 1
    ensures HeadLoop(xs, k, i) == Prepend(xs[i], Combinations(xs[i + 1..], k - 1)) + HeadLoop(xs, k, i + 1)
  {
  }

  /** There are C(n, k) combinations. */
  lemma {:induction false} CombinationsCount<T>(xs: seq<T>, k: nat)
    decreases k, |xs| + 1
    ensures |Combinations(xs, k)| == Binomial(|xs|, k)
  {
    if k > 0 {
      if |xs| < k {
        BinomialTooMany(|xs|, k);
      } else {
        HeadLoopCount(xs, k, 0);
      }
    }
  }

  lemma {:induction false} HeadLoopCount<T>(xs: seq<T>, k: nat, i: nat)
    requires 1 <= k <= |xs|
    requires i <= |xs| - k + 1
    decreases k, |xs| - i
    ensures |HeadLoop(xs, k, i)| == Binomial(|xs| - i, k)
  {
    if i == |xs| - k + 1 {
      BinomialTooMany(|xs| - i, k);
    } else {
      HeadLoopUnfold(xs, k, i);
      CombinationsCount(xs[i + 1..], k - 1);
      HeadLoopCount(xs, k, i + 1);
    }
  }

  /** Every combination has k elements taken from xs in their original
      order. */
  lemma {:induction false} CombinationsShape<T>(xs: seq<T>, k: nat)
    decreases k, |xs| + 1
    ensures forall c :: c in Combinations(xs, k) ==> |c| == k && IsSubseq(c, xs)
  {
    if k > 0 && |xs| >= k {
      HeadLoopShape(xs, k, 0);
      assert xs[0..] == xs;
    }
  }

  lemma {:induction false} HeadLoopShape<T>(xs: seq<T>, k: nat, i: nat)
    requires 1 <= k <= |xs|
    requires i <= |xs| - k + 1
    decreases k, |xs| - i
    ensures forall c :: c in HeadLoop(xs, k, i) ==> |c| == k && IsSubseq(c, xs[i..])
  {
    if i < |xs| - k + 1 {
      var tails := Combinations(xs[i + 1..], k - 1);
      HeadLoopUnfold(xs, k, i);
      CombinationsShape(xs[i + 1..], k - 1);
      HeadLoopShape(xs, k, i + 1);
      forall c | c in HeadLoop(xs, k, i + 1)
        ensures IsSubseq(c, xs[i..])
      {
        SubseqSkip(c, xs[i..]);
      }
      forall c | c in Prepend(xs[i], tails)
        ensures |c| == k && IsSubseq(c, xs[i..])
      {
        var j :| 0 <= j < |tails| && Prepend(xs[i], tails)[j] == c;
        SubseqCons(xs[i], tails[j], xs[i..]);
      }
    }
  }

  lemma SubseqSkip<T>(c: seq<T>, ys: seq<T>)
    requires |ys| > 0 && IsSubseq(c, ys[1..])
    ensures IsSubseq(c, ys)
  {
  }

  lemma SubseqCons<T>(x: T, t: seq<T>, ys: seq<T>)
    requires |ys| > 0 && ys[0] == x && IsSubseq(t, ys[1..])
    ensures IsSubseq([x] + t, ys)
  {
    assert ([x] + t)[1..] == t;
  }

  lemma {:induction false} SubseqLength<T>(c: seq<T>, xs: seq<T>)
    requires IsSubseq(c, xs)
    decreases |xs|
    ensures |c| <= |xs|
  {
    if |c| > 0 {
      if c[0] == xs[0] && IsSubseq(c[1..], xs[1..]) {
        SubseqLength(c[1..], xs[1..]);
      } else {
        SubseqLength(c, xs[1..]);
      }
    }
  }

  lemma {:induction false} SubseqMembers<T>(c: seq<T>, xs: seq<T>)
    requires IsSubseq(c, xs)
    decreases |xs|
    ensures forall x :: x in c ==> x in xs
  {
    if |c| > 0 {
      if c[0] == xs[0] && IsSubseq(c[1..], xs[1..]) {
        SubseqMembers(c[1..], xs[1..]);
        assert forall x :: x in c ==> x == c[0] || x in c[1..];
      } else {
        SubseqMembers(c, xs[1..]);
      }
    }
  }

  /** A subsequence of a list without repeats has no repeats. */
  lemma {:induction false} SubseqDistinct<T>(c: seq<T>, xs: seq<T>)
    requires IsSubseq(c, xs) && Distinct(xs)
    decreases |xs|
    ensures Distinct(c)
  {
    if |c| > 0 {
      assert Distinct(xs[1..]);
      if c[0] == xs[0] && IsSubseq(c[1..], xs[1..]) {
        SubseqDistinct(c[1..], xs[1..]);
        SubseqMembers(c[1..], xs[1..]);
        forall i, j | 0 <= i < j < |c|
          ensures c[i] != c[j]
        {
          if i == 0 {
            assert c[j] == c[1..][j - 1] && c[j] in xs[1..];
            var m :| 0 <= m < |xs| - 1 && xs[1..][m] == c[j];
            assert xs[m + 1] == c[j];
          } else {
            assert c[i] == c[1..][i - 1] && c[j] == c[1..][j - 1];
          }
        }
      } else {
        SubseqDistinct(c, xs[1..]);
      }
    }
  }

  /** Completeness: every k-element subsequence of xs is yielded. */
  lemma {:induction false} CombinationsComplete<T>(xs: seq<T>, k: nat, c: seq<T>)
    requires |c| == k && IsSubseq(c, xs)
    decreases k, |xs| + 1
    ensures c in Combinations(xs, k)
  {
    if k > 0 {
      SubseqLength(c, xs);
      assert xs[0..] == xs;
      HeadLoopComplete(xs, k, 0, c);
    }
  }

  lemma {:induction false} HeadLoopComplete<T>(xs: seq<T>, k: nat, i: nat, c: seq<T>)
    requires 1 <= k <= |xs|
    requires i <= |xs| - k + 1
    requires |c| == k && IsSubseq(c, xs[i..])
    decreases k, |xs| - i
    ensures c in HeadLoop(xs, k, i)
  {
    SubseqLength(c, xs[i..]);
    HeadLoopUnfold(xs, k, i);
    assert xs[i..][0] == xs[i] && xs[i..][1..] == xs[i + 1..];
    if c[0] == xs[i] && IsSubseq(c[1..], xs[i + 1..]) {
      var tails := Combinations(xs[i + 1..], k - 1);
      CombinationsComplete(xs[i + 1..], k - 1, c[1..]);
      var j :| 0 <= j < |tails| && tails[j] == c[1..];
      assert Prepend(xs[i], tails)[j] == c;
    } else {
      HeadLoopComplete(xs, k, i + 1, c);
    }
  }

  /** Filtering keeps the surviving elements in their original order. */
  lemma {:induction false} FilterSubseq<T(!new)>(xs: seq<T>, keep: T -> bool)
    decreases |xs|
    ensures IsSubseq(Filter(xs, keep), xs)
  {
    if |xs| > 0 {
      var rest := Filter(xs[1..], keep);
      FilterSubseq(xs[1..], keep);
      if keep(xs[0]) {
        SubseqCons(xs[0], rest, xs);
      } else {
        SubseqSkip(rest, xs);
      }
    }
  }

  /** The elements of xs that lie in s, in the order of xs. */
  function Selection<T(==,!new)>(xs: seq<T>, s: set<T>): (c: seq<T>)
    ensures forall x :: x in c <==> x in xs && x in s
  {
    Filter(xs, x => x in s)
  }

  /** A set of elements of a duplicate-free list, listed in the list's
      order, is one of the list's combinations of its size. */
  lemma SelectionIsCombination<T(!new)>(xs: seq<T>, s: set<T>)
    requires Distinct(xs)
    requires forall x :: x in s ==> x in xs
    ensures Selection(xs, s) in Combinations(xs, |s|)
  {
    var c := Selection(xs, s);
    FilterSubseq(xs, x => x in s);
    DistinctCard(c);
    assert (set x | x in c) == s;
    CombinationsComplete(xs, |s|, c);
  }

  // -------------------------------------------------------------------------
  // Order: on a strictly increasing list of numbers (for instance the list of
  // indices 0..n-1) every combination is strictly increasing and the
  // combinations come out in strictly increasing lexicographic order, so no
  // selection is produced twice.

  predicate Increasing(xs: seq<int>)
  {
    forall i, j :: 0 <= i < j < |xs| ==> xs[i] < xs[j]
  }

  /** A subsequence of an increasing list is increasing. */
  lemma {:induction false} SubseqIncreasing(c: seq<int>, xs: seq<int>)
    requires IsSubseq(c, xs) && Increasing(xs)
    decreases |xs|
    ensures Increasing(c)
  {
    if |c| > 0 {
      assert Increasing(xs[1..]);
      if c[0] == xs[0] && IsSubseq(c[1..], xs[1..]) {
        SubseqIncreasing(c[1..], xs[1..]);
        SubseqMembers(c[1..], xs[1..]);
        forall i, j | 0 <= i < j < |c|
          ensures c[i] < c[j]
        {
          if i == 0 {
            assert c[j] == c[1..][j - 1] && c[j] in xs[1..];
            var m :| 0 <= m < |xs| - 1 && xs[1..][m] == c[j];
            assert xs[m + 1] == c[j];
          } else {
            assert c[i] == c[1..][i - 1] && c[j] == c[1..][j - 1];
          }
        }
      } else {
        SubseqIncreasing(c, xs[1..]);
      }
    }
  }

  /** Filtering an increasing list keeps it increasing. */
  lemma FilterIncreasing(xs: seq<int>, keep: int -> bool)
    requires Increasing(xs)
    ensures Increasing(Filter(xs, keep))
  {
    FilterSubseq(xs, keep);
    SubseqIncreasing(Filter(xs, keep), xs);
  }

  /** Two increasing lists with the same elements are equal. */
  lemma {:induction false} IncreasingUnique(xs: seq<int>, ys: seq<int>)
    requires Increasing(xs) && Increasing(ys)
    requires forall x :: x in xs <==> x in ys
    decreases |xs|
    ensures xs == ys
  {
    if |xs| > 0 {
      assert xs[0] in xs;
      assert |ys| > 0 && ys[0] in ys;
      assert xs[0] == ys[0] by {
        var i :| 0 <= i < |ys| && ys[i] == xs[0];
        var j :| 0 <= j < |xs| && xs[j] == ys[0];
      }
      forall x
        ensures x in xs[1..] <==> x in ys[1..]
      {
        if x in xs[1..] {
          var i :| 0 <= i < |xs| - 1 && xs[1..][i] == x;
          assert x in ys && x != ys[0];
          var j :| 0 <= j < |ys| && ys[j] == x;
          assert ys[1..][j - 1] == x;
        }
        if x in ys[1..] {
          var i :| 0 <= i < |ys| - 1 && ys[1..][i] == x;
          assert x in xs && x != xs[0];
          var j :| 0 <= j < |xs| && xs[j] == x;
          assert xs[1..][j - 1] == x;
        }
      }
      IncreasingUnique(xs[1..], ys[1..]);
      assert xs == [xs[0]] + xs[1..];
      assert ys == [ys[0]] + ys[1..];
    } else {
      DistinctCard(ys);
      assert (set y | y in ys) == {};
    }
  }

  /** Strict lexicographic order on lists of equal length. */
  predicate LexLess(a: seq<int>, b: seq<int>)
    decreases |a|
  {
    |a| > 0 && |b| > 0 && (a[0] < b[0] || (a[0] == b[0] && LexLess(a[1..], b[1..])))
  }

  predicate LexSorted(css: seq<seq<int>>)
  {
    forall p, q :: 0 <= p < q < |css| ==> LexLess(css[p], css[q])
  }

  lemma {:induction false} LexLessIrreflexive(a: seq<int>)
    ensures !LexLess(a, a)
  {
    if |a| > 0 {
      LexLessIrreflexive(a[1..]);
    }
  }

  /** Strictly sorted lists of combinations have no repeats. */
  lemma LexSortedDistinct(css: seq<seq<int>>)
    requires LexSorted(css)
    ensures forall p, q :: 0 <= p < q < |css| ==> css[p] != css[q]
  {
    forall p, q | 0 <= p < q < |css|
      ensures css[p] != css[q]
    {
      LexLessIrreflexive(css[p]);
    }
  }

  /** On an increasing list, in particular the index list 0..n-1, no
      selection is produced twice. */
  lemma CombinationsDistinct(xs: seq<int>, k: nat)
    requires Increasing(xs)
    ensures forall p, q :: 0 <= p < q < |Combinations(xs, k)| ==> Combinations(xs, k)[p] != Combinations(xs, k)[q]
  {
    CombinationsOrdered(xs, k);
    LexSortedDistinct(Combinations(xs, k));
  }

  /** On any list without repeats, such as the eligible squares of a unit,
      no selection is produced twice. */
  lemma {:induction false} CombinationsNoRepeats<T>(xs: seq<T>, k: nat)
    requires Distinct(xs)
    decreases k, |xs| + 1
    ensures Distinct(Combinations(xs, k))
  {
    if k > 0 && |xs| >= k {
      HeadLoopNoRepeats(xs, k, 0);
    }
  }

  lemma {:induction false} HeadLoopNoRepeats<T>(xs: seq<T>, k: nat, i: nat)
    requires Distinct(xs)
    requires 1 <= k <= |xs|
    requires i <= |xs| - k + 1
    decreases k, |xs| - i
    ensures Distinct(HeadLoop(xs, k, i))
  {
    if i < |xs| - k + 1 {
      var first := Prepend(xs[i], Combinations(xs[i + 1..], k - 1));
      var rest := HeadLoop(xs, k, i + 1);
      HeadLoopUnfold(xs, k, i);
      assert Distinct(xs[i + 1..]);
      CombinationsNoRepeats(xs[i + 1..], k - 1);
      PrependNoRepeats(xs[i], Combinations(xs[i + 1..], k - 1));
      HeadLoopNoRepeats(xs, k, i + 1);
      LaterHeads(xs, k, i);
      forall c, d | c in first && d in rest
        ensures c != d
      {
        assert c[0] == xs[i];
      }
      DistinctAppend(first, rest);
    }
  }

  /** Putting one element in front keeps different lists different. */
  lemma PrependNoRepeats<T>(x: T, css: seq<seq<T>>)
    requires Distinct(css)
    ensures Distinct(Prepend(x, css))
  {
    var r := Prepend(x, css);
    forall p, q | 0 <= p < q < |r|
      ensures r[p] != r[q]
    {
      assert r[p][1..] == css[p] && r[q][1..] == css[q];
    }
  }

  /** The selections that start after position i never start with xs[i]. */
  lemma LaterHeads<T>(xs: seq<T>, k: nat, i: nat)
    requires Distinct(xs)
    requires 1 <= k <= |xs|
    requires i < |xs| - k + 1
    ensures forall d :: d in HeadLoop(xs, k, i + 1) ==> |d| == k && d[0] != xs[i]
  {
    HeadLoopShape(xs, k, i + 1);
    forall d | d in HeadLoop(xs, k, i + 1)
      ensures |d| == k && d[0] != xs[i]
    {
      SubseqMembers(d, xs[i + 1..]);
      assert d[0] in d;
      var m :| 0 <= m < |xs| - (i + 1) && xs[i + 1..][m] == d[0];
      assert xs[i + 1 + m] == d[0];
    }
  }

  /** Two lists without repeats and without a common element join into a
      list without repeats. */
  lemma DistinctAppend<T>(a: seq<T>, b: seq<T>)
    requires Distinct(a) && Distinct(b)
    requires forall x, y :: x in a && y in b ==> x != y
    ensures Distinct(a + b)
  {
    forall p, q | 0 <= p < q < |a + b|
      ensures (a + b)[p] != (a + b)[q]
    {
      if q < |a| {
        assert (a + b)[p] == a[p] && (a + b)[q] == a[q];
      } else if p < |a| {
        assert (a + b)[p] == a[p] && a[p] in a;
        assert (a + b)[q] == b[q - |a|] && b[q - |a|] in b;
      } else {
        assert (a + b)[p] == b[p - |a|] && (a + b)[q] == b[q - |a|];
      }
    }
  }

  lemma {:induction false} CombinationsOrdered(xs: seq<int>, k: nat)
    requires Increasing(xs)
    decreases k, |xs| + 1, 0
    ensures LexSorted(Combinations(xs, k))
  {
    if k > 0 && |xs| >= k {
      HeadLoopOrdered(xs, k, 0);
    }
  }

  lemma {:induction false} HeadLoopOrdered(xs: seq<int>, k: nat, i: nat)
    requires Increasing(xs)
    requires 1 <= k <= |xs|
    requires i <= |xs| - k + 1
    decreases k, |xs| - i, 1
    ensures LexSorted(HeadLoop(xs, k, i))
    ensures forall c :: c in HeadLoop(xs, k, i) ==> i < |xs| && |c| > 0 && c[0] >= xs[i]
  {
    if i < |xs| - k + 1 {
      var tail := xs[i + 1..];
      var a := Prepend(xs[i], Combinations(tail, k - 1));
      var rest := HeadLoop(xs, k, i + 1);
      HeadLoopUnfold(xs, k, i);
      assert Increasing(tail);
      CombinationsOrdered(tail, k - 1);
      PrependOrdered(xs[i], Combinations(tail, k - 1));
      HeadLoopOrdered(xs, k, i + 1);
      RestAfterHead(xs, k, i);
      JoinOrdered(a, rest, xs[i]);
    }
  }

  /** The combinations with a later head start above xs[i]. */
  lemma RestAfterHead(xs: seq<int>, k: nat, i: nat)
    requires Increasing(xs)
    requires 1 <= k <= |xs|
    requires i < |xs| - k + 1
    requires forall c :: c in HeadLoop(xs, k, i + 1) ==> i + 1 < |xs| && |c| > 0 && c[0] >= xs[i + 1]
    ensures forall d :: d in HeadLoop(xs, k, i + 1) ==> |d| > 0 && d[0] > xs[i]
  {
  }

  /** Putting the same number in front keeps a list of lists sorted. */
  lemma PrependOrdered(x: int, tails: seq<seq<int>>)
    requires LexSorted(tails)
    ensures LexSorted(Prepend(x, tails))
    ensures forall c :: c in Prepend(x, tails) ==> |c| > 0 && c[0] == x
  {
    var a := Prepend(x, tails);
    forall p, q | 0 <= p < q < |a|
      ensures LexLess(a[p], a[q])
    {
      assert a[p][1..] == tails[p] && a[q][1..] == tails[q];
    }
  }

  /** Sorted lists starting with x, followed by sorted lists starting above
      x, are sorted. */
  lemma JoinOrdered(a: seq<seq<int>>, b: seq<seq<int>>, x: int)
    requires LexSorted(a) && LexSorted(b)
    requires forall c :: c in a ==> |c| > 0 && c[0] == x
    requires forall d :: d in b ==> |d| > 0 && d[0] > x
    ensures LexSorted(a + b)
    ensures forall c :: c in a + b ==> |c| > 0 && c[0] >= x
  {
    assert forall c, d :: c in a && d in b ==> LexLess(c, d);
    LexSortedAppend(a, b);
  }

  lemma LexSortedAppend(a: seq<seq<int>>, b: seq<seq<int>>)
    requires LexSorted(a) && LexSorted(b)
    requires forall c, d :: c in a && d in b ==> LexLess(c, d)
    ensures LexSorted(a + b)
  {
    var all := a + b;
    forall p, q | 0 <= p < q < |all|
      ensures LexLess(all[p], all[q])
    {
      if q < |a| {
        assert all[p] == a[p] && all[q] == a[q];
      } else if p < |a| {
        assert all[p] in a && all[q] in b;
      } else {
        assert all[p] == b[p - |a|] && all[q] == b[q - |a|];
      }
    }
  }
}
