/** The older candidate board of the hint rules (Common/RulesHelper.cs): a
    9x9 array of candidate sets in which a square may also be null. */
module CandidateBoard {
  import opened Wrappers
  import opened Grid
  import opened Text

  /** None stands for a null square. */
  type CandidateGrid = g: seq<seq<Option<set<int>>>> | IsNineByNine(g) witness seq(9, _ => seq(9, _ => None))

  /** A set holds one element which is n exactly when it is {n}. */
  lemma SingletonIs(s: set<int>, n: int)
    ensures (|s| == 1 && n in s) <==> s == {n}
  {
    if |s| == 1 && n in s {
      assert |s - {n}| == 0;
      assert s - {n} == {};
    }
  }

  /** The square q is a placed value n: a non-null set holding only n. */
  predicate HoldsOnly(g: CandidateGrid, q: Pos, n: int)
  {
    Get(g, q) == Some({n})
  }

  /** n may go at p unless another square of p's row, column or box is the
      singleton {n}. Null squares, empty sets and p itself never conflict
      (the C# code compares the set objects, so "another square" is a
      different position here). */
  function IsSafe(g: CandidateGrid, p: Pos, n: int): (safe: bool)
    ensures safe <==> forall q :: Peers(p, q) && q != p ==> !HoldsOnly(g, q, n)
  {
    var conflict := (q: Pos) => q != p && Get(g, q).Some? && |Get(g, q).value| > 0
                                && |Get(g, q).value| == 1 && n in Get(g, q).value;
    var result := !Any(Cells(Row(p.row)), conflict) && !Any(Cells(Column(p.col)), conflict)
                  && !Any(Cells(BoxOf(p)), conflict);
    assert forall q :: conflict(q) <==> q != p && HoldsOnly(g, q, n) by {
      forall q
        ensures conflict(q) <==> q != p && HoldsOnly(g, q, n)
      {
        if Get(g, q).Some? {
          SingletonIs(Get(g, q).value, n);
        }
      }
    }
    assert !result ==> exists q :: Peers(p, q) && q != p && HoldsOnly(g, q, n) by {
      if !result {
        var u := if Any(Cells(Row(p.row)), conflict) then Row(p.row)
                 else if Any(Cells(Column(p.col)), conflict) then Column(p.col)
                 else BoxOf(p);
        var j :| 0 <= j < 9 && conflict(Cells(u)[j]);
        assert InUnit(Cells(u)[j], u);
      }
    }
    assert result ==> forall q :: Peers(p, q) && q != p ==> !HoldsOnly(g, q, n) by {
      if result {
        forall q | Peers(p, q) && q != p
          ensures !HoldsOnly(g, q, n)
        {
          if q.row == p.row {
            assert q in Cells(Row(p.row));
          } else if q.col == p.col {
            assert q in Cells(Column(p.col));
          } else {
            assert q in Cells(BoxOf(p));
          }
        }
      }
    }
    result
  }

  /** NumberOnlyInOnePlaceOnRow, ...OnColumn and ...OnGrid: some square of
      the unit is the singleton {n}. */
  function NumberOnlyInOnePlaceOn(g: CandidateGrid, u: Unit, n: int): (found: bool)
    ensures found <==> exists q :: InUnit(q, u) && HoldsOnly(g, q, n)
  {
    var single := (q: Pos) => Get(g, q).Some? && |Get(g, q).value| == 1 && n in Get(g, q).value;
    var result := Any(Cells(u), single);
    assert forall q :: single(q) <==> HoldsOnly(g, q, n) by {
      forall q
        ensures single(q) <==> HoldsOnly(g, q, n)
      {
        if Get(g, q).Some? {
          SingletonIs(Get(g, q).value, n);
        }
      }
    }
    assert result ==> exists q :: InUnit(q, u) && HoldsOnly(g, q, n) by {
      if result {
        var j :| 0 <= j < 9 && single(Cells(u)[j]);
        assert InUnit(Cells(u)[j], u);
      }
    }
    result
  }

  /** The candidates of a square as a list, empty for a null square. The
      set's enumeration order is not modelled; ascending order stands in. */
  function GetPossibleNumbers(g: CandidateGrid, p: Pos): (ns: seq<int>)
    ensures Get(g, p).None? ==> ns == []
    ensures Get(g, p).Some? ==> |ns| == |Get(g, p).value| && forall n :: n in ns <==> n in Get(g, p).value
  {
    match Get(g, p)
    case None => []
    case Some(s) => Ascending(s)
  }

  // ---------------------------------------------------------------------
  // RemoveCandidates and its key parser

  /** The characters the key is trimmed of before splitting. */
  function KeyBrackets(): set<char>
  {
    {'[', ']', ' '}
  }

  /** The numbers of the parts that parse, in order; the others are
      skipped. */
  function ParsedParts(parts: seq<string>): (ns: seq<int>)
    decreases |parts|
    ensures forall n :: n in ns <==> exists i :: 0 <= i < |parts| && TryParseInt(Trim(parts[i], WhiteSpace())) == Some(n)
  {
    if |parts| == 0 then []
    else
      var rest := ParsedParts(parts[1..]);
      assert forall i :: 1 <= i < |parts| ==> parts[i] == parts[1..][i - 1];
      match TryParseInt(Trim(parts[0], WhiteSpace()))
      case Some(n) => [n] + rest
      case None => rest
  }

  /** The numbers a key names: trim the brackets and spaces, split on
      commas, trim each part and keep the parts that parse as integers. */
  function KeyNumbers(key: string): seq<int>
  {
    ParsedParts(Split(Trim(key, KeyBrackets()), ','))
  }

  /** The guards under which RemoveCandidates does nothing: a null or empty
      key, a null square, or a square down to its last candidate. */
  predicate RemovalBlocked(g: CandidateGrid, p: Pos, key: Option<string>)
  {
    key.None? || key.value == "" || Get(g, p).None? || |Get(g, p).value| == 1
  }

  /** Removes the numbers the key names from the square at p, unless one of
      the guards holds. */
  function RemoveCandidates(g: CandidateGrid, p: Pos, key: Option<string>): (r: CandidateGrid)
    ensures RemovalBlocked(g, p, key) ==> r == g
    ensures !RemovalBlocked(g, p, key) ==>
              Get(r, p).Some? && Get(r, p).value <= Get(g, p).value
              && forall n :: n in Get(g, p).value - Get(r, p).value <==> n in Get(g, p).value && n in KeyNumbers(key.value)
    ensures forall q :: q != p ==> Get(r, q) == Get(g, q)
  {
    if RemovalBlocked(g, p, key) then g
    else Put(g, p, Some(RemoveAll(Get(g, p).value, KeyNumbers(key.value))))
  }

  /** The removal loop: each parsed number removed in turn. */
  function RemoveAll(s: set<int>, ns: seq<int>): (r: set<int>)
    decreases |ns|
    ensures forall n :: n in r <==> n in s && n !in ns
  {
    if |ns| == 0 then s
    else
      assert forall n :: n in ns <==> n == ns[0] || n in ns[1..];
      RemoveAll(s - {ns[0]}, ns[1..])
  }

  /** The way the rules call RemoveCandidates, with one number rendered by
      ToString(): exactly that number is removed. */
  lemma RemoveOneNumber(g: CandidateGrid, p: Pos, n: int)
    requires Int32Min <= n <= Int32Max
    requires !RemovalBlocked(g, p, Some(IntToString(n)))
    ensures Get(RemoveCandidates(g, p, Some(IntToString(n))), p) == Some(Get(g, p).value - {n})
  {
    var key := IntToString(n);
    var s := Get(g, p).value;
    KeyOfOneNumber(n);
    assert RemoveAll(s, [n]) == s - {n};
  }

  lemma KeyOfOneNumber(n: int)
    requires Int32Min <= n <= Int32Max
    ensures KeyNumbers(IntToString(n)) == [n]
  {
    var key := IntToString(n);
    RenderedEnds(n);
    TrimNoOp(key, KeyBrackets());
    assert ',' !in key;
    SplitNoSeparator(key, ',');
    TrimNoOp(key, WhiteSpace());
    IntToStringParses(n);
    assert ParsedParts([key]) == [n];
  }

  /** A rendered number starts with a digit or '-', ends with a digit and
      holds no comma. */
  lemma RenderedEnds(n: int)
    ensures var s := IntToString(n);
      |s| > 0 && (IsDigitChar(s[0]) || s[0] == '-') && IsDigitChar(s[|s| - 1]) && ',' !in s
  {
    var digits := NatToString(if n < 0 then -n else n);
    assert AllDigits(digits) && |digits| > 0;
    if n < 0 {
      assert IntToString(n) == "-" + digits;
    }
  }

  // ---------------------------------------------------------------------
  // The list format of a key, "[2, 5]"

  /** The pieces of a displayed list: the first number, then each further
      number after a space (what splitting "a, b, c" on commas gives). */
  function Pieces(ns: seq<int>): (ps: seq<string>)
    ensures |ps| == |ns|
  {
    seq(|ns|, i requires 0 <= i < |ns| => if i == 0 then IntToString(ns[i]) else " " + IntToString(ns[i]))
  }

  /** A candidate list displayed as "[2, 5]". */
  function ListKey(ns: seq<int>): string
  {
    "[" + Join(Pieces(ns), ",") + "]"
  }

  /** Every number of a displayed list is removed, and nothing else. */
  lemma RemoveListedNumbers(g: CandidateGrid, p: Pos, ns: seq<int>)
    requires forall i :: 0 <= i < |ns| ==> Int32Min <= ns[i] <= Int32Max
    requires !RemovalBlocked(g, p, Some(ListKey(ns)))
    ensures Get(RemoveCandidates(g, p, Some(ListKey(ns))), p) == Some(Get(g, p).value - set n | n in ns)
  {
    ListKeyNumbers(ns);
    var s := Get(g, p).value;
    assert RemoveAll(s, ns) == s - set n | n in ns;
  }

  lemma ListKeyNumbers(ns: seq<int>)
    requires forall i :: 0 <= i < |ns| ==> Int32Min <= ns[i] <= Int32Max
    ensures KeyNumbers(ListKey(ns)) == ns
  {
    var inner := Join(Pieces(ns), ",");
    if |ns| == 0 {
      assert ListKey(ns) == "[]";
      assert Trim("[]", KeyBrackets()) == "";
      assert Split("", ',') == [""];
      assert TryParseInt(Trim("", WhiteSpace())) == None;
    } else {
      PiecesEnds(ns);
      BracketsTrimmed(inner);
      assert Trim(ListKey(ns), KeyBrackets()) == inner;
      forall i | 0 <= i < |ns|
        ensures ',' !in Pieces(ns)[i]
      {
        RenderedEnds(ns[i]);
      }
      SplitJoin(Pieces(ns), ',');
      PiecesParse(ns, Pieces(ns));
    }
  }

  /** The joined pieces start with a digit or '-' and end with a digit. */
  lemma PiecesEnds(ns: seq<int>)
    requires |ns| > 0
    ensures var s := Join(Pieces(ns), ",");
      |s| > 0 && s[0] !in KeyBrackets() && s[|s| - 1] !in KeyBrackets()
  {
    var ps := Pieces(ns);
    RenderedEnds(ns[0]);
    RenderedEnds(ns[|ns| - 1]);
    JoinEnds(ps, ",");
  }

  /** The first and last characters of a join of non-empty pieces. */
  lemma {:induction false} JoinEnds(ps: seq<string>, sep: string)
    requires |ps| > 0 && forall i :: 0 <= i < |ps| ==> |ps[i]| > 0
    decreases |ps|
    ensures var s := Join(ps, sep);
      |s| > 0 && s[0] == ps[0][0] && s[|s| - 1] == ps[|ps| - 1][|ps[|ps| - 1]| - 1]
  {
    if |ps| > 1 {
      var rest := ps[1..];
      JoinEnds(rest, sep);
      assert Join(ps, sep) == ps[0] + sep + Join(rest, sep);
      assert rest[|rest| - 1] == ps[|ps| - 1];
    }
  }

  /** Trimming brackets and spaces off "[s]" gives s back when s starts and
      ends with other characters. */
  lemma BracketsTrimmed(s: string)
    requires |s| > 0 && s[0] !in KeyBrackets() && s[|s| - 1] !in KeyBrackets()
    ensures Trim("[" + s + "]", KeyBrackets()) == s
  {
    var k := "[" + s + "]";
    assert k[1..] == s + "]";
    assert TrimStart(k, KeyBrackets()) == s + "]";
    assert (s + "]")[..|s|] == s;
    assert TrimEnd(s + "]", KeyBrackets()) == s;
  }

  /** Each piece parses back to its number after the white space around
      it is trimmed. */
  lemma PiecesParse(ns: seq<int>, ps: seq<string>)
    requires forall i :: 0 <= i < |ns| ==> Int32Min <= ns[i] <= Int32Max
    requires |ps| == |ns|
    requires forall i :: 0 <= i < |ns| ==> ps[i] == IntToString(ns[i]) || ps[i] == " " + IntToString(ns[i])
    ensures ParsedParts(ps) == ns
  {
    forall i | 0 <= i < |ns|
      ensures TryParseInt(Trim(ps[i], WhiteSpace())) == Some(ns[i])
    {
      PieceParses(ns[i], ps[i]);
    }
    AllPartsParse(ps, ns);
  }

  /** When every part parses, the parsed parts are the numbers in order. */
  lemma {:induction false} AllPartsParse(ps: seq<string>, ns: seq<int>)
    requires |ps| == |ns|
    requires forall i :: 0 <= i < |ps| ==> TryParseInt(Trim(ps[i], WhiteSpace())) == Some(ns[i])
    decreases |ps|
    ensures ParsedParts(ps) == ns
  {
    if |ps| > 0 {
      AllPartsParse(ps[1..], ns[1..]);
      assert [ns[0]] + ns[1..] == ns;
    }
  }

  lemma PieceParses(n: int, piece: string)
    requires Int32Min <= n <= Int32Max
    requires piece == IntToString(n) || piece == " " + IntToString(n)
    ensures TryParseInt(Trim(piece, WhiteSpace())) == Some(n)
  {
    var s := IntToString(n);
    RenderedEnds(n);
    TrimNoOp(s, WhiteSpace());
    if piece != s {
      assert piece[1..] == s;
      assert TrimStart(piece, WhiteSpace()) == TrimStart(s, WhiteSpace());
    }
    IntToStringParses(n);
  }

  // ---------------------------------------------------------------------

  /** The square becomes the singleton {value}; nothing else changes. */
  function SetCell(g: CandidateGrid, p: Pos, value: int): (r: CandidateGrid)
    ensures HoldsOnly(r, p, value)
    ensures forall q :: q != p ==> Get(r, q) == Get(g, q)
  {
    Put(g, p, Some({value}))
  }

  /** The candidate board of a puzzle: every candidate for an empty square,
      the given number alone for a filled one. */
  function InitializeBoard(initial: Numbers): (g: CandidateGrid)
    ensures forall p :: Get(initial, p) == 0 ==> Get(g, p) == Some(DigitSet())
    ensures forall p :: Get(initial, p) != 0 ==> HoldsOnly(g, p, Get(initial, p))
  {
    Build(p => if Get(initial, p) == 0 then Some(DigitSet()) else Some({Get(initial, p)}))
  }

  /** On a fresh board every given is safe where it stands exactly when no
      other square of its row, column or box holds the same given. */
  lemma InitialGivensSafe(initial: Numbers, p: Pos)
    requires Get(initial, p) != 0
    ensures IsSafe(InitializeBoard(initial), p, Get(initial, p)) <==>
              forall q :: Peers(p, q) && q != p ==> Get(initial, q) != Get(initial, p)
  {
    var g := InitializeBoard(initial);
    var n := Get(initial, p);
    forall q | Peers(p, q) && q != p
      ensures HoldsOnly(g, q, n) <==> Get(initial, q) == n
    {
      if Get(initial, q) == 0 {
        assert 1 in DigitSet() && 2 in DigitSet();
        assert DigitSet() != {n};
      }
    }
  }
}
