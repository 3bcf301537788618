/** Logic/RulesEngine.cs: the rules are tried in turn and the first step
    that solves a square or removes candidates is the next step. */
module RulesEngine {
  import opened Wrappers
  import opened Grid
  import opened Steps
  import NakedSingleRule
  import HiddenSingleRule
  import NakedGroupRule
  import HiddenGroupRule
  import PointingPairsRule
  import XWingRule

  /** The exceptions the engine lets through: a tag without an arm in its
      switch, and a candidate outside 1..9 met by PointingPairs.Run. */
  datatype Fault = RuleOutOfRange(rule: Rule) | CandidateOutOfRange

  /** The tags the switch of CalculateNextStep has no arm for. */
  predicate Unhandled(rule: Rule)
  {
    rule == Rule.OnlyInOnePlace || rule == Rule.PointingTriples
  }

  /** The switch of CalculateNextStep: each handled tag runs its rule. */
  function Dispatch(b: Board, rule: Rule): (r: Result<SolveStep, Fault>)
    ensures r.Success? ==> r.value.rule == rule
    ensures r.Failure? <==> (rule == Rule.OnlyInOnePlace || rule == Rule.PointingTriples) || (rule == Rule.PointingPairs && !PointingPairsRule.CandidatesInRange(b))
  {
    match rule
    case NakedSingle => Success(NakedSingleRule.Run(b))
    case NakedPairs => Success(NakedGroupRule.NakedPairs(b))
    case HiddenSingle => Success(HiddenSingleRule.Run(b))
    case PointingPairs =>
      (match PointingPairsRule.Run(b)
       case Success(s) => Success(s)
       case Failure(_) => Failure(CandidateOutOfRange))
    case HiddenPairs => Success(HiddenGroupRule.HiddenPairs(b))
    case NakedTriples => Success(NakedGroupRule.NakedTriples(b))
    case HiddenTriples => Success(HiddenGroupRule.HiddenTriples(b))
    case NakedQuads => Success(NakedGroupRule.NakedQuads(b))
    case XWing => Success(XWingRule.Run(b))
    case OnlyInOnePlace | PointingTriples => Failure(RuleOutOfRange(rule))
  }

  /** The pattern each rule looks for is present on the board. */
  ghost predicate Applies(b: Board, rule: Rule)
  {
    match rule
    case NakedSingle => exists p :: NakedSingleRule.IsNakedSingle(b, p)
    case HiddenSingle => exists u, d, p :: HiddenSingleRule.HiddenSingleAt(b, u, d, p)
    case OnlyInOnePlace => false
    case PointingTriples => false
    case NakedPairs => exists u, gs :: NakedGroupRule.NakedGroupAt(b, u, 2, gs)
    case NakedTriples => exists u, gs :: NakedGroupRule.NakedGroupAt(b, u, 3, gs)
    case NakedQuads => exists u, gs :: NakedGroupRule.NakedGroupAt(b, u, 4, gs)
    case HiddenPairs => exists u, ds :: HiddenGroupRule.HiddenGroupAt(b, u, 2, ds)
    case HiddenTriples => exists u, ds :: HiddenGroupRule.HiddenGroupAt(b, u, 3, ds)
    case PointingPairs => exists pr, hl, rm :: PointingPairsRule.ValidProbe(pr) && PointingPairsRule.PointingAt(b, pr, hl, rm)
    case XWing => XWingRule.SomeWing(b)
  }

  /** A dispatched step is effective exactly when the rule's pattern is on
      the board. */
  lemma DispatchEffective(b: Board, rule: Rule)
    requires Dispatch(b, rule).Success?
    ensures Effective(Dispatch(b, rule).value) <==> Applies(b, rule)
  {
    var s := Dispatch(b, rule).value;
    var a := Applies(b, rule);
    if rule == Rule.NakedSingle {
      NakedSingleEffective(b);
      assert Effective(s) <==> a;
    } else if rule == Rule.HiddenSingle {
      HiddenSingleEffective(b);
      assert Effective(s) <==> a;
    } else if rule == Rule.NakedPairs {
      NakedPairsEffective(b);
      assert Effective(s) <==> a;
    } else if rule == Rule.NakedTriples {
      NakedTriplesEffective(b);
      assert Effective(s) <==> a;
    } else if rule == Rule.NakedQuads {
      NakedQuadsEffective(b);
      assert Effective(s) <==> a;
    } else if rule == Rule.HiddenPairs {
      HiddenPairsEffective(b);
      assert Effective(s) <==> a;
    } else if rule == Rule.HiddenTriples {
      HiddenTriplesEffective(b);
      assert Effective(s) <==> a;
    } else if rule == Rule.XWing {
      XWingEffective(b);
      assert Effective(s) <==> a;
    } else if rule == Rule.PointingPairs {
      PointingPairsEffective(b);
      assert Effective(s) <==> a;
    }
  }

  lemma NakedSingleEffective(b: Board)
    ensures Effective(Dispatch(b, Rule.NakedSingle).value) <==> Applies(b, Rule.NakedSingle)
  {
    var s := NakedSingleRule.Run(b);
    assert Dispatch(b, Rule.NakedSingle) == Success(s);
  }

  lemma HiddenSingleEffective(b: Board)
    ensures Effective(Dispatch(b, Rule.HiddenSingle).value) <==> Applies(b, Rule.HiddenSingle)
  {
    var s := HiddenSingleRule.Run(b);
    assert Dispatch(b, Rule.HiddenSingle) == Success(s);
  }

  lemma NakedPairsEffective(b: Board)
    ensures Effective(Dispatch(b, Rule.NakedPairs).value) <==> Applies(b, Rule.NakedPairs)
  {
    var s := NakedGroupRule.NakedPairs(b);
    assert Dispatch(b, Rule.NakedPairs) == Success(s);
  }

  lemma NakedTriplesEffective(b: Board)
    ensures Effective(Dispatch(b, Rule.NakedTriples).value) <==> Applies(b, Rule.NakedTriples)
  {
    var s := NakedGroupRule.NakedTriples(b);
    assert Dispatch(b, Rule.NakedTriples) == Success(s);
  }

  lemma NakedQuadsEffective(b: Board)
    ensures Effective(Dispatch(b, Rule.NakedQuads).value) <==> Applies(b, Rule.NakedQuads)
  {
    var s := NakedGroupRule.NakedQuads(b);
    assert Dispatch(b, Rule.NakedQuads) == Success(s);
  }

  lemma HiddenPairsEffective(b: Board)
    ensures Effective(Dispatch(b, Rule.HiddenPairs).value) <==> Applies(b, Rule.HiddenPairs)
  {
    var s := HiddenGroupRule.HiddenPairs(b);
    assert Dispatch(b, Rule.HiddenPairs) == Success(s);
  }

  lemma HiddenTriplesEffective(b: Board)
    ensures Effective(Dispatch(b, Rule.HiddenTriples).value) <==> Applies(b, Rule.HiddenTriples)
  {
    var s := HiddenGroupRule.HiddenTriples(b);
    assert Dispatch(b, Rule.HiddenTriples) == Success(s);
  }

  lemma XWingEffective(b: Board)
    ensures Effective(Dispatch(b, Rule.XWing).value) <==> Applies(b, Rule.XWing)
  {
    var s := XWingRule.Run(b);
    assert Dispatch(b, Rule.XWing) == Success(s);
  }

  lemma PointingPairsEffective(b: Board)
    requires PointingPairsRule.CandidatesInRange(b)
    ensures Effective(Dispatch(b, Rule.PointingPairs).value) <==> Applies(b, Rule.PointingPairs)
  {
  }

  /** CalculateNextStep, with the order of the SolvingRule enumeration as
      a parameter: the first effective step, None when no rule finds
      anything, or the exception that stopped the loop. */
  function CalculateNextStep(b: Board, order: seq<Rule>): (r: Result<Option<SolveStep>, Fault>)
    ensures r.Success? && r.value.Some? ==>
              exists i :: 0 <= i < |order| && Tried(b, order, i)
                          && Dispatch(b, order[i]) == Success(r.value.value)
                          && Effective(r.value.value)
    ensures r.Success? && r.value.None? ==> Tried(b, order, |order|)
    ensures r.Failure? ==>
              exists i :: 0 <= i < |order| && Tried(b, order, i)
                          && Dispatch(b, order[i]) == Failure(r.error)
  {
    if |order| == 0 then
      Success(None)
    else
      match Dispatch(b, order[0])
      case Failure(e) =>
        Failure(e)
      case Success(s) =>
        if Effective(s) then
          Success(Some(s))
        else
          var rest := CalculateNextStep(b, order[1..]);
          TriedShift(b, order);
          rest
  }

  /** The first i tags of order were dispatched without an exception and
      without an effective step. */
  ghost predicate Tried(b: Board, order: seq<Rule>, i: nat)
    requires i <= |order|
  {
    forall j :: 0 <= j < i ==> Dispatch(b, order[j]).Success? && !Effective(Dispatch(b, order[j]).value)
  }

  lemma TriedShift(b: Board, order: seq<Rule>)
    requires |order| > 0
    requires Dispatch(b, order[0]).Success? && !Effective(Dispatch(b, order[0]).value)
    ensures forall i :: 0 <= i <= |order| - 1 ==> (Tried(b, order[1..], i) ==> Tried(b, order, i + 1))
  {
    forall i | 0 <= i <= |order| - 1 && Tried(b, order[1..], i)
      ensures Tried(b, order, i + 1)
    {
      forall j | 0 <= j < i + 1
        ensures Dispatch(b, order[j]).Success? && !Effective(Dispatch(b, order[j]).value)
      {
        if j > 0 {
          assert order[j] == order[1..][j - 1];
        }
      }
    }
  }

  /** When every tag in the order has an arm that does not throw, the
      engine answers None exactly when no rule's pattern is present, and
      otherwise answers with the first rule in the order whose pattern is. */
  lemma NextStepApplies(b: Board, order: seq<Rule>)
    requires forall i :: 0 <= i < |order| ==> Dispatch(b, order[i]).Success?
    ensures CalculateNextStep(b, order).Success?
    ensures CalculateNextStep(b, order).value.None? <==> forall i :: 0 <= i < |order| ==> !Applies(b, order[i])
    ensures CalculateNextStep(b, order).value.Some? ==>
              exists i :: 0 <= i < |order| && Applies(b, order[i])
                          && CalculateNextStep(b, order).value.value.rule == order[i]
                          && forall j :: 0 <= j < i ==> !Applies(b, order[j])
  {
    forall i | 0 <= i < |order| {
      DispatchEffective(b, order[i]);
    }
  }

  /** The engine throws only for a tag without an arm or for a candidate
      outside 1..9 when PointingPairs is reached. */
  lemma NoFault(b: Board, order: seq<Rule>)
    requires forall i :: 0 <= i < |order| ==> !Unhandled(order[i])
    requires Rule.PointingPairs in order ==> PointingPairsRule.CandidatesInRange(b)
    ensures CalculateNextStep(b, order).Success?
  {
    forall i | 0 <= i < |order|
      ensures Dispatch(b, order[i]).Success?
    {
      assert order[i] in order;
    }
  }

  /** Running the engine over two orders one after the other: the second
      runs only when the first ran every tag without effect. */
  lemma {:induction false} NextStepAppend(b: Board, first: seq<Rule>, second: seq<Rule>)
    decreases |first|
    ensures CalculateNextStep(b, first + second) ==
              if CalculateNextStep(b, first) == Success(None) then CalculateNextStep(b, second)
              else CalculateNextStep(b, first)
  {
    if |first| > 0 {
      assert (first + second)[0] == first[0];
      assert (first + second)[1..] == first[1..] + second;
      NextStepAppend(b, first[1..], second);
    } else {
      assert first + second == second;
    }
  }

  /** Once the engine reaches a tag without an arm it throws, so an order
      holding such a tag never yields null: the answer is the one of the
      tags before it, or the exception when all of those ran without
      effect. */
  lemma UnhandledNeverNull(b: Board, order: seq<Rule>, k: nat)
    requires k < |order| && Unhandled(order[k])
    ensures CalculateNextStep(b, order) != Success(None)
    ensures CalculateNextStep(b, order[..k]) == Success(None) ==>
              CalculateNextStep(b, order) == Failure(RuleOutOfRange(order[k]))
    ensures CalculateNextStep(b, order[..k]) != Success(None) ==>
              CalculateNextStep(b, order) == CalculateNextStep(b, order[..k])
  {
    assert order == order[..k] + order[k..];
    NextStepAppend(b, order[..k], order[k..]);
    assert order[k..][0] == order[k];
  }

  /** The engine over an order that holds a tag without an arm, with no
      exception before it: it throws exactly when no rule before that tag
      finds its pattern, and otherwise answers with the first that does. */
  lemma UnhandledOrderApplies(b: Board, order: seq<Rule>, k: nat)
    requires k < |order| && Unhandled(order[k])
    requires forall j :: 0 <= j < k ==> Dispatch(b, order[j]).Success?
    ensures CalculateNextStep(b, order).Failure? <==> forall i :: 0 <= i < k ==> !Applies(b, order[i])
    ensures CalculateNextStep(b, order).Failure? ==> CalculateNextStep(b, order).error == RuleOutOfRange(order[k])
    ensures CalculateNextStep(b, order).Success? ==>
              && CalculateNextStep(b, order).value.Some?
              && exists i :: 0 <= i < k && Applies(b, order[i])
                             && CalculateNextStep(b, order).value.value.rule == order[i]
                             && forall j :: 0 <= j < i ==> !Applies(b, order[j])
  {
    var prefix := order[..k];
    forall i | 0 <= i < |prefix|
      ensures Dispatch(b, prefix[i]).Success?
    {
      assert prefix[i] == order[i];
    }
    NextStepApplies(b, prefix);
    UnhandledNeverNull(b, order, k);
    AnswerFromPrefix(b, order, k, CalculateNextStep(b, prefix), CalculateNextStep(b, order));
  }

  /** The answer r of the whole order, given what NextStepApplies says of
      the answer rp of the tags before the unhandled tag at k. */
  lemma AnswerFromPrefix(b: Board, order: seq<Rule>, k: nat,
                         rp: Result<Option<SolveStep>, Fault>, r: Result<Option<SolveStep>, Fault>)
    requires k < |order|
    requires rp.Success?
    requires rp.value.None? <==> forall i :: 0 <= i < |order[..k]| ==> !Applies(b, order[..k][i])
    requires rp.value.Some? ==>
               exists i :: 0 <= i < |order[..k]| && Applies(b, order[..k][i])
                           && rp.value.value.rule == order[..k][i]
                           && forall j :: 0 <= j < i ==> !Applies(b, order[..k][j])
    requires rp == Success(None) ==> r == Failure(RuleOutOfRange(order[k]))
    requires rp != Success(None) ==> r == rp
    ensures r.Failure? <==> forall i :: 0 <= i < k ==> !Applies(b, order[i])
    ensures r.Failure? ==> r.error == RuleOutOfRange(order[k])
    ensures r.Success? ==>
              && r.value.Some?
              && exists i :: 0 <= i < k && Applies(b, order[i]) && r.value.value.rule == order[i]
                             && forall j :: 0 <= j < i ==> !Applies(b, order[j])
  {
    var prefix := order[..k];
    SamePrefix(order, k);
    if rp.value.Some? {
      var i :| 0 <= i < |prefix| && Applies(b, prefix[i])
               && rp.value.value.rule == prefix[i]
               && forall j :: 0 <= j < i ==> !Applies(b, prefix[j]);
      assert Applies(b, order[i]) && rp.value.value.rule == order[i];
    }
  }

  lemma SamePrefix(order: seq<Rule>, k: nat)
    requires k <= |order|
    ensures |order[..k]| == k
    ensures forall i :: 0 <= i < k ==> order[..k][i] == order[i]
  {
  }
}
