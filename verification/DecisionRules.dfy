/**
 Decision rules of the vocabulary (tools/vocabulary/compiler.py): a concept's rule
 over named booleans, the enumeration that proves it total and unambiguous when it
 is loaded, and the evaluator that relies on that proof.
 */
module DecisionRules {
  import opened Wrappers
  import opened Characters
  import opened Json

  datatype Condition = IsTrue | IsFalse | Any

  datatype Clause = Clause(name: string, condition: Condition)

  type Assignment = map<string, bool>

  function Spelled(value: bool): Condition {
    if value then IsTrue else IsFalse
  }

  datatype SemanticCase = SemanticCase(when_: seq<Clause>, result: string, because: string) {
    predicate Names(assignment: Assignment) {
      forall i :: 0 <= i < |when_| ==> when_[i].name in assignment
    }

    predicate Matches(assignment: Assignment)
      requires Names(assignment)
    {
      forall i :: 0 <= i < |when_| ==>
        when_[i].condition == Any || when_[i].condition == Spelled(assignment[when_[i].name])
    }
  }

  datatype AnswerError = AboutOtherInputs | MatchedCases(count: nat)

  datatype ValueSemantics = ValueSemantics(summary: string, inputs: seq<string>, cases: seq<SemanticCase>) {
    /** Every case states exactly the declared inputs, in their order. */
    predicate Valid() {
      && Distinct(inputs)
      && forall k :: 0 <= k < |cases| ==> StatesInputs(inputs, cases[k])
    }

    predicate About(assignment: Assignment) {
      assignment.Keys == set i | 0 <= i < |inputs| :: inputs[i]
    }

    function Answer(assignment: Assignment): Result<string, AnswerError>
      requires Valid()
    {
      if !About(assignment) then Err(AboutOtherInputs)
      else
        NamesInputs(inputs, cases, assignment);
        var matched := Matched(cases, assignment);
        if |matched| != 1 then Err(MatchedCases(|matched|)) else Ok(matched[0].result)
    }
  }

  predicate StatesInputs(inputs: seq<string>, case_: SemanticCase) {
    && |case_.when_| == |inputs|
    && forall i :: 0 <= i < |inputs| ==> case_.when_[i].name == inputs[i]
  }

  lemma NamesInputs(inputs: seq<string>, cases: seq<SemanticCase>, assignment: Assignment)
    requires forall k :: 0 <= k < |cases| ==> StatesInputs(inputs, cases[k])
    requires assignment.Keys == set i | 0 <= i < |inputs| :: inputs[i]
    ensures AllName(cases, assignment)
  {
  }

  predicate AllName(cases: seq<SemanticCase>, assignment: Assignment) {
    forall k :: 0 <= k < |cases| ==> cases[k].Names(assignment)
  }

  /** The cases that match, in their order. */
  function Matched(cases: seq<SemanticCase>, assignment: Assignment): seq<SemanticCase>
    requires AllName(cases, assignment)
  {
    if cases == [] then []
    else
      var n := |cases| - 1;
      Matched(cases[..n], assignment) + if cases[n].Matches(assignment) then [cases[n]] else []
  }

  // ----- which cases match ------------------------------------------------------------------

  ghost predicate IsOnly(cases: seq<SemanticCase>, assignment: Assignment, k: nat)
    requires AllName(cases, assignment) && k < |cases|
  {
    && cases[k].Matches(assignment)
    && forall i :: 0 <= i < |cases| && i != k ==> !cases[i].Matches(assignment)
  }

  ghost predicate ExactlyOneMatches(cases: seq<SemanticCase>, assignment: Assignment)
    requires AllName(cases, assignment)
  {
    exists k :: 0 <= k < |cases| && IsOnly(cases, assignment, k)
  }

  lemma {:induction false} NoneMatched(cases: seq<SemanticCase>, assignment: Assignment)
    requires AllName(cases, assignment)
    ensures Matched(cases, assignment) == [] <==> forall k :: 0 <= k < |cases| ==> !cases[k].Matches(assignment)
  {
    if cases == [] {
    } else {
      var n := |cases| - 1;
      NoneMatched(cases[..n], assignment);
      assert forall k :: 0 <= k < n ==> cases[..n][k] == cases[k];
    }
  }

  lemma {:induction false} OneMatched(cases: seq<SemanticCase>, assignment: Assignment)
    requires AllName(cases, assignment)
    ensures |Matched(cases, assignment)| == 1 <==> ExactlyOneMatches(cases, assignment)
    ensures forall k :: 0 <= k < |cases| && IsOnly(cases, assignment, k) ==> Matched(cases, assignment) == [cases[k]]
  {
    if cases == [] {
    } else {
      var n := |cases| - 1;
      var front := cases[..n];
      OneMatched(front, assignment);
      NoneMatched(front, assignment);
      assert forall k :: 0 <= k < n ==> front[k] == cases[k];
      if cases[n].Matches(assignment) {
        if Matched(front, assignment) == [] {
          assert IsOnly(cases, assignment, n);
        }
        forall k | 0 <= k < |cases| && IsOnly(cases, assignment, k)
          ensures k == n && Matched(front, assignment) == []
        {
        }
      } else {
        forall k | 0 <= k < n
          ensures IsOnly(front, assignment, k) <==> IsOnly(cases, assignment, k)
        {
          if IsOnly(front, assignment, k) {
            forall i | 0 <= i < |cases| && i != k
              ensures !cases[i].Matches(assignment)
            {
              if i < n {
                assert front[i] == cases[i];
              }
            }
          }
        }
      }
    }
  }

  // ----- every combination of the inputs --------------------------------------------------------

  /** `itertools.product([False, True], repeat=n)`: the last input varies fastest. */
  function Combinations(n: nat): (all: seq<seq<bool>>)
    ensures forall k :: 0 <= k < |all| ==> |all[k]| == n
  {
    if n == 0 then [[]]
    else
      var rest := Combinations(n - 1);
      seq(|rest|, k requires 0 <= k < |rest| => [false] + rest[k]) +
      seq(|rest|, k requires 0 <= k < |rest| => [true] + rest[k])
  }

  function Power(n: nat): nat {
    if n == 0 then 1 else 2 * Power(n - 1)
  }

  ghost predicate IsEvery(all: seq<seq<bool>>, n: nat) {
    Distinct(all) && forall bits: seq<bool> :: |bits| == n ==> bits in all
  }

  ghost predicate Doubles(all: seq<seq<bool>>, rest: seq<seq<bool>>) {
    && |all| == 2 * |rest|
    && forall k :: 0 <= k < |rest| ==> all[k] == [false] + rest[k] && all[|rest| + k] == [true] + rest[k]
  }

  /** Two to the n combinations: all of them, each once. */
  lemma {:induction false} CombinationsAreAll(n: nat)
    ensures |Combinations(n)| == Power(n)
    ensures IsEvery(Combinations(n), n)
  {
    if n == 0 {
    } else {
      CombinationsAreAll(n - 1);
      CombinationsDouble(n);
      DoublingKeepsAll(Combinations(n), Combinations(n - 1), n);
    }
  }

  lemma CombinationsDouble(n: nat)
    requires n > 0
    ensures Doubles(Combinations(n), Combinations(n - 1))
  {
  }

  lemma DoublingKeepsAll(all: seq<seq<bool>>, rest: seq<seq<bool>>, n: nat)
    requires n > 0 && Doubles(all, rest) && IsEvery(rest, n - 1)
    ensures IsEvery(all, n)
  {
    forall bits: seq<bool> | |bits| == n
      ensures bits in all
    {
      CombinationIsListed(all, rest, bits);
    }
    forall i, j | 0 <= i < j < |all|
      ensures all[i] != all[j]
    {
      CombinationsDiffer(all, rest, i, j);
    }
  }

  lemma CombinationIsListed(all: seq<seq<bool>>, rest: seq<seq<bool>>, bits: seq<bool>)
    requires Doubles(all, rest) && bits != [] && bits[1..] in rest
    ensures bits in all
  {
    var k :| 0 <= k < |rest| && rest[k] == bits[1..];
    assert bits == [bits[0]] + rest[k];
    assert bits == if bits[0] then all[|rest| + k] else all[k];
  }

  lemma CombinationsDiffer(all: seq<seq<bool>>, rest: seq<seq<bool>>, i: nat, j: nat)
    requires Doubles(all, rest) && i < j < |all| && Distinct(rest)
    ensures all[i] != all[j]
  {
    var half := |rest|;
    var x, y := if i < half then i else i - half, if j < half then j else j - half;
    assert all[i] == [i >= half] + rest[x] by {
      assert i >= half ==> all[half + x] == [true] + rest[x];
    }
    assert all[j] == [j >= half] + rest[y] by {
      assert j >= half ==> all[half + y] == [true] + rest[y];
    }
    assert all[i][1..] == rest[x] && all[j][1..] == rest[y];
    assert all[i][0] == (i >= half) && all[j][0] == (j >= half);
  }

  /** `dict(zip(inputs, combination))` */
  function AssignmentOf(inputs: seq<string>, bits: seq<bool>): (assignment: Assignment)
    requires |bits| == |inputs| && Distinct(inputs)
    ensures assignment.Keys == set i | 0 <= i < |inputs| :: inputs[i]
    ensures forall i :: 0 <= i < |inputs| ==> assignment[inputs[i]] == bits[i]
  {
    if inputs == [] then map[]
    else
      var n := |inputs| - 1;
      assert inputs == inputs[..n] + [inputs[n]];
      AssignmentOf(inputs[..n], bits[..n])[inputs[n] := bits[n]]
  }

  function Assignments(inputs: seq<string>): (all: seq<Assignment>)
    requires Distinct(inputs)
    ensures |all| == |Combinations(|inputs|)|
    ensures forall k :: 0 <= k < |all| ==> all[k] == AssignmentOf(inputs, Combinations(|inputs|)[k])
  {
    var combinations := Combinations(|inputs|);
    seq(|combinations|, k requires 0 <= k < |combinations| => AssignmentOf(inputs, combinations[k]))
  }

  /** The enumeration meets every assignment of the inputs, each once. */
  lemma AssignmentsAreAll(inputs: seq<string>)
    requires Distinct(inputs)
    ensures forall assignment: Assignment ::
              assignment in Assignments(inputs) <==> assignment.Keys == set i | 0 <= i < |inputs| :: inputs[i]
    ensures Distinct(Assignments(inputs)) && |Assignments(inputs)| == Power(|inputs|)
  {
    var combinations, all := Combinations(|inputs|), Assignments(inputs);
    CombinationsAreAll(|inputs|);
    forall assignment: Assignment
      ensures assignment in all <==> assignment.Keys == set i | 0 <= i < |inputs| :: inputs[i]
    {
      if assignment.Keys == set i | 0 <= i < |inputs| :: inputs[i] {
        var bits := EveryAssignmentIsListed(inputs, assignment);
        var k :| 0 <= k < |combinations| && combinations[k] == bits;
        assert all[k] == assignment;
      }
    }
    forall i, j | 0 <= i < j < |all|
      ensures all[i] != all[j]
    {
      AssignmentsDiffer(inputs, combinations[i], combinations[j]);
    }
  }

  lemma AssignmentsDiffer(inputs: seq<string>, left: seq<bool>, right: seq<bool>)
    requires Distinct(inputs) && |left| == |right| == |inputs| && left != right
    ensures AssignmentOf(inputs, left) != AssignmentOf(inputs, right)
  {
    var i :| 0 <= i < |inputs| && left[i] != right[i];
    assert AssignmentOf(inputs, left)[inputs[i]] == left[i];
    assert AssignmentOf(inputs, right)[inputs[i]] == right[i];
  }

  lemma EveryAssignmentIsListed(inputs: seq<string>, assignment: Assignment) returns (bits: seq<bool>)
    requires Distinct(inputs) && assignment.Keys == set i | 0 <= i < |inputs| :: inputs[i]
    ensures |bits| == |inputs|
    ensures AssignmentOf(inputs, bits) == assignment
  {
    bits := seq(|inputs|, i requires 0 <= i < |inputs| => assignment[inputs[i]]);
    SameReadings(inputs, AssignmentOf(inputs, bits), assignment);
  }

  lemma SameReadings(inputs: seq<string>, left: Assignment, right: Assignment)
    requires left.Keys == right.Keys == set i | 0 <= i < |inputs| :: inputs[i]
    requires forall i :: 0 <= i < |inputs| ==> left[inputs[i]] == right[inputs[i]]
    ensures left == right
  {
    forall name | name in right
      ensures left[name] == right[name]
    {
      var i :| 0 <= i < |inputs| && inputs[i] == name;
    }
  }

  // ----- the enumeration -----------------------------------------------------------------------------

  datatype Error =
    | InvalidSemantics
    | InvalidToken(name: string)
    | UnknownResult
    | NotTotal(count: nat, first: Assignment)
    | Ambiguous(count: nat, first: Assignment)

  function MatchCount(rule: ValueSemantics, assignment: Assignment): nat
    requires rule.Valid() && rule.About(assignment)
  {
    NamesInputs(rule.inputs, rule.cases, assignment);
    |Matched(rule.cases, assignment)|
  }

  ghost predicate Uncovered(rule: ValueSemantics, assignment: Assignment)
    requires rule.Valid()
  {
    rule.About(assignment) && MatchCount(rule, assignment) == 0
  }

  ghost predicate Doubled(rule: ValueSemantics, assignment: Assignment)
    requires rule.Valid()
  {
    rule.About(assignment) && MatchCount(rule, assignment) > 1
  }

  ghost predicate MatchesOnce(rule: ValueSemantics, assignment: Assignment)
    requires rule.Valid() && rule.About(assignment)
  {
    NamesInputs(rule.inputs, rule.cases, assignment);
    ExactlyOneMatches(rule.cases, assignment)
  }

  /** What the rule is loaded for: every combination of its inputs reaches exactly one case. */
  ghost predicate Decides(rule: ValueSemantics)
    requires rule.Valid()
  {
    forall assignment :: rule.About(assignment) ==> MatchesOnce(rule, assignment)
  }

  lemma MatchesOnceIsACount(rule: ValueSemantics, assignment: Assignment)
    requires rule.Valid() && rule.About(assignment)
    ensures MatchesOnce(rule, assignment) <==> !Uncovered(rule, assignment) && !Doubled(rule, assignment)
  {
    NamesInputs(rule.inputs, rule.cases, assignment);
    OneMatched(rule.cases, assignment);
  }

  /** The combinations no case answers, and those that more than one does: all of each, each once. */
  method Enumerate(rule: ValueSemantics) returns (uncovered: seq<Assignment>, ambiguous: seq<Assignment>)
    requires rule.Valid()
    ensures Distinct(uncovered) && Distinct(ambiguous)
    ensures forall a :: a in uncovered <==> Uncovered(rule, a)
    ensures forall a :: a in ambiguous <==> Doubled(rule, a)
  {
    uncovered, ambiguous := [], [];
    var combinations := Combinations(|rule.inputs|);
    ghost var all := Assignments(rule.inputs);
    AssignmentsAreAll(rule.inputs);
    for k := 0 to |combinations|
      invariant Distinct(uncovered) && Distinct(ambiguous)
      invariant forall a :: a in uncovered <==> a in all[..k] && Uncovered(rule, a)
      invariant forall a :: a in ambiguous <==> a in all[..k] && Doubled(rule, a)
    {
      var assignment := AssignmentOf(rule.inputs, combinations[k]);
      Listing(all, k);
      NamesInputs(rule.inputs, rule.cases, assignment);
      var count := |Matched(rule.cases, assignment)|;
      if count == 0 {
        uncovered := uncovered + [assignment];
      } else if count > 1 {
        ambiguous := ambiguous + [assignment];
      }
    }
    assert all[..|combinations|] == all;
  }

  lemma Listing(all: seq<Assignment>, k: nat)
    requires k < |all| && Distinct(all)
    ensures all[k] !in all[..k]
    ensures forall a :: a in all[..k + 1] <==> a in all[..k] || a == all[k]
  {
    assert all[..k + 1] == all[..k] + [all[k]];
  }

  ghost predicate NumbersUncovered(rule: ValueSemantics, count: nat)
    requires rule.Valid()
  {
    exists all: set<Assignment> :: |all| == count && forall a :: a in all <==> Uncovered(rule, a)
  }

  ghost predicate NumbersDoubled(rule: ValueSemantics, count: nat)
    requires rule.Valid()
  {
    exists all: set<Assignment> :: |all| == count && forall a :: a in all <==> Doubled(rule, a)
  }

  lemma {:induction false} DistinctSize(listed: seq<Assignment>)
    requires Distinct(listed)
    ensures |set a | a in listed| == |listed|
  {
    if listed == [] {
    } else {
      var n := |listed| - 1;
      DistinctSize(listed[..n]);
      assert (set a | a in listed) == (set a | a in listed[..n]) + {listed[n]};
    }
  }

  /** An error names one combination at fault and states how many there are. */
  ghost predicate Reports(rule: ValueSemantics, e: Error)
    requires rule.Valid()
  {
    match e
    case NotTotal(count, first) => Uncovered(rule, first) && NumbersUncovered(rule, count)
    case Ambiguous(count, first) => Doubled(rule, first) && NumbersDoubled(rule, count)
    case _ => false
  }

  lemma UncoveredAreReported(rule: ValueSemantics, uncovered: seq<Assignment>)
    requires rule.Valid() && Distinct(uncovered) && uncovered != []
    requires forall a :: a in uncovered <==> Uncovered(rule, a)
    ensures Reports(rule, NotTotal(|uncovered|, uncovered[0]))
  {
    var all := set a | a in uncovered;
    DistinctSize(uncovered);
    assert forall a :: a in all <==> Uncovered(rule, a);
    assert uncovered[0] in uncovered;
  }

  lemma DoubledAreReported(rule: ValueSemantics, ambiguous: seq<Assignment>)
    requires rule.Valid() && Distinct(ambiguous) && ambiguous != []
    requires forall a :: a in ambiguous <==> Doubled(rule, a)
    ensures Reports(rule, Ambiguous(|ambiguous|, ambiguous[0]))
  {
    var all := set a | a in ambiguous;
    DistinctSize(ambiguous);
    assert forall a :: a in all <==> Doubled(rule, a);
    assert ambiguous[0] in ambiguous;
  }

  lemma NoMembers(listed: seq<Assignment>)
    ensures listed == [] <==> forall a :: a !in listed
  {
    if listed != [] {
      assert listed[0] in listed;
    }
  }

  lemma NothingListed(rule: ValueSemantics, uncovered: seq<Assignment>, ambiguous: seq<Assignment>)
    requires rule.Valid()
    requires forall a :: a in uncovered <==> Uncovered(rule, a)
    requires forall a :: a in ambiguous <==> Doubled(rule, a)
    ensures uncovered == [] && ambiguous == [] <==> Decides(rule)
  {
    forall a | rule.About(a)
      ensures MatchesOnce(rule, a) <==> a !in uncovered && a !in ambiguous
    {
      MatchesOnceIsACount(rule, a);
    }
    if Decides(rule) {
      assert (forall a :: a !in uncovered) && (forall a :: a !in ambiguous);
      NoMembers(uncovered);
      NoMembers(ambiguous);
    }
  }

  /** No error exactly for the rules that decide; one error for all the holes and one for all the overlaps. */
  method CheckRuleIsTotal(rule: ValueSemantics) returns (errors: seq<Error>)
    requires rule.Valid()
    ensures errors == [] <==> Decides(rule)
    ensures forall e :: e in errors ==> Reports(rule, e)
    ensures forall a :: Uncovered(rule, a) ==> errors != [] && errors[0].NotTotal?
    ensures forall a :: Doubled(rule, a) ==> errors != [] && errors[|errors| - 1].Ambiguous?
  {
    errors := [];
    var uncovered, ambiguous := Enumerate(rule);
    if uncovered != [] {
      errors := [NotTotal(|uncovered|, uncovered[0])];
    }
    if ambiguous != [] {
      errors := errors + [Ambiguous(|ambiguous|, ambiguous[0])];
    }
    EveryFaultIsReported(rule, uncovered, ambiguous, errors);
  }

  lemma EveryFaultIsReported(rule: ValueSemantics, uncovered: seq<Assignment>, ambiguous: seq<Assignment>, errors: seq<Error>)
    requires rule.Valid() && Distinct(uncovered) && Distinct(ambiguous)
    requires forall a :: a in uncovered <==> Uncovered(rule, a)
    requires forall a :: a in ambiguous <==> Doubled(rule, a)
    requires errors == (if uncovered == [] then [] else [NotTotal(|uncovered|, uncovered[0])]) +
                       (if ambiguous == [] then [] else [Ambiguous(|ambiguous|, ambiguous[0])])
    ensures errors == [] <==> Decides(rule)
    ensures forall e :: e in errors ==> Reports(rule, e)
    ensures forall a :: Uncovered(rule, a) ==> errors != [] && errors[0].NotTotal?
    ensures forall a :: Doubled(rule, a) ==> errors != [] && errors[|errors| - 1].Ambiguous?
  {
    NothingListed(rule, uncovered, ambiguous);
    if uncovered != [] {
      UncoveredAreReported(rule, uncovered);
    }
    if ambiguous != [] {
      DoubledAreReported(rule, ambiguous);
    }
  }

  // ----- the evaluator ----------------------------------------------------------------------------

  /** A rule answers every combination of its inputs exactly when the enumeration finds no fault. */
  lemma AnswersEverythingIffDecides(rule: ValueSemantics)
    requires rule.Valid()
    ensures (forall a :: rule.About(a) ==> rule.Answer(a).Ok?) <==> Decides(rule)
  {
    forall a | rule.About(a)
      ensures rule.Answer(a).Ok? <==> MatchesOnce(rule, a)
    {
      NamesInputs(rule.inputs, rule.cases, a);
      OneMatched(rule.cases, a);
    }
  }

  /** The answer is the result of the one case that matches, so it does not depend on which case is read first. */
  lemma AnswerIsTheOnlyCase(rule: ValueSemantics, assignment: Assignment) returns (k: nat)
    requires rule.Valid() && Decides(rule) && rule.About(assignment)
    ensures k < |rule.cases| && AllName(rule.cases, assignment) && IsOnly(rule.cases, assignment, k)
    ensures rule.Answer(assignment) == Ok(rule.cases[k].result)
  {
    NamesInputs(rule.inputs, rule.cases, assignment);
    assert MatchesOnce(rule, assignment);
    k :| 0 <= k < |rule.cases| && IsOnly(rule.cases, assignment, k);
    OneMatched(rule.cases, assignment);
  }

  lemma {:induction false} MatchedMultiplicity(cases: seq<SemanticCase>, assignment: Assignment, case_: SemanticCase)
    requires AllName(cases, assignment)
    ensures multiset(Matched(cases, assignment))[case_] ==
            if case_.Names(assignment) && case_.Matches(assignment) then multiset(cases)[case_] else 0
  {
    if cases == [] {
    } else {
      var n := |cases| - 1;
      assert cases == cases[..n] + [cases[n]];
      MatchedMultiplicity(cases[..n], assignment, case_);
    }
  }

  lemma MatchedIgnoresOrder(left: seq<SemanticCase>, right: seq<SemanticCase>, assignment: Assignment)
    requires AllName(left, assignment) && AllName(right, assignment) && multiset(left) == multiset(right)
    ensures |Matched(left, assignment)| == |Matched(right, assignment)|
    ensures |Matched(left, assignment)| == 1 ==> Matched(left, assignment) == Matched(right, assignment)
  {
    forall case_: SemanticCase
      ensures multiset(Matched(left, assignment))[case_] == multiset(Matched(right, assignment))[case_]
    {
      MatchedMultiplicity(left, assignment, case_);
      MatchedMultiplicity(right, assignment, case_);
    }
    SameMultisets(Matched(left, assignment), Matched(right, assignment));
  }

  lemma SameMultisets(one: seq<SemanticCase>, other: seq<SemanticCase>)
    requires forall x: SemanticCase :: multiset(one)[x] == multiset(other)[x]
    ensures multiset(one) == multiset(other)
    ensures |one| == |other|
    ensures |one| == 1 ==> one == other
  {
    assert multiset(one) == multiset(other);
    assert |one| == |multiset(one)| && |other| == |multiset(other)|;
    if |one| == 1 {
      assert one == [one[0]] && other == [other[0]];
      assert multiset(other)[one[0]] == 1;
    }
  }

  /** Reordering the cases changes no answer, refusals included, and not whether the rule decides. */
  lemma OrderOfCasesIsIrrelevant(left: ValueSemantics, right: ValueSemantics)
    requires left.Valid() && right.Valid()
    requires left.inputs == right.inputs && multiset(left.cases) == multiset(right.cases)
    ensures forall a :: left.Answer(a) == right.Answer(a)
    ensures Decides(left) <==> Decides(right)
  {
    forall a
      ensures left.Answer(a) == right.Answer(a)
    {
      if left.About(a) {
        SameAnswer(left, right, a);
      }
    }
    AnswersEverythingIffDecides(left);
    AnswersEverythingIffDecides(right);
  }

  lemma SameAnswer(left: ValueSemantics, right: ValueSemantics, assignment: Assignment)
    requires left.Valid() && right.Valid() && left.About(assignment)
    requires left.inputs == right.inputs && multiset(left.cases) == multiset(right.cases)
    ensures left.Answer(assignment) == right.Answer(assignment)
  {
    NamesInputs(left.inputs, left.cases, assignment);
    NamesInputs(right.inputs, right.cases, assignment);
    MatchedIgnoresOrder(left.cases, right.cases, assignment);
  }

  /** No case is dead by itself: some combination of the inputs matches it. */
  lemma EveryCaseMatchesSomething(rule: ValueSemantics, k: nat) returns (assignment: Assignment)
    requires rule.Valid() && k < |rule.cases|
    ensures rule.About(assignment) && rule.cases[k].Names(assignment) && rule.cases[k].Matches(assignment)
  {
    var when_ := rule.cases[k].when_;
    var bits := seq(|when_|, i requires 0 <= i < |when_| => when_[i].condition == IsTrue);
    assignment := AssignmentOf(rule.inputs, bits);
    NamesInputs(rule.inputs, rule.cases, assignment);
    forall i | 0 <= i < |when_|
      ensures assignment[when_[i].name] == bits[i]
    {
      assert when_[i].name == rule.inputs[i];
    }
  }

  /** A case that leaves every input open decides alone and beside any other case never does. */
  lemma WildcardDecidesAlone(rule: ValueSemantics, k: nat)
    requires rule.Valid() && k < |rule.cases|
    requires forall i :: 0 <= i < |rule.inputs| ==> rule.cases[k].when_[i].condition == Any
    ensures Decides(rule) <==> |rule.cases| == 1
  {
    if |rule.cases| == 1 {
      forall a | rule.About(a)
        ensures MatchesOnce(rule, a)
      {
        NamesInputs(rule.inputs, rule.cases, a);
        assert IsOnly(rule.cases, a, 0);
      }
    } else {
      var a := EveryCaseMatchesSomething(rule, if k == 0 then 1 else 0);
      NamesInputs(rule.inputs, rule.cases, a);
      assert rule.cases[k].Matches(a);
      assert !MatchesOnce(rule, a);
    }
  }

  // ----- loading a rule -------------------------------------------------------------------------------

  const MAX_SEMANTIC_INPUTS := 8

  predicate KeysAre(body: Json, keys: set<string>) {
    body.Object? && (set i | 0 <= i < |body.fields| :: body.fields[i].key) == keys
  }

  predicate IsSentence(value: Json) {
    value.String? && !Blank(value.s)
  }

  predicate IsStringList(value: Json) {
    value.Array? && forall i :: 0 <= i < |value.items| ==> value.items[i].String?
  }

  function Strings(value: Json): seq<string>
    requires IsStringList(value)
  {
    seq(|value.items|, i requires 0 <= i < |value.items| => value.items[i].s)
  }

  function ConditionOf(value: Json): Option<Condition> {
    if value.Bool? then Some(Spelled(value.b))
    else if value == String("any") then Some(Any)
    else None
  }

  function ElementsOf(names: seq<string>): set<string> {
    set i | 0 <= i < |names| :: names[i]
  }

  predicate GoodCase(body: Json, inputs: seq<string>, declared: seq<string>) {
    && KeysAre(body, {"when", "then", "because"})
    && IsSentence(Member(body, "because"))
    && KeysAre(Member(body, "when"), ElementsOf(inputs))
    && (forall i :: 0 <= i < |inputs| ==> ConditionOf(Member(Member(body, "when"), inputs[i])).Some?)
    && Member(body, "then").String? && Member(body, "then").s in declared
  }

  function CaseOf(body: Json, inputs: seq<string>, declared: seq<string>): SemanticCase
    requires GoodCase(body, inputs, declared)
  {
    SemanticCase(
      seq(|inputs|, i requires 0 <= i < |inputs| =>
        Clause(inputs[i], ConditionOf(Member(Member(body, "when"), inputs[i])).value)),
      Member(body, "then").s,
      Member(body, "because").s)
  }

  /** The body of the field, apart from its cases. */
  predicate GoodFrame(raw: Json, token: string -> bool) {
    && KeysAre(raw, {"summary", "inputs", "cases"})
    && IsSentence(Member(raw, "summary"))
    && IsStringList(Member(raw, "inputs"))
    && var inputs := Strings(Member(raw, "inputs"));
    && 0 < |inputs| <= MAX_SEMANTIC_INPUTS && Distinct(inputs)
    && (forall i :: 0 <= i < |inputs| ==> token(inputs[i]))
    && Member(raw, "cases").Array? && Member(raw, "cases").items != []
  }

  predicate GoodCases(bodies: seq<Json>, inputs: seq<string>, declared: seq<string>) {
    forall k :: 0 <= k < |bodies| ==> GoodCase(bodies[k], inputs, declared)
  }

  function CasesOf(bodies: seq<Json>, inputs: seq<string>, declared: seq<string>): (cases: seq<SemanticCase>)
    requires GoodCases(bodies, inputs, declared)
    ensures |cases| == |bodies|
  {
    if bodies == [] then []
    else
      var n := |bodies| - 1;
      CasesOf(bodies[..n], inputs, declared) + [CaseOf(bodies[n], inputs, declared)]
  }

  lemma {:induction false} CasesOfAt(bodies: seq<Json>, inputs: seq<string>, declared: seq<string>, k: nat)
    requires GoodCases(bodies, inputs, declared) && k < |bodies|
    ensures CasesOf(bodies, inputs, declared)[k] == CaseOf(bodies[k], inputs, declared)
  {
    if k == |bodies| - 1 {
    } else {
      CasesOfAt(bodies[..|bodies| - 1], inputs, declared, k);
    }
  }

  lemma CasesStateInputs(bodies: seq<Json>, inputs: seq<string>, declared: seq<string>)
    requires GoodCases(bodies, inputs, declared)
    ensures forall k :: 0 <= k < |bodies| ==> StatesInputs(inputs, CasesOf(bodies, inputs, declared)[k])
  {
    forall k | 0 <= k < |bodies|
      ensures StatesInputs(inputs, CasesOf(bodies, inputs, declared)[k])
    {
      CasesOfAt(bodies, inputs, declared, k);
    }
  }

  method ReadConditions(when_: Json, inputs: seq<string>) returns (conditions: seq<Clause>, malformed: nat)
    ensures malformed == 0 <==> forall i :: 0 <= i < |inputs| ==> ConditionOf(Member(when_, inputs[i])).Some?
    ensures malformed == 0 ==> |conditions| == |inputs|
    ensures malformed == 0 ==>
              forall i :: 0 <= i < |inputs| ==> conditions[i] == Clause(inputs[i], ConditionOf(Member(when_, inputs[i])).value)
  {
    conditions, malformed := [], 0;
    for k := 0 to |inputs|
      invariant malformed == 0 <==> forall i :: 0 <= i < k ==> ConditionOf(Member(when_, inputs[i])).Some?
      invariant malformed == 0 ==> |conditions| == k
      invariant malformed == 0 ==>
                  forall i :: 0 <= i < k ==> conditions[i] == Clause(inputs[i], ConditionOf(Member(when_, inputs[i])).value)
    {
      var condition := ConditionOf(Member(when_, inputs[k]));
      if condition.Some? {
        conditions := conditions + [Clause(inputs[k], condition.value)];
      } else {
        malformed := malformed + 1;
      }
    }
  }

  method ReadCase(body: Json, inputs: seq<string>, declared: seq<string>)
    returns (parsed: Option<SemanticCase>, errors: seq<Error>)
    ensures parsed.Some? <==> GoodCase(body, inputs, declared)
    ensures parsed.Some? ==> parsed.value == CaseOf(body, inputs, declared)
    ensures errors == [] <==> parsed.Some?
  {
    parsed, errors := None, [InvalidSemantics];
    if !KeysAre(body, {"when", "then", "because"}) || !IsSentence(Member(body, "because")) {
      return;
    }
    if !KeysAre(Member(body, "when"), ElementsOf(inputs)) {
      return;
    }
    var conditions, malformed := ReadConditions(Member(body, "when"), inputs);
    if malformed > 0 {
      errors := seq(malformed, _ => InvalidSemantics);
      return;
    }
    var result := Member(body, "then");
    if !result.String? || result.s !in declared {
      errors := [UnknownResult];
      return;
    }
    parsed, errors := Some(SemanticCase(conditions, result.s, Member(body, "because").s)), [];
    assert conditions == CaseOf(body, inputs, declared).when_;
  }

  method ReadCases(bodies: seq<Json>, inputs: seq<string>, declared: seq<string>)
    returns (parsed: seq<SemanticCase>, errors: seq<Error>)
    ensures |parsed| == |bodies| <==> GoodCases(bodies, inputs, declared)
    ensures |parsed| == |bodies| ==> parsed == CasesOf(bodies, inputs, declared)
    ensures errors == [] <==> |parsed| == |bodies|
  {
    parsed, errors := [], [];
    for k := 0 to |bodies|
      invariant |parsed| <= k
      invariant |parsed| == k <==> GoodCases(bodies[..k], inputs, declared)
      invariant |parsed| == k ==> parsed == CasesOf(bodies[..k], inputs, declared)
      invariant errors == [] <==> |parsed| == k
    {
      var case_, faults := ReadCase(bodies[k], inputs, declared);
      CaseIsRead(bodies, k, inputs, declared, parsed, case_);
      if case_.Some? {
        parsed := parsed + [case_.value];
      }
      errors := errors + faults;
    }
    assert bodies[..|bodies|] == bodies;
  }

  lemma CaseIsRead(bodies: seq<Json>, k: nat, inputs: seq<string>, declared: seq<string>,
                   parsed: seq<SemanticCase>, case_: Option<SemanticCase>)
    requires k < |bodies| && |parsed| <= k
    requires |parsed| == k <==> GoodCases(bodies[..k], inputs, declared)
    requires |parsed| == k ==> parsed == CasesOf(bodies[..k], inputs, declared)
    requires case_.Some? <==> GoodCase(bodies[k], inputs, declared)
    requires case_.Some? ==> case_.value == CaseOf(bodies[k], inputs, declared)
    ensures |parsed| == k && case_.Some? <==> GoodCases(bodies[..k + 1], inputs, declared)
    ensures |parsed| == k && case_.Some? ==> parsed + [case_.value] == CasesOf(bodies[..k + 1], inputs, declared)
  {
    OneMoreCase(bodies, k, inputs, declared);
    if |parsed| == k && case_.Some? {
      OneMoreCaseOf(bodies, k, inputs, declared);
    }
  }

  lemma OneMoreCase(bodies: seq<Json>, k: nat, inputs: seq<string>, declared: seq<string>)
    requires k < |bodies|
    ensures GoodCases(bodies[..k + 1], inputs, declared) <==>
            GoodCases(bodies[..k], inputs, declared) && GoodCase(bodies[k], inputs, declared)
  {
    var now, next, good := bodies[..k], bodies[..k + 1], (body: Json) => GoodCase(body, inputs, declared);
    assert next == now + [bodies[k]];
    assert GoodCases(now, inputs, declared) <==> forall i :: 0 <= i < |now| ==> good(now[i]);
    assert GoodCases(next, inputs, declared) <==> forall i :: 0 <= i < |next| ==> good(next[i]);
    AllOfOneMore(now, bodies[k], good);
  }

  lemma AllOfOneMore(bodies: seq<Json>, last: Json, good: Json -> bool)
    ensures (forall i :: 0 <= i < |bodies + [last]| ==> good((bodies + [last])[i])) <==>
            (forall i :: 0 <= i < |bodies| ==> good(bodies[i])) && good(last)
  {
    var all := bodies + [last];
    assert all[|bodies|] == last && forall i :: 0 <= i < |bodies| ==> all[i] == bodies[i];
  }

  lemma OneMoreCaseOf(bodies: seq<Json>, k: nat, inputs: seq<string>, declared: seq<string>)
    requires k < |bodies| && GoodCases(bodies[..k + 1], inputs, declared)
    requires GoodCases(bodies[..k], inputs, declared) && GoodCase(bodies[k], inputs, declared)
    ensures CasesOf(bodies[..k + 1], inputs, declared) ==
            CasesOf(bodies[..k], inputs, declared) + [CaseOf(bodies[k], inputs, declared)]
  {
    assert bodies[..k + 1][..k] == bodies[..k];
  }

  /** A rule is read without an error exactly when it is well formed and decides every combination of its inputs. */
  method ReadSemantics(raw: Json, declared: seq<string>, token: string -> bool)
    returns (rule: Option<ValueSemantics>, errors: seq<Error>)
    ensures rule.Some? <==>
              GoodFrame(raw, token) && GoodCases(Member(raw, "cases").items, Strings(Member(raw, "inputs")), declared)
    ensures rule.Some? ==>
              && rule.value.inputs == Strings(Member(raw, "inputs"))
              && rule.value.cases == CasesOf(Member(raw, "cases").items, rule.value.inputs, declared)
              && rule.value.Valid()
    ensures errors == [] <==> rule.Some? && Decides(rule.value)
  {
    rule, errors := None, [InvalidSemantics];
    var inputs := Member(raw, "inputs");
    if !KeysAre(raw, {"summary", "inputs", "cases"}) || !IsSentence(Member(raw, "summary")) {
      return;
    }
    if !IsStringList(inputs) || Strings(inputs) == [] || !Distinct(Strings(inputs)) {
      return;
    }
    var names := Strings(inputs);
    for k := 0 to |names|
      invariant forall i :: 0 <= i < k ==> token(names[i])
    {
      if !token(names[k]) {
        errors := [InvalidToken(names[k])];
        return;
      }
    }
    var bodies := Member(raw, "cases");
    if |names| > MAX_SEMANTIC_INPUTS || !bodies.Array? || bodies.items == [] {
      return;
    }
    var parsed, faults := ReadCases(bodies.items, names, declared);
    errors := faults;
    if |parsed| != |bodies.items| {
      return;
    }
    var read := ValueSemantics(Member(raw, "summary").s, names, parsed);
    CasesStateInputs(bodies.items, names, declared);
    errors := CheckRuleIsTotal(read);
    rule := Some(read);
  }

  /** Whatever loads answers every combination of its inputs with one of the concept's values. */
  lemma LoadedRulesAnswer(rule: ValueSemantics, bodies: seq<Json>, declared: seq<string>, assignment: Assignment)
    requires GoodCases(bodies, rule.inputs, declared) && rule.cases == CasesOf(bodies, rule.inputs, declared)
    requires rule.Valid() && Decides(rule)
    ensures rule.About(assignment) ==> rule.Answer(assignment).Ok? && rule.Answer(assignment).value in declared
    ensures !rule.About(assignment) ==> rule.Answer(assignment) == Err(AboutOtherInputs)
  {
    if rule.About(assignment) {
      var k := AnswerIsTheOnlyCase(rule, assignment);
      CasesOfAt(bodies, rule.inputs, declared, k);
      assert GoodCase(bodies[k], rule.inputs, declared);
    }
  }

  /** The cap keeps the enumeration at two hundred and fifty-six combinations. */
  lemma TheCapBoundsTheEnumeration(inputs: seq<string>)
    requires Distinct(inputs) && |inputs| <= MAX_SEMANTIC_INPUTS
    ensures |Assignments(inputs)| <= 256
  {
    AssignmentsAreAll(inputs);
    PowerGrows(|inputs|, MAX_SEMANTIC_INPUTS);
    assert Power(8) == 256;
  }

  lemma {:induction false} PowerGrows(m: nat, n: nat)
    requires m <= n
    ensures Power(m) <= Power(n)
  {
    if m == n {
    } else {
      PowerGrows(m, n - 1);
    }
  }
}
