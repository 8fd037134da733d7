/**
 The SDK coverage ratchet (tools/sdk_operations/ratchet.py): an operation may
 become unwrapped only under an authorisation new in the same change, and the
 new authorisations must state exactly how many did.
 */
module SdkRatchet {
  import opened Wrappers
  import opened Json
  import opened Histories
  import opened Tables

  const WRAPPED := "wrapped"

  /** A committed manifest's rows and the authorisations committed beside them. */
  datatype State = State(operations: seq<Json>, authorisations: seq<Json>)

  // ----- reading a state -------------------------------------------------------------------

  predicate SaysUnwrapped(row: Json, id: string) {
    && row.Object? && Member(row, "operation_id") == String(id)
    && Member(row, "disposition") != String(WRAPPED)
  }

  ghost predicate IsUnwrapped(operations: seq<Json>, id: string) {
    exists i :: 0 <= i < |operations| && SaysUnwrapped(operations[i], id)
  }

  function UnwrappedOf(operations: seq<Json>): set<string> {
    if operations == [] then {}
    else
      var n := |operations| - 1;
      var last := operations[n];
      var id := Member(last, "operation_id");
      UnwrappedOf(operations[..n]) + if id.String? && SaysUnwrapped(last, id.s) then {id.s} else {}
  }

  lemma {:induction false} UnwrappedAre(operations: seq<Json>)
    ensures forall id :: id in UnwrappedOf(operations) <==> IsUnwrapped(operations, id)
  {
    if operations == [] {
    } else {
      UnwrappedAre(operations[..|operations| - 1]);
      UnwrappedSplits(operations);
    }
  }

  lemma UnwrappedSplits(operations: seq<Json>)
    requires operations != []
    ensures forall id :: IsUnwrapped(operations, id) <==>
                           IsUnwrapped(operations[..|operations| - 1], id) || SaysUnwrapped(operations[|operations| - 1], id)
  {
    var n := |operations| - 1;
    forall id
      ensures IsUnwrapped(operations, id) <==> IsUnwrapped(operations[..n], id) || SaysUnwrapped(operations[n], id)
    {
      assert forall i :: 0 <= i < n ==> operations[..n][i] == operations[i];
    }
  }

  method UnwrappedIds(operations: seq<Json>) returns (found: set<string>)
    ensures forall id :: id in found <==> IsUnwrapped(operations, id)
    ensures found == UnwrappedOf(operations)
  {
    found := {};
    for k := 0 to |operations|
      invariant found == UnwrappedOf(operations[..k])
    {
      assert operations[..k + 1][..k] == operations[..k];
      var id := Member(operations[k], "operation_id");
      if operations[k].Object? && id.String? && Member(operations[k], "disposition") != String(WRAPPED) {
        found := found + {id.s};
      }
    }
    assert operations[..|operations|] == operations;
    UnwrappedAre(operations);
  }

  /** The id an authorisation states, and how many operations it licenses. */
  function LicenceOf(body: Json): Option<(string, int)> {
    var key, count := Member(body, "id"), AsInt(Member(body, "operations_added"));
    if key.String? && count.Some? then Some((key.s, count.value)) else None
  }

  /** `{id: operations licensed}` */
  function LicencesOf(authorisations: seq<Json>): map<string, int> {
    Table(authorisations, LicenceOf)
  }

  method Licences(authorisations: seq<Json>) returns (licensed: map<string, int>)
    ensures licensed == LicencesOf(authorisations)
  {
    licensed := map[];
    for k := 0 to |authorisations|
      invariant licensed == LicencesOf(authorisations[..k])
    {
      TableStep(authorisations, LicenceOf, k);
      if authorisations[k].Object? {
        var key, count := Member(authorisations[k], "id"), AsInt(Member(authorisations[k], "operations_added"));
        if key.String? && count.Some? {
          licensed := licensed[key.s := count.value];
        }
      }
    }
    assert authorisations[..|authorisations|] == authorisations;
  }

  /** An id licenses what the last authorisation that states it says, and an id none states licenses nothing. */
  lemma LicencesFind(authorisations: seq<Json>, key: string)
    ensures key in LicencesOf(authorisations) <==> exists i: nat :: IsLatest(authorisations, LicenceOf, key, i)
    ensures forall i: nat :: IsLatest(authorisations, LicenceOf, key, i) ==>
              && key in LicencesOf(authorisations)
              && LicenceOf(authorisations[i]) == Some((key, LicencesOf(authorisations)[key]))
    ensures key !in LicencesOf(authorisations) ==>
              forall i :: 0 <= i < |authorisations| ==> !States(authorisations[i], LicenceOf, key)
  {
    TableFinds(authorisations, LicenceOf, key);
  }

  // ----- totals ------------------------------------------------------------------------------

  ghost function Total(counts: map<string, int>): int
    decreases |counts|
  {
    if counts == map[] then 0
    else
      var key :| key in counts;
      assert |counts - {key}| < |counts| by { Smaller(counts, key); }
      counts[key] + Total(counts - {key})
  }

  lemma Smaller(counts: map<string, int>, key: string)
    requires key in counts
    ensures |counts - {key}| < |counts|
  {
    assert (counts - {key}).Keys == counts.Keys - {key};
    assert |counts.Keys - {key}| == |counts.Keys| - 1;
  }

  lemma {:induction false} TotalWithout(counts: map<string, int>, key: string)
    requires key in counts
    ensures Total(counts) == counts[key] + Total(counts - {key})
    decreases |counts|
  {
    var chosen :| chosen in counts && Total(counts) == counts[chosen] + Total(counts - {chosen});
    if chosen != key {
      Smaller(counts, chosen);
      Smaller(counts, key);
      TotalWithout(counts - {chosen}, key);
      TotalWithout(counts - {key}, chosen);
      assert counts - {chosen} - {key} == counts - {key} - {chosen};
    }
  }

  lemma WithoutFromBoth(left: map<string, int>, right: map<string, int>, key: string)
    requires left.Keys !! right.Keys && key in right
    ensures (left + right) - {key} == left + (right - {key})
    ensures (left + right)[key] == right[key]
  {
  }

  lemma {:induction false} TotalOfBoth(left: map<string, int>, right: map<string, int>)
    requires left.Keys !! right.Keys
    ensures Total(left + right) == Total(left) + Total(right)
    decreases |right|
  {
    if right == map[] {
      assert left + right == left;
    } else {
      var key :| key in right;
      var whole, rest := left + right, right - {key};
      Smaller(right, key);
      TotalWithout(right, key);
      TotalWithout(whole, key);
      assert whole - {key} == left + rest && whole[key] == right[key] by {
        WithoutFromBoth(left, right, key);
      }
      TotalOfBoth(left, rest);
    }
  }

  /** `sum(fresh.values())` */
  method Sum(counts: map<string, int>) returns (total: int)
    ensures total == Total(counts)
  {
    total := 0;
    var rest := counts;
    while rest != map[]
      invariant total + Total(rest) == Total(counts)
      decreases |rest|
    {
      var key :| key in rest;
      TotalWithout(rest, key);
      Smaller(rest, key);
      total, rest := total + rest[key], rest - {key};
    }
  }

  // ----- the verdict ---------------------------------------------------------------------------

  datatype Fault =
    | UnwrappedRose(risen: set<string>)
    | AuthorisationCountWrong(licensed: int, count: nat)
    | AuthorisationInert(keys: set<string>)

  datatype Comparison = Comparison(risen: set<string>, closed: set<string>, licensed: int, faults: seq<Fault>)

  function Opened(before: State, after: State): set<string> {
    UnwrappedOf(after.operations) - UnwrappedOf(before.operations)
  }

  function Closed(before: State, after: State): set<string> {
    UnwrappedOf(before.operations) - UnwrappedOf(after.operations)
  }

  function FreshLicences(before: State, after: State): map<string, int> {
    LicencesOf(after.authorisations) - LicencesOf(before.authorisations).Keys
  }

  /** The rule in one line: nothing on either side, or a signature for exactly what was opened. */
  ghost predicate Accepted(before: State, after: State) {
    || (Opened(before, after) == {} && FreshLicences(before, after) == map[])
    || (Opened(before, after) != {} && Total(FreshLicences(before, after)) == |Opened(before, after)|)
  }

  predicate IsFault(risen: set<string>, licences: map<string, int>, licensed: int, fault: Fault) {
    match fault
    case UnwrappedRose(ids) => ids == risen != {} && licences == map[]
    case AuthorisationCountWrong(n, count) => risen != {} && licences != map[] && n == licensed != count == |risen|
    case AuthorisationInert(keys) => risen == {} && keys == licences.Keys != {}
  }

  method Judge(risen: set<string>, licences: map<string, int>, licensed: int) returns (faults: seq<Fault>)
    requires licensed == Total(licences)
    ensures forall fault :: fault in faults <==> IsFault(risen, licences, licensed, fault)
    ensures faults == [] <==> (risen == {} && licences == map[]) || (risen != {} && licensed == |risen|)
  {
    faults := [];
    if risen != {} && licences == map[] {
      faults := [UnwrappedRose(risen)];
    } else if risen != {} && licensed != |risen| {
      faults := [AuthorisationCountWrong(licensed, |risen|)];
    } else if risen == {} && licences != map[] {
      faults := [AuthorisationInert(licences.Keys)];
    }
  }

  method Compare(before: State, after: State) returns (c: Comparison)
    ensures c.risen == Opened(before, after) && c.closed == Closed(before, after)
    ensures c.licensed == Total(FreshLicences(before, after))
    ensures c.faults == [] <==> Accepted(before, after)
    ensures forall fault :: fault in c.faults <==> IsFault(c.risen, FreshLicences(before, after), c.licensed, fault)
  {
    var was := UnwrappedIds(before.operations);
    var now := UnwrappedIds(after.operations);
    var earlier := Licences(before.authorisations);
    var later := Licences(after.authorisations);
    var licences := later - earlier.Keys;
    var licensed := Sum(licences);
    var faults := Judge(now - was, licences, licensed);
    c := Comparison(now - was, was - now, licensed, faults);
  }

  /** Equal numbers are accepted, but for new authorisations that add up to nothing while nothing opens. */
  lemma EqualNumbersAreAcceptedUnless(before: State, after: State)
    ensures Accepted(before, after) <==>
            && Total(FreshLicences(before, after)) == |Opened(before, after)|
            && (Opened(before, after) == {} ==> FreshLicences(before, after) == map[])
  {
  }

  function Licence(key: string, count: int): Json {
    Object([Field("id", String(key)), Field("operations_added", Int(count))])
  }

  lemma LicenceReads(key: string, count: int)
    ensures LicencesOf([Licence(key, count)]) == map[key := count]
    ensures Total(map[key := count]) == count
  {
    var row := Licence(key, count);
    GetAt(row.fields, 0);
    GetAt(row.fields, 1);
    assert LicenceOf(row) == Some((key, count));
    TableOfOne(row, LicenceOf);
    TotalWithout(map[key := count], key);
    assert map[key := count] - {key} == map[];
  }

  /** A new authorisation for nothing, with nothing opened: the numbers agree and the change is refused. */
  lemma ZeroCountIsRefused(key: string)
    ensures var before, after := State([], []), State([], [Licence(key, 0)]);
            && Total(FreshLicences(before, after)) == 0 == |Opened(before, after)|
            && !Accepted(before, after)
  {
    LicenceReads(key, 0);
    var counts := FreshLicences(State([], []), State([], [Licence(key, 0)]));
    assert counts == map[key := 0] && key in counts;
  }

  // ----- runs of accepted changes -----------------------------------------------------------------

  ghost predicate IsRun(run: seq<State>) {
    && run != []
    && forall i, j :: 0 <= i < j < |run| && j == i + 1 ==> Accepted(run[i], run[j])
  }

  ghost function SignedOver(run: seq<State>): int {
    if |run| <= 1 then 0
    else SignedOver(run[..|run| - 1]) + Total(FreshLicences(run[|run| - 2], run[|run| - 1]))
  }

  function OpenedOver(run: seq<State>): nat {
    if |run| <= 1 then 0
    else OpenedOver(run[..|run| - 1]) + |Opened(run[|run| - 2], run[|run| - 1])|
  }

  function ClosedOver(run: seq<State>): nat {
    if |run| <= 1 then 0
    else ClosedOver(run[..|run| - 1]) + |Closed(run[|run| - 2], run[|run| - 1])|
  }

  function Gaps(state: State): set<string> {
    UnwrappedOf(state.operations)
  }

  lemma ShorterRun(run: seq<State>)
    requires IsRun(run) && |run| > 1
    ensures IsRun(run[..|run| - 1]) && Accepted(run[|run| - 2], run[|run| - 1])
  {
    var front := run[..|run| - 1];
    forall i, j | 0 <= i < j < |front| && j == i + 1
      ensures Accepted(front[i], front[j])
    {
      assert front[i] == run[i] && front[j] == run[j];
    }
  }

  lemma StepIsSigned(before: State, after: State)
    requires Accepted(before, after)
    ensures Total(FreshLicences(before, after)) == |Opened(before, after)|
    ensures |Gaps(after)| == |Gaps(before)| + |Opened(before, after)| - |Closed(before, after)|
  {
    assert Gaps(after) == (Gaps(before) - Closed(before, after)) + Opened(before, after);
    assert Closed(before, after) <= Gaps(before);
  }

  /** Every opening was signed for, one by one, whatever was closed in the same change. */
  lemma {:induction false} OpeningsAreSigned(run: seq<State>)
    requires IsRun(run)
    ensures OpenedOver(run) == SignedOver(run)
    ensures |Gaps(run[|run| - 1])| == |Gaps(run[0])| + SignedOver(run) - ClosedOver(run)
  {
    if |run| <= 1 {
    } else {
      var before, after := run[|run| - 2], run[|run| - 1];
      ShorterRun(run);
      OpeningsAreSigned(run[..|run| - 1]);
      StepIsSigned(before, after);
    }
  }

  lemma OpenedNeedsALicence(before: State, after: State, id: string)
    requires Accepted(before, after) && id in Gaps(after) && id !in Gaps(before)
    ensures SignedOpening(before, after, id)
  {
    assert id in Opened(before, after);
    assert |Opened(before, after)| > 0;
  }

  /** The operation was opened in a change that carried a new authorisation. */
  predicate SignedOpening(before: State, after: State, id: string) {
    id in Opened(before, after) && FreshLicences(before, after) != map[]
  }

  predicate SignedSomewhere(run: seq<State>, id: string) {
    exists j :: 0 < j < |run| && SignedOpening(run[j - 1], run[j], id)
  }

  lemma SignedInFront(run: seq<State>, id: string)
    requires |run| > 1 && SignedSomewhere(run[..|run| - 1], id)
    ensures SignedSomewhere(run, id)
  {
    var front := run[..|run| - 1];
    var j :| 0 < j < |front| && SignedOpening(front[j - 1], front[j], id);
    assert front[j - 1] == run[j - 1] && front[j] == run[j];
  }

  /** A gap at the end that was none at the start was signed for when it was opened. */
  lemma {:induction false} EveryNewGapWasSigned(run: seq<State>, id: string)
    requires IsRun(run) && id in Gaps(run[|run| - 1]) && id !in Gaps(run[0])
    ensures SignedSomewhere(run, id)
  {
    var n := |run| - 1;
    if id in Gaps(run[n - 1]) {
      ShorterRun(run);
      EveryNewGapWasSigned(run[..n], id);
      SignedInFront(run, id);
    } else {
      OpenedNeedsALicence(run[n - 1], run[n], id);
    }
  }

  /** The authorisations are an audit trail: none is deleted and none is altered. */
  ghost predicate IsAuditTrail(run: seq<State>) {
    forall i, j :: 0 <= i < j < |run| && j == i + 1 ==> Extends(run[i], run[j])
  }

  ghost predicate Extends(before: State, after: State) {
    forall key :: key in LicencesOf(before.authorisations) ==>
      && key in LicencesOf(after.authorisations)
      && LicencesOf(after.authorisations)[key] == LicencesOf(before.authorisations)[key]
  }

  /** Over an audit trail, what was signed for is what the last file says beyond the first. */
  lemma {:induction false} TrailAddsUp(run: seq<State>)
    requires run != [] && IsAuditTrail(run)
    ensures Extends(run[0], run[|run| - 1])
    ensures SignedOver(run) == Total(FreshLicences(run[0], run[|run| - 1]))
  {
    if |run| == 1 {
      assert FreshLicences(run[0], run[0]) == map[];
    } else {
      var n := |run| - 1;
      ShorterTrail(run);
      TrailAddsUp(run[..n]);
      TrailStep(run[0], run[n - 1], run[n]);
    }
  }

  lemma ShorterTrail(run: seq<State>)
    requires IsAuditTrail(run) && |run| > 1
    ensures IsAuditTrail(run[..|run| - 1]) && Extends(run[|run| - 2], run[|run| - 1])
  {
    var front := run[..|run| - 1];
    forall i, j | 0 <= i < j < |front| && j == i + 1
      ensures Extends(front[i], front[j])
    {
      assert Extends(run[i], run[j]);
    }
  }

  lemma TrailStep(first: State, middle: State, last: State)
    requires Extends(first, middle) && Extends(middle, last)
    ensures Extends(first, last)
    ensures Total(FreshLicences(first, last)) == Total(FreshLicences(first, middle)) + Total(FreshLicences(middle, last))
  {
    var early, late := FreshLicences(first, middle), FreshLicences(middle, last);
    assert FreshLicences(first, last) == early + late;
    TotalOfBoth(early, late);
  }

  /** So the unwrapped operations grow, over any such run, by the signed total less the wrapped ones. */
  lemma GapsFollowTheTrail(run: seq<State>)
    requires IsRun(run) && IsAuditTrail(run)
    ensures |Gaps(run[|run| - 1])| ==
            |Gaps(run[0])| + Total(FreshLicences(run[0], run[|run| - 1])) - ClosedOver(run)
  {
    OpeningsAreSigned(run);
    TrailAddsUp(run);
  }

  function IdsHeld(run: seq<State>): seq<set<string>> {
    seq(|run|, k requires 0 <= k < |run| => LicencesOf(run[k].authorisations).Keys)
  }

  /** The change to the j-th state may license by this id. */
  predicate NewAt(run: seq<State>, key: string, j: nat) {
    0 < j < |run| && key in FreshLicences(run[j - 1], run[j])
  }

  /** The id is gone from the k-th state and stands in the later j-th. */
  predicate Returned(run: seq<State>, key: string, k: nat, j: nat) {
    k < j < |run| && key !in LicencesOf(run[k].authorisations) && key in LicencesOf(run[j].authorisations)
  }

  /** An old id is new to a later change exactly when it is deleted and comes back. */
  lemma OldIdLicensesAgainIffItReturns(run: seq<State>, key: string, i: nat)
    requires i < |run| && key in LicencesOf(run[i].authorisations)
    ensures (exists j: nat :: i < j && NewAt(run, key, j)) <==>
            (exists k: nat, j: nat :: i < k && Returned(run, key, k, j))
  {
    var held := IdsHeld(run);
    assert forall j: nat :: NewAt(run, key, j) <==> ComesIn(held, key, j);
    assert forall k: nat, j: nat :: Returned(run, key, k, j) <==> DroppedAndBack(held, key, k, j);
    ComesInAgainIffDroppedAndBack(held, key, i);
  }

  /** An id that is new in two changes was deleted between them. */
  lemma NewTwiceMeansDropped(run: seq<State>, key: string, i: nat, j: nat)
    requires 0 < i < j < |run|
    requires key in FreshLicences(run[i - 1], run[i]) && key in FreshLicences(run[j - 1], run[j])
    ensures exists k :: i < k < j && key in LicencesOf(run[k - 1].authorisations) && key !in LicencesOf(run[k].authorisations)
  {
    var held := IdsHeld(run);
    LastHeld(held, key, i, j - 1);
    var k :| i < k <= j - 1 && key in held[k - 1] && key !in held[k];
  }

  /** Over an audit trail no id licenses twice. */
  lemma TrailLicensesOnce(run: seq<State>, key: string, i: nat, j: nat)
    requires IsAuditTrail(run) && 0 < i < j < |run|
    ensures !(NewAt(run, key, i) && NewAt(run, key, j))
  {
    if NewAt(run, key, i) && NewAt(run, key, j) {
      NewTwiceMeansDropped(run, key, i, j);
    }
  }

  // ----- a deleted authorisation that comes back --------------------------------------------------

  function Unwrapped(id: string): Json {
    Object([Field("operation_id", String(id)), Field("disposition", String("unwrapped"))])
  }

  lemma UnwrappedReads(id: string)
    ensures UnwrappedOf([Unwrapped(id)]) == {id}
    ensures Member(Unwrapped(id), "operation_id") == String(id)
    ensures Member(Unwrapped(id), "disposition") != String(WRAPPED)
  {
    var row := Unwrapped(id);
    GetAt(row.fields, 0);
    GetAt(row.fields, 1);
    assert "unwrapped"[0] != WRAPPED[0];
    assert [row][..0] == [];
  }

  lemma SecondUnwrapped(first: string, second: string)
    ensures UnwrappedOf([Unwrapped(first), Unwrapped(second)]) == {first, second}
  {
    UnwrappedReads(first);
    UnwrappedReads(second);
    var both := [Unwrapped(first), Unwrapped(second)];
    assert both[..1] == [Unwrapped(first)];
  }

  lemma SignedOnce(before: State, after: State, key: string, id: string)
    requires FreshLicences(before, after) == map[key := 1] && Opened(before, after) == {id}
    ensures Accepted(before, after)
  {
    LicenceReads(key, 1);
  }

  /** One authorisation for one operation, deleted and brought back, signs for a second. */
  lemma ReturnedIdLicensesAgain(key: string, first: string, second: string)
    requires first != second
    ensures var signed := [Licence(key, 1)];
            var empty, one := State([], []), State([Unwrapped(first)], signed);
            var kept, two := State([Unwrapped(first)], []), State([Unwrapped(first), Unwrapped(second)], signed);
            && IsRun([empty, one, kept, two])
            && FreshLicences(empty, one) == FreshLicences(kept, two) == map[key := 1]
            && !Accepted(one, two)
  {
    var signed := [Licence(key, 1)];
    var empty, one := State([], []), State([Unwrapped(first)], signed);
    var kept, two := State([Unwrapped(first)], []), State([Unwrapped(first), Unwrapped(second)], signed);
    LicenceReads(key, 1);
    UnwrappedReads(first);
    SecondUnwrapped(first, second);
    ReturnedRun(empty, one, kept, two, key, first, second);
  }

  lemma ReturnedRun(empty: State, one: State, kept: State, two: State, key: string, first: string, second: string)
    requires first != second
    requires Gaps(empty) == {} && Gaps(one) == Gaps(kept) == {first} && Gaps(two) == {first, second}
    requires LicencesOf(empty.authorisations) == LicencesOf(kept.authorisations) == map[]
    requires LicencesOf(one.authorisations) == LicencesOf(two.authorisations) == map[key := 1]
    ensures IsRun([empty, one, kept, two])
    ensures FreshLicences(empty, one) == FreshLicences(kept, two) == map[key := 1]
    ensures !Accepted(one, two)
  {
    assert Opened(empty, one) == {first} && Opened(one, kept) == {};
    assert Opened(kept, two) == Opened(one, two) == {second};
    assert FreshLicences(one, kept) == map[];
    SignedOnce(empty, one, key, first);
    SignedOnce(kept, two, key, second);
    UnsignedIsRefused(one, two, second);
    RunOfFour(empty, one, kept, two);
  }

  lemma UnsignedIsRefused(before: State, after: State, id: string)
    requires FreshLicences(before, after) == map[] && Opened(before, after) == {id}
    ensures !Accepted(before, after)
  {
  }

  lemma RunOfFour(a: State, b: State, c: State, d: State)
    requires Accepted(a, b) && Accepted(b, c) && Accepted(c, d)
    ensures IsRun([a, b, c, d])
  {
  }
}
