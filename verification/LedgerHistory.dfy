/**
 What the ledger's ratchet and the ledger's own rules promise together over
 every run of accepted changes (tools/gates/ratchet.py, tools/gates/compiler.py),
 with the chain of slices fixed.
 */
module LedgerHistory {
  import opened Wrappers
  import opened Json
  import opened Histories
  import opened Tables
  import opened LedgerRatchet
  import Compiler = LedgerCompiler

  function Owes(ledger: Ledger): set<Identity> {
    IndexOf(ledger.entries).Keys
  }

  /** What the authorisations new in this change license for a gate. */
  function Signed(before: Ledger, after: Ledger, gate: string): int {
    LicensedCount(GrantsOf(after.authorisations), Fresh(before, after), String(gate))
  }

  function Debts(ledger: Ledger, gate: string): set<Identity> {
    OfGate(Owes(ledger), gate)
  }

  function Paid(before: Ledger, after: Ledger, gate: string): set<Identity> {
    OfGate(Removed(before, after), gate)
  }

  function Taken(before: Ledger, after: Ledger, gate: string): set<Identity> {
    OfGate(Added(before, after), gate)
  }

  // ----- one change ------------------------------------------------------------------------------

  /** Two ways to say that a change passes: no fault, or the four rules themselves. */
  lemma AcceptedMeansSigned(before: Ledger, after: Ledger, orders: map<string, int>)
    ensures Accepted(before, after, orders) <==>
            && (forall gate :: Taken(before, after, gate) != {} ==>
                  LicensedBy(GrantsOf(after.authorisations), Fresh(before, after), String(gate)))
            && (forall gate :: Signed(before, after, gate) == |Taken(before, after, gate)| ||
                  (Taken(before, after, gate) == {} &&
                   !LicensedBy(GrantsOf(after.authorisations), Fresh(before, after), String(gate))))
            && (forall authorised :: LicensedBy(GrantsOf(after.authorisations), Fresh(before, after), authorised) ==>
                  authorised.String? && Taken(before, after, authorised.s) != {})
            && (forall id :: !IsDeferred(before, after, orders, id))
  {
    var grants, acts := GrantsOf(after.authorisations), Fresh(before, after);
    if Accepted(before, after, orders) {
      forall gate
        ensures Taken(before, after, gate) != {} ==> LicensedBy(grants, acts, String(gate))
        ensures Taken(before, after, gate) != {} ==> Signed(before, after, gate) == |Taken(before, after, gate)|
      {
        var count := |Taken(before, after, gate)|;
        assert !IsFault(before, after, orders, LedgerGrew(gate, count));
        assert !IsFault(before, after, orders, AuthorisationCountWrong(gate, Signed(before, after, gate), count));
      }
      forall authorised
        ensures LicensedBy(grants, acts, authorised) ==> authorised.String? && Taken(before, after, authorised.s) != {}
      {
        assert !IsFault(before, after, orders, AuthorisationInert(authorised));
      }
      forall id
        ensures !IsDeferred(before, after, orders, id)
      {
        assert !IsFault(before, after, orders, DebtDeferred(id));
      }
    }
  }

  lemma GateStep(before: Ledger, after: Ledger, orders: map<string, int>, gate: string)
    requires Accepted(before, after, orders)
    ensures Signed(before, after, gate) == |Taken(before, after, gate)|
    ensures |Debts(after, gate)| == |Debts(before, gate)| + Signed(before, after, gate) - |Paid(before, after, gate)|
  {
    AcceptedMeansSigned(before, after, orders);
    if Taken(before, after, gate) == {} {
      LicensedCountZero(GrantsOf(after.authorisations), Fresh(before, after), String(gate));
    }
    DebtsMove(before, after, gate);
  }

  lemma DebtsMove(before: Ledger, after: Ledger, gate: string)
    ensures |Debts(after, gate)| == |Debts(before, gate)| + |Taken(before, after, gate)| - |Paid(before, after, gate)|
  {
    var was, now, paid, taken := Debts(before, gate), Debts(after, gate), Paid(before, after, gate), Taken(before, after, gate);
    assert now == (was - paid) + taken;
    assert paid <= was;
    SizeMoves(was, paid, taken);
  }

  lemma SizeMoves(was: set<Identity>, paid: set<Identity>, taken: set<Identity>)
    requires paid <= was && taken !! was
    ensures |(was - paid) + taken| == |was| + |taken| - |paid|
  {
  }

  // ----- runs of changes ----------------------------------------------------------------------------

  ghost predicate IsRun(run: seq<Ledger>, orders: map<string, int>) {
    && run != []
    && forall i, j :: 0 <= i < j < |run| && j == i + 1 ==> Accepted(run[i], run[j], orders)
  }

  function SignedOver(run: seq<Ledger>, gate: string): int {
    if |run| <= 1 then 0
    else SignedOver(run[..|run| - 1], gate) + Signed(run[|run| - 2], run[|run| - 1], gate)
  }

  function PaidOver(run: seq<Ledger>, gate: string): nat {
    if |run| <= 1 then 0
    else PaidOver(run[..|run| - 1], gate) + |Paid(run[|run| - 2], run[|run| - 1], gate)|
  }

  lemma ShorterRun(run: seq<Ledger>, orders: map<string, int>)
    requires IsRun(run, orders) && |run| > 1
    ensures IsRun(run[..|run| - 1], orders)
    ensures Accepted(run[|run| - 2], run[|run| - 1], orders)
  {
    var front := run[..|run| - 1];
    forall i, j | 0 <= i < j < |front| && j == i + 1
      ensures Accepted(front[i], front[j], orders)
    {
      assert front[i] == run[i] && front[j] == run[j];
    }
  }

  /** Conservation: what a gate owes is what it owed, plus everything signed for, less everything paid. */
  lemma {:induction false} DebtIsConserved(run: seq<Ledger>, orders: map<string, int>, gate: string)
    requires IsRun(run, orders)
    ensures |Debts(run[|run| - 1], gate)| == |Debts(run[0], gate)| + SignedOver(run, gate) - PaidOver(run, gate)
  {
    if |run| <= 1 {
    } else {
      ShorterRun(run, orders);
      DebtIsConserved(run[..|run| - 1], orders, gate);
      GateStep(run[|run| - 2], run[|run| - 1], orders, gate);
    }
  }

  /** Nothing is owed at the end that was not owed at the start, unless some change carries a new authorisation. */
  lemma {:induction false} UnsignedRunOnlyShrinks(run: seq<Ledger>, orders: map<string, int>)
    requires IsRun(run, orders)
    requires forall i, j :: 0 <= i < j < |run| && j == i + 1 ==> Fresh(run[i], run[j]) == {}
    ensures Owes(run[|run| - 1]) <= Owes(run[0])
  {
    if |run| <= 1 {
    } else {
      var front := run[..|run| - 1];
      ShorterRun(run, orders);
      forall i, j | 0 <= i < j < |front| && j == i + 1
        ensures Fresh(front[i], front[j]) == {}
      {
        assert Fresh(run[i], run[j]) == {};
      }
      UnsignedRunOnlyShrinks(front, orders);
      var before, after := run[|run| - 2], run[|run| - 1];
      AcceptedMeansSigned(before, after, orders);
      assert Fresh(before, after) == {};
      forall id | id in Owes(after)
        ensures id in Owes(before)
      {
        assert !LicensedBy(GrantsOf(after.authorisations), {}, String(id.0));
        assert Taken(before, after, id.0) == {};
        assert id in Owes(before) || id in Taken(before, after, id.0);
      }
    }
  }

  // ----- an authorisation licenses once -----------------------------------------------------------------

  /** New in two changes: the act was dropped in between. */
  lemma NewTwiceMeansDropped(run: seq<Ledger>, act: Act, i: nat, j: nat)
    requires 0 < i < j < |run|
    requires act in Fresh(run[i - 1], run[i]) && act in Fresh(run[j - 1], run[j])
    ensures exists k :: i < k < j && act in ActsOf(run[k - 1].authorisations) && act !in ActsOf(run[k].authorisations)
  {
    var held := ActsHeld(run);
    LastHeld(held, act, i, j - 1);
    var k :| i < k <= j - 1 && act in held[k - 1] && act !in held[k];
  }

  function ActsHeld(run: seq<Ledger>): seq<set<Act>> {
    seq(|run|, k requires 0 <= k < |run| => ActsOf(run[k].authorisations))
  }

  /** The change to the j-th ledger may license by this act. */
  predicate NewAt(run: seq<Ledger>, act: Act, j: nat) {
    0 < j < |run| && act in Fresh(run[j - 1], run[j])
  }

  /** The act is gone from the k-th ledger and stands in the later j-th. */
  predicate Returned(run: seq<Ledger>, act: Act, k: nat, j: nat) {
    k < j < |run| && act !in ActsOf(run[k].authorisations) && act in ActsOf(run[j].authorisations)
  }

  /** An old authorisation is new to a later change exactly when it is deleted and comes back. */
  lemma OldActLicensesAgainIffItReturns(run: seq<Ledger>, act: Act, i: nat)
    requires i < |run| && act in ActsOf(run[i].authorisations)
    ensures (exists j: nat :: i < j && NewAt(run, act, j)) <==>
            (exists k: nat, j: nat :: i < k && Returned(run, act, k, j))
  {
    var held := ActsHeld(run);
    assert forall j: nat :: NewAt(run, act, j) <==> ComesIn(held, act, j);
    assert forall k: nat, j: nat :: Returned(run, act, k, j) <==> DroppedAndBack(held, act, k, j);
    ComesInAgainIffDroppedAndBack(held, act, i);
  }

  /** Where authorisations are never deleted, no act is ever new twice. */
  lemma AuditTrailLicensesOnce(run: seq<Ledger>, act: Act, i: nat, j: nat)
    requires 0 < i < j < |run|
    requires forall k :: 0 < k < |run| ==> ActsOf(run[k - 1].authorisations) <= ActsOf(run[k].authorisations)
    ensures !(act in Fresh(run[i - 1], run[i]) && act in Fresh(run[j - 1], run[j]))
  {
    if act in Fresh(run[i - 1], run[i]) && act in Fresh(run[j - 1], run[j]) {
      NewTwiceMeansDropped(run, act, i, j);
    }
  }

  // ----- owners along the chain ---------------------------------------------------------------------------

  function OwnerOrder(ledger: Ledger, orders: map<string, int>, id: Identity): Option<int> {
    if id in Owes(ledger) then OrderOf(orders, IndexOf(ledger.entries)[id]) else None
  }

  /** A debt kept throughout, its owners all declared, never moves to a later slice. */
  lemma {:induction false} KeptDebtIsNeverDeferred(run: seq<Ledger>, orders: map<string, int>, id: Identity)
    requires IsRun(run, orders)
    requires forall i :: 0 <= i < |run| ==> OwnerOrder(run[i], orders, id).Some?
    ensures OwnerOrder(run[|run| - 1], orders, id).value <= OwnerOrder(run[0], orders, id).value
  {
    if |run| <= 1 {
    } else {
      ShorterRun(run, orders);
      KeptDebtIsNeverDeferred(run[..|run| - 1], orders, id);
      assert !IsFault(run[|run| - 2], run[|run| - 1], orders, DebtDeferred(id));
      assert OwnerOrder(run[|run| - 2], orders, id).Some? && OwnerOrder(run[|run| - 1], orders, id).Some?;
    }
  }

  /** A debt is in the index exactly when an entry states it, and its body there is the last such entry. */
  lemma IndexFinds(entries: seq<Json>, id: Identity)
    ensures id in IndexOf(entries) <==> exists i: nat :: IsLatest(entries, DebtOf, id, i)
    ensures forall i: nat :: IsLatest(entries, DebtOf, id, i) ==>
              && id in IndexOf(entries) && IndexOf(entries)[id] == entries[i]
              && IdentityOf(entries[i]) == Some(id)
    ensures id !in IndexOf(entries) ==> forall i :: 0 <= i < |entries| ==> IdentityOf(entries[i]) != Some(id)
  {
    TableFinds(entries, DebtOf, id);
    if id !in IndexOf(entries) {
      forall i | 0 <= i < |entries|
        ensures IdentityOf(entries[i]) != Some(id)
      {
        assert !States(entries[i], DebtOf, id);
      }
    }
  }

  /** The ledger's rules and the ratchet's reading agree: every debt of an accepted ledger has a declared, unlanded owner. */
  lemma AcceptedDebtHasAnOwner(document: Compiler.Document, gates: Compiler.Gates, slices: Compiler.Slices, id: Identity)
    requires Compiler.Accepts(document, gates, slices) && id in Owes(Compiler.LedgerOf(document))
    ensures var order := OwnerOrder(Compiler.LedgerOf(document), Compiler.OrdersOf(slices), id);
            && order.Some?
            && exists key :: key in slices && !slices[key].landed && slices[key].order == order.value
  {
    var items := Compiler.ItemsOf(document.entries);
    IndexFinds(items, id);
    var i: nat :| IsLatest(items, DebtOf, id, i);
    Compiler.AcceptedEntriesAreOwed(document, gates, slices, i);
    var owner := Member(items[i], "owner_slice").s;
    assert owner in slices && !slices[owner].landed;
    assert owner in Compiler.OrdersOf(slices);
  }

  /** A moment of the programme: the ledger, the gates and the slices declared beside it. */
  datatype Moment = Moment(document: Compiler.Document, gates: Compiler.Gates, slices: Compiler.Slices)
  {
    function Ledger(): LedgerRatchet.Ledger {
      Compiler.LedgerOf(document)
    }
  }

  function Ledgers(moments: seq<Moment>): seq<Ledger> {
    seq(|moments|, i requires 0 <= i < |moments| => moments[i].Ledger())
  }

  /** Every change passes the ratchet, every ledger passes its own rules, and the chain keeps its order. */
  ghost predicate IsProgramme(moments: seq<Moment>, orders: map<string, int>) {
    && IsRun(Ledgers(moments), orders)
    && forall i :: 0 <= i < |moments| ==>
         && Compiler.Accepts(moments[i].document, moments[i].gates, moments[i].slices)
         && Compiler.OrdersOf(moments[i].slices) == orders
  }

  lemma ProgrammeOwners(moments: seq<Moment>, orders: map<string, int>, id: Identity, i: nat)
    requires IsProgramme(moments, orders) && i < |moments|
    requires id in Owes(moments[i].Ledger())
    ensures OwnerOrder(moments[i].Ledger(), orders, id).Some?
  {
    AcceptedDebtHasAnOwner(moments[i].document, moments[i].gates, moments[i].slices, id);
  }

  /** In a programme whose every ledger passes its own rules, no kept debt is ever deferred. */
  lemma ProgrammeNeverDefers(moments: seq<Moment>, orders: map<string, int>, id: Identity)
    requires IsProgramme(moments, orders)
    requires forall i :: 0 <= i < |moments| ==> id in Owes(moments[i].Ledger())
    ensures var first, last := OwnerOrder(moments[0].Ledger(), orders, id), OwnerOrder(moments[|moments| - 1].Ledger(), orders, id);
            first.Some? && last.Some? && last.value <= first.value
  {
    var run := Ledgers(moments);
    forall i | 0 <= i < |run|
      ensures OwnerOrder(run[i], orders, id).Some?
    {
      ProgrammeOwners(moments, orders, id, i);
    }
    KeptDebtIsNeverDeferred(run, orders, id);
  }

  /** Every slice of the moment up to this order has landed. */
  predicate LandedUpTo(slices: Compiler.Slices, order: int) {
    forall key :: key in slices && slices[key].order <= order ==> slices[key].landed
  }

  predicate AllLanded(slices: Compiler.Slices) {
    forall key :: key in slices ==> slices[key].landed
  }

  /** A debt does not outlive its owner: once that slice and all before it have landed, it was paid on the way. */
  lemma DebtIsPaidByItsSlice(moments: seq<Moment>, orders: map<string, int>, id: Identity, order: int)
    requires IsProgramme(moments, orders)
    requires OwnerOrder(moments[0].Ledger(), orders, id) == Some(order)
    requires LandedUpTo(moments[|moments| - 1].slices, order)
    ensures exists i :: 0 < i < |moments| && id !in Owes(moments[i].Ledger())
  {
    if forall i :: 0 <= i < |moments| ==> id in Owes(moments[i].Ledger()) {
      ProgrammeNeverDefers(moments, orders, id);
      var last := moments[|moments| - 1];
      AcceptedDebtHasAnOwner(last.document, last.gates, last.slices, id);
      assert false;
    }
  }

  /** With every slice landed the ledger is empty, so every debt there was and every debt signed for has been paid. */
  lemma EverythingIsPaid(moments: seq<Moment>, orders: map<string, int>, gate: string)
    requires IsProgramme(moments, orders)
    requires AllLanded(moments[|moments| - 1].slices)
    ensures Owes(moments[|moments| - 1].Ledger()) == {}
    ensures PaidOver(Ledgers(moments), gate) == |Debts(moments[0].Ledger(), gate)| + SignedOver(Ledgers(moments), gate)
  {
    var last := moments[|moments| - 1];
    Compiler.OnlyTheEmptyLedgerIsLeft(last.document, last.gates, last.slices);
    assert Debts(last.Ledger(), gate) == {};
    DebtIsConserved(Ledgers(moments), orders, gate);
  }

  // ----- what the ratchet alone does not keep -------------------------------------------------------------

  function Owing(gate: string, site: string, owner: string): Json {
    Object([Field("gate", String(gate)), Field("site", String(site)), Field("owner_slice", String(owner))])
  }

  function Signature(gate: string, issue: int, count: int): Json {
    Object([Field("gate", String(gate)), Field("issue", Int(issue)), Field("entries_added", Int(count))])
  }

  function OneDebt(gate: string, site: string, owner: string, authorisations: seq<Json>): Ledger {
    Ledger([Owing(gate, site, owner)], authorisations)
  }

  lemma OneDebtReads(gate: string, site: string, owner: string, authorisations: seq<Json>, orders: map<string, int>)
    ensures var ledger := OneDebt(gate, site, owner, authorisations);
            && Owes(ledger) == {(gate, site)}
            && OwnerOrder(ledger, orders, (gate, site)) == if owner in orders then Some(orders[owner]) else None
  {
    var body := Owing(gate, site, owner);
    GetAt(body.fields, 0);
    GetAt(body.fields, 1);
    GetAt(body.fields, 2);
    assert DebtOf(body) == Some(((gate, site), body));
    TableOfOne(body, DebtOf);
  }

  lemma SameDebtsNothingSigned(before: Ledger, after: Ledger, orders: map<string, int>)
    requires Fresh(before, after) == {} && Owes(before) == Owes(after)
    requires forall id :: id in Owes(before) ==>
               var was, now := OwnerOrder(before, orders, id), OwnerOrder(after, orders, id);
               was.None? || now.None? || now.value <= was.value
    ensures Accepted(before, after, orders)
  {
    AcceptedMeansSigned(before, after, orders);
    assert Added(before, after) == {};
    forall id
      ensures !IsDeferred(before, after, orders, id)
    {
      assert id in Owes(before) ==> OwnerOrder(before, orders, id) == OrderOf(orders, IndexOf(before.entries)[id]);
    }
  }

  lemma MovedLaterIsRefused(before: Ledger, after: Ledger, orders: map<string, int>, id: Identity)
    requires OwnerOrder(before, orders, id).Some? && OwnerOrder(after, orders, id).Some?
    requires OwnerOrder(before, orders, id).value < OwnerOrder(after, orders, id).value
    ensures !Accepted(before, after, orders)
  {
    assert IsFault(before, after, orders, DebtDeferred(id));
  }

  lemma DeferredThroughTheMiddle(first: Ledger, middle: Ledger, last: Ledger, orders: map<string, int>, id: Identity)
    requires Fresh(first, middle) == {} && Fresh(middle, last) == {}
    requires Owes(first) == Owes(middle) == Owes(last) == {id}
    requires OwnerOrder(first, orders, id).Some? && OwnerOrder(last, orders, id).Some?
    requires OwnerOrder(middle, orders, id).None?
    requires OwnerOrder(first, orders, id).value < OwnerOrder(last, orders, id).value
    ensures IsRun([first, middle, last], orders) && !Accepted(first, last, orders)
  {
    SameDebtsNothingSigned(first, middle, orders);
    SameDebtsNothingSigned(middle, last, orders);
    MovedLaterIsRefused(first, last, orders, id);
  }

  /** Through an owner no slice declares, two accepted changes make a deferral that the ratchet refuses in one. */
  lemma UndeclaredOwnerLetsADebtMoveLater(gate: string, site: string, orders: map<string, int>,
                                          early: string, missing: string, late: string)
    requires early in orders && late in orders && missing !in orders && orders[early] < orders[late]
    ensures var first, middle, last :=
              OneDebt(gate, site, early, []), OneDebt(gate, site, missing, []), OneDebt(gate, site, late, []);
            && IsRun([first, middle, last], orders)
            && !Accepted(first, last, orders)
            && OwnerOrder(first, orders, (gate, site)) == Some(orders[early])
            && OwnerOrder(last, orders, (gate, site)) == Some(orders[late])
  {
    OneDebtReads(gate, site, early, [], orders);
    OneDebtReads(gate, site, missing, [], orders);
    OneDebtReads(gate, site, late, [], orders);
    var first, middle, last :=
      OneDebt(gate, site, early, []), OneDebt(gate, site, missing, []), OneDebt(gate, site, late, []);
    DeferredThroughTheMiddle(first, middle, last, orders, (gate, site));
  }

  lemma SignatureReads(gate: string, issue: int, count: int)
    ensures ActOf(Signature(gate, issue, count)) == (String(gate), Int(issue))
    ensures GrantOf(Signature(gate, issue, count)) == Some(Grant(String(gate), Int(issue), count))
  {
    var body := Signature(gate, issue, count);
    GetAt(body.fields, 0);
    GetAt(body.fields, 1);
    GetAt(body.fields, 2);
  }

  lemma OneSignature(gate: string, issue: int, count: int)
    ensures GrantsOf([Signature(gate, issue, count)]) == [Some(Grant(String(gate), Int(issue), count))]
    ensures ActsOf([Signature(gate, issue, count)]) == {(String(gate), Int(issue))}
  {
    SignatureReads(gate, issue, count);
    var only := [Signature(gate, issue, count)];
    assert only[0].Object? && ActOf(only[0]) in ActsOf(only);
  }

  lemma OneGrantCounts(grant: Grant, acts: set<Act>, gate: Json)
    requires (grant.gate, grant.issue) in acts
    ensures LicensedBy([Some(grant)], acts, gate) <==> grant.gate == gate
    ensures LicensedCount([Some(grant)], acts, gate) == if grant.gate == gate then grant.count else 0
  {
    var grants := [Some(grant)];
    assert grants[..0] == [] && grants[0] == Some(grant);
    assert Licenses(grants[0], acts, gate) <==> grant.gate == gate;
  }

  lemma OneSignedEntry(before: Ledger, after: Ledger, orders: map<string, int>, gate: string, site: string, issue: int)
    requires ActsOf(before.authorisations) == {} && after.authorisations == [Signature(gate, issue, 1)]
    requires Added(before, after) == {(gate, site)}
    requires forall id :: !IsDeferred(before, after, orders, id)
    ensures Fresh(before, after) == {(String(gate), Int(issue))}
    ensures Accepted(before, after, orders)
  {
    OneSignature(gate, issue, 1);
    var grant, acts := Grant(String(gate), Int(issue), 1), Fresh(before, after);
    forall authorised
      ensures LicensedBy([Some(grant)], acts, authorised) <==> authorised == String(gate)
      ensures LicensedCount([Some(grant)], acts, authorised) == if authorised == String(gate) then 1 else 0
    {
      OneGrantCounts(grant, acts, authorised);
    }
    forall other
      ensures Taken(before, after, other) == if other == gate then {(gate, site)} else {}
    {
    }
    AcceptedMeansSigned(before, after, orders);
  }

  lemma UnsignedEntryIsRefused(before: Ledger, after: Ledger, orders: map<string, int>, id: Identity)
    requires Fresh(before, after) == {} && id in Added(before, after)
    ensures !Accepted(before, after, orders)
  {
    AcceptedMeansSigned(before, after, orders);
    assert id in Taken(before, after, id.0);
  }

  /** A deleted authorisation that comes back licenses again: one act, written for one entry, lets in two. */
  lemma DroppedAuthorisationLicensesAgain(empty: Ledger, one: Ledger, kept: Ledger, two: Ledger, orders: map<string, int>,
                                          gate: string, first: string, second: string, issue: int, body: Json)
    requires empty == Ledger([], []) && Owes(one) == {(gate, first)} && first != second
    requires kept == one.(authorisations := [])
    requires IndexOf(two.entries) == IndexOf(one.entries)[(gate, second) := body]
    requires one.authorisations == two.authorisations == [Signature(gate, issue, 1)]
    ensures IsRun([empty, one, kept, two], orders)
    ensures Fresh(empty, one) == Fresh(kept, two) == {(String(gate), Int(issue))}
    ensures !Accepted(one, two, orders)
  {
    assert Added(empty, one) == {(gate, first)};
    assert Added(kept, two) == Added(one, two) == {(gate, second)};
    assert Fresh(one, kept) == {} == Fresh(one, two);
    OneSignedEntry(empty, one, orders, gate, first, issue);
    OneSignedEntry(kept, two, orders, gate, second, issue);
    SameDebtsNothingSigned(one, kept, orders);
    UnsignedEntryIsRefused(one, two, orders, (gate, second));
    RunOfFour(empty, one, kept, two, orders);
  }

  lemma RunOfFour(a: Ledger, b: Ledger, c: Ledger, d: Ledger, orders: map<string, int>)
    requires Accepted(a, b, orders) && Accepted(b, c, orders) && Accepted(c, d, orders)
    ensures IsRun([a, b, c, d], orders)
  {
  }
}
