/**
 The migration ledger's ratchet (tools/gates/ratchet.py): what one change of the
 ledger may do. A ledger is its two lists; an absent one is empty. History that
 today's schema would refuse is read tolerantly, as the source reads it.
 */
module LedgerRatchet {
  import opened Wrappers
  import opened Json
  import opened Tables

  datatype Ledger = Ledger(entries: seq<Json>, authorisations: seq<Json>)

  /** The debt: a gate and a site. */
  type Identity = (string, string)

  // ----- reading a ledger ------------------------------------------------------------

  function IdentityOf(body: Json): Option<Identity> {
    if Member(body, "gate").String? && Member(body, "site").String?
    then Some((Member(body, "gate").s, Member(body, "site").s)) else None
  }

  /** The debt an entry states, and the entry. */
  function DebtOf(body: Json): Option<(Identity, Json)> {
    match IdentityOf(body)
    case Some(id) => Some((id, body))
    case None => None
  }

  /** `{(gate, site): entry}` */
  function IndexOf(entries: seq<Json>): map<Identity, Json> {
    Table(entries, DebtOf)
  }

  method Index(entries: seq<Json>) returns (index: map<Identity, Json>)
    ensures index == IndexOf(entries)
  {
    index := map[];
    for k := 0 to |entries|
      invariant index == IndexOf(entries[..k])
    {
      TableStep(entries, DebtOf, k);
      var identity := IdentityOf(entries[k]);
      if identity.Some? {
        index := index[identity.value := entries[k]];
      }
    }
    assert entries[..|entries|] == entries;
  }

  /** What tells one authorisation from another: its gate and its issue. */
  type Act = (Json, Json)

  function ActOf(body: Json): Act {
    (Member(body, "gate"), Member(body, "issue"))
  }

  function ActsOf(authorisations: seq<Json>): set<Act> {
    set i | 0 <= i < |authorisations| && authorisations[i].Object? :: ActOf(authorisations[i])
  }

  method AuthorisationIdentities(authorisations: seq<Json>) returns (acts: set<Act>)
    ensures acts == ActsOf(authorisations)
  {
    acts := {};
    for k := 0 to |authorisations|
      invariant acts == set i | 0 <= i < k && authorisations[i].Object? :: ActOf(authorisations[i])
    {
      if authorisations[k].Object? {
        acts := acts + {ActOf(authorisations[k])};
      }
    }
  }

  function OrderOf(orders: map<string, int>, body: Json): Option<int> {
    var owner := Member(body, "owner_slice");
    if owner.String? && owner.s in orders then Some(orders[owner.s]) else None
  }

  // ----- what a change licenses -----------------------------------------------------------

  /** What a well-formed authorisation states. */
  datatype Grant = Grant(gate: Json, issue: Json, count: int)

  function GrantOf(body: Json): Option<Grant> {
    if !body.Object? || AsInt(Member(body, "entries_added")).None? then None
    else Some(Grant(Member(body, "gate"), Member(body, "issue"), AsInt(Member(body, "entries_added")).value))
  }

  function GrantsOf(authorisations: seq<Json>): seq<Option<Grant>> {
    seq(|authorisations|, i requires 0 <= i < |authorisations| => GrantOf(authorisations[i]))
  }

  /** The grant is one of these acts and names the gate. */
  predicate Licenses(grant: Option<Grant>, acts: set<Act>, gate: Json) {
    grant.Some? && (grant.value.gate, grant.value.issue) in acts && grant.value.gate == gate
  }

  function LicensedCount(grants: seq<Option<Grant>>, acts: set<Act>, gate: Json): int {
    if grants == [] then 0
    else
      var last := grants[|grants| - 1];
      LicensedCount(grants[..|grants| - 1], acts, gate) + if Licenses(last, acts, gate) then last.value.count else 0
  }

  predicate LicensedBy(grants: seq<Option<Grant>>, acts: set<Act>, gate: Json) {
    exists i :: 0 <= i < |grants| && Licenses(grants[i], acts, gate)
  }

  ghost predicate Tally(licensed: map<Json, int>, grants: seq<Option<Grant>>, acts: set<Act>) {
    forall gate ::
      && (gate in licensed <==> LicensedBy(grants, acts, gate))
      && (gate in licensed ==> licensed[gate] == LicensedCount(grants, acts, gate))
  }

  lemma {:induction false} LicensedCountZero(grants: seq<Option<Grant>>, acts: set<Act>, gate: Json)
    requires !LicensedBy(grants, acts, gate)
    ensures LicensedCount(grants, acts, gate) == 0
  {
    if grants == [] {
    } else {
      assert !Licenses(grants[|grants| - 1], acts, gate);
      assert !LicensedBy(grants[..|grants| - 1], acts, gate);
      LicensedCountZero(grants[..|grants| - 1], acts, gate);
    }
  }

  lemma {:induction false} LicensedCountSplits(grants: seq<Option<Grant>>, acts: set<Act>, act: Act, gate: Json)
    requires act !in acts
    ensures LicensedCount(grants, acts + {act}, gate) ==
            LicensedCount(grants, acts, gate) + LicensedCount(grants, {act}, gate)
  {
    if grants == [] {
    } else {
      LicensedCountSplits(grants[..|grants| - 1], acts, act, gate);
    }
  }

  lemma LicensedBySplits(grants: seq<Option<Grant>>, acts: set<Act>, act: Act, gate: Json)
    ensures LicensedBy(grants, acts + {act}, gate) <==>
            LicensedBy(grants, acts, gate) || LicensedBy(grants, {act}, gate)
  {
    forall i | 0 <= i < |grants|
      ensures Licenses(grants[i], acts + {act}, gate) <==>
              Licenses(grants[i], acts, gate) || Licenses(grants[i], {act}, gate)
    {
    }
  }

  predicate InPart(grants: seq<Option<Grant>>, done: set<Act>, act: Act, k: nat, gate: Json)
    requires k <= |grants|
  {
    LicensedBy(grants, done, gate) || LicensedBy(grants[..k], {act}, gate)
  }

  function CountPart(grants: seq<Option<Grant>>, done: set<Act>, act: Act, k: nat, gate: Json): int
    requires k <= |grants|
  {
    LicensedCount(grants, done, gate) + LicensedCount(grants[..k], {act}, gate)
  }

  /** The counts so far, plus what the first grants say of one more act. */
  ghost predicate PartTally(licensed: map<Json, int>, grants: seq<Option<Grant>>, done: set<Act>, act: Act, k: nat)
    requires k <= |grants|
  {
    forall gate ::
      && (gate in licensed <==> InPart(grants, done, act, k, gate))
      && (gate in licensed ==> licensed[gate] == CountPart(grants, done, act, k, gate))
  }

  lemma PartGateStep(grants: seq<Option<Grant>>, done: set<Act>, act: Act, k: nat, gate: Json)
    requires k < |grants|
    ensures InPart(grants, done, act, k + 1, gate) <==>
            InPart(grants, done, act, k, gate) || Licenses(grants[k], {act}, gate)
    ensures CountPart(grants, done, act, k + 1, gate) ==
            CountPart(grants, done, act, k, gate) + if Licenses(grants[k], {act}, gate) then grants[k].value.count else 0
    ensures !InPart(grants, done, act, k, gate) ==> CountPart(grants, done, act, k, gate) == 0
  {
    var upTo, next := grants[..k], grants[..k + 1];
    assert next[..k] == upTo && next[k] == grants[k];
    assert LicensedBy(next, {act}, gate) <==> LicensedBy(upTo, {act}, gate) || Licenses(grants[k], {act}, gate) by {
      assert forall i :: 0 <= i < k ==> upTo[i] == next[i];
    }
    if !InPart(grants, done, act, k, gate) {
      LicensedCountZero(grants, done, gate);
      LicensedCountZero(upTo, {act}, gate);
    }
  }

  function Credit(licensed: map<Json, int>, grant: Grant): map<Json, int> {
    licensed[grant.gate := (if grant.gate in licensed then licensed[grant.gate] else 0) + grant.count]
  }

  /** One authorisation of the inner loop. */
  lemma PartTallyStep(licensed: map<Json, int>, grants: seq<Option<Grant>>, done: set<Act>, act: Act, k: nat)
    requires k < |grants| && PartTally(licensed, grants, done, act, k)
    ensures if grants[k].Some? && (grants[k].value.gate, grants[k].value.issue) == act
            then PartTally(Credit(licensed, grants[k].value), grants, done, act, k + 1)
            else PartTally(licensed, grants, done, act, k + 1)
  {
    forall gate
      ensures InPart(grants, done, act, k + 1, gate) <==>
              InPart(grants, done, act, k, gate) || Licenses(grants[k], {act}, gate)
      ensures CountPart(grants, done, act, k + 1, gate) ==
              CountPart(grants, done, act, k, gate) + if Licenses(grants[k], {act}, gate) then grants[k].value.count else 0
      ensures !InPart(grants, done, act, k, gate) ==> CountPart(grants, done, act, k, gate) == 0
    {
      PartGateStep(grants, done, act, k, gate);
    }
  }

  lemma PartTallyCompletes(licensed: map<Json, int>, grants: seq<Option<Grant>>, done: set<Act>, act: Act)
    requires act !in done && PartTally(licensed, grants, done, act, |grants|)
    ensures Tally(licensed, grants, done + {act})
  {
    var n := |grants|;
    assert grants[..n] == grants;
    forall gate
      ensures LicensedBy(grants, done + {act}, gate) <==> InPart(grants, done, act, n, gate)
      ensures LicensedCount(grants, done + {act}, gate) == CountPart(grants, done, act, n, gate)
    {
      LicensedBySplits(grants, done, act, gate);
      LicensedCountSplits(grants, done, act, gate);
    }
  }

  lemma PartTallyStarts(licensed: map<Json, int>, grants: seq<Option<Grant>>, done: set<Act>, act: Act)
    requires Tally(licensed, grants, done)
    ensures PartTally(licensed, grants, done, act, 0)
  {
    forall gate
      ensures InPart(grants, done, act, 0, gate) <==> LicensedBy(grants, done, gate)
      ensures CountPart(grants, done, act, 0, gate) == LicensedCount(grants, done, gate)
    {
    }
  }

  /** For each new act, for each authorisation that is it. */
  method LicensedPerGate(authorisations: seq<Json>, newActs: set<Act>) returns (licensed: map<Json, int>)
    ensures Tally(licensed, GrantsOf(authorisations), newActs)
  {
    licensed := map[];
    var rest := newActs;
    ghost var grants := GrantsOf(authorisations);
    ghost var done: set<Act> := {};
    NothingLicensed(grants);
    while rest != {}
      invariant done + rest == newActs && done !! rest
      invariant Tally(licensed, grants, done)
    {
      var act :| act in rest;
      PartTallyStarts(licensed, grants, done, act);
      for k := 0 to |authorisations|
        invariant PartTally(licensed, grants, done, act, k)
      {
        PartTallyStep(licensed, grants, done, act, k);
        var grant := GrantOf(authorisations[k]);
        if grant.Some? && (grant.value.gate, grant.value.issue) == act {
          licensed := Credit(licensed, grant.value);
        }
      }
      PartTallyCompletes(licensed, grants, done, act);
      rest, done := rest - {act}, done + {act};
    }
    assert done == newActs;
  }

  lemma NothingLicensed(grants: seq<Option<Grant>>)
    ensures Tally(map[], grants, {})
  {
    assert forall gate :: !LicensedBy(grants, {}, gate);
  }

  // ----- the verdict ------------------------------------------------------------------------

  function OfGate(identities: set<Identity>, gate: string): set<Identity> {
    set id | id in identities && id.0 == gate
  }

  lemma OfGateGrows(done: set<Identity>, id: Identity)
    requires id !in done
    ensures forall gate :: |OfGate(done + {id}, gate)| == |OfGate(done, gate)| + if id.0 == gate then 1 else 0
    ensures (forall other :: other in done ==> other.0 != id.0) ==> |OfGate(done, id.0)| == 0
  {
    forall gate
      ensures |OfGate(done + {id}, gate)| == |OfGate(done, gate)| + if id.0 == gate then 1 else 0
    {
      if id.0 == gate {
        assert OfGate(done + {id}, gate) == OfGate(done, gate) + {id};
      } else {
        assert OfGate(done + {id}, gate) == OfGate(done, gate);
      }
    }
    if forall other :: other in done ==> other.0 != id.0 {
      assert OfGate(done, id.0) == {};
    }
  }

  method AddedPerGate(added: set<Identity>) returns (counts: map<string, nat>)
    ensures counts.Keys == set id | id in added :: id.0
    ensures forall gate :: gate in counts ==> counts[gate] == |OfGate(added, gate)| > 0
  {
    counts := map[];
    var rest := added;
    ghost var done: set<Identity> := {};
    while rest != {}
      invariant done + rest == added && done !! rest
      invariant counts.Keys == set id | id in done :: id.0
      invariant forall gate :: gate in counts ==> counts[gate] == |OfGate(done, gate)| > 0
    {
      var id :| id in rest;
      OfGateGrows(done, id);
      counts := counts[id.0 := (if id.0 in counts then counts[id.0] else 0) + 1];
      rest, done := rest - {id}, done + {id};
    }
    assert done == added;
  }

  datatype Fault =
    | LedgerGrew(gate: string, count: nat)
    | AuthorisationCountWrong(gate: string, licensed: int, count: nat)
    | AuthorisationInert(authorised: Json)
    | DebtDeferred(identity: Identity)

  datatype Comparison = Comparison(
    added: set<Identity>,
    removed: set<Identity>,
    deferred: set<Identity>,
    faults: seq<Fault>)

  function Fresh(before: Ledger, after: Ledger): set<Act> {
    ActsOf(after.authorisations) - ActsOf(before.authorisations)
  }

  function Added(before: Ledger, after: Ledger): set<Identity> {
    IndexOf(after.entries).Keys - IndexOf(before.entries).Keys
  }

  function Removed(before: Ledger, after: Ledger): set<Identity> {
    IndexOf(before.entries).Keys - IndexOf(after.entries).Keys
  }

  /** The owner slice of a kept debt moved later along the chain. */
  predicate IsDeferred(before: Ledger, after: Ledger, orders: map<string, int>, id: Identity) {
    && id in IndexOf(before.entries) && id in IndexOf(after.entries)
    && var was, now := OrderOf(orders, IndexOf(before.entries)[id]), OrderOf(orders, IndexOf(after.entries)[id]);
    was.Some? && now.Some? && now.value > was.value
  }

  predicate IsFault(before: Ledger, after: Ledger, orders: map<string, int>, fault: Fault) {
    var newActs, grants := Fresh(before, after), GrantsOf(after.authorisations);
    match fault
    case LedgerGrew(gate, count) =>
      count == |OfGate(Added(before, after), gate)| > 0 && !LicensedBy(grants, newActs, String(gate))
    case AuthorisationCountWrong(gate, licensed, count) =>
      && count == |OfGate(Added(before, after), gate)| > 0
      && LicensedBy(grants, newActs, String(gate))
      && licensed == LicensedCount(grants, newActs, String(gate)) != count
    case AuthorisationInert(gate) =>
      && LicensedBy(grants, newActs, gate)
      && (gate.String? ==> OfGate(Added(before, after), gate.s) == {})
    case DebtDeferred(id) => IsDeferred(before, after, orders, id)
  }

  /** The ratchet lets the change through. */
  ghost predicate Accepted(before: Ledger, after: Ledger, orders: map<string, int>) {
    forall fault :: !IsFault(before, after, orders, fault)
  }

  /** The comparison: every fault there is, and none that is not. */
  method Compare(before: Ledger, after: Ledger, orders: map<string, int>) returns (c: Comparison)
    ensures c.added == Added(before, after) && c.removed == Removed(before, after)
    ensures forall id :: id in c.deferred <==> IsDeferred(before, after, orders, id)
    ensures forall fault :: fault in c.faults <==> IsFault(before, after, orders, fault)
    ensures c.faults == [] <==> Accepted(before, after, orders)
  {
    var was := Index(before.entries);
    var now := Index(after.entries);
    var added, removed := now.Keys - was.Keys, was.Keys - now.Keys;
    var acts := AuthorisationIdentities(after.authorisations);
    var earlier := AuthorisationIdentities(before.authorisations);
    var licensed := LicensedPerGate(after.authorisations, acts - earlier);
    var counts := AddedPerGate(added);
    var growth := GrowthFaults(licensed, counts);
    var inert := InertFaults(licensed, counts);
    var deferred, deferrals := DeferralFaults(was, now, orders);
    c := Comparison(added, removed, deferred, growth + inert + deferrals);
    FaultsAreComplete(before, after, orders, licensed, counts, growth, inert, deferrals);
    if c.faults != [] {
      assert c.faults[0] in c.faults;
    }
  }

  method GrowthFaults(licensed: map<Json, int>, counts: map<string, nat>) returns (faults: seq<Fault>)
    ensures forall f :: f in faults <==> GrowthFault(licensed, counts, f)
  {
    faults := [];
    var rest := counts.Keys;
    while rest != {}
      invariant rest <= counts.Keys
      invariant forall f :: f in faults <==> GrowthFault(licensed, counts, f) && f.gate !in rest
    {
      var gate :| gate in rest;
      if String(gate) !in licensed {
        faults := faults + [LedgerGrew(gate, counts[gate])];
      } else if licensed[String(gate)] != counts[gate] {
        faults := faults + [AuthorisationCountWrong(gate, licensed[String(gate)], counts[gate])];
      }
      rest := rest - {gate};
    }
  }

  predicate GrowthFault(licensed: map<Json, int>, counts: map<string, nat>, f: Fault) {
    match f
    case LedgerGrew(gate, count) => gate in counts && count == counts[gate] && String(gate) !in licensed
    case AuthorisationCountWrong(gate, n, count) =>
      gate in counts && count == counts[gate] && String(gate) in licensed && n == licensed[String(gate)] != count
    case _ => false
  }

  method InertFaults(licensed: map<Json, int>, counts: map<string, nat>) returns (faults: seq<Fault>)
    ensures forall f :: f in faults <==>
              f.AuthorisationInert? && f.authorised in licensed &&
              (f.authorised.String? ==> f.authorised.s !in counts)
  {
    faults := [];
    var rest := licensed.Keys;
    while rest != {}
      invariant rest <= licensed.Keys
      invariant forall f :: f in faults <==>
                  f.AuthorisationInert? && f.authorised in licensed && f.authorised !in rest &&
                  (f.authorised.String? ==> f.authorised.s !in counts)
    {
      var gate :| gate in rest;
      if !gate.String? || gate.s !in counts {
        faults := faults + [AuthorisationInert(gate)];
      }
      rest := rest - {gate};
    }
  }

  predicate MovedLater(was: map<Identity, Json>, now: map<Identity, Json>, orders: map<string, int>, id: Identity)
    requires id in was && id in now
  {
    var from_, to := OrderOf(orders, was[id]), OrderOf(orders, now[id]);
    from_.Some? && to.Some? && to.value > from_.value
  }

  method DeferralFaults(was: map<Identity, Json>, now: map<Identity, Json>, orders: map<string, int>)
    returns (deferred: set<Identity>, faults: seq<Fault>)
    ensures forall id :: id in deferred <==> id in was && id in now && MovedLater(was, now, orders, id)
    ensures forall f :: f in faults <==> f.DebtDeferred? && f.identity in deferred
  {
    deferred, faults := {}, [];
    var rest := was.Keys * now.Keys;
    while rest != {}
      invariant rest <= was.Keys * now.Keys
      invariant forall id :: id in deferred <==> id in was && id in now && id !in rest && MovedLater(was, now, orders, id)
      invariant forall f :: f in faults <==> f.DebtDeferred? && f.identity in deferred
    {
      var id :| id in rest;
      if MovedLater(was, now, orders, id) {
        deferred := deferred + {id};
        faults := faults + [DebtDeferred(id)];
      }
      rest := rest - {id};
    }
  }

  lemma FaultsAreComplete(before: Ledger, after: Ledger, orders: map<string, int>, licensed: map<Json, int>,
                          counts: map<string, nat>, growth: seq<Fault>, inert: seq<Fault>, deferrals: seq<Fault>)
    requires Tally(licensed, GrantsOf(after.authorisations), Fresh(before, after))
    requires counts.Keys == set id | id in Added(before, after) :: id.0
    requires forall gate :: gate in counts ==> counts[gate] == |OfGate(Added(before, after), gate)| > 0
    requires forall f :: f in growth <==> GrowthFault(licensed, counts, f)
    requires forall f :: f in inert <==>
               f.AuthorisationInert? && f.authorised in licensed && (f.authorised.String? ==> f.authorised.s !in counts)
    requires forall f :: f in deferrals <==> f.DebtDeferred? && IsDeferred(before, after, orders, f.identity)
    ensures forall f :: f in growth + inert + deferrals <==> IsFault(before, after, orders, f)
  {
    forall f
      ensures f in growth + inert + deferrals <==> IsFault(before, after, orders, f)
    {
      GateCounts(Added(before, after), counts, f);
    }
  }

  lemma GateCounts(added: set<Identity>, counts: map<string, nat>, f: Fault)
    requires counts.Keys == set id | id in added :: id.0
    ensures forall gate :: gate in counts <==> OfGate(added, gate) != {}
    ensures forall gate :: gate in counts <==> |OfGate(added, gate)| > 0
  {
    forall gate
      ensures gate in counts <==> OfGate(added, gate) != {}
      ensures gate in counts <==> |OfGate(added, gate)| > 0
    {
      if gate in counts {
        var id :| id in added && id.0 == gate;
        assert id in OfGate(added, gate);
      }
      if OfGate(added, gate) != {} {
        var id :| id in OfGate(added, gate);
      }
    }
  }
}
