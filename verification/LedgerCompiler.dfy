/**
 The migration ledger's own rules (tools/gates/compiler.py): which entries and
 authorisations one ledger may hold, given the gates and the slices declared
 beside it. Every fault goes to one report that the checks share.
 */
module LedgerCompiler {
  import opened Wrappers
  import opened Characters
  import opened Json
  import LedgerRatchet

  datatype Slice = Slice(issue: int, order: int, landed: bool)

  datatype Entry = Entry(
    id: string, gate: string, site: string, expected: string,
    ownerSlice: string, reason: string, found: Option<string>)
  {
    function Identity(): LedgerRatchet.Identity {
      (gate, site)
    }
  }

  datatype Authorisation = Authorisation(gate: string, issue: int, entriesAdded: int, reason: string)

  /** The two lists of a ledger. */
  datatype List = Entries | SeedingAuthorisations

  datatype Error =
    | NotAList(list: List)
    | NotMapping(list: List, index: nat)
    | MissingField(list: List, index: nat, field: string)
    | UnknownField(list: List, index: nat, field: string)
    | BadType(list: List, index: nat, field: string)
    | DuplicateId(id: string)
    | DuplicateSite(id: string, earlier: string)
    | UnknownGate(at: string, gate: string)
    | GateNotInstalled(at: string, gate: string)
    | UnknownSlice(id: string, slice: string)
    | OwnerSliceLanded(id: string, slice: string)

  /** The list of errors every check appends to. */
  class Report {
    var errors: seq<Error>

    constructor ()
      ensures errors == []
    {
      errors := [];
    }

    method Add(error: Error)
      modifies this
      ensures errors == old(errors) + [error]
    {
      errors := errors + [error];
    }
  }

  lemma Regroup(before: seq<Error>, a: seq<Error>, b: seq<Error>, c: seq<Error>)
    ensures before + a + b + c == before + (a + b + c)
    ensures before + a + b == before + (a + b)
  {
  }

  // ----- the shape of a record ----------------------------------------------------------------

  datatype Rules = Rules(required: seq<string>, allowed: set<string>, integers: set<string>)

  const ENTRY_RULES := Rules(
    ["id", "gate", "site", "expected", "owner_slice", "reason"],
    {"id", "gate", "site", "expected", "owner_slice", "reason", "found"},
    {})

  const AUTHORISATION_RULES := Rules(
    ["gate", "issue", "entries_added", "reason"],
    {"gate", "issue", "entries_added", "reason"},
    {"issue", "entries_added"})

  predicate GoodField(rules: Rules, field: Field) {
    if field.key in rules.integers then field.value.Int?
    else field.value.String? && !Blank(field.value.s)
  }

  predicate GoodRecord(rules: Rules, body: Json) {
    && body.Object?
    && (forall i :: 0 <= i < |rules.required| ==> HasKey(body.fields, rules.required[i]))
    && (forall i :: 0 <= i < |body.fields| ==> body.fields[i].key in rules.allowed && GoodField(rules, body.fields[i]))
  }

  /** The well-formed bodies, in their order. */
  function GoodRecords(rules: Rules, bodies: seq<Json>): seq<seq<Field>> {
    if bodies == [] then []
    else
      var last := bodies[|bodies| - 1];
      GoodRecords(rules, bodies[..|bodies| - 1]) + if GoodRecord(rules, last) then [last.fields] else []
  }

  /** What is wrong with one mapping. */
  predicate FieldError(list: List, rules: Rules, fields: seq<Field>, index: nat, e: Error) {
    match e
    case MissingField(l, k, name) => l == list && k == index && name in rules.required && !HasKey(fields, name)
    case UnknownField(l, k, name) =>
      l == list && k == index && name !in rules.allowed && exists i :: 0 <= i < |fields| && fields[i].key == name
    case BadType(l, k, name) =>
      l == list && k == index && exists i :: 0 <= i < |fields| && fields[i].key == name && !GoodField(rules, fields[i])
    case _ => false
  }

  predicate RecordError(list: List, rules: Rules, body: Json, index: nat, e: Error) {
    match body
    case Object(fields) => FieldError(list, rules, fields, index, e)
    case _ => e == NotMapping(list, index)
  }

  method CheckRequired(list: List, rules: Rules, fields: seq<Field>, index: nat, report: Report) returns (ghost found: seq<Error>)
    modifies report
    ensures report.errors == old(report.errors) + found
    ensures forall e :: e in found <==> e.MissingField? && FieldError(list, rules, fields, index, e)
  {
    found := [];
    for k := 0 to |rules.required|
      invariant report.errors == old(report.errors) + found
      invariant forall e :: e in found <==>
                  e.MissingField? && FieldError(list, rules, fields, index, e) && e.field in rules.required[..k]
    {
      assert rules.required[..k + 1] == rules.required[..k] + [rules.required[k]];
      if !HasKey(fields, rules.required[k]) {
        report.Add(MissingField(list, index, rules.required[k]));
        found := found + [MissingField(list, index, rules.required[k])];
      }
    }
    assert rules.required[..|rules.required|] == rules.required;
  }

  method CheckAllowed(list: List, rules: Rules, fields: seq<Field>, index: nat, report: Report) returns (ghost found: seq<Error>)
    modifies report
    ensures report.errors == old(report.errors) + found
    ensures forall e :: e in found <==> e.UnknownField? && FieldError(list, rules, fields, index, e)
  {
    found := [];
    for k := 0 to |fields|
      invariant report.errors == old(report.errors) + found
      invariant forall e :: e in found <==> e.UnknownField? && FieldError(list, rules, fields[..k], index, e)
    {
      assert fields[..k + 1] == fields[..k] + [fields[k]];
      if fields[k].key !in rules.allowed {
        report.Add(UnknownField(list, index, fields[k].key));
        found := found + [UnknownField(list, index, fields[k].key)];
      }
    }
    assert fields[..|fields|] == fields;
  }

  method CheckTypes(list: List, rules: Rules, fields: seq<Field>, index: nat, report: Report) returns (ghost found: seq<Error>)
    modifies report
    ensures report.errors == old(report.errors) + found
    ensures forall e :: e in found <==> e.BadType? && FieldError(list, rules, fields, index, e)
  {
    found := [];
    for k := 0 to |fields|
      invariant report.errors == old(report.errors) + found
      invariant forall e :: e in found <==> e.BadType? && FieldError(list, rules, fields[..k], index, e)
    {
      assert fields[..k + 1] == fields[..k] + [fields[k]];
      if !GoodField(rules, fields[k]) {
        report.Add(BadType(list, index, fields[k].key));
        found := found + [BadType(list, index, fields[k].key)];
      }
    }
    assert fields[..|fields|] == fields;
  }

  /** Reports everything wrong with a mapping, and nothing else. */
  method CheckRecord(list: List, rules: Rules, fields: seq<Field>, index: nat, report: Report)
    returns (faulty: bool, ghost found: seq<Error>)
    modifies report
    ensures report.errors == old(report.errors) + found
    ensures forall e :: e in found <==> FieldError(list, rules, fields, index, e)
    ensures faulty <==> !GoodRecord(rules, Object(fields))
  {
    var before := |report.errors|;
    ghost var missing := CheckRequired(list, rules, fields, index, report);
    ghost var unknown := CheckAllowed(list, rules, fields, index, report);
    ghost var wrong := CheckTypes(list, rules, fields, index, report);
    found := missing + unknown + wrong;
    Regroup(old(report.errors), missing, unknown, wrong);
    faulty := |report.errors| > before;
    GoodRecordsHaveNoError(list, rules, fields, index, found);
  }

  lemma GoodRecordsHaveNoError(list: List, rules: Rules, fields: seq<Field>, index: nat, found: seq<Error>)
    requires forall e :: e in found <==> FieldError(list, rules, fields, index, e)
    ensures found == [] <==> GoodRecord(rules, Object(fields))
  {
    if found != [] {
      assert FieldError(list, rules, fields, index, found[0]);
    } else {
      forall i | 0 <= i < |rules.required|
        ensures HasKey(fields, rules.required[i])
      {
        assert !FieldError(list, rules, fields, index, MissingField(list, index, rules.required[i]));
      }
      forall i | 0 <= i < |fields|
        ensures fields[i].key in rules.allowed && GoodField(rules, fields[i])
      {
        assert !FieldError(list, rules, fields, index, UnknownField(list, index, fields[i].key));
        assert !FieldError(list, rules, fields, index, BadType(list, index, fields[i].key));
      }
    }
  }

  /** What a declared list holds; an absent one holds nothing. */
  function ItemsOf(declared: Json): seq<Json> {
    if declared.Array? then declared.items else []
  }

  predicate IsListOrAbsent(declared: Json) {
    declared.Null? || declared.Array?
  }

  predicate GoodList(rules: Rules, declared: Json) {
    && IsListOrAbsent(declared)
    && forall i :: 0 <= i < |ItemsOf(declared)| ==> GoodRecord(rules, ItemsOf(declared)[i])
  }

  /** What is wrong with a declared list. */
  predicate ListError(list: List, rules: Rules, declared: Json, e: Error) {
    if !IsListOrAbsent(declared) then e == NotAList(list)
    else exists i :: 0 <= i < |ItemsOf(declared)| && RecordError(list, rules, ItemsOf(declared)[i], i, e)
  }

  method Records(list: List, declared: Json, rules: Rules, report: Report)
    returns (records: seq<seq<Field>>, ghost found: seq<Error>)
    modifies report
    ensures records == GoodRecords(rules, ItemsOf(declared))
    ensures report.errors == old(report.errors) + found
    ensures forall e :: e in found <==> ListError(list, rules, declared, e)
    ensures found == [] <==> GoodList(rules, declared)
  {
    records, found := [], [];
    if !IsListOrAbsent(declared) {
      report.Add(NotAList(list));
      found := [NotAList(list)];
      return;
    }
    var items := ItemsOf(declared);
    for k := 0 to |items|
      invariant records == GoodRecords(rules, items[..k])
      invariant report.errors == old(report.errors) + found
      invariant forall e :: e in found <==> exists i :: 0 <= i < k && RecordError(list, rules, items[i], i, e)
    {
      assert items[..k + 1][..k] == items[..k];
      if !items[k].Object? {
        report.Add(NotMapping(list, k));
        found := found + [NotMapping(list, k)];
      } else {
        var faulty; ghost var own;
        faulty, own := CheckRecord(list, rules, items[k].fields, k, report);
        found := found + own;
        if !faulty {
          records := records + [items[k].fields];
        }
      }
    }
    assert items[..|items|] == items;
    GoodListsHaveNoError(list, rules, declared);
    NoneFound(found);
  }

  lemma GoodListsHaveNoError(list: List, rules: Rules, declared: Json)
    ensures (forall e :: !ListError(list, rules, declared, e)) <==> GoodList(rules, declared)
  {
    if !IsListOrAbsent(declared) {
      assert ListError(list, rules, declared, NotAList(list));
    } else {
      var items := ItemsOf(declared);
      forall i | 0 <= i < |items|
        ensures (forall e :: !RecordError(list, rules, items[i], i, e)) <==> GoodRecord(rules, items[i])
      {
        RecordErrors(list, rules, items[i], i);
      }
      if i, e :| 0 <= i < |items| && RecordError(list, rules, items[i], i, e) {
        assert ListError(list, rules, declared, e);
      }
    }
  }

  lemma RecordErrors(list: List, rules: Rules, body: Json, index: nat)
    ensures (forall e :: !RecordError(list, rules, body, index, e)) <==> GoodRecord(rules, body)
  {
    if !body.Object? {
      assert RecordError(list, rules, body, index, NotMapping(list, index));
    } else if forall e :: !RecordError(list, rules, body, index, e) {
      assert forall e :: RecordError(list, rules, body, index, e) <==> FieldError(list, rules, body.fields, index, e);
      GoodRecordsHaveNoError(list, rules, body.fields, index, []);
      assert body == Object(body.fields);
    }
  }

  lemma {:induction false} AllRecordsAreKept(rules: Rules, bodies: seq<Json>)
    requires forall i :: 0 <= i < |bodies| ==> GoodRecord(rules, bodies[i])
    ensures |GoodRecords(rules, bodies)| == |bodies|
    ensures forall i :: 0 <= i < |bodies| ==> bodies[i] == Object(GoodRecords(rules, bodies)[i])
  {
    if bodies == [] {
    } else {
      AllRecordsAreKept(rules, bodies[..|bodies| - 1]);
    }
  }

  function Text(value: Json): string {
    if value.String? then value.s else ""
  }

  function Count(value: Json): int {
    if value.Int? then value.n else 0
  }

  function EntryOf(fields: seq<Field>): Entry {
    Entry(
      Text(GetOrNull(fields, "id")), Text(GetOrNull(fields, "gate")), Text(GetOrNull(fields, "site")),
      Text(GetOrNull(fields, "expected")), Text(GetOrNull(fields, "owner_slice")), Text(GetOrNull(fields, "reason")),
      if HasKey(fields, "found") then Some(Text(GetOrNull(fields, "found"))) else None)
  }

  function AuthorisationOf(fields: seq<Field>): Authorisation {
    Authorisation(
      Text(GetOrNull(fields, "gate")), Count(GetOrNull(fields, "issue")),
      Count(GetOrNull(fields, "entries_added")), Text(GetOrNull(fields, "reason")))
  }

  function EntriesOf(records: seq<seq<Field>>): seq<Entry> {
    seq(|records|, i requires 0 <= i < |records| => EntryOf(records[i]))
  }

  function AuthorisationsOf(records: seq<seq<Field>>): seq<Authorisation> {
    seq(|records|, i requires 0 <= i < |records| => AuthorisationOf(records[i]))
  }

  // ----- identity, gates and slices -------------------------------------------------------------

  ghost predicate DistinctDebts(entries: seq<Entry>) {
    && (forall i, j :: 0 <= i < j < |entries| ==> entries[i].id != entries[j].id)
    && (forall i, j :: 0 <= i < j < |entries| ==> entries[i].Identity() != entries[j].Identity())
  }

  /** The last of the first n entries that records this debt. */
  function Latest(entries: seq<Entry>, n: nat, at: LedgerRatchet.Identity): (r: Option<Entry>)
    requires n <= |entries|
    ensures r.None? <==> forall i :: 0 <= i < n ==> entries[i].Identity() != at
  {
    if n == 0 then None
    else if entries[n - 1].Identity() == at then Some(entries[n - 1])
    else Latest(entries, n - 1, at)
  }

  predicate IdUsed(entries: seq<Entry>, n: nat, id: string)
    requires n <= |entries|
  {
    exists i :: 0 <= i < n && entries[i].id == id
  }

  /** What is wrong with the k-th entry beside those before it. */
  predicate IdentityError(entries: seq<Entry>, k: nat, e: Error)
    requires k < |entries|
  {
    match e
    case DuplicateId(id) => id == entries[k].id && IdUsed(entries, k, id)
    case DuplicateSite(id, earlier) =>
      && id == entries[k].id
      && var latest := Latest(entries, k, entries[k].Identity());
      latest.Some? && latest.value.id == earlier
    case _ => false
  }

  predicate IdentityErrors(entries: seq<Entry>, e: Error) {
    exists k :: 0 <= k < |entries| && IdentityError(entries, k, e)
  }

  method CheckIdentity(entries: seq<Entry>, report: Report) returns (ghost found: seq<Error>)
    modifies report
    ensures report.errors == old(report.errors) + found
    ensures forall e :: e in found <==> IdentityErrors(entries, e)
    ensures found == [] <==> DistinctDebts(entries)
  {
    var byId: map<string, Entry> := map[];
    var bySite: map<LedgerRatchet.Identity, Entry> := map[];
    found := [];
    for k := 0 to |entries|
      invariant forall id :: id in byId <==> IdUsed(entries, k, id)
      invariant forall at :: Latest(entries, k, at) == if at in bySite then Some(bySite[at]) else None
      invariant report.errors == old(report.errors) + found
      invariant forall e :: e in found <==> exists i :: 0 <= i < k && IdentityError(entries, i, e)
    {
      ghost var own;
      own := CheckOne(entries, k, byId, bySite, report);
      found := found + own;
      byId := byId[entries[k].id := entries[k]];
      bySite := bySite[entries[k].Identity() := entries[k]];
    }
    DistinctDebtsHaveNoError(entries);
    NoneFound(found);
  }

  method CheckOne(entries: seq<Entry>, k: nat, byId: map<string, Entry>, bySite: map<LedgerRatchet.Identity, Entry>,
                  report: Report)
    returns (ghost found: seq<Error>)
    requires k < |entries|
    requires forall id :: id in byId <==> IdUsed(entries, k, id)
    requires forall at :: Latest(entries, k, at) == if at in bySite then Some(bySite[at]) else None
    modifies report
    ensures report.errors == old(report.errors) + found
    ensures forall e :: e in found <==> IdentityError(entries, k, e)
  {
    var entry := entries[k];
    found := [];
    if entry.id in byId {
      report.Add(DuplicateId(entry.id));
      found := [DuplicateId(entry.id)];
    }
    if entry.Identity() in bySite {
      report.Add(DuplicateSite(entry.id, bySite[entry.Identity()].id));
      found := found + [DuplicateSite(entry.id, bySite[entry.Identity()].id)];
    }
  }

  lemma DistinctDebtsHaveNoError(entries: seq<Entry>)
    ensures (forall e :: !IdentityErrors(entries, e)) <==> DistinctDebts(entries)
  {
    forall i, j | 0 <= i < j < |entries| && (entries[i].id == entries[j].id || entries[i].Identity() == entries[j].Identity())
      ensures exists e :: IdentityErrors(entries, e)
    {
      RepeatedDebtIsAnError(entries, i, j);
    }
  }

  lemma RepeatedDebtIsAnError(entries: seq<Entry>, i: nat, j: nat)
    requires i < j < |entries|
    requires entries[i].id == entries[j].id || entries[i].Identity() == entries[j].Identity()
    ensures exists e :: IdentityErrors(entries, e)
  {
    if entries[i].id == entries[j].id {
      assert IdentityError(entries, j, DuplicateId(entries[j].id));
      assert IdentityErrors(entries, DuplicateId(entries[j].id));
    } else {
      var latest := Latest(entries, j, entries[j].Identity());
      assert IdentityError(entries, j, DuplicateSite(entries[j].id, latest.value.id));
      assert IdentityErrors(entries, DuplicateSite(entries[j].id, latest.value.id));
    }
  }

  /** The gates declared, and whether each is installed. */
  type Gates = map<string, bool>

  type Slices = map<string, Slice>

  predicate GateRuns(gates: Gates, gate: string) {
    gate in gates && gates[gate]
  }

  predicate GateError(gates: Gates, at: string, gate: string, e: Error) {
    match e
    case UnknownGate(a, g) => a == at && g == gate && gate !in gates
    case GateNotInstalled(a, g) => a == at && g == gate && gate in gates && !gates[gate]
    case _ => false
  }

  method CheckGateReference(gate: string, gates: Gates, at: string, report: Report) returns (ghost found: seq<Error>)
    modifies report
    ensures report.errors == old(report.errors) + found
    ensures forall e :: e in found <==> GateError(gates, at, gate, e)
  {
    found := [];
    if gate !in gates {
      report.Add(UnknownGate(at, gate));
      found := [UnknownGate(at, gate)];
    } else if !gates[gate] {
      report.Add(GateNotInstalled(at, gate));
      found := [GateNotInstalled(at, gate)];
    }
  }

  predicate Owed(slices: Slices, owner: string) {
    owner in slices && !slices[owner].landed
  }

  predicate GoodEntry(gates: Gates, slices: Slices, entry: Entry) {
    GateRuns(gates, entry.gate) && Owed(slices, entry.ownerSlice)
  }

  predicate EntryError(gates: Gates, slices: Slices, entry: Entry, e: Error) {
    match e
    case UnknownSlice(id, owner) => id == entry.id && owner == entry.ownerSlice && owner !in slices
    case OwnerSliceLanded(id, owner) =>
      id == entry.id && owner == entry.ownerSlice && owner in slices && slices[owner].landed
    case _ => GateError(gates, entry.id, entry.gate, e)
  }

  method CheckEntry(entry: Entry, gates: Gates, slices: Slices, report: Report) returns (ghost found: seq<Error>)
    modifies report
    ensures report.errors == old(report.errors) + found
    ensures forall e :: e in found <==> EntryError(gates, slices, entry, e)
  {
    found := CheckGateReference(entry.gate, gates, entry.id, report);
    if entry.ownerSlice !in slices {
      report.Add(UnknownSlice(entry.id, entry.ownerSlice));
      found := found + [UnknownSlice(entry.id, entry.ownerSlice)];
    } else if slices[entry.ownerSlice].landed {
      report.Add(OwnerSliceLanded(entry.id, entry.ownerSlice));
      found := found + [OwnerSliceLanded(entry.id, entry.ownerSlice)];
    }
  }

  predicate OwnerErrors(entries: seq<Entry>, gates: Gates, slices: Slices, e: Error) {
    exists k :: 0 <= k < |entries| && EntryError(gates, slices, entries[k], e)
  }

  method CheckOwners(entries: seq<Entry>, gates: Gates, slices: Slices, report: Report) returns (ghost found: seq<Error>)
    modifies report
    ensures report.errors == old(report.errors) + found
    ensures forall e :: e in found <==> OwnerErrors(entries, gates, slices, e)
    ensures found == [] <==> EntriesAreOwed(entries, gates, slices)
  {
    found := [];
    for k := 0 to |entries|
      invariant report.errors == old(report.errors) + found
      invariant forall e :: e in found <==> exists i :: 0 <= i < k && EntryError(gates, slices, entries[i], e)
    {
      ghost var own;
      own := CheckEntry(entries[k], gates, slices, report);
      found := found + own;
    }
    GoodOwnersHaveNoError(entries, gates, slices);
    NoneFound(found);
  }

  function GrantAt(authorisation: Authorisation): string {
    "authorisation for " + authorisation.gate
  }

  predicate GranteeErrors(authorisations: seq<Authorisation>, gates: Gates, e: Error) {
    exists k :: 0 <= k < |authorisations| && GateError(gates, GrantAt(authorisations[k]), authorisations[k].gate, e)
  }

  method CheckGrantees(authorisations: seq<Authorisation>, gates: Gates, report: Report) returns (ghost found: seq<Error>)
    modifies report
    ensures report.errors == old(report.errors) + found
    ensures forall e :: e in found <==> GranteeErrors(authorisations, gates, e)
    ensures found == [] <==> GranteesRun(authorisations, gates)
  {
    found := [];
    for k := 0 to |authorisations|
      invariant report.errors == old(report.errors) + found
      invariant forall e :: e in found <==>
                  exists i :: 0 <= i < k && GateError(gates, GrantAt(authorisations[i]), authorisations[i].gate, e)
    {
      ghost var own;
      own := CheckGateReference(authorisations[k].gate, gates, GrantAt(authorisations[k]), report);
      found := found + own;
    }
    RunningGranteesHaveNoError(authorisations, gates);
    NoneFound(found);
  }

  // ----- the whole ledger ---------------------------------------------------------------------------

  /** The two lists of a ledger document, as they are declared. */
  datatype Document = Document(entries: Json, authorisations: Json)

  function LedgerOf(document: Document): LedgerRatchet.Ledger {
    LedgerRatchet.Ledger(ItemsOf(document.entries), ItemsOf(document.authorisations))
  }

  function EntriesIn(document: Document): seq<Entry> {
    EntriesOf(GoodRecords(ENTRY_RULES, ItemsOf(document.entries)))
  }

  function AuthorisationsIn(document: Document): seq<Authorisation> {
    AuthorisationsOf(GoodRecords(AUTHORISATION_RULES, ItemsOf(document.authorisations)))
  }

  predicate EntriesError(rules: Rules, declared: Json, gates: Gates, slices: Slices, e: Error) {
    var entries := EntriesOf(GoodRecords(rules, ItemsOf(declared)));
    || ListError(Entries, rules, declared, e)
    || IdentityErrors(entries, e)
    || OwnerErrors(entries, gates, slices, e)
  }

  predicate AuthorisationsError(rules: Rules, declared: Json, gates: Gates, e: Error) {
    || ListError(SeedingAuthorisations, rules, declared, e)
    || GranteeErrors(AuthorisationsOf(GoodRecords(rules, ItemsOf(declared))), gates, e)
  }

  /** What is wrong with a ledger: all of it, a faulty record never hiding another's fault. */
  predicate LedgerError(document: Document, gates: Gates, slices: Slices, e: Error) {
    || EntriesError(ENTRY_RULES, document.entries, gates, slices, e)
    || AuthorisationsError(AUTHORISATION_RULES, document.authorisations, gates, e)
  }

  ghost predicate GoodEntries(rules: Rules, declared: Json, gates: Gates, slices: Slices) {
    && GoodList(rules, declared)
    && var entries := EntriesOf(GoodRecords(rules, ItemsOf(declared)));
    DistinctDebts(entries) && EntriesAreOwed(entries, gates, slices)
  }

  predicate GoodAuthorisations(rules: Rules, declared: Json, gates: Gates) {
    && GoodList(rules, declared)
    && GranteesRun(AuthorisationsOf(GoodRecords(rules, ItemsOf(declared))), gates)
  }

  ghost predicate Accepts(document: Document, gates: Gates, slices: Slices) {
    && GoodEntries(ENTRY_RULES, document.entries, gates, slices)
    && GoodAuthorisations(AUTHORISATION_RULES, document.authorisations, gates)
  }

  predicate EntriesAreOwed(entries: seq<Entry>, gates: Gates, slices: Slices) {
    forall i :: 0 <= i < |entries| ==> GoodEntry(gates, slices, entries[i])
  }

  predicate GranteesRun(authorisations: seq<Authorisation>, gates: Gates) {
    forall i :: 0 <= i < |authorisations| ==> GateRuns(gates, authorisations[i].gate)
  }

  method CompileEntries(rules: Rules, declared: Json, gates: Gates, slices: Slices, report: Report)
    returns (entries: seq<Entry>, ghost found: seq<Error>)
    modifies report
    ensures entries == EntriesOf(GoodRecords(rules, ItemsOf(declared)))
    ensures report.errors == old(report.errors) + found
    ensures forall e :: e in found <==> EntriesError(rules, declared, gates, slices, e)
    ensures found == [] <==> GoodEntries(rules, declared, gates, slices)
  {
    var records;
    ghost var listed, identities, owners;
    records, listed := Records(Entries, declared, rules, report);
    entries := EntriesOf(records);
    identities := CheckIdentity(entries, report);
    owners := CheckOwners(entries, gates, slices, report);
    found := listed + identities + owners;
    Regroup(old(report.errors), listed, identities, owners);
  }

  method CompileAuthorisations(rules: Rules, declared: Json, gates: Gates, report: Report)
    returns (authorisations: seq<Authorisation>, ghost found: seq<Error>)
    modifies report
    ensures authorisations == AuthorisationsOf(GoodRecords(rules, ItemsOf(declared)))
    ensures report.errors == old(report.errors) + found
    ensures forall e :: e in found <==> AuthorisationsError(rules, declared, gates, e)
    ensures found == [] <==> GoodAuthorisations(rules, declared, gates)
  {
    var records;
    ghost var listed, grantees;
    records, listed := Records(SeedingAuthorisations, declared, rules, report);
    authorisations := AuthorisationsOf(records);
    grantees := CheckGrantees(authorisations, gates, report);
    found := listed + grantees;
    Regroup(old(report.errors), listed, grantees, []);
  }

  /** Reports everything wrong with a ledger, and nothing else. */
  method CompileLedger(document: Document, gates: Gates, slices: Slices, report: Report)
    returns (entries: seq<Entry>, authorisations: seq<Authorisation>, ghost found: seq<Error>)
    modifies report
    ensures entries == EntriesIn(document) && authorisations == AuthorisationsIn(document)
    ensures report.errors == old(report.errors) + found
    ensures forall e :: e in found <==> LedgerError(document, gates, slices, e)
    ensures report.errors == old(report.errors) <==> Accepts(document, gates, slices)
  {
    ghost var owed, signed;
    entries, owed := CompileEntries(ENTRY_RULES, document.entries, gates, slices, report);
    authorisations, signed := CompileAuthorisations(AUTHORISATION_RULES, document.authorisations, gates, report);
    found := owed + signed;
    Regroup(old(report.errors), owed, signed, []);
  }

  lemma NoneFound(found: seq<Error>)
    ensures found == [] <==> forall e :: e !in found
  {
    if found != [] {
      assert found[0] in found;
    }
  }

  lemma GoodOwnersHaveNoError(entries: seq<Entry>, gates: Gates, slices: Slices)
    ensures (forall e :: !OwnerErrors(entries, gates, slices, e)) <==> EntriesAreOwed(entries, gates, slices)
  {
    if forall e :: !OwnerErrors(entries, gates, slices, e) {
      forall k | 0 <= k < |entries|
        ensures GoodEntry(gates, slices, entries[k])
      {
        var entry := entries[k];
        assert forall e :: EntryError(gates, slices, entry, e) ==> OwnerErrors(entries, gates, slices, e);
        assert !EntryError(gates, slices, entry, UnknownGate(entry.id, entry.gate));
        assert !EntryError(gates, slices, entry, GateNotInstalled(entry.id, entry.gate));
        assert !EntryError(gates, slices, entry, UnknownSlice(entry.id, entry.ownerSlice));
        assert !EntryError(gates, slices, entry, OwnerSliceLanded(entry.id, entry.ownerSlice));
      }
    }
  }

  lemma RunningGranteesHaveNoError(authorisations: seq<Authorisation>, gates: Gates)
    ensures (forall e :: !GranteeErrors(authorisations, gates, e)) <==> GranteesRun(authorisations, gates)
  {
    if forall e :: !GranteeErrors(authorisations, gates, e) {
      forall k | 0 <= k < |authorisations|
        ensures GateRuns(gates, authorisations[k].gate)
      {
        var at, gate := GrantAt(authorisations[k]), authorisations[k].gate;
        assert forall e :: GateError(gates, at, gate, e) ==> GranteeErrors(authorisations, gates, e);
        assert !GateError(gates, at, gate, UnknownGate(at, gate));
        assert !GateError(gates, at, gate, GateNotInstalled(at, gate));
      }
    }
  }

  // ----- what acceptance says to the ratchet -------------------------------------------------------

  function OrdersOf(slices: Slices): map<string, int> {
    map key | key in slices :: slices[key].order
  }

  /** The ratchet finds every entry of an accepted ledger, under its own identity and with an owner that is owed. */
  lemma AcceptedEntriesAreOwed(document: Document, gates: Gates, slices: Slices, i: nat)
    requires Accepts(document, gates, slices) && i < |ItemsOf(document.entries)|
    ensures var body := ItemsOf(document.entries)[i];
            && LedgerRatchet.IdentityOf(body).Some?
            && var owner := Member(body, "owner_slice");
            && owner.String? && Owed(slices, owner.s)
  {
    var items := ItemsOf(document.entries);
    AllRecordsAreKept(ENTRY_RULES, items);
    var fields := items[i].fields;
    var entries := EntriesOf(GoodRecords(ENTRY_RULES, items));
    assert entries[i] == EntryOf(fields);
    assert GoodEntry(gates, slices, entries[i]);
    assert GoodRecord(ENTRY_RULES, items[i]);
    RequiredText(fields, 1);
    RequiredText(fields, 2);
    RequiredText(fields, 4);
  }

  lemma RequiredText(fields: seq<Field>, k: nat)
    requires GoodRecord(ENTRY_RULES, Object(fields)) && k < |ENTRY_RULES.required|
    ensures GetOrNull(fields, ENTRY_RULES.required[k]).String?
  {
    assert HasKey(fields, ENTRY_RULES.required[k]);
  }

  /** Once every slice has landed, an accepted ledger owes nothing. */
  lemma OnlyTheEmptyLedgerIsLeft(document: Document, gates: Gates, slices: Slices)
    requires Accepts(document, gates, slices)
    requires forall key :: key in slices ==> slices[key].landed
    ensures ItemsOf(document.entries) == []
  {
    if ItemsOf(document.entries) != [] {
      AcceptedEntriesAreOwed(document, gates, slices, 0);
    }
  }

  // ----- the landed-slice rule of a manifest row ---------------------------------------------------

  /** `owned_by_slice_4` names `slice_4`. */
  function OwnerSliceOf(status: Json, prefix: string): Option<string> {
    if status.String? && prefix <= status.s then Some(status.s[|prefix|..]) else None
  }

  datatype RowFault = UnknownStatus | LandedSliceOwnsGate(slice: string)

  /** The shapes are the statuses the schema knows, the owning prefix among them. */
  method CheckRowStatus(status: Json, shapes: set<string>, prefix: string, slices: Slices) returns (faults: seq<RowFault>)
    ensures faults == [] <==>
            || (status.String? && status.s in shapes && status.s != prefix &&
                (OwnerSliceOf(status, prefix).Some? && OwnerSliceOf(status, prefix).value in slices ==>
                 !slices[OwnerSliceOf(status, prefix).value].landed))
            || exists key :: key in slices && !slices[key].landed && status == String(prefix + key)
    ensures forall key :: LandedSliceOwnsGate(key) in faults <==>
              key in slices && slices[key].landed && status == String(prefix + key)
    ensures UnknownStatus in faults <==>
              && !(status.String? && status.s in shapes && status.s != prefix)
              && forall key :: key in slices ==> status != String(prefix + key)
  {
    faults := [];
    var owner := OwnerSliceOf(status, prefix);
    if !((status.String? && status.s in shapes && status.s != prefix) || (owner.Some? && owner.value in slices)) {
      faults := faults + [UnknownStatus];
    }
    if owner.Some? && owner.value in slices && slices[owner.value].landed {
      faults := faults + [LandedSliceOwnsGate(owner.value)];
    }
    if owner.Some? {
      assert status.s == prefix + owner.value;
    }
    forall key | key in slices && status == String(prefix + key)
      ensures owner == Some(key)
    {
    }
  }
}
