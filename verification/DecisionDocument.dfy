/**
 The generated decision document (tools/known_values/document.py): one decision
 per concept, written out as JSON and read back by the applier.
 */
module DecisionDocument {
  import opened Wrappers
  import opened Json
  import opened Vocabulary
  import opened Census
  import opened KnownValues
  import JsonPointer

  const BACKEND: string := "backend"
  const CONTRACT: string := "openapi"
  const KIND_KEY: string := "kind"
  const REPRESENTATION_KEY: string := "representation"
  const ADVERTISED_KEY: string := "advertised"
  const SERVES_KEY: string := "backend_serves"
  const VALUES_KEY: string := "values"
  const CONCEPTS_KEY: string := "concepts"
  const VERSION_KEY: string := "version"
  const GENERATED_KEY: string := "@generated"

  // ----- deciding ------------------------------------------------------------------

  predicate InContract(concept: Concept) {
    exists i :: 0 <= i < |concept.consumers| && concept.consumers[i].surface == CONTRACT
  }

  function RepresentationOf(concept: Concept): Representation {
    if concept.DeclaredValues() == [] then Nothing
    else if !InContract(concept) then Nothing
    else if concept.knownValues != [] then KnownValuesList
    else Enum
  }

  function ServesText(extent: Option<(nat, nat)>): Json {
    match extent
    case None => Null
    case Some(counts) =>
      String(JsonPointer.Decimal(counts.0) + " of " + JsonPointer.Decimal(counts.1) + " values")
  }

  function Decide(concept: Concept, census: Census): Decision {
    var representation := RepresentationOf(concept);
    var extent := Extent(census, concept.name, BACKEND);
    var advertised := representation != Nothing && extent.Some? && Serves(census, concept.name, BACKEND) == Some(true);
    DecisionRow(concept.name, String(concept.kind), representation, advertised, ServesText(extent),
                if advertised then Some(concept.OccurringValues()) else None)
  }

  // ----- writing --------------------------------------------------------------------

  function RepresentationText(representation: Representation): string {
    match representation
    case Enum => "enum"
    case KnownValuesList => "known_values"
    case Nothing => "none"
  }

  function Row(decision: Decision): seq<Field> {
    var common := [Field(KIND_KEY, decision.kind),
                   Field(REPRESENTATION_KEY, String(RepresentationText(decision.representation))),
                   Field(ADVERTISED_KEY, Bool(decision.advertised)),
                   Field(SERVES_KEY, decision.backendServes)];
    if decision.values.Some? then common + [Field(VALUES_KEY, StringList(decision.values.value))] else common
  }

  function Rows(registry: seq<Concept>, census: Census): seq<Field> {
    seq(|registry|, i requires 0 <= i < |registry| =>
      Field(registry[i].name, Object(Row(Decide(registry[i], census)))))
  }

  const BANNER: string :=
    "from domain-vocabulary/ \U{2014} do not edit by hand. Regenerate with `python -m tools.vocabulary --write`."

  function Document(registry: seq<Concept>, census: Census): Json {
    Object([Field(GENERATED_KEY, String(BANNER)),
            Field(VERSION_KEY, Int(1)),
            Field(CONCEPTS_KEY, Object(Rows(registry, census)))])
  }

  method Build(registry: seq<Concept>, census: Census) returns (document: Json)
    requires CompiledRegistry(registry)
    ensures document == Document(registry, census)
  {
    var concepts: seq<Field> := [];
    for k := 0 to |registry|
      invariant concepts == Rows(registry, census)[..k]
    {
      var decision := Decide(registry[k], census);
      var row := [Field(KIND_KEY, decision.kind),
                  Field(REPRESENTATION_KEY, String(RepresentationText(decision.representation))),
                  Field(ADVERTISED_KEY, Bool(decision.advertised)),
                  Field(SERVES_KEY, decision.backendServes)];
      if decision.values.Some? {
        row := row + [Field(VALUES_KEY, StringList(decision.values.value))];
      }
      concepts := concepts + [Field(registry[k].name, Object(row))];
    }
    assert concepts == Rows(registry, census);
    document := Object([Field(GENERATED_KEY, String(BANNER)), Field(VERSION_KEY, Int(1)),
                        Field(CONCEPTS_KEY, Object(concepts))]);
  }

  // ----- reading --------------------------------------------------------------------

  function RepresentationFrom(value: Json): Option<Representation> {
    if value == String("enum") then Some(Enum)
    else if value == String("known_values") then Some(KnownValuesList)
    else if value == String("none") then Some(Nothing)
    else None
  }

  /** The members in the order they are checked. */
  function DecisionFrom(name: string, kind: Json, representation: Json, advertised: Json, serves: Json,
                        values: Option<Json>): Option<Decision> {
    var shown :- RepresentationFrom(representation);
    if !advertised.Bool? then None
    else if !advertised.b then
      if values.Some? then None else Some(DecisionRow(name, kind, shown, false, serves, None))
    else if values.None? || !values.value.Array? || values.value.items == [] || !AllStrings(values.value.items) then None
    else Some(DecisionRow(name, kind, shown, true, serves, Some(Strings(values.value.items))))
  }

  /** One decision, or `None` where the row is refused. */
  function ReadRow(name: string, row: Json): Option<Decision> {
    if !row.Object? then None
    else
      DecisionFrom(name, GetOrNull(row.fields, KIND_KEY), GetOrNull(row.fields, REPRESENTATION_KEY),
                   GetOrNull(row.fields, ADVERTISED_KEY), GetOrNull(row.fields, SERVES_KEY), Get(row.fields, VALUES_KEY))
  }

  /** The first refused row names the location. */
  function ReadRows(rows: seq<Field>): Result<Decisions, string> {
    if rows == [] then Ok(map[])
    else
      var last := rows[|rows| - 1];
      var front :- ReadRows(rows[..|rows| - 1]);
      match ReadRow(last.key, last.value)
      case Some(decision) => Ok(front[last.key := decision])
      case None => Err(CONCEPTS_KEY + "/" + last.key)
  }

  function ReadDocument(document: Json): Result<Decisions, string> {
    if !document.Object? then Err(CONCEPTS_KEY)
    else if !EqualsOne(GetOrNull(document.fields, VERSION_KEY)) then Err(VERSION_KEY)
    else
      var concepts := GetOrNull(document.fields, CONCEPTS_KEY);
      if !concepts.Object? || concepts.fields == [] then Err(CONCEPTS_KEY)
      else ReadRows(concepts.fields)
  }

  lemma {:induction false} ReadRowsFail(rows: seq<Field>, k: nat)
    requires k <= |rows| && ReadRows(rows[..k]).Err?
    ensures ReadRows(rows) == ReadRows(rows[..k])
    decreases |rows|
  {
    if k == |rows| {
      assert rows[..k] == rows;
    } else {
      assert rows[..|rows| - 1][..k] == rows[..k];
      ReadRowsFail(rows[..|rows| - 1], k);
    }
  }

  /** What a row has to be: its values stated exactly when it is advertised. */
  predicate GoodRow(row: Json) {
    && row.Object?
    && GetOrNull(row.fields, REPRESENTATION_KEY) in {String("enum"), String("known_values"), String("none")}
    && GetOrNull(row.fields, ADVERTISED_KEY).Bool?
    && if GetOrNull(row.fields, ADVERTISED_KEY).b then
         var values := GetOrNull(row.fields, VALUES_KEY);
         values.Array? && values.items != [] && AllStrings(values.items)
       else
         !HasKey(row.fields, VALUES_KEY)
  }

  predicate Refused(rows: seq<Field>, k: nat) {
    k < |rows| && ReadRow(rows[k].key, rows[k].value).None?
  }

  /** A row is refused exactly when it is not what it has to be, and is read as the decision it is filed under. */
  lemma RefusedIffNotGood(rows: seq<Field>, k: nat)
    requires k < |rows|
    ensures Refused(rows, k) <==> !GoodRow(rows[k].value)
    ensures !Refused(rows, k) ==> ReadRow(rows[k].key, rows[k].value).value.concept == rows[k].key
  {
  }

  /** The k-th row is refused and none before it is. */
  predicate FirstRefused(rows: seq<Field>, k: nat) {
    Refused(rows, k) && forall j :: 0 <= j < k ==> !Refused(rows, j)
  }

  lemma ReadRowsStep(rows: seq<Field>)
    requires rows != []
    ensures var n := |rows| - 1;
            && (forall k: nat :: k < n ==> (Refused(rows[..n], k) <==> Refused(rows, k)))
            && (ReadRows(rows[..n]).Err? ==> ReadRows(rows) == ReadRows(rows[..n]))
            && (ReadRows(rows[..n]).Ok? ==>
                  if Refused(rows, n) then ReadRows(rows) == Err(CONCEPTS_KEY + "/" + rows[n].key) else ReadRows(rows).Ok?)
  {
  }

  /** The rows are read exactly when none is refused; otherwise the location names the first that is. */
  lemma {:induction false} RowsAreReadOrTheFirstIsNamed(rows: seq<Field>)
    ensures ReadRows(rows).Ok? <==> forall k: nat :: !Refused(rows, k)
    ensures ReadRows(rows).Err? ==>
              exists k: nat :: FirstRefused(rows, k) && ReadRows(rows) == Err(CONCEPTS_KEY + "/" + rows[k].key)
  {
    if rows == [] {
    } else {
      var n := |rows| - 1;
      var front := rows[..n];
      RowsAreReadOrTheFirstIsNamed(front);
      ReadRowsStep(rows);
      if ReadRows(front).Err? {
        var k: nat :| FirstRefused(front, k) && ReadRows(front) == Err(CONCEPTS_KEY + "/" + front[k].key);
        assert FirstRefused(rows, k) && rows[k] == front[k];
      } else if Refused(rows, n) {
        assert forall j: nat :: j < n ==> !Refused(front, j);
        assert FirstRefused(rows, n);
      }
    }
  }

  function RowsIn(document: Json): seq<Field> {
    if document.Object? && GetOrNull(document.fields, CONCEPTS_KEY).Object?
    then GetOrNull(document.fields, CONCEPTS_KEY).fields else []
  }

  predicate IsVersionOne(document: Json) {
    document.Object? && EqualsOne(GetOrNull(document.fields, VERSION_KEY))
  }

  /** Reading any document: it is of this version and has rows, all of them good, or the refusal names what is not. */
  lemma ReadingIsRefusedWhere(document: Json)
    ensures ReadDocument(document).Ok? <==>
            && IsVersionOne(document) && RowsIn(document) != []
            && forall k: nat :: k < |RowsIn(document)| ==> GoodRow(RowsIn(document)[k].value)
    ensures document.Object? && !IsVersionOne(document) ==> ReadDocument(document) == Err(VERSION_KEY)
    ensures IsVersionOne(document) && RowsIn(document) == [] ==> ReadDocument(document) == Err(CONCEPTS_KEY)
    ensures IsVersionOne(document) && RowsIn(document) != [] && ReadDocument(document).Err? ==>
              exists k: nat :: FirstRefused(RowsIn(document), k) &&
                ReadDocument(document) == Err(CONCEPTS_KEY + "/" + RowsIn(document)[k].key)
  {
    var rows := RowsIn(document);
    RowsAreReadOrTheFirstIsNamed(rows);
    forall k: nat | k < |rows|
      ensures Refused(rows, k) <==> !GoodRow(rows[k].value)
    {
      RefusedIffNotGood(rows, k);
    }
  }

  method Read(document: Json) returns (r: Result<Decisions, string>)
    ensures r == ReadDocument(document)
  {
    if !document.Object? {
      return Err(CONCEPTS_KEY);
    }
    if !EqualsOne(GetOrNull(document.fields, VERSION_KEY)) {
      return Err(VERSION_KEY);
    }
    var concepts := GetOrNull(document.fields, CONCEPTS_KEY);
    if !concepts.Object? || concepts.fields == [] {
      return Err(CONCEPTS_KEY);
    }
    r := ReadEach(concepts.fields);
  }

  method ReadEach(rows: seq<Field>) returns (r: Result<Decisions, string>)
    ensures r == ReadRows(rows)
  {
    var decisions: Decisions := map[];
    for k := 0 to |rows|
      invariant ReadRows(rows[..k]) == Ok(decisions)
    {
      assert rows[..k + 1][..k] == rows[..k];
      var decision := ReadRow(rows[k].key, rows[k].value);
      if decision.None? {
        ReadRowsFail(rows, k + 1);
        return Err(CONCEPTS_KEY + "/" + rows[k].key);
      }
      decisions := decisions[rows[k].key := decision.value];
    }
    assert rows[..|rows|] == rows;
    r := Ok(decisions);
  }

  // ----- the applier reads what was decided --------------------------------------------

  lemma RowKeys(decision: Decision)
    ensures DistinctKeys(Row(decision))
    ensures decision.values.None? ==> !HasKey(Row(decision), VALUES_KEY)
  {
    var row := Row(decision);
    assert row[0].key == "kind" && row[1].key == "representation" && row[2].key == "advertised"
           && row[3].key == "backend_serves";
    assert decision.values.Some? ==> row[4].key == "values";
  }

  lemma RowMembers(decision: Decision)
    ensures DistinctKeys(Row(decision))
    ensures GetOrNull(Row(decision), KIND_KEY) == decision.kind
    ensures GetOrNull(Row(decision), REPRESENTATION_KEY) == String(RepresentationText(decision.representation))
    ensures GetOrNull(Row(decision), ADVERTISED_KEY) == Bool(decision.advertised)
    ensures GetOrNull(Row(decision), SERVES_KEY) == decision.backendServes
    ensures Get(Row(decision), VALUES_KEY) ==
            match decision.values case Some(values) => Some(StringList(values)) case None => None
  {
    var row := Row(decision);
    RowKeys(decision);
    GetAt(row, 0);
    GetAt(row, 1);
    GetAt(row, 2);
    GetAt(row, 3);
    if decision.values.Some? {
      GetAt(row, 4);
    }
  }

  lemma StringsOfList(values: seq<string>)
    ensures AllStrings(StringList(values).items) && Strings(StringList(values).items) == values
  {
  }

  lemma DecisionReads(decision: Decision)
    requires decision.values.Some? ==> decision.values.value != []
    ensures DecisionFrom(decision.concept, decision.kind, String(RepresentationText(decision.representation)),
                         Bool(decision.advertised), decision.backendServes,
                         match decision.values case Some(values) => Some(StringList(values)) case None => None)
            == Some(decision)
  {
    if decision.values.Some? {
      StringsOfList(decision.values.value);
      assert |StringList(decision.values.value).items| == |decision.values.value|;
    }
  }

  lemma RowRoundTrip(decision: Decision)
    requires decision.values.Some? ==> decision.values.value != []
    ensures ReadRow(decision.concept, Object(Row(decision))) == Some(decision)
  {
    RowMembers(decision);
    DecisionReads(decision);
  }

  function DecisionsOf(registry: seq<Concept>, census: Census): Decisions {
    if registry == [] then map[]
    else
      var last := registry[|registry| - 1];
      DecisionsOf(registry[..|registry| - 1], census)[last.name := Decide(last, census)]
  }

  lemma {:induction false} RowsRoundTrip(registry: seq<Concept>, census: Census)
    requires CompiledRegistry(registry)
    ensures ReadRows(Rows(registry, census)) == Ok(DecisionsOf(registry, census))
  {
    if registry == [] {
    } else {
      var front, last := registry[..|registry| - 1], registry[|registry| - 1];
      assert Rows(registry, census)[..|registry| - 1] == Rows(front, census);
      RowsRoundTrip(front, census);
      if Decide(last, census).advertised {
        OccurringIsInhabited(last);
      }
      RowRoundTrip(Decide(last, census));
    }
  }

  lemma DocumentMembers(rows: seq<Field>, fields: seq<Field>)
    requires fields == [Field(GENERATED_KEY, String(BANNER)), Field(VERSION_KEY, Int(1)), Field(CONCEPTS_KEY, Object(rows))]
    ensures GetOrNull(fields, VERSION_KEY) == Int(1)
    ensures GetOrNull(fields, CONCEPTS_KEY) == Object(rows)
  {
    assert fields[0].key == "@generated" && fields[1].key == "version" && fields[2].key == "concepts";
    GetAt(fields, 1);
    GetAt(fields, 2);
  }

  lemma DocumentReads(rows: seq<Field>, fields: seq<Field>)
    requires rows != [] && GetOrNull(fields, VERSION_KEY) == Int(1) && GetOrNull(fields, CONCEPTS_KEY) == Object(rows)
    ensures ReadDocument(Object(fields)) == ReadRows(rows)
  {
  }

  /** Reading a built document gives back every decision, whole. */
  lemma DocumentRoundTrip(registry: seq<Concept>, census: Census)
    requires CompiledRegistry(registry) && registry != []
    ensures ReadDocument(Document(registry, census)) == Ok(DecisionsOf(registry, census))
  {
    var rows := Rows(registry, census);
    assert |rows| == |registry|;
    DocumentMembers(rows, Document(registry, census).fields);
    DocumentReads(rows, Document(registry, census).fields);
    RowsRoundTrip(registry, census);
  }

  lemma {:induction false} EveryConceptIsDecided(registry: seq<Concept>, census: Census, i: nat)
    requires CompiledRegistry(registry) && i < |registry|
    ensures registry[i].name in DecisionsOf(registry, census)
    ensures DecisionsOf(registry, census)[registry[i].name] == Decide(registry[i], census)
  {
    if i == |registry| - 1 {
    } else {
      EveryConceptIsDecided(registry[..|registry| - 1], census, i);
    }
  }

  lemma {:induction false} DecidedConceptsAreDeclared(registry: seq<Concept>, census: Census, name: string)
    returns (i: nat)
    requires name in DecisionsOf(registry, census)
    ensures i < |registry| && registry[i].name == name
  {
    if registry[|registry| - 1].name == name {
      i := |registry| - 1;
    } else {
      i := DecidedConceptsAreDeclared(registry[..|registry| - 1], census, name);
    }
  }
}
