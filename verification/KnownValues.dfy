/**
 The known-value applier: tools/known_values/apply.py, over the decisions that
 tools/known_values/document.py hands it.
 */
module KnownValues {
  import opened Wrappers
  import opened Json
  import opened JsonPointer

  const MARKER: string := "x-ubb-concept"
  const KNOWN_VALUES_KEY: string := "x-ubb-known-values"
  const FIELD_VALUES_KEY: string := "x-ubb-field-values"
  const ENUM_KEY: string := "enum"

  datatype Representation = Enum | KnownValuesList | Nothing

  datatype DecisionRow = DecisionRow(
    concept: string,
    kind: Json,
    representation: Representation,
    advertised: bool,
    backendServes: Json,
    values: Option<seq<string>>)

  /** `document.read` hands out values exactly for the advertised concepts. */
  type Decision = row: DecisionRow | row.advertised == row.values.Some?
    witness DecisionRow("", Null, Nothing, false, Null, None)

  type Decisions = map<string, Decision>

  datatype Code =
    | MalformedMarker
    | UnknownConcept
    | ContributesNothing
    | NotAdvertised
    | AlreadyEnumerated
    | AlreadyAnnotated
    | NotAString
    | MalformedFieldValues
    | FieldValuesOnAnOpenConcept
    | FieldValueNotOccurring
    | FieldValuesAreTheWholeSet

  datatype Refusal = Refusal(code: Code, location: string)

  // ----- one marked node ---------------------------------------------------

  predicate IsStringType(member: Json) {
    member.Object? && Get(member.fields, "type") == Some(String("string"))
  }

  predicate UnionHasString(node: seq<Field>, key: string) {
    match Get(node, key)
    case Some(Array(members)) => exists i :: 0 <= i < |members| && IsStringType(members[i])
    case _ => false
  }

  predicate StringShaped(node: seq<Field>) {
    || Get(node, "type") == Some(String("string"))
    || UnionHasString(node, "anyOf")
    || UnionHasString(node, "oneOf")
  }

  predicate AllStrings(items: seq<Json>) {
    forall i :: 0 <= i < |items| ==> items[i].String?
  }

  function Strings(items: seq<Json>): seq<string>
    requires AllStrings(items)
  {
    seq(|items|, i requires 0 <= i < |items| => items[i].s)
  }

  function StringList(values: seq<string>): Json {
    Array(seq(|values|, i requires 0 <= i < |values| => String(values[i])))
  }

  /** `[v for v in values if v in named]` */
  function Narrow(values: seq<string>, named: seq<string>): seq<string> {
    if values == [] then []
    else
      var rest := Narrow(values[..|values| - 1], named);
      if values[|values| - 1] in named then rest + [values[|values| - 1]] else rest
  }

  function FieldValues(named: Json, representation: Representation, values: seq<string>): Result<seq<string>, Code> {
    if !named.Array? || named.items == [] || !AllStrings(named.items) || !Distinct(Strings(named.items)) then
      Err(MalformedFieldValues)
    else
      var names := Strings(named.items);
      if representation != Enum then Err(FieldValuesOnAnOpenConcept)
      else if exists i :: 0 <= i < |names| && names[i] !in values then Err(FieldValueNotOccurring)
      else if forall i :: 0 <= i < |values| ==> values[i] in names then Err(FieldValuesAreTheWholeSet)
      else Ok(Narrow(values, names))
  }

  /** The one member a marked node gains, or why it gains none. */
  function Annotation(node: seq<Field>, decisions: Decisions): Result<Field, Code>
    requires HasKey(node, MARKER)
  {
    var marker := Get(node, MARKER).value;
    if !marker.String? || marker.s == "" then Err(MalformedMarker)
    else if marker.s !in decisions then Err(UnknownConcept)
    else
      var decision: DecisionRow := decisions[marker.s];
      if decision.representation == Nothing then Err(ContributesNothing)
      else if !decision.advertised then Err(NotAdvertised)
      else if HasKey(node, ENUM_KEY) then Err(AlreadyEnumerated)
      else if HasKey(node, KNOWN_VALUES_KEY) then Err(AlreadyAnnotated)
      else if !StringShaped(node) then Err(NotAString)
      else if HasKey(node, FIELD_VALUES_KEY) then
        var narrowed :- FieldValues(Get(node, FIELD_VALUES_KEY).value, decision.representation, decision.values.value);
        Ok(Field(ENUM_KEY, StringList(narrowed)))
      else
        var key := if decision.representation == Enum then ENUM_KEY else KNOWN_VALUES_KEY;
        Ok(Field(key, StringList(decision.values.value)))
  }

  // ----- the walk ----------------------------------------------------------

  function Walk(node: Json, decisions: Decisions, pointer: string): Result<Json, Refusal>
    decreases node, 1
  {
    match node
    case Array(items) =>
      var walked :- WalkItems(items, decisions, pointer, 0);
      Ok(Array(walked))
    case Object(fields) =>
      var walked :- WalkFields(fields, decisions, pointer);
      if !HasKey(walked, MARKER) then Ok(Object(walked))
      else
        (match Annotation(walked, decisions)
         case Ok(added) => Ok(Object(walked + [added]))
         case Err(code) => Err(Refusal(code, if pointer == "" then "/" else pointer)))
    case _ => Ok(node)
  }

  function WalkItems(items: seq<Json>, decisions: Decisions, pointer: string, index: nat): Result<seq<Json>, Refusal>
    decreases items, 0
  {
    if items == [] then Ok([])
    else
      var first :- Walk(items[0], decisions, pointer + ("/" + Decimal(index)));
      var rest :- WalkItems(items[1..], decisions, pointer, index + 1);
      Ok([first] + rest)
  }

  function WalkFields(fields: seq<Field>, decisions: Decisions, pointer: string): (r: Result<seq<Field>, Refusal>)
    decreases fields, 0
  {
    if fields == [] then Ok([])
    else
      var first :- Walk(fields[0].value, decisions, pointer + ("/" + Escape(fields[0].key)));
      var rest :- WalkFields(fields[1..], decisions, pointer);
      Ok([Field(fields[0].key, first)] + rest)
  }

  function Apply(document: Json, decisions: Decisions): Result<Json, Refusal> {
    Walk(document, decisions, "")
  }

  // ----- taking it off again -----------------------------------------------

  /** The members whose key the applier does not write. */
  function Without(fields: seq<Field>): seq<Field> {
    if fields == [] then []
    else
      var last := fields[|fields| - 1];
      var rest := Without(fields[..|fields| - 1]);
      if last.key == ENUM_KEY || last.key == KNOWN_VALUES_KEY then rest else rest + [last]
  }

  function Strip(document: Json): Json
    decreases document, 1
  {
    match document
    case Array(items) => Array(seq(|items|, i requires 0 <= i < |items| => Strip(items[i])))
    case Object(fields) =>
      var stripped := StripFields(fields);
      Object(if HasKey(stripped, MARKER) then Without(stripped) else stripped)
    case _ => document
  }

  function StripFields(fields: seq<Field>): seq<Field>
    decreases fields, 0
  {
    seq(|fields|, i requires 0 <= i < |fields| => Field(fields[i].key, Strip(fields[i].value)))
  }

  // ----- what a successful application is -----------------------------------

  /** Some node of the document carries the marker key. */
  predicate HasMarkedNode(node: Json)
    decreases node
  {
    match node
    case Array(items) => exists i :: 0 <= i < |items| && HasMarkedNode(items[i])
    case Object(fields) =>
      || HasKey(fields, MARKER)
      || exists i :: 0 <= i < |fields| && HasMarkedNode(fields[i].value)
    case _ => false
  }

  /** Every marker of the document, as it was handed in, can be honoured. */
  predicate Honourable(node: Json, decisions: Decisions)
    decreases node
  {
    match node
    case Array(items) => forall i :: 0 <= i < |items| ==> Honourable(items[i], decisions)
    case Object(fields) =>
      && (forall i :: 0 <= i < |fields| ==> Honourable(fields[i].value, decisions))
      && (HasKey(fields, MARKER) ==> Annotation(fields, decisions).Ok?)
    case _ => true
  }

  /** The document with each marked node's own member added at its end, and nothing else changed. */
  function Published(node: Json, decisions: Decisions): Json
    requires Honourable(node, decisions)
    decreases node, 1
  {
    match node
    case Array(items) => Array(PublishedItems(items, decisions))
    case Object(fields) =>
      var kept := PublishedFields(fields, decisions);
      Object(if HasKey(fields, MARKER) then kept + [Annotation(fields, decisions).value] else kept)
    case _ => node
  }

  function PublishedItems(items: seq<Json>, decisions: Decisions): (r: seq<Json>)
    requires forall i :: 0 <= i < |items| ==> Honourable(items[i], decisions)
    decreases items, 0
  {
    seq(|items|, i requires 0 <= i < |items| => Published(items[i], decisions))
  }

  function PublishedFields(fields: seq<Field>, decisions: Decisions): (r: seq<Field>)
    requires forall i :: 0 <= i < |fields| ==> Honourable(fields[i].value, decisions)
    decreases fields, 0
  {
    seq(|fields|, i requires 0 <= i < |fields| => Field(fields[i].key, Published(fields[i].value, decisions)))
  }

  predicate SameKeys(a: seq<Field>, b: seq<Field>) {
    |a| == |b| && forall i :: 0 <= i < |a| ==> a[i].key == b[i].key
  }

  lemma {:induction false} FoundAtOneIndex(a: seq<Field>, b: seq<Field>, key: string) returns (i: nat)
    requires SameKeys(a, b) && HasKey(a, key)
    ensures i < |a| && a[i].key == key
    ensures Get(a, key) == Some(a[i].value) && Get(b, key) == Some(b[i].value)
  {
    if a[0].key == key {
      i := 0;
    } else {
      assert HasKey(a[1..], key) by {
        var j :| 0 <= j < |a| && a[j].key == key;
        assert a[1..][j - 1].key == key;
      }
      i := FoundAtOneIndex(a[1..], b[1..], key);
      i := i + 1;
    }
  }

  lemma SameKeysHaveKey(a: seq<Field>, b: seq<Field>, key: string)
    requires SameKeys(a, b)
    ensures HasKey(a, key) == HasKey(b, key)
  {
    if HasKey(a, key) {
      var i :| 0 <= i < |a| && a[i].key == key;
      assert b[i].key == key;
    }
    if HasKey(b, key) {
      var i :| 0 <= i < |b| && b[i].key == key;
      assert a[i].key == key;
    }
  }

  lemma {:induction false} GetIgnoresAddition(fields: seq<Field>, added: Field, key: string)
    requires added.key != key
    ensures Get(fields + [added], key) == Get(fields, key)
  {
    if fields == [] {
      assert ([added])[1..] == [];
      assert fields + [added] == [added];
    } else {
      assert (fields + [added])[1..] == fields[1..] + [added];
      GetIgnoresAddition(fields[1..], added, key);
    }
  }

  lemma PublishedKeepsStringType(member: Json, decisions: Decisions)
    requires Honourable(member, decisions)
    ensures IsStringType(Published(member, decisions)) == IsStringType(member)
  {
    if member.Object? {
      var kept := PublishedFields(member.fields, decisions);
      PublishedKeepsGet(member.fields, decisions, "type");
      if HasKey(member.fields, MARKER) {
        GetIgnoresAddition(kept, Annotation(member.fields, decisions).value, "type");
      }
    }
  }

  lemma PublishedKeepsGet(fields: seq<Field>, decisions: Decisions, key: string)
    requires forall i :: 0 <= i < |fields| ==> Honourable(fields[i].value, decisions)
    ensures HasKey(PublishedFields(fields, decisions), key) == HasKey(fields, key)
    ensures HasKey(fields, key) ==>
              && Honourable(Get(fields, key).value, decisions)
              && Get(PublishedFields(fields, decisions), key) == Some(Published(Get(fields, key).value, decisions))
  {
    var kept := PublishedFields(fields, decisions);
    SameKeysHaveKey(fields, kept, key);
    if HasKey(fields, key) {
      var i := FoundAtOneIndex(fields, kept, key);
      assert Honourable(fields[i].value, decisions);
    }
  }

  lemma PublishedKeepsUnion(fields: seq<Field>, decisions: Decisions, key: string)
    requires forall i :: 0 <= i < |fields| ==> Honourable(fields[i].value, decisions)
    ensures UnionHasString(PublishedFields(fields, decisions), key) == UnionHasString(fields, key)
  {
    PublishedKeepsGet(fields, decisions, key);
    if HasKey(fields, key) && Get(fields, key).value.Array? {
      var members := Get(fields, key).value.items;
      var members' := PublishedItems(members, decisions);
      forall i | 0 <= i < |members|
        ensures IsStringType(members'[i]) == IsStringType(members[i])
      {
        PublishedKeepsStringType(members[i], decisions);
      }
    }
  }

  lemma PublishedKeepsShape(fields: seq<Field>, decisions: Decisions)
    requires forall i :: 0 <= i < |fields| ==> Honourable(fields[i].value, decisions)
    ensures StringShaped(PublishedFields(fields, decisions)) == StringShaped(fields)
  {
    PublishedKeepsGet(fields, decisions, "type");
    PublishedKeepsUnion(fields, decisions, "anyOf");
    PublishedKeepsUnion(fields, decisions, "oneOf");
    if HasKey(fields, "type") {
      PublishedKeepsStrings(Get(fields, "type").value, decisions);
    }
  }

  lemma PublishedKeepsStrings(node: Json, decisions: Decisions)
    requires Honourable(node, decisions)
    ensures Published(node, decisions).String? == node.String?
    ensures node.String? ==> Published(node, decisions) == node
  {
  }

  lemma PublishedKeepsNames(named: Json, decisions: Decisions, r: Representation, v: seq<string>)
    requires Honourable(named, decisions)
    ensures FieldValues(Published(named, decisions), r, v) == FieldValues(named, r, v)
  {
    if named.Array? {
      var items' := PublishedItems(named.items, decisions);
      forall i | 0 <= i < |items'|
        ensures items'[i].String? == named.items[i].String?
        ensures items'[i].String? ==> items'[i] == named.items[i]
      {
        PublishedKeepsStrings(named.items[i], decisions);
      }
      if AllStrings(named.items) {
        assert items' == named.items;
      } else {
        assert !AllStrings(items');
      }
    }
  }

  /** All that annotating a node reads of it. */
  lemma AnnotationReads(a: seq<Field>, b: seq<Field>, decisions: Decisions)
    requires HasKey(a, MARKER) && HasKey(b, MARKER)
    requires Get(a, MARKER).value.String? == Get(b, MARKER).value.String?
    requires Get(a, MARKER).value.String? ==> Get(a, MARKER) == Get(b, MARKER)
    requires HasKey(a, ENUM_KEY) == HasKey(b, ENUM_KEY)
    requires HasKey(a, KNOWN_VALUES_KEY) == HasKey(b, KNOWN_VALUES_KEY)
    requires HasKey(a, FIELD_VALUES_KEY) == HasKey(b, FIELD_VALUES_KEY)
    requires StringShaped(a) == StringShaped(b)
    requires HasKey(a, FIELD_VALUES_KEY) ==> forall r, v ::
               FieldValues(Get(a, FIELD_VALUES_KEY).value, r, v) == FieldValues(Get(b, FIELD_VALUES_KEY).value, r, v)
    ensures Annotation(a, decisions) == Annotation(b, decisions)
  {
  }

  /** Annotating the walked node and annotating the original one are the same decision. */
  lemma AnnotationSeesTheOriginal(fields: seq<Field>, decisions: Decisions)
    requires forall i :: 0 <= i < |fields| ==> Honourable(fields[i].value, decisions)
    requires HasKey(fields, MARKER)
    ensures HasKey(PublishedFields(fields, decisions), MARKER)
    ensures Annotation(PublishedFields(fields, decisions), decisions) == Annotation(fields, decisions)
  {
    var kept := PublishedFields(fields, decisions);
    PublishedKeepsGet(fields, decisions, MARKER);
    PublishedKeepsStrings(Get(fields, MARKER).value, decisions);
    PublishedKeepsGet(fields, decisions, ENUM_KEY);
    PublishedKeepsGet(fields, decisions, KNOWN_VALUES_KEY);
    PublishedKeepsGet(fields, decisions, FIELD_VALUES_KEY);
    PublishedKeepsShape(fields, decisions);
    if HasKey(fields, FIELD_VALUES_KEY) {
      forall r, v
        ensures FieldValues(Get(kept, FIELD_VALUES_KEY).value, r, v) ==
                FieldValues(Get(fields, FIELD_VALUES_KEY).value, r, v)
      {
        PublishedKeepsNames(Get(fields, FIELD_VALUES_KEY).value, decisions, r, v);
      }
    }
    AnnotationReads(kept, fields, decisions);
  }

  // ----- the walk computes it -----------------------------------------------

  /**
   Apply succeeds exactly when every marker, read off the document as handed
   in, can be honoured; and what it returns is that document with one member
   added to each marked node. The pointer only ever names a refusal.
   */
  lemma {:induction false} WalkPublishes(node: Json, decisions: Decisions, pointer: string)
    ensures Walk(node, decisions, pointer).Ok? <==> Honourable(node, decisions)
    ensures Honourable(node, decisions) ==> Walk(node, decisions, pointer) == Ok(Published(node, decisions))
    decreases node, 1
  {
    match node
    case Array(items) =>
      WalkItemsPublish(items, decisions, pointer, 0);
      assert Honourable(node, decisions) <==> ItemsHonourable(items, decisions);
    case Object(fields) =>
      WalkFieldsPublish(fields, decisions, pointer);
      ObjectPublishes(fields, decisions, pointer);
    case _ =>
  }

  lemma ObjectPublishes(fields: seq<Field>, decisions: Decisions, pointer: string)
    requires WalkFields(fields, decisions, pointer).Ok? <==> FieldsHonourable(fields, decisions)
    requires FieldsHonourable(fields, decisions) ==>
               WalkFields(fields, decisions, pointer) == Ok(PublishedFields(fields, decisions))
    ensures Walk(Object(fields), decisions, pointer).Ok? <==> Honourable(Object(fields), decisions)
    ensures Honourable(Object(fields), decisions) ==>
              Walk(Object(fields), decisions, pointer) == Ok(Published(Object(fields), decisions))
  {
    assert Honourable(Object(fields), decisions) ==> FieldsHonourable(fields, decisions);
    if FieldsHonourable(fields, decisions) {
      PublishedKeepsGet(fields, decisions, MARKER);
      if HasKey(fields, MARKER) {
        AnnotationSeesTheOriginal(fields, decisions);
      }
    }
  }

  lemma PublishedItemsCons(items: seq<Json>, decisions: Decisions)
    requires items != [] && forall i :: 0 <= i < |items| ==> Honourable(items[i], decisions)
    ensures PublishedItems(items, decisions) ==
            [Published(items[0], decisions)] + PublishedItems(items[1..], decisions)
  {
  }

  lemma PublishedFieldsCons(fields: seq<Field>, decisions: Decisions)
    requires fields != [] && forall i :: 0 <= i < |fields| ==> Honourable(fields[i].value, decisions)
    ensures PublishedFields(fields, decisions) ==
            [Field(fields[0].key, Published(fields[0].value, decisions))] + PublishedFields(fields[1..], decisions)
  {
  }

  predicate ItemsHonourable(items: seq<Json>, decisions: Decisions) {
    forall i :: 0 <= i < |items| ==> Honourable(items[i], decisions)
  }

  predicate FieldsHonourable(fields: seq<Field>, decisions: Decisions) {
    forall i :: 0 <= i < |fields| ==> Honourable(fields[i].value, decisions)
  }

  lemma ItemsHonourableCons(items: seq<Json>, decisions: Decisions)
    requires items != []
    ensures ItemsHonourable(items, decisions) <==>
            Honourable(items[0], decisions) && ItemsHonourable(items[1..], decisions)
  {
    assert items == [items[0]] + items[1..];
  }

  lemma FieldsHonourableCons(fields: seq<Field>, decisions: Decisions)
    requires fields != []
    ensures FieldsHonourable(fields, decisions) <==>
            Honourable(fields[0].value, decisions) && FieldsHonourable(fields[1..], decisions)
  {
    assert fields == [fields[0]] + fields[1..];
  }

  lemma {:induction false} WalkItemsPublish(items: seq<Json>, decisions: Decisions, pointer: string, index: nat)
    ensures WalkItems(items, decisions, pointer, index).Ok? <==> ItemsHonourable(items, decisions)
    ensures ItemsHonourable(items, decisions) ==>
              WalkItems(items, decisions, pointer, index) == Ok(PublishedItems(items, decisions))
    decreases items, 0
  {
    if items == [] {
      assert PublishedItems(items, decisions) == [];
    } else {
      WalkPublishes(items[0], decisions, pointer + ("/" + Decimal(index)));
      WalkItemsPublish(items[1..], decisions, pointer, index + 1);
      ItemsHonourableCons(items, decisions);
      if ItemsHonourable(items, decisions) {
        PublishedItemsCons(items, decisions);
      }
    }
  }

  lemma {:induction false} WalkFieldsPublish(fields: seq<Field>, decisions: Decisions, pointer: string)
    ensures WalkFields(fields, decisions, pointer).Ok? <==> FieldsHonourable(fields, decisions)
    ensures FieldsHonourable(fields, decisions) ==>
              WalkFields(fields, decisions, pointer) == Ok(PublishedFields(fields, decisions))
    decreases fields, 0
  {
    if fields == [] {
      assert PublishedFields(fields, decisions) == [];
    } else {
      WalkPublishes(fields[0].value, decisions, pointer + ("/" + Escape(fields[0].key)));
      WalkFieldsPublish(fields[1..], decisions, pointer);
      FieldsHonourableCons(fields, decisions);
      if FieldsHonourable(fields, decisions) {
        PublishedFieldsCons(fields, decisions);
      }
    }
  }
}
