/**
 What tools/known_values/apply.py promises about whole documents: stripping
 undoes applying, applying twice is refused, and the pointers the walk writes
 name the nodes they were written for.
 */
module KnownValuesLaws {
  import opened Wrappers
  import opened Json
  import opened JsonPointer
  import opened KnownValues

  // ----- strip is the inverse of apply --------------------------------------

  lemma AddedKey(fields: seq<Field>, decisions: Decisions)
    requires HasKey(fields, MARKER) && Annotation(fields, decisions).Ok?
    ensures Annotation(fields, decisions).value.key in {ENUM_KEY, KNOWN_VALUES_KEY}
    ensures exists v :: Annotation(fields, decisions).value.value == StringList(v)
    ensures !HasKey(fields, ENUM_KEY) && !HasKey(fields, KNOWN_VALUES_KEY)
  {
  }

  lemma StripKeepsStringList(values: seq<string>)
    ensures Strip(StringList(values)) == StringList(values)
  {
    var items := StringList(values).items;
    assert forall i :: 0 <= i < |items| ==> Strip(items[i]) == items[i];
    assert seq(|items|, i requires 0 <= i < |items| => Strip(items[i])) == items;
  }

  lemma {:induction false} WithoutKeepsTheRest(fields: seq<Field>)
    requires !HasKey(fields, ENUM_KEY) && !HasKey(fields, KNOWN_VALUES_KEY)
    ensures Without(fields) == fields
  {
    if fields == [] {
    } else {
      var front := fields[..|fields| - 1];
      assert fields[|fields| - 1].key != ENUM_KEY && fields[|fields| - 1].key != KNOWN_VALUES_KEY;
      forall key | HasKey(front, key)
        ensures HasKey(fields, key)
      {
        var i :| 0 <= i < |front| && front[i].key == key;
        assert fields[i].key == key;
      }
      WithoutKeepsTheRest(front);
      assert fields == front + [fields[|fields| - 1]];
    }
  }

  lemma {:induction false} StripPublished(node: Json, decisions: Decisions)
    requires Honourable(node, decisions)
    ensures Strip(Published(node, decisions)) == node
  {
    match node
    case Array(items) =>
      forall i | 0 <= i < |items|
        ensures Strip(PublishedItems(items, decisions)[i]) == items[i]
      {
        StripPublished(items[i], decisions);
      }
      assert Strip(Published(node, decisions)).items == items;
    case Object(fields) =>
      var kept := PublishedFields(fields, decisions);
      forall i | 0 <= i < |fields|
        ensures Strip(kept[i].value) == fields[i].value
      {
        StripPublished(fields[i].value, decisions);
      }
      assert StripFields(kept) == fields;
      if HasKey(fields, MARKER) {
        StripMarked(fields, kept, decisions);
      }
    case _ =>
  }

  lemma StripMarked(fields: seq<Field>, kept: seq<Field>, decisions: Decisions)
    requires HasKey(fields, MARKER) && Annotation(fields, decisions).Ok?
    requires StripFields(kept) == fields
    ensures Strip(Object(kept + [Annotation(fields, decisions).value])) == Object(fields)
  {
    AddedKey(fields, decisions);
    var added := Annotation(fields, decisions).value;
    var v :| added.value == StringList(v);
    StripAddition(fields, kept, added, v);
  }

  lemma StripAddition(fields: seq<Field>, kept: seq<Field>, added: Field, v: seq<string>)
    requires HasKey(fields, MARKER) && !HasKey(fields, ENUM_KEY) && !HasKey(fields, KNOWN_VALUES_KEY)
    requires added.key in {ENUM_KEY, KNOWN_VALUES_KEY} && added.value == StringList(v)
    requires StripFields(kept) == fields
    ensures Strip(Object(kept + [added])) == Object(fields)
  {
    var stripped := StripFields(kept + [added]);
    StripFieldsAppend(kept, added);
    StripKeepsStringList(v);
    assert stripped == fields + [added];
    var i :| 0 <= i < |fields| && fields[i].key == MARKER;
    assert stripped[i].key == MARKER;
    assert stripped[..|stripped| - 1] == fields;
    WithoutKeepsTheRest(fields);
  }

  lemma StripFieldsAppend(kept: seq<Field>, added: Field)
    ensures StripFields(kept + [added]) == StripFields(kept) + [Field(added.key, Strip(added.value))]
  {
    var all := kept + [added];
    var left, right := StripFields(all), StripFields(kept) + [Field(added.key, Strip(added.value))];
    assert |left| == |right|;
    forall i | 0 <= i < |all|
      ensures left[i] == right[i]
    {
      assert left[i] == Field(all[i].key, Strip(all[i].value));
    }
  }

  /** Wherever apply succeeds, strip gives the document back, member order included. */
  lemma StripUndoesApply(document: Json, decisions: Decisions)
    requires Apply(document, decisions).Ok?
    ensures Strip(Apply(document, decisions).value) == document
    ensures Apply(Strip(Apply(document, decisions).value), decisions) == Apply(document, decisions)
  {
    WalkPublishes(document, decisions, "");
    StripPublished(document, decisions);
  }

  // ----- applying twice ------------------------------------------------------

  lemma {:induction false} UnmarkedIsUntouched(node: Json, decisions: Decisions)
    requires !HasMarkedNode(node)
    ensures Honourable(node, decisions) && Published(node, decisions) == node
  {
    match node
    case Array(items) =>
      forall i | 0 <= i < |items|
        ensures Honourable(items[i], decisions) && Published(items[i], decisions) == items[i]
      {
        UnmarkedIsUntouched(items[i], decisions);
      }
      assert PublishedItems(items, decisions) == items;
    case Object(fields) =>
      forall i | 0 <= i < |fields|
        ensures Honourable(fields[i].value, decisions) && Published(fields[i].value, decisions) == fields[i].value
      {
        UnmarkedIsUntouched(fields[i].value, decisions);
      }
      assert PublishedFields(fields, decisions) == fields;
    case _ =>
  }

  lemma AnnotatedIsSpent(kept: seq<Field>, added: Field, decisions: Decisions)
    requires added.key in {ENUM_KEY, KNOWN_VALUES_KEY}
    ensures HasKey(kept + [added], MARKER) ==> Annotation(kept + [added], decisions).Err?
  {
    assert (kept + [added])[|kept|].key == added.key;
  }

  lemma MarkedNodeIsSpent(fields: seq<Field>, decisions: Decisions)
    requires Honourable(Object(fields), decisions) && HasKey(fields, MARKER)
    ensures !Honourable(Published(Object(fields), decisions), decisions)
  {
    var kept, added := PublishedFields(fields, decisions), Annotation(fields, decisions).value;
    AddedKey(fields, decisions);
    var i :| 0 <= i < |fields| && fields[i].key == MARKER;
    assert (kept + [added])[i].key == MARKER;
    AnnotatedIsSpent(kept, added, decisions);
  }

  lemma {:induction false} PublishedIsSpent(node: Json, decisions: Decisions)
    requires Honourable(node, decisions) && HasMarkedNode(node)
    ensures !Honourable(Published(node, decisions), decisions)
  {
    match node
    case Array(items) =>
      var i :| 0 <= i < |items| && HasMarkedNode(items[i]);
      PublishedIsSpent(items[i], decisions);
      assert PublishedItems(items, decisions)[i] == Published(items[i], decisions);
    case Object(fields) =>
      if HasKey(fields, MARKER) {
        MarkedNodeIsSpent(fields, decisions);
      } else {
        var i :| 0 <= i < |fields| && HasMarkedNode(fields[i].value);
        PublishedIsSpent(fields[i].value, decisions);
        assert Published(node, decisions) == Object(PublishedFields(fields, decisions));
        assert PublishedFields(fields, decisions)[i].value == Published(fields[i].value, decisions);
      }
  }

  /** A second application is refused exactly when there is something it would have annotated. */
  lemma SecondApplyRefused(document: Json, decisions: Decisions)
    requires Apply(document, decisions).Ok?
    ensures Apply(Apply(document, decisions).value, decisions).Err? <==> HasMarkedNode(document)
  {
    WalkPublishes(document, decisions, "");
    var once := Published(document, decisions);
    WalkPublishes(once, decisions, "");
    if HasMarkedNode(document) {
      PublishedIsSpent(document, decisions);
    } else {
      UnmarkedIsUntouched(document, decisions);
    }
  }

  // ----- the concept-to-schema mapping ---------------------------------------

  datatype Mark = Mark(pointer: string, node: Json)

  predicate NamesConcept(node: Json) {
    && node.Object?
    && Get(node.fields, MARKER).Some?
    && Get(node.fields, MARKER).value.String?
  }

  function MarkedIn(node: Json, pointer: string): seq<Mark>
    decreases node, 1
  {
    match node
    case Array(items) => MarkedItems(items, pointer, 0)
    case Object(fields) =>
      (if NamesConcept(node) then [Mark(pointer, node)] else []) + MarkedFields(fields, pointer)
    case _ => []
  }

  function MarkedItems(items: seq<Json>, pointer: string, index: nat): seq<Mark>
    decreases items, 0
  {
    if items == [] then []
    else MarkedIn(items[0], pointer + ("/" + Decimal(index))) + MarkedItems(items[1..], pointer, index + 1)
  }

  function MarkedFields(fields: seq<Field>, pointer: string): seq<Mark>
    decreases fields, 0
  {
    if fields == [] then []
    else MarkedIn(fields[0].value, pointer + ("/" + Escape(fields[0].key))) + MarkedFields(fields[1..], pointer)
  }

  lemma {:induction false} MarkedFieldsAppend(fields: seq<Field>, k: nat, pointer: string)
    requires k < |fields|
    ensures MarkedFields(fields[..k + 1], pointer) ==
            MarkedFields(fields[..k], pointer) + MarkedIn(fields[k].value, pointer + ("/" + Escape(fields[k].key)))
  {
    if k == 0 {
      assert fields[..1] == [fields[0]] && [fields[0]][1..] == [];
    } else {
      var head, rest := MarkedIn(fields[0].value, pointer + ("/" + Escape(fields[0].key))), fields[1..];
      assert fields[..k + 1][1..] == rest[..k] && fields[..k][1..] == rest[..k - 1];
      assert MarkedFields(fields[..k + 1], pointer) == head + MarkedFields(rest[..k], pointer);
      assert MarkedFields(fields[..k], pointer) == head + MarkedFields(rest[..k - 1], pointer);
      MarkedFieldsAppend(rest, k - 1, pointer);
      assert rest[k - 1] == fields[k];
      Regroup(head, MarkedFields(rest[..k - 1], pointer), MarkedIn(fields[k].value, pointer + ("/" + Escape(fields[k].key))));
    }
  }

  lemma {:induction false} MarkedItemsAppend(items: seq<Json>, k: nat, pointer: string, index: nat)
    requires k < |items|
    ensures MarkedItems(items[..k + 1], pointer, index) ==
            MarkedItems(items[..k], pointer, index) + MarkedIn(items[k], pointer + ("/" + Decimal(index + k)))
  {
    if k == 0 {
      assert items[..1] == [items[0]] && [items[0]][1..] == [];
    } else {
      var head, rest := MarkedIn(items[0], pointer + ("/" + Decimal(index))), items[1..];
      assert items[..k + 1][1..] == rest[..k] && items[..k][1..] == rest[..k - 1];
      assert MarkedItems(items[..k + 1], pointer, index) == head + MarkedItems(rest[..k], pointer, index + 1);
      assert MarkedItems(items[..k], pointer, index) == head + MarkedItems(rest[..k - 1], pointer, index + 1);
      MarkedItemsAppend(rest, k - 1, pointer, index + 1);
      assert rest[k - 1] == items[k] && (index + 1) + (k - 1) == index + k;
      Regroup(head, MarkedItems(rest[..k - 1], pointer, index + 1), MarkedIn(items[k], pointer + ("/" + Decimal(index + k))));
    }
  }

  lemma Regroup(earlier: seq<Mark>, here: seq<Mark>, below: seq<Mark>)
    ensures (earlier + here) + below == earlier + (here + below)
  {
  }

  /** The list every level of `_collect` appends to. */
  class Found {
    var marks: seq<Mark>

    constructor ()
      ensures marks == []
    {
      marks := [];
    }

    method Collect(node: Json, pointer: string)
      modifies this
      ensures marks == old(marks) + MarkedIn(node, pointer)
      decreases node, 1
    {
      if node.Object? {
        ghost var here := if NamesConcept(node) then [Mark(pointer, node)] else [];
        if NamesConcept(node) {
          marks := marks + [Mark(pointer, node)];
        }
        assert marks == old(marks) + here;
        CollectFields(node.fields, pointer);
        Regroup(old(marks), here, MarkedFields(node.fields, pointer));
      } else if node.Array? {
        CollectItems(node.items, pointer);
      }
    }

    method CollectFields(fields: seq<Field>, pointer: string)
      modifies this
      ensures marks == old(marks) + MarkedFields(fields, pointer)
      decreases fields, 0
    {
      for k := 0 to |fields|
        invariant marks == old(marks) + MarkedFields(fields[..k], pointer)
      {
        MarkedFieldsAppend(fields, k, pointer);
        Collect(fields[k].value, pointer + ("/" + Escape(fields[k].key)));
      }
      assert fields[..|fields|] == fields;
    }

    method CollectItems(items: seq<Json>, pointer: string)
      modifies this
      ensures marks == old(marks) + MarkedItems(items, pointer, 0)
      decreases items, 0
    {
      for index := 0 to |items|
        invariant marks == old(marks) + MarkedItems(items[..index], pointer, 0)
      {
        MarkedItemsAppend(items, index, pointer, 0);
        Collect(items[index], pointer + ("/" + Decimal(index)));
      }
      assert items[..|items|] == items;
    }
  }

  method MarkedNodes(document: Json) returns (marks: seq<Mark>)
    ensures marks == MarkedIn(document, "")
  {
    var found := new Found();
    found.Collect(document, "");
    marks := found.marks;
  }
}
