/**
 The pointers written by the walk and by `_collect`
 (tools/known_values/apply.py), read back under RFC 6901.
 */
module PointerLaws {
  import opened Wrappers
  import opened Json
  import opened JsonPointer
  import opened KnownValues
  import opened KnownValuesLaws

  // ----- each mark is found where its pointer says ---------------------------

  predicate Addresses(node: Json, start: string, mark: Mark) {
    && start <= mark.pointer
    && PointerShaped(mark.pointer[|start|..])
    && Resolve(node, mark.pointer[|start|..]) == Some(mark.node)
    && NamesConcept(mark.node)
  }

  lemma AddressesThroughSegment(node: Json, child: Json, start: string, token: string, mark: Mark)
    requires '/' !in token && Child(node, token) == Some(child)
    requires Addresses(child, start + ("/" + token), mark)
    ensures Addresses(node, start, mark)
  {
    var base := start + ("/" + token);
    var rest := mark.pointer[|base|..];
    var below := mark.pointer[|start|..];
    assert mark.pointer == base + rest;
    assert below == "/" + token + rest;
    assert below[0] == '/';
    assert Resolve(node, below) == Resolve(child, rest) by {
      ResolveSegment(node, token, rest);
    }
  }

  lemma {:induction false} MarksResolve(node: Json, start: string)
    requires WellFormed(node)
    ensures forall m :: m in MarkedIn(node, start) ==> Addresses(node, start, m)
    decreases node, 1
  {
    match node
    case Array(items) =>
      ItemMarksResolve(items, 0, start);
      assert items[0..] == items;
    case Object(fields) =>
      FieldMarksResolve(fields, 0, start);
      assert fields[0..] == fields;
    case _ =>
  }

  lemma {:induction false} ItemMarksResolve(items: seq<Json>, k: nat, start: string)
    requires WellFormed(Array(items)) && k <= |items|
    ensures forall m :: m in MarkedItems(items[k..], start, k) ==> Addresses(Array(items), start, m)
    decreases items, 0, |items| - k
  {
    if k == |items| {
    } else {
      var token := Decimal(k);
      assert '/' !in token;
      MarksResolve(items[k], start + ("/" + token));
      DecimalParses(k);
      forall m | m in MarkedIn(items[k], start + ("/" + token))
        ensures Addresses(Array(items), start, m)
      {
        AddressesThroughSegment(Array(items), items[k], start, token, m);
      }
      ItemMarksResolve(items, k + 1, start);
      assert items[k..][1..] == items[k + 1..];
    }
  }

  lemma {:induction false} FieldMarksResolve(fields: seq<Field>, k: nat, start: string)
    requires WellFormed(Object(fields)) && k <= |fields|
    ensures forall m :: m in MarkedFields(fields[k..], start) ==> Addresses(Object(fields), start, m)
    decreases fields, 0, |fields| - k
  {
    if k == |fields| {
    } else {
      var token := Escape(fields[k].key);
      EscapeHasNoSlash(fields[k].key);
      UnescapeEscape(fields[k].key);
      GetAt(fields, k);
      MarksResolve(fields[k].value, start + ("/" + token));
      forall m | m in MarkedIn(fields[k].value, start + ("/" + token))
        ensures Addresses(Object(fields), start, m)
      {
        AddressesThroughSegment(Object(fields), fields[k].value, start, token, m);
      }
      FieldMarksResolve(fields, k + 1, start);
      assert fields[k..][1..] == fields[k + 1..];
    }
  }

  // ----- and no other mark has it --------------------------------------------

  predicate UniquePointers(marks: seq<Mark>) {
    forall i, j :: 0 <= i < j < |marks| ==> marks[i].pointer != marks[j].pointer
  }

  predicate Under(start: string, token: string, pointer: string) {
    && start + ("/" + token) <= pointer
    && PointerShaped(pointer[|start| + 1 + |token|..])
  }

  lemma UnderDiffers(start: string, a: string, b: string, p: string, q: string)
    requires '/' !in a && '/' !in b && a != b
    requires Under(start, a, p) && Under(start, b, q)
    ensures p != q
  {
    var x, y := p[|start| + 1 + |a|..], q[|start| + 1 + |b|..];
    assert p[|start| + 1..] == a + x;
    assert q[|start| + 1..] == b + y;
    SegmentsDiffer(a, b, x, y);
  }

  lemma MarksUnder(node: Json, start: string, token: string)
    requires WellFormed(node)
    ensures forall m :: m in MarkedIn(node, start + ("/" + token)) ==> Under(start, token, m.pointer)
  {
    MarksResolve(node, start + ("/" + token));
  }

  lemma EscapeInjective(a: string, b: string)
    requires a != b
    ensures Escape(a) != Escape(b)
  {
    UnescapeEscape(a);
    UnescapeEscape(b);
  }

  lemma DecimalInjective(a: nat, b: nat)
    requires a != b
    ensures Decimal(a) != Decimal(b)
  {
    DecimalParses(a);
    DecimalParses(b);
  }

  /** None of the later members' marks sits under the token of an earlier one. */
  lemma {:induction false} FieldMarksAvoid(fields: seq<Field>, start: string, key: string)
    requires WellFormed(Object(fields)) && !HasKey(fields, key)
    ensures forall m, p :: m in MarkedFields(fields, start) && Under(start, Escape(key), p) ==> m.pointer != p
  {
    if fields == [] {
    } else {
      var first := fields[0];
      assert first.key != key;
      EscapeInjective(first.key, key);
      EscapeHasNoSlash(first.key);
      EscapeHasNoSlash(key);
      MarksUnder(first.value, start, Escape(first.key));
      forall m, p | m in MarkedIn(first.value, start + ("/" + Escape(first.key))) && Under(start, Escape(key), p)
        ensures m.pointer != p
      {
        UnderDiffers(start, Escape(first.key), Escape(key), m.pointer, p);
      }
      assert !HasKey(fields[1..], key);
      FieldMarksAvoid(fields[1..], start, key);
    }
  }

  lemma {:induction false} ItemMarksAvoid(items: seq<Json>, start: string, index: nat, earlier: nat)
    requires WellFormed(Array(items)) && earlier < index
    ensures forall m, p :: m in MarkedItems(items, start, index) && Under(start, Decimal(earlier), p) ==> m.pointer != p
  {
    if items == [] {
    } else {
      DecimalInjective(index, earlier);
      MarksUnder(items[0], start, Decimal(index));
      forall m, p | m in MarkedIn(items[0], start + ("/" + Decimal(index))) && Under(start, Decimal(earlier), p)
        ensures m.pointer != p
      {
        UnderDiffers(start, Decimal(index), Decimal(earlier), m.pointer, p);
      }
      ItemMarksAvoid(items[1..], start, index + 1, earlier);
    }
  }

  lemma UniqueConcat(a: seq<Mark>, b: seq<Mark>)
    requires UniquePointers(a) && UniquePointers(b)
    requires forall m, n :: m in a && n in b ==> m.pointer != n.pointer
    ensures UniquePointers(a + b)
  {
    var all := a + b;
    forall i, j | 0 <= i < j < |all|
      ensures all[i].pointer != all[j].pointer
    {
      if i < |a| <= j {
        assert all[i] in a && all[j] in b;
      }
    }
  }

  lemma {:induction false} MarksUnique(node: Json, start: string)
    requires WellFormed(node)
    ensures UniquePointers(MarkedIn(node, start))
    decreases node, 1
  {
    match node
    case Array(items) =>
      ItemMarksUnique(items, start, 0);
    case Object(fields) =>
      FieldMarksUnique(fields, start);
      FieldMarksLonger(fields, start);
      var own := if NamesConcept(node) then [Mark(start, node)] else [];
      UniqueConcat(own, MarkedFields(fields, start));
    case _ =>
  }

  lemma {:induction false} FieldMarksLonger(fields: seq<Field>, start: string)
    requires WellFormed(Object(fields))
    ensures forall m :: m in MarkedFields(fields, start) ==> |m.pointer| > |start|
  {
    if fields == [] {
    } else {
      MarksUnder(fields[0].value, start, Escape(fields[0].key));
      FieldMarksLonger(fields[1..], start);
    }
  }

  lemma {:induction false} FieldMarksUnique(fields: seq<Field>, start: string)
    requires WellFormed(Object(fields))
    ensures UniquePointers(MarkedFields(fields, start))
    decreases fields, 0
  {
    if fields == [] {
    } else {
      var token := Escape(fields[0].key);
      MarksUnique(fields[0].value, start + ("/" + token));
      MarksUnder(fields[0].value, start, token);
      FieldMarksUnique(fields[1..], start);
      FieldMarksAvoid(fields[1..], start, fields[0].key);
      UniqueConcat(MarkedIn(fields[0].value, start + ("/" + token)), MarkedFields(fields[1..], start));
    }
  }

  lemma {:induction false} ItemMarksUnique(items: seq<Json>, start: string, index: nat)
    requires WellFormed(Array(items))
    ensures UniquePointers(MarkedItems(items, start, index))
    decreases items, 0
  {
    if items == [] {
    } else {
      MarksUnique(items[0], start + ("/" + Decimal(index)));
      MarksUnder(items[0], start, Decimal(index));
      ItemMarksUnique(items[1..], start, index + 1);
      ItemMarksAvoid(items[1..], start, index + 1, index);
      UniqueConcat(MarkedIn(items[0], start + ("/" + Decimal(index))), MarkedItems(items[1..], start, index + 1));
    }
  }

  /**
   The mapping read out of a document: pairwise distinct pointers, each
   resolving to the node it was reported with.
   */
  lemma MarkedNodesAreAddressed(document: Json)
    requires WellFormed(document)
    ensures UniquePointers(MarkedIn(document, ""))
    ensures forall m :: m in MarkedIn(document, "") ==>
              Resolve(document, m.pointer) == Some(m.node) && NamesConcept(m.node)
  {
    MarksUnique(document, "");
    MarksResolve(document, "");
    forall m | m in MarkedIn(document, "")
      ensures Resolve(document, m.pointer) == Some(m.node) && NamesConcept(m.node)
    {
      assert Addresses(document, "", m);
      assert m.pointer[|""|..] == m.pointer;
    }
  }

  // ----- nothing is missed ------------------------------------------------------

  lemma {:induction false} ItemMarksInclude(items: seq<Json>, start: string, index: nat, i: nat)
    requires i < |items|
    ensures forall m :: m in MarkedIn(items[i], start + ("/" + Decimal(index + i))) ==>
              m in MarkedItems(items, start, index)
  {
    var head, tail := MarkedIn(items[0], start + ("/" + Decimal(index))), MarkedItems(items[1..], start, index + 1);
    assert MarkedItems(items, start, index) == head + tail;
    var at := index + i;
    if i > 0 {
      ItemMarksInclude(items[1..], start, index + 1, i - 1);
      assert items[1..][i - 1] == items[i] && index + 1 + (i - 1) == at;
      assert forall m :: m in MarkedIn(items[i], start + ("/" + Decimal(at))) ==> m in tail;
    }
  }

  lemma {:induction false} FieldMarksInclude(fields: seq<Field>, start: string, i: nat)
    requires i < |fields|
    ensures forall m :: m in MarkedIn(fields[i].value, start + ("/" + Escape(fields[i].key))) ==>
              m in MarkedFields(fields, start)
  {
    var head, tail := MarkedIn(fields[0].value, start + ("/" + Escape(fields[0].key))), MarkedFields(fields[1..], start);
    assert MarkedFields(fields, start) == head + tail;
    if i > 0 {
      FieldMarksInclude(fields[1..], start, i - 1);
      assert fields[1..][i - 1] == fields[i];
      assert forall m :: m in MarkedIn(fields[i].value, start + ("/" + Escape(fields[i].key))) ==> m in tail;
    }
  }

  /** Any node a pointer can reach that names a concept is reported. */
  lemma {:induction false} EveryNamingNodeIsReported(node: Json, start: string, pointer: string, target: Json)
    requires Resolve(node, pointer) == Some(target) && NamesConcept(target)
    ensures exists m :: m in MarkedIn(node, start) && m.node == target
    decreases |pointer|
  {
    if pointer == "" {
      assert MarkedIn(node, start)[0] == Mark(start, node);
    } else {
      var rest := pointer[1..];
      var n := TokenLength(rest);
      var child := Child(node, rest[..n]).value;
      if node.Array? {
        var i := ParseIndex(rest[..n]).value;
        var below := start + ("/" + Decimal(i));
        EveryNamingNodeIsReported(child, below, rest[n..], target);
        ItemMarksInclude(node.items, start, 0, i);
        var m :| m in MarkedIn(child, below) && m.node == target;
        assert m in MarkedIn(node, start);
      } else {
        var i :| 0 <= i < |node.fields| && node.fields[i].value == child;
        var below := start + ("/" + Escape(node.fields[i].key));
        EveryNamingNodeIsReported(child, below, rest[n..], target);
        FieldMarksInclude(node.fields, start, i);
        var m :| m in MarkedIn(child, below) && m.node == target;
        assert m in MarkedIn(node, start);
      }
    }
  }

  // ----- applying keeps the mapping ---------------------------------------------

  function ConceptOf(node: Json): Option<string> {
    if NamesConcept(node) then Some(Get(node.fields, MARKER).value.s) else None
  }

  /** The (pointer, concept) pairs, in document order. */
  function Mapping(marks: seq<Mark>): seq<(string, Option<string>)> {
    seq(|marks|, i requires 0 <= i < |marks| => (marks[i].pointer, ConceptOf(marks[i].node)))
  }

  lemma MappingConcat(a: seq<Mark>, b: seq<Mark>)
    ensures Mapping(a + b) == Mapping(a) + Mapping(b)
  {
  }

  lemma {:induction false} StringListHasNoMarks(items: seq<Json>, start: string, index: nat)
    requires AllStrings(items)
    ensures MarkedItems(items, start, index) == []
  {
    if items == [] {
    } else {
      StringListHasNoMarks(items[1..], start, index + 1);
    }
  }

  lemma {:induction false} AdditionAddsNoMarks(fields: seq<Field>, added: Field, start: string)
    requires exists v :: added.value == StringList(v)
    ensures MarkedFields(fields + [added], start) == MarkedFields(fields, start)
  {
    if fields == [] {
      assert fields + [added] == [added] && [added][1..] == [];
      StringListHasNoMarks(added.value.items, start + ("/" + Escape(added.key)), 0);
    } else {
      assert (fields + [added])[1..] == fields[1..] + [added];
      AdditionAddsNoMarks(fields[1..], added, start);
    }
  }

  lemma PublishedKeepsConcept(node: Json, decisions: Decisions)
    requires Honourable(node, decisions)
    ensures ConceptOf(Published(node, decisions)) == ConceptOf(node)
  {
    if node.Object? {
      PublishedKeepsGet(node.fields, decisions, MARKER);
      if HasKey(node.fields, MARKER) {
        AddedKey(node.fields, decisions);
        PublishedKeepsStrings(Get(node.fields, MARKER).value, decisions);
        GetIgnoresAddition(PublishedFields(node.fields, decisions), Annotation(node.fields, decisions).value, MARKER);
      }
    }
  }

  lemma {:induction false} PublishedKeepsMapping(node: Json, decisions: Decisions, start: string)
    requires Honourable(node, decisions)
    ensures Mapping(MarkedIn(Published(node, decisions), start)) == Mapping(MarkedIn(node, start))
    decreases node, 1
  {
    match node
    case Array(items) =>
      PublishedItemsKeepMapping(items, decisions, start, 0);
    case Object(fields) =>
      PublishedFieldsKeepMapping(fields, decisions, start);
      PublishedObjectKeepsMapping(node, decisions, start);
    case _ =>
  }

  lemma PublishedObjectKeepsMapping(node: Json, decisions: Decisions, start: string)
    requires node.Object? && Honourable(node, decisions)
    requires Mapping(MarkedFields(PublishedFields(node.fields, decisions), start)) == Mapping(MarkedFields(node.fields, start))
    ensures Mapping(MarkedIn(Published(node, decisions), start)) == Mapping(MarkedIn(node, start))
  {
    var out := Published(node, decisions);
    PublishedKeepsConcept(node, decisions);
    AdditionKeepsMarks(node, decisions, start);
    MarkedObject(node, start);
    MarkedObject(out, start);
    MappingConcat(Here(node, start), MarkedFields(node.fields, start));
    MappingConcat(Here(out, start), MarkedFields(out.fields, start));
    assert Mapping(Here(out, start)) == Mapping(Here(node, start));
  }

  lemma MarkedObject(node: Json, start: string)
    requires node.Object?
    ensures MarkedIn(node, start) == Here(node, start) + MarkedFields(node.fields, start)
  {
  }

  lemma AdditionKeepsMarks(node: Json, decisions: Decisions, start: string)
    requires node.Object? && Honourable(node, decisions)
    ensures Published(node, decisions).Object?
    ensures MarkedFields(Published(node, decisions).fields, start) == MarkedFields(PublishedFields(node.fields, decisions), start)
  {
    if HasKey(node.fields, MARKER) {
      AddedKey(node.fields, decisions);
      AdditionAddsNoMarks(PublishedFields(node.fields, decisions), Annotation(node.fields, decisions).value, start);
    }
  }

  /** The node's own mark, if it names a concept. */
  function Here(node: Json, start: string): seq<Mark> {
    if NamesConcept(node) then [Mark(start, node)] else []
  }

  lemma {:induction false} PublishedItemsKeepMapping(items: seq<Json>, decisions: Decisions, start: string, index: nat)
    requires forall i :: 0 <= i < |items| ==> Honourable(items[i], decisions)
    ensures Mapping(MarkedItems(PublishedItems(items, decisions), start, index)) ==
            Mapping(MarkedItems(items, start, index))
    decreases items, 0
  {
    if items == [] {
    } else {
      var below := start + ("/" + Decimal(index));
      var out := PublishedItems(items, decisions);
      assert out[1..] == PublishedItems(items[1..], decisions);
      PublishedKeepsMapping(items[0], decisions, below);
      PublishedItemsKeepMapping(items[1..], decisions, start, index + 1);
      MappingConcat(MarkedIn(items[0], below), MarkedItems(items[1..], start, index + 1));
      MappingConcat(MarkedIn(out[0], below), MarkedItems(out[1..], start, index + 1));
    }
  }

  lemma {:induction false} PublishedFieldsKeepMapping(fields: seq<Field>, decisions: Decisions, start: string)
    requires forall i :: 0 <= i < |fields| ==> Honourable(fields[i].value, decisions)
    ensures Mapping(MarkedFields(PublishedFields(fields, decisions), start)) == Mapping(MarkedFields(fields, start))
    decreases fields, 0
  {
    if fields == [] {
    } else {
      var below := start + ("/" + Escape(fields[0].key));
      var out := PublishedFields(fields, decisions);
      assert out[1..] == PublishedFields(fields[1..], decisions);
      PublishedKeepsMapping(fields[0].value, decisions, below);
      PublishedFieldsKeepMapping(fields[1..], decisions, start);
      MappingConcat(MarkedIn(fields[0].value, below), MarkedFields(fields[1..], start));
      MappingConcat(MarkedIn(out[0].value, below), MarkedFields(out[1..], start));
    }
  }

  /** A successful application leaves the concept-to-schema mapping as it was, in its order. */
  lemma ApplyKeepsMapping(document: Json, decisions: Decisions)
    requires Apply(document, decisions).Ok?
    ensures Mapping(MarkedIn(Apply(document, decisions).value, "")) == Mapping(MarkedIn(document, ""))
  {
    WalkPublishes(document, decisions, "");
    PublishedKeepsMapping(document, decisions, "");
  }

  // ----- where a refusal points ---------------------------------------------------

  /** The pointer leads to a marked node that annotating refuses with this code. */
  predicate RefusedAt(document: Json, decisions: Decisions, pointer: string, code: Code) {
    match Resolve(document, pointer)
    case Some(Object(fields)) => HasKey(fields, MARKER) && Annotation(fields, decisions) == Err(code)
    case _ => false
  }

  predicate ChildrenHonourable(node: Json, decisions: Decisions) {
    match node
    case Array(items) => forall i :: 0 <= i < |items| ==> Honourable(items[i], decisions)
    case Object(fields) => forall i :: 0 <= i < |fields| ==> Honourable(fields[i].value, decisions)
    case _ => true
  }

  lemma {:induction false} RefusedItem(items: seq<Json>, decisions: Decisions, start: string, index: nat)
    returns (i: nat)
    requires WalkItems(items, decisions, start, index).Err?
    ensures i < |items|
    ensures Walk(items[i], decisions, start + ("/" + Decimal(index + i))) ==
            Err(WalkItems(items, decisions, start, index).error)
  {
    if Walk(items[0], decisions, start + ("/" + Decimal(index))).Err? {
      i := 0;
    } else {
      var j := RefusedItem(items[1..], decisions, start, index + 1);
      i := j + 1;
      assert index + 1 + j == index + i && items[1..][j] == items[i];
    }
  }

  lemma {:induction false} RefusedField(fields: seq<Field>, decisions: Decisions, start: string)
    returns (i: nat)
    requires WalkFields(fields, decisions, start).Err?
    ensures i < |fields|
    ensures Walk(fields[i].value, decisions, start + ("/" + Escape(fields[i].key))) ==
            Err(WalkFields(fields, decisions, start).error)
  {
    if Walk(fields[0].value, decisions, start + ("/" + Escape(fields[0].key))).Err? {
      i := 0;
    } else {
      i := RefusedField(fields[1..], decisions, start);
      i := i + 1;
    }
  }

  predicate Located(node: Json, decisions: Decisions, start: string, pointer: string, refusal: Refusal) {
    && PointerShaped(pointer)
    && RefusedAt(node, decisions, pointer, refusal.code)
    && refusal.location == if start + pointer == "" then "/" else start + pointer
  }

  lemma LocatedThroughSegment(
    node: Json, child: Json, decisions: Decisions, start: string, token: string, rest: string, refusal: Refusal)
    returns (pointer: string)
    requires '/' !in token && Child(node, token) == Some(child)
    requires Located(child, decisions, start + ("/" + token), rest, refusal)
    ensures pointer != "" && Located(node, decisions, start, pointer, refusal)
  {
    pointer := "/" + token + rest;
    RefusedThroughSegment(node, child, decisions, token, rest, refusal.code);
    SegmentJoins(start, token, rest);
  }

  lemma RefusedThroughSegment(
    node: Json, child: Json, decisions: Decisions, token: string, rest: string, code: Code)
    requires '/' !in token && PointerShaped(rest) && Child(node, token) == Some(child)
    requires RefusedAt(child, decisions, rest, code)
    ensures RefusedAt(node, decisions, "/" + token + rest, code)
  {
    ResolveSegment(node, token, rest);
  }

  lemma SegmentJoins(start: string, token: string, rest: string)
    ensures start + ("/" + token) + rest == start + ("/" + token + rest) != ""
    ensures "/" + token + rest != "" && PointerShaped("/" + token + rest)
  {
    assert start + ("/" + token) + rest == start + ("/" + token + rest);
  }

  lemma OwnRefusalIsLocated(fields: seq<Field>, decisions: Decisions, start: string)
    requires Walk(Object(fields), decisions, start).Err? && ChildrenHonourable(Object(fields), decisions)
    ensures Located(Object(fields), decisions, start, "", Walk(Object(fields), decisions, start).error)
  {
    WalkFieldsPublish(fields, decisions, start);
    PublishedKeepsGet(fields, decisions, MARKER);
    AnnotationSeesTheOriginal(fields, decisions);
    assert start + "" == start;
  }

  lemma {:induction false} RefusalIsLocated(node: Json, decisions: Decisions, start: string) returns (pointer: string)
    requires WellFormed(node) && Walk(node, decisions, start).Err?
    ensures Located(node, decisions, start, pointer, Walk(node, decisions, start).error)
    ensures pointer == "" <==> ChildrenHonourable(node, decisions)
  {
    var refusal := Walk(node, decisions, start).error;
    match node
    case Array(items) =>
      WalkItemsPublish(items, decisions, start, 0);
      var i := RefusedItem(items, decisions, start, 0);
      var rest := RefusalIsLocated(items[i], decisions, start + ("/" + Decimal(i)));
      DecimalParses(i);
      pointer := LocatedThroughSegment(node, items[i], decisions, start, Decimal(i), rest, refusal);
    case Object(fields) =>
      WalkFieldsPublish(fields, decisions, start);
      if ChildrenHonourable(node, decisions) {
        pointer := "";
        OwnRefusalIsLocated(fields, decisions, start);
      } else {
        var i := RefusedField(fields, decisions, start);
        var key := fields[i].key;
        var rest := RefusalIsLocated(fields[i].value, decisions, start + ("/" + Escape(key)));
        EscapeHasNoSlash(key);
        UnescapeEscape(key);
        GetAt(fields, i);
        pointer := LocatedThroughSegment(node, fields[i].value, decisions, start, Escape(key), rest, refusal);
      }
  }

  /**
   The location a refusal carries leads to the node that caused it exactly when
   that node is not the document root. A refused root is reported as `/`, and
   RFC 6901 reads that as the root's member with the empty name.
   */
  lemma RefusalPointsAtItsCause(document: Json, decisions: Decisions)
    requires WellFormed(document) && Apply(document, decisions).Err?
    ensures var refusal := Apply(document, decisions).error;
            RefusedAt(document, decisions, refusal.location, refusal.code)
            <==> !ChildrenHonourable(document, decisions)
  {
    var refusal := Apply(document, decisions).error;
    var pointer := RefusalIsLocated(document, decisions, "");
    assert "" + pointer == pointer;
    if ChildrenHonourable(document, decisions) {
      ResolveSegment(document, "", "");
      assert "/" + "" + "" == "/";
      assert Child(document, "").Some? ==> Honourable(Child(document, "").value, decisions);
    }
  }

  /** A root that names an undeclared concept is refused at a place that is not there. */
  lemma RefusedRootExample(concept: string, decisions: Decisions)
    requires concept != "" && concept !in decisions
    ensures Apply(Object([Field(MARKER, String(concept))]), decisions) == Err(Refusal(UnknownConcept, "/"))
    ensures Resolve(Object([Field(MARKER, String(concept))]), "/") == None
  {
    var field := Field(MARKER, String(concept));
    UndeclaredIsRefused(field, decisions);
    WalkOneString(field, decisions);
    RootRefusal([field], decisions, UnknownConcept);
    NoEmptyMember([field]);
  }

  lemma RootRefusal(fields: seq<Field>, decisions: Decisions, code: Code)
    requires WalkFields(fields, decisions, "") == Ok(fields)
    requires HasKey(fields, MARKER) && Annotation(fields, decisions) == Err(code)
    ensures Apply(Object(fields), decisions) == Err(Refusal(code, "/"))
  {
  }

  lemma UndeclaredIsRefused(field: Field, decisions: Decisions)
    requires field.key == MARKER && field.value.String? && field.value.s != "" && field.value.s !in decisions
    ensures HasKey([field], MARKER) && !HasKey([field], "")
    ensures Annotation([field], decisions) == Err(UnknownConcept)
  {
    assert [field][0].key == MARKER;
    GetAt([field], 0);
  }

  lemma WalkOneString(field: Field, decisions: Decisions)
    requires field.value.String?
    ensures WalkFields([field], decisions, "") == Ok([field])
  {
    assert [field][1..] == [];
    assert WalkFields([field][1..], decisions, "") == Ok([]);
    assert [Field(field.key, field.value)] + [] == [field];
  }

  lemma NoEmptyMember(fields: seq<Field>)
    requires !HasKey(fields, "")
    ensures Resolve(Object(fields), "/") == None
  {
    ResolveSegment(Object(fields), "", "");
    assert "/" + "" + "" == "/";
    assert Unescape("") == "";
  }
}
