/**
 Census, decision, document and applier together: what the published contract
 may say, and what has to be true of the consumers for it to be said.
 */
module Advertising {
  import opened Wrappers
  import opened Json
  import opened JsonPointer
  import opened Vocabulary
  import opened Targets
  import opened Census
  import opened KnownValues
  import opened KnownValuesLaws
  import opened DecisionDocument
  import PointerLaws

  // ----- advertised means served -------------------------------------------------------

  /** The consumer was read and refers to a generated name that carries the value. */
  predicate Holds(concept: Concept, consumer: Consumer, refs: References, value: string) {
    && Walked(consumer) && Readable(consumer, refs)
    && Handles(SurfaceTarget(consumer.surface).value, concept).Some?
    && value in Carried(Handles(SurfaceTarget(consumer.surface).value, concept).value,
                        refs[(consumer.surface, consumer.path)])
  }

  predicate HoldsAll(concept: Concept, consumer: Consumer, refs: References) {
    forall v :: v in concept.DeclaredValues() ==> Holds(concept, consumer, refs, v)
  }

  predicate BackendConsumer(concept: Concept, consumer: Consumer) {
    consumer in concept.consumers && consumer.surface == BACKEND
  }

  lemma FullVerdictHoldsAll(concept: Concept, consumer: Consumer, refs: References, verdict: Verdict)
    requires Compiled(concept) && TakenFrom(concept, consumer, refs, verdict)
    ensures verdict.missing == [] <==> HoldsAll(concept, consumer, refs)
  {
    VerdictPartitions(concept, consumer, refs, verdict);
    if HoldsAll(concept, consumer, refs) {
      forall v | v in Whole(concept)
        ensures v in verdict.held
      {
        assert Holds(concept, consumer, refs, v);
      }
    } else {
      var v :| v in concept.DeclaredValues() && !Holds(concept, consumer, refs, v);
      assert v in Whole(concept) && v !in verdict.held;
    }
  }

  ghost predicate EveryReadConsumerHolds(concept: Concept, refs: References) {
    forall c :: BackendConsumer(concept, c) && Readable(c, refs) ==> HoldsAll(concept, c, refs)
  }

  ghost predicate SomeConsumerWasRead(concept: Concept, refs: References) {
    exists c :: BackendConsumer(concept, c) && Readable(c, refs)
  }

  function Asked(registry: seq<Concept>, refs: References, i: nat): seq<Verdict>
    requires RegistryVerdicts(registry, refs).Some? && i < |registry|
  {
    Selected(Taken(registry, refs).verdicts, registry[i].name, BACKEND)
  }

  lemma ConsumerOf(registry: seq<Concept>, refs: References, i: nat, verdict: Verdict) returns (c: Consumer)
    requires CompiledRegistry(registry) && RegistryVerdicts(registry, refs).Some? && i < |registry|
    requires verdict in Asked(registry, refs, i)
    ensures BackendConsumer(registry[i], c) && TakenFrom(registry[i], c, refs, verdict)
  {
    AskedVerdicts(registry, refs, i, BACKEND);
    c :| c in registry[i].consumers && c.surface == BACKEND && TakenFrom(registry[i], c, refs, verdict);
  }

  lemma VerdictOf(registry: seq<Concept>, refs: References, i: nat, c: Consumer) returns (verdict: Verdict)
    requires CompiledRegistry(registry) && RegistryVerdicts(registry, refs).Some? && i < |registry|
    requires registry[i].DeclaredValues() != [] && BackendConsumer(registry[i], c) && Readable(c, refs)
    ensures verdict in Asked(registry, refs, i) && TakenFrom(registry[i], c, refs, verdict)
  {
    AskedVerdicts(registry, refs, i, BACKEND);
    verdict :| verdict in Asked(registry, refs, i) && TakenFrom(registry[i], c, refs, verdict);
  }

  lemma AskedIffRead(registry: seq<Concept>, refs: References, i: nat)
    requires CompiledRegistry(registry) && RegistryVerdicts(registry, refs).Some? && i < |registry|
    requires registry[i].DeclaredValues() != []
    ensures Asked(registry, refs, i) != [] <==> SomeConsumerWasRead(registry[i], refs)
  {
    if SomeConsumerWasRead(registry[i], refs) {
      var c :| BackendConsumer(registry[i], c) && Readable(c, refs);
      var v := VerdictOf(registry, refs, i, c);
    }
    if Asked(registry, refs, i) != [] {
      var c := ConsumerOf(registry, refs, i, Asked(registry, refs, i)[0]);
    }
  }

  lemma AllFullIffAllHold(registry: seq<Concept>, refs: References, i: nat)
    requires CompiledRegistry(registry) && RegistryVerdicts(registry, refs).Some? && i < |registry|
    requires registry[i].DeclaredValues() != []
    ensures (forall v :: v in Asked(registry, refs, i) ==> v.missing == []) <==>
            EveryReadConsumerHolds(registry[i], refs)
  {
    if forall v :: v in Asked(registry, refs, i) ==> v.missing == [] {
      forall c | BackendConsumer(registry[i], c) && Readable(c, refs)
        ensures HoldsAll(registry[i], c, refs)
      {
        var v := VerdictOf(registry, refs, i, c);
        FullVerdictHoldsAll(registry[i], c, refs, v);
      }
    }
    if EveryReadConsumerHolds(registry[i], refs) {
      forall v | v in Asked(registry, refs, i)
        ensures v.missing == []
      {
        var c := ConsumerOf(registry, refs, i, v);
        FullVerdictHoldsAll(registry[i], c, refs, v);
      }
    }
  }

  lemma ServesMeans(registry: seq<Concept>, refs: References, i: nat)
    requires CompiledRegistry(registry) && RegistryVerdicts(registry, refs).Some? && i < |registry|
    requires registry[i].DeclaredValues() != []
    ensures Serves(Taken(registry, refs), registry[i].name, BACKEND) == Some(true) <==>
            SomeConsumerWasRead(registry[i], refs) && EveryReadConsumerHolds(registry[i], refs)
  {
    AskedIffRead(registry, refs, i);
    AllFullIffAllHold(registry, refs, i);
    var asked := Asked(registry, refs, i);
    assert forall k :: 0 <= k < |asked| ==> asked[k] in asked;
  }

  /**
   A concept is advertised exactly when its kind puts it in the contract, some
   backend consumer of it was read, and every one that was read holds every
   declared value.
   */
  lemma AdvertisedMeans(registry: seq<Concept>, refs: References, i: nat)
    requires CompiledRegistry(registry) && RegistryVerdicts(registry, refs).Some? && i < |registry|
    ensures Decide(registry[i], Taken(registry, refs)).advertised <==>
            && RepresentationOf(registry[i]) != Nothing
            && SomeConsumerWasRead(registry[i], refs)
            && EveryReadConsumerHolds(registry[i], refs)
  {
    if RepresentationOf(registry[i]) != Nothing {
      ServesMeans(registry, refs, i);
      ServesIsFullExtent(registry, refs, i, BACKEND);
    }
  }

  ghost predicate EveryBackendConsumerHolds(concept: Concept, refs: References) {
    forall c :: BackendConsumer(concept, c) ==> HoldsAll(concept, c, refs)
  }

  /** The census reports no backend consumer of this concept that it could not read. */
  ghost predicate ReportsNoneUnread(census: Census, concept: string) {
    forall unread :: unread in census.unread ==> !(unread.surface == BACKEND && unread.concept == concept)
  }

  lemma UnreadConsumersAreReported(registry: seq<Concept>, refs: References, i: nat)
    requires CompiledRegistry(registry) && RegistryVerdicts(registry, refs).Some? && i < |registry|
    requires registry[i].DeclaredValues() != []
    ensures ReportsNoneUnread(Taken(registry, refs), registry[i].name) <==>
            forall c :: BackendConsumer(registry[i], c) ==> Readable(c, refs)
  {
    var census, concept := Taken(registry, refs), registry[i];
    forall c | BackendConsumer(concept, c) && !Readable(c, refs)
      ensures !ReportsNoneUnread(census, concept.name)
    {
      var unread := Unread(BACKEND, c.path, concept.name);
      RegistryUnreadMembers(registry, refs, unread);
      assert LeftUnread(registry[i], c, refs, unread);
      assert unread in census.unread;
    }
    forall unread | unread in census.unread && unread.surface == BACKEND && unread.concept == concept.name
      ensures exists c :: BackendConsumer(concept, c) && !Readable(c, refs)
    {
      RegistryUnreadMembers(registry, refs, unread);
      var j, c :| 0 <= j < |registry| && LeftUnread(registry[j], c, refs, unread);
      assert registry[j].name == registry[i].name && j == i;
      assert BackendConsumer(concept, c);
    }
  }

  /**
   That EVERY declared backend consumer holds an advertised concept's values is
   true exactly when the census reports none of them unread: one the walk could
   not open leaves a fault and no verdict, and the predicate passes over it.
   */
  lemma AdvertisedIsServedWhenAllWereRead(registry: seq<Concept>, refs: References, i: nat)
    requires CompiledRegistry(registry) && RegistryVerdicts(registry, refs).Some? && i < |registry|
    requires Decide(registry[i], Taken(registry, refs)).advertised
    ensures EveryBackendConsumerHolds(registry[i], refs) <==> ReportsNoneUnread(Taken(registry, refs), registry[i].name)
  {
    AdvertisedMeans(registry, refs, i);
    UnreadConsumersAreReported(registry, refs, i);
    var concept := registry[i];
    if EveryBackendConsumerHolds(concept, refs) {
      forall c | BackendConsumer(concept, c)
        ensures Readable(c, refs)
      {
        assert Holds(concept, c, refs, concept.DeclaredValues()[0]);
      }
    }
  }

  /** One consumer read and holding, one unreadable: advertised all the same. */
  lemma UnreadConsumerIsPassedOver(concept: Concept, refs: References, read: string, unread: string)
    requires Compiled(concept) && concept.DeclaredValues() != []
    requires concept.consumers == [Consumer(BACKEND, read), Consumer(BACKEND, unread), Consumer(CONTRACT, read)]
    requires RegistryVerdicts([concept], refs).Some?
    requires HoldsAll(concept, Consumer(BACKEND, read), refs) && (BACKEND, unread) !in refs
    ensures Decide(concept, Taken([concept], refs)).advertised
    ensures forall v :: !Holds(concept, Consumer(BACKEND, unread), refs, v)
    ensures Unread(BACKEND, unread, concept.name) in Taken([concept], refs).unread
  {
    var other := Consumer(BACKEND, unread);
    assert concept.consumers[1] == other;
    RegistryUnreadMembers([concept], refs, Unread(BACKEND, unread, concept.name));
    assert LeftUnread([concept][0], other, refs, Unread(BACKEND, unread, concept.name));
    assert concept.consumers[2].surface == CONTRACT;
    var first := Consumer(BACKEND, read);
    assert first in concept.consumers;
    assert Holds(concept, first, refs, concept.DeclaredValues()[0]);
    assert BackendConsumer(concept, first) && Readable(first, refs);
    AdvertisedMeans([concept], refs, 0);
  }

  // ----- what one annotation says -------------------------------------------------------------

  /** `part` keeps some members of `all`, in their order. */
  predicate Subsequence(part: seq<string>, all: seq<string>) {
    if part == [] then true
    else if all == [] then false
    else if part[|part| - 1] == all[|all| - 1] then Subsequence(part[..|part| - 1], all[..|all| - 1])
    else Subsequence(part, all[..|all| - 1])
  }

  lemma {:induction false} SubsequenceWeakens(part: seq<string>, all: seq<string>, last: string)
    requires Subsequence(part, all)
    ensures Subsequence(part, all + [last])
    decreases |all|, 1
  {
    assert (all + [last])[..|all|] == all;
    if part != [] && part[|part| - 1] == last {
      SubsequenceDrop(part, all);
    }
  }

  lemma {:induction false} SubsequenceDrop(part: seq<string>, all: seq<string>)
    requires part != [] && Subsequence(part, all)
    ensures Subsequence(part[..|part| - 1], all)
    decreases |all|, 0
  {
    var front := all[..|all| - 1];
    if part[|part| - 1] == all[|all| - 1] {
      assert all == front + [all[|all| - 1]];
      SubsequenceWeakens(part[..|part| - 1], front, all[|all| - 1]);
    } else {
      SubsequenceDrop(part, front);
      assert all == front + [all[|all| - 1]];
      SubsequenceWeakens(part[..|part| - 1], front, all[|all| - 1]);
    }
  }

  lemma {:induction false} NarrowKeepsOrder(values: seq<string>, named: seq<string>)
    ensures Subsequence(Narrow(values, named), values)
    ensures forall v :: v in Narrow(values, named) <==> v in values && v in named
    ensures |Narrow(values, named)| <= |values|
    ensures |Narrow(values, named)| == |values| ==> forall v :: v in values ==> v in named
  {
    if values == [] {
    } else {
      var front, last := values[..|values| - 1], values[|values| - 1];
      assert values == front + [last];
      NarrowKeepsOrder(front, named);
      var narrowed := Narrow(values, named);
      if last in named {
        assert narrowed[..|narrowed| - 1] == Narrow(front, named);
      } else {
        SubsequenceWeakens(narrowed, front, last);
      }
    }
  }

  /** What a field that names its own values may publish. */
  ghost predicate HonestNarrowing(occurring: seq<string>, named: Json, published: seq<string>) {
    && named.Array? && AllStrings(named.items)
    && published != []
    && Subsequence(published, occurring)
    && |published| < |occurring|
    && (forall v :: v in published <==> v in Strings(named.items))
  }

  lemma FieldValuesAreHonest(named: Json, representation: Representation, values: seq<string>)
    requires FieldValues(named, representation, values).Ok?
    ensures HonestNarrowing(values, named, FieldValues(named, representation, values).value)
    ensures representation == Enum
  {
    var names := Strings(named.items);
    var narrowed := Narrow(values, names);
    NarrowKeepsOrder(values, names);
    forall v | v in names
      ensures v in narrowed
    {
      var i :| 0 <= i < |names| && names[i] == v;
    }
    assert names[0] in names;
    var i :| 0 <= i < |values| && values[i] !in names;
    assert values[i] in values;
  }

  /** The member one marked node gains, judged against its concept. */
  ghost predicate HonestAddition(concept: Concept, node: seq<Field>, added: Field) {
    && added.value.Array? && AllStrings(added.value.items)
    && var published := Strings(added.value.items);
    && published != []
    && (forall v :: v in published ==> v in concept.OccurringValues())
    && (concept.knownValues != [] ==> added.key == KNOWN_VALUES_KEY && published == concept.OccurringValues())
    && (concept.knownValues == [] ==> added.key == ENUM_KEY)
    && (concept.knownValues == [] && !HasKey(node, FIELD_VALUES_KEY) ==> published == concept.OccurringValues())
    && (HasKey(node, FIELD_VALUES_KEY) ==>
          concept.knownValues == [] &&
          HonestNarrowing(concept.OccurringValues(), Get(node, FIELD_VALUES_KEY).value, published))
  }

  lemma {:induction false} SubsequenceMembers(part: seq<string>, all: seq<string>)
    requires Subsequence(part, all)
    ensures forall v :: v in part ==> v in all
  {
    if part == [] {
    } else {
      assert all == all[..|all| - 1] + [all[|all| - 1]];
      if part[|part| - 1] == all[|all| - 1] {
        SubsequenceMembers(part[..|part| - 1], all[..|all| - 1]);
        assert part == part[..|part| - 1] + [part[|part| - 1]];
      } else {
        SubsequenceMembers(part, all[..|all| - 1]);
      }
    }
  }

  lemma AnnotationIsHonest(registry: seq<Concept>, refs: References, node: seq<Field>) returns (i: nat)
    requires CompiledRegistry(registry) && RegistryVerdicts(registry, refs).Some?
    requires HasKey(node, MARKER)
    requires Annotation(node, DecisionsOf(registry, Taken(registry, refs))).Ok?
    ensures i < |registry|
    ensures Get(node, MARKER) == Some(String(registry[i].name))
    ensures Decide(registry[i], Taken(registry, refs)).advertised
    ensures HonestAddition(registry[i], node, Annotation(node, DecisionsOf(registry, Taken(registry, refs))).value)
  {
    var census := Taken(registry, refs);
    var name := Get(node, MARKER).value.s;
    i := DecidedConceptsAreDeclared(registry, census, name);
    EveryConceptIsDecided(registry, census, i);
    DecidedAdditionIsHonest(registry[i], census, node, DecisionsOf(registry, census));
  }

  lemma DecidedAdditionIsHonest(concept: Concept, census: Census, node: seq<Field>, decisions: Decisions)
    requires Compiled(concept) && HasKey(node, MARKER)
    requires Get(node, MARKER) == Some(String(concept.name))
    requires concept.name in decisions && decisions[concept.name] == Decide(concept, census)
    requires Annotation(node, decisions).Ok?
    ensures Decide(concept, census).advertised
    ensures HonestAddition(concept, node, Annotation(node, decisions).value)
  {
    if HasKey(node, FIELD_VALUES_KEY) {
      NarrowedAdditionIsHonest(concept, node, Annotation(node, decisions).value);
    } else {
      OccurringIsInhabited(concept);
      StringsOfList(concept.OccurringValues());
    }
  }

  lemma NarrowedAdditionIsHonest(concept: Concept, node: seq<Field>, added: Field)
    requires HasKey(node, FIELD_VALUES_KEY) && concept.DeclaredValues() != []
    requires var narrowed := FieldValues(Get(node, FIELD_VALUES_KEY).value, RepresentationOf(concept),
                                         concept.OccurringValues());
             narrowed.Ok? && added == Field(ENUM_KEY, StringList(narrowed.value))
    ensures HonestAddition(concept, node, added)
  {
    var named := Get(node, FIELD_VALUES_KEY).value;
    FieldValuesAreHonest(named, RepresentationOf(concept), concept.OccurringValues());
    var narrowed := FieldValues(named, RepresentationOf(concept), concept.OccurringValues()).value;
    SubsequenceMembers(narrowed, concept.OccurringValues());
    StringsOfList(narrowed);
  }

  // ----- end to end ----------------------------------------------------------------------------

  /** A published node: what its concept allows, on top of what every consumer that was read serves. */
  ghost predicate HonestNode(concept: Concept, refs: References, node: Json) {
    && PointerLaws.ConceptOf(node) == Some(concept.name)
    && node.fields != []
    && var kept, added := node.fields[..|node.fields| - 1], node.fields[|node.fields| - 1];
    && !HasKey(kept, ENUM_KEY) && !HasKey(kept, KNOWN_VALUES_KEY)
    && HonestAddition(concept, kept, added)
    && SomeConsumerWasRead(concept, refs)
    && EveryReadConsumerHolds(concept, refs)
  }

  /** Every marked node of the output is a marked node of the input, annotated. */
  lemma {:induction false} PublishedMarksComeFrom(node: Json, decisions: Decisions, start: string)
    requires Honourable(node, decisions)
    ensures forall m :: m in MarkedIn(Published(node, decisions), start) ==> Annotated(m.node, decisions)
    decreases node, 1
  {
    match node
    case Array(items) => PublishedItemMarksComeFrom(items, decisions, start, 0);
    case Object(fields) =>
      var kept := PublishedFields(fields, decisions);
      PublishedFieldMarksComeFrom(fields, decisions, start);
      PublishedKeepsGet(fields, decisions, MARKER);
      PointerLaws.PublishedKeepsConcept(node, decisions);
      if HasKey(fields, MARKER) {
        AddedKey(fields, decisions);
        PointerLaws.AdditionAddsNoMarks(kept, Annotation(fields, decisions).value, start);
        AnnotationSeesTheOriginal(fields, decisions);
        assert AnnotatedAs(Published(node, decisions), kept, decisions);
      }
    case _ =>
  }

  predicate AnnotatedAs(node: Json, kept: seq<Field>, decisions: Decisions) {
    && HasKey(kept, MARKER)
    && Annotation(kept, decisions).Ok?
    && node == Object(kept + [Annotation(kept, decisions).value])
  }

  ghost predicate Annotated(node: Json, decisions: Decisions) {
    exists kept :: AnnotatedAs(node, kept, decisions)
  }

  lemma {:induction false} PublishedItemMarksComeFrom(
    items: seq<Json>, decisions: Decisions, start: string, index: nat)
    requires forall i :: 0 <= i < |items| ==> Honourable(items[i], decisions)
    ensures forall m :: m in MarkedItems(PublishedItems(items, decisions), start, index) ==> Annotated(m.node, decisions)
    decreases items, 0
  {
    if items == [] {
    } else {
      PublishedItemsCons(items, decisions);
      PublishedMarksComeFrom(items[0], decisions, start + ("/" + Decimal(index)));
      PublishedItemMarksComeFrom(items[1..], decisions, start, index + 1);
    }
  }

  lemma {:induction false} PublishedFieldMarksComeFrom(fields: seq<Field>, decisions: Decisions, start: string)
    requires forall i :: 0 <= i < |fields| ==> Honourable(fields[i].value, decisions)
    ensures forall m :: m in MarkedFields(PublishedFields(fields, decisions), start) ==> Annotated(m.node, decisions)
    decreases fields, 0
  {
    if fields == [] {
    } else {
      PublishedFieldsCons(fields, decisions);
      PublishedMarksComeFrom(fields[0].value, decisions, start + ("/" + Escape(fields[0].key)));
      PublishedFieldMarksComeFrom(fields[1..], decisions, start);
    }
  }

  lemma AnnotatedIsHonest(registry: seq<Concept>, refs: References, node: Json)
    requires CompiledRegistry(registry) && RegistryVerdicts(registry, refs).Some?
    requires Annotated(node, DecisionsOf(registry, Taken(registry, refs)))
    ensures exists i :: 0 <= i < |registry| && HonestNode(registry[i], refs, node)
  {
    var decisions := DecisionsOf(registry, Taken(registry, refs));
    var kept :| AnnotatedAs(node, kept, decisions);
    var added := Annotation(kept, decisions).value;
    AddedKey(kept, decisions);
    var i := AnnotationIsHonest(registry, refs, kept);
    AdvertisedMeans(registry, refs, i);
    GetIgnoresAddition(kept, added, MARKER);
    assert node.fields[..|node.fields| - 1] == kept;
    assert HonestNode(registry[i], refs, node);
  }

  /**
   From the registry and the consumers' references to the committed contract:
   whatever was built, written, read back and applied, every node that names a
   concept carries values that occur, in the form its kind allows, and that
   every backend consumer that could be read holds by reference.
   */
  lemma ContractAdvertisesOnlyWhatIsServed(registry: seq<Concept>, refs: References, schema: Json)
    requires CompiledRegistry(registry) && registry != [] && RegistryVerdicts(registry, refs).Some?
    ensures ReadDocument(Document(registry, Taken(registry, refs))).Ok?
    ensures var decisions := ReadDocument(Document(registry, Taken(registry, refs))).value;
            Apply(schema, decisions).Ok? ==>
              forall m :: m in MarkedIn(Apply(schema, decisions).value, "") ==>
                exists i :: 0 <= i < |registry| && HonestNode(registry[i], refs, m.node)
  {
    DocumentRoundTrip(registry, Taken(registry, refs));
    var decisions := DecisionsOf(registry, Taken(registry, refs));
    WalkPublishes(schema, decisions, "");
    if Apply(schema, decisions).Ok? {
      PublishedMarksComeFrom(schema, decisions, "");
      forall m | m in MarkedIn(Apply(schema, decisions).value, "")
        ensures exists i :: 0 <= i < |registry| && HonestNode(registry[i], refs, m.node)
      {
        AnnotatedIsHonest(registry, refs, m.node);
      }
    }
  }
}
