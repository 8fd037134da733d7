/**
 The consumer census (tools/consumers/census.py). Reading a consumer's file and
 its imports is outside the model: `References` says which generated names each
 consumer that could be read refers to.
 */
module Census {
  import opened Wrappers
  import opened Vocabulary
  import opened Targets

  /** Keyed by surface and path; a file that is missing or unreadable has no entry. */
  type References = map<(string, string), set<string>>

  datatype Verdict = Verdict(
    concept: string,
    kind: string,
    surface: string,
    path: string,
    held: set<string>,
    missing: seq<string>)

  datatype Unread = Unread(surface: string, path: string, concept: string)

  datatype Census = Census(verdicts: seq<Verdict>, unread: seq<Unread>)

  /** The three surfaces with a generated artifact. */
  function SurfaceTarget(surface: string): Option<Target> {
    if surface == "backend" || surface == "sdk" then Some(PythonConstants)
    else if surface == "console" then Some(ConsoleVocabulary)
    else None
  }

  // ----- taking it -------------------------------------------------------------------

  predicate Walked(consumer: Consumer) {
    SurfaceTarget(consumer.surface).Some?
  }

  predicate Readable(consumer: Consumer, refs: References) {
    (consumer.surface, consumer.path) in refs
  }

  function VerdictOn(concept: Concept, consumer: Consumer, refs: References): Option<Verdict>
    requires Walked(consumer) && Readable(consumer, refs)
  {
    var handles :- Handles(SurfaceTarget(consumer.surface).value, concept);
    var held := Carried(handles, refs[(consumer.surface, consumer.path)]);
    Some(Verdict(concept.name, concept.kind, consumer.surface, consumer.path, held,
                 Excluding(concept.DeclaredValues(), held)))
  }

  /** `None` where a name of the concept has no spelling, which stops the walk. */
  function ConsumerVerdicts(concept: Concept, consumers: seq<Consumer>, refs: References): Option<seq<Verdict>> {
    if consumers == [] then Some([])
    else
      var last := consumers[|consumers| - 1];
      var front :- ConsumerVerdicts(concept, consumers[..|consumers| - 1], refs);
      if !Walked(last) || !Readable(last, refs) then Some(front)
      else
        var verdict :- VerdictOn(concept, last, refs);
        Some(front + [verdict])
  }

  function ConceptVerdicts(concept: Concept, refs: References): Option<seq<Verdict>> {
    if concept.DeclaredValues() == [] then Some([])
    else ConsumerVerdicts(concept, concept.consumers, refs)
  }

  function RegistryVerdicts(registry: seq<Concept>, refs: References): Option<seq<Verdict>> {
    if registry == [] then Some([])
    else
      var front :- RegistryVerdicts(registry[..|registry| - 1], refs);
      var last :- ConceptVerdicts(registry[|registry| - 1], refs);
      Some(front + last)
  }

  function ConsumersUnread(concept: Concept, consumers: seq<Consumer>, refs: References): seq<Unread> {
    if consumers == [] then []
    else
      var last := consumers[|consumers| - 1];
      var front := ConsumersUnread(concept, consumers[..|consumers| - 1], refs);
      if Walked(last) && !Readable(last, refs)
      then front + [Unread(last.surface, last.path, concept.name)] else front
  }

  function RegistryUnread(registry: seq<Concept>, refs: References): seq<Unread> {
    if registry == [] then []
    else
      var last := registry[|registry| - 1];
      RegistryUnread(registry[..|registry| - 1], refs) + ConceptUnread(last, refs)
  }

  function ConceptUnread(concept: Concept, refs: References): seq<Unread> {
    if concept.DeclaredValues() == [] then [] else ConsumersUnread(concept, concept.consumers, refs)
  }

  lemma {:induction false} ConsumerVerdictsFail(concept: Concept, consumers: seq<Consumer>, refs: References, k: nat)
    requires k <= |consumers| && ConsumerVerdicts(concept, consumers[..k], refs).None?
    ensures ConsumerVerdicts(concept, consumers, refs).None?
    decreases |consumers|
  {
    if k == |consumers| {
      assert consumers[..k] == consumers;
    } else {
      var front := consumers[..|consumers| - 1];
      assert front[..k] == consumers[..k];
      ConsumerVerdictsFail(concept, front, refs, k);
    }
  }

  lemma {:induction false} RegistryVerdictsFail(registry: seq<Concept>, refs: References, k: nat)
    requires k <= |registry| && RegistryVerdicts(registry[..k], refs).None?
    ensures RegistryVerdicts(registry, refs).None?
    decreases |registry|
  {
    if k == |registry| {
      assert registry[..k] == registry;
    } else {
      var front := registry[..|registry| - 1];
      assert front[..k] == registry[..k];
      RegistryVerdictsFail(front, refs, k);
    }
  }

  /** One concept's turn of the walk. */
  method TakeConcept(concept: Concept, refs: References) returns (verdicts: Option<seq<Verdict>>, unread: seq<Unread>)
    ensures verdicts == ConsumerVerdicts(concept, concept.consumers, refs)
    ensures verdicts.Some? ==> unread == ConsumersUnread(concept, concept.consumers, refs)
  {
    var taken: seq<Verdict> := [];
    unread := [];
    for k := 0 to |concept.consumers|
      invariant ConsumerVerdicts(concept, concept.consumers[..k], refs) == Some(taken)
      invariant unread == ConsumersUnread(concept, concept.consumers[..k], refs)
    {
      var consumer := concept.consumers[k];
      assert concept.consumers[..k + 1][..k] == concept.consumers[..k];
      var target := SurfaceTarget(consumer.surface);
      if target.Some? {
        if (consumer.surface, consumer.path) !in refs {
          unread := unread + [Unread(consumer.surface, consumer.path, concept.name)];
        } else {
          var handles := Handles(target.value, concept);
          if handles.None? {
            ConsumerVerdictsFail(concept, concept.consumers, refs, k + 1);
            return None, unread;
          }
          var held := Held(handles.value, refs[(consumer.surface, consumer.path)]);
          taken := taken + [Verdict(concept.name, concept.kind, consumer.surface, consumer.path, held,
                                    Excluding(concept.DeclaredValues(), held))];
        }
      }
    }
    assert concept.consumers[..|concept.consumers|] == concept.consumers;
    verdicts := Some(taken);
  }

  lemma RegistryStep(registry: seq<Concept>, refs: References, k: nat)
    requires k < |registry| && RegistryVerdicts(registry[..k], refs).Some?
    ensures var verdicts, unread := RegistryVerdicts(registry[..k], refs).value, RegistryUnread(registry[..k], refs);
            if registry[k].DeclaredValues() == [] then
              && RegistryVerdicts(registry[..k + 1], refs) == Some(verdicts)
              && RegistryUnread(registry[..k + 1], refs) == unread
            else
              var taken := ConsumerVerdicts(registry[k], registry[k].consumers, refs);
              && RegistryVerdicts(registry[..k + 1], refs) == (if taken.None? then None else Some(verdicts + taken.value))
              && RegistryUnread(registry[..k + 1], refs) ==
                 unread + ConsumersUnread(registry[k], registry[k].consumers, refs)
  {
    assert registry[..k + 1][..k] == registry[..k];
    var verdicts, unread := RegistryVerdicts(registry[..k], refs).value, RegistryUnread(registry[..k], refs);
    assert verdicts + [] == verdicts && unread + [] == unread;
  }

  method TakeCensus(registry: seq<Concept>, refs: References) returns (census: Option<Census>)
    ensures census.None? <==> RegistryVerdicts(registry, refs).None?
    ensures census.Some? ==>
              census.value == Census(RegistryVerdicts(registry, refs).value, RegistryUnread(registry, refs))
    ensures census.Some? ==> forall v :: v in census.value.verdicts <==>
              exists i, c :: 0 <= i < |registry| && LeftRead(registry[i], c, refs, v)
    ensures census.Some? ==> forall u :: u in census.value.unread <==>
              exists i, c :: 0 <= i < |registry| && LeftUnread(registry[i], c, refs, u)
  {
    var verdicts: seq<Verdict>, unread: seq<Unread> := [], [];
    for k := 0 to |registry|
      invariant RegistryVerdicts(registry[..k], refs) == Some(verdicts)
      invariant unread == RegistryUnread(registry[..k], refs)
    {
      RegistryStep(registry, refs, k);
      if registry[k].DeclaredValues() != [] {
        var taken, missed := TakeConcept(registry[k], refs);
        if taken.None? {
          RegistryVerdictsFail(registry, refs, k + 1);
          return None;
        }
        verdicts, unread := verdicts + taken.value, unread + missed;
      }
    }
    assert registry[..|registry|] == registry;
    census := Some(Census(verdicts, unread));
    CensusMembers(registry, refs);
  }

  lemma CensusMembers(registry: seq<Concept>, refs: References)
    requires RegistryVerdicts(registry, refs).Some?
    ensures forall v :: v in RegistryVerdicts(registry, refs).value <==>
              exists i, c :: 0 <= i < |registry| && LeftRead(registry[i], c, refs, v)
    ensures forall u :: u in RegistryUnread(registry, refs) <==>
              exists i, c :: 0 <= i < |registry| && LeftUnread(registry[i], c, refs, u)
  {
    forall v
      ensures v in RegistryVerdicts(registry, refs).value <==>
              exists i, c :: 0 <= i < |registry| && LeftRead(registry[i], c, refs, v)
    {
      RegistryVerdictsAre(registry, refs, v);
    }
    forall u
      ensures u in RegistryUnread(registry, refs) <==>
              exists i, c :: 0 <= i < |registry| && LeftUnread(registry[i], c, refs, u)
    {
      RegistryUnreadMembers(registry, refs, u);
    }
  }

  // ----- reading it ------------------------------------------------------------------------

  function Selected(verdicts: seq<Verdict>, concept: string, surface: string): seq<Verdict> {
    if verdicts == [] then []
    else
      var last := verdicts[|verdicts| - 1];
      var front := Selected(verdicts[..|verdicts| - 1], concept, surface);
      if last.concept == concept && last.surface == surface then front + [last] else front
  }

  /** `Census.serves`: no answer where the source raises. */
  function Serves(census: Census, concept: string, surface: string): Option<bool> {
    if SurfaceTarget(surface).None? then None
    else
      var asked := Selected(census.verdicts, concept, surface);
      if asked == [] then None else Some(forall i :: 0 <= i < |asked| ==> asked[i].missing == [])
  }

  function Intersection(verdicts: seq<Verdict>): set<string>
    requires verdicts != []
  {
    if |verdicts| == 1 then verdicts[0].held
    else Intersection(verdicts[..|verdicts| - 1]) * verdicts[|verdicts| - 1].held
  }

  /** `Census.extent`: how many values every consumer holds, of how many. */
  function Extent(census: Census, concept: string, surface: string): Option<(nat, nat)> {
    var asked := Selected(census.verdicts, concept, surface);
    if asked == [] then None
    else Some((|Intersection(asked)|, |asked[0].held| + |asked[0].missing|))
  }

  // ----- where a verdict comes from ------------------------------------------------------------

  lemma {:induction false} SelectedMembers(verdicts: seq<Verdict>, concept: string, surface: string)
    ensures forall v :: v in Selected(verdicts, concept, surface) <==>
              v in verdicts && v.concept == concept && v.surface == surface
  {
    if verdicts == [] {
    } else {
      SelectedMembers(verdicts[..|verdicts| - 1], concept, surface);
      assert verdicts == verdicts[..|verdicts| - 1] + [verdicts[|verdicts| - 1]];
    }
  }

  /** The fault a consumer leaves that is walked and could not be read. */
  predicate LeftUnread(concept: Concept, consumer: Consumer, refs: References, unread: Unread) {
    && concept.DeclaredValues() != [] && consumer in concept.consumers
    && Walked(consumer) && !Readable(consumer, refs)
    && unread == Unread(consumer.surface, consumer.path, concept.name)
  }

  lemma {:induction false} ConsumersUnreadMembers(concept: Concept, consumers: seq<Consumer>, refs: References, unread: Unread)
    ensures unread in ConsumersUnread(concept, consumers, refs) <==>
            exists c :: c in consumers && Walked(c) && !Readable(c, refs) && unread == Unread(c.surface, c.path, concept.name)
  {
    if consumers == [] {
    } else {
      var n := |consumers| - 1;
      assert consumers == consumers[..n] + [consumers[n]];
      ConsumersUnreadMembers(concept, consumers[..n], refs, unread);
    }
  }

  lemma ConceptUnreadMembers(concept: Concept, refs: References, unread: Unread)
    ensures unread in ConceptUnread(concept, refs) <==> exists c :: LeftUnread(concept, c, refs, unread)
  {
    ConsumersUnreadMembers(concept, concept.consumers, refs, unread);
    if unread in ConceptUnread(concept, refs) {
      var c :| c in concept.consumers && Walked(c) && !Readable(c, refs) && unread == Unread(c.surface, c.path, concept.name);
      assert LeftUnread(concept, c, refs, unread);
    }
  }

  lemma {:induction false} RegistryUnreadIs(registry: seq<Concept>, refs: References, unread: Unread)
    ensures unread in RegistryUnread(registry, refs) <==>
            exists i :: 0 <= i < |registry| && unread in ConceptUnread(registry[i], refs)
  {
    if registry == [] {
    } else {
      var n := |registry| - 1;
      RegistryUnreadIs(registry[..n], refs, unread);
      assert forall i :: 0 <= i < n ==> registry[..n][i] == registry[i];
    }
  }

  /** The census's faults are those of the registry's unread consumers, and no others. */
  lemma RegistryUnreadMembers(registry: seq<Concept>, refs: References, unread: Unread)
    ensures unread in RegistryUnread(registry, refs) <==>
            exists i, c :: 0 <= i < |registry| && LeftUnread(registry[i], c, refs, unread)
  {
    RegistryUnreadIs(registry, refs, unread);
    forall i | 0 <= i < |registry|
      ensures unread in ConceptUnread(registry[i], refs) <==> exists c :: LeftUnread(registry[i], c, refs, unread)
    {
      ConceptUnreadMembers(registry[i], refs, unread);
    }
  }

  /** And its verdicts are those on the consumers that were read, and no others. */
  lemma RegistryVerdictsAre(registry: seq<Concept>, refs: References, verdict: Verdict)
    requires RegistryVerdicts(registry, refs).Some?
    ensures verdict in RegistryVerdicts(registry, refs).value <==>
            exists i, c :: 0 <= i < |registry| && LeftRead(registry[i], c, refs, verdict)
  {
    RegistryVerdictsMembers(registry, refs);
    forall i | 0 <= i < |registry|
      ensures verdict in ConceptVerdicts(registry[i], refs).value <==>
              exists c :: LeftRead(registry[i], c, refs, verdict)
    {
      ConceptVerdictsAre(registry[i], refs, verdict);
    }
  }

  lemma ConceptVerdictsAre(concept: Concept, refs: References, verdict: Verdict)
    requires ConceptVerdicts(concept, refs).Some?
    ensures verdict in ConceptVerdicts(concept, refs).value <==> exists c :: LeftRead(concept, c, refs, verdict)
  {
    if concept.DeclaredValues() != [] {
      ConsumerVerdictsMembers(concept, concept.consumers, refs);
      var verdicts := ConsumerVerdicts(concept, concept.consumers, refs).value;
      if verdict in verdicts {
        var c :| c in concept.consumers && TakenFrom(concept, c, refs, verdict);
        assert LeftRead(concept, c, refs, verdict);
      }
      forall c | LeftRead(concept, c, refs, verdict)
        ensures verdict in verdicts
      {
        var v :| v in verdicts && TakenFrom(concept, c, refs, v);
      }
    }
  }

  /** The verdict a consumer leaves that is walked and was read. */
  predicate LeftRead(concept: Concept, consumer: Consumer, refs: References, verdict: Verdict) {
    concept.DeclaredValues() != [] && consumer in concept.consumers && TakenFrom(concept, consumer, refs, verdict)
  }

  predicate TakenFrom(concept: Concept, consumer: Consumer, refs: References, verdict: Verdict) {
    Walked(consumer) && Readable(consumer, refs) && VerdictOn(concept, consumer, refs) == Some(verdict)
  }

  lemma {:induction false} ConsumerVerdictsMembers(concept: Concept, consumers: seq<Consumer>, refs: References)
    requires ConsumerVerdicts(concept, consumers, refs).Some?
    ensures forall v :: v in ConsumerVerdicts(concept, consumers, refs).value ==>
              exists c :: c in consumers && TakenFrom(concept, c, refs, v)
    ensures forall c :: c in consumers && Walked(c) && Readable(c, refs) ==>
              exists v :: v in ConsumerVerdicts(concept, consumers, refs).value && TakenFrom(concept, c, refs, v)
  {
    if consumers == [] {
    } else {
      var front, last := consumers[..|consumers| - 1], consumers[|consumers| - 1];
      assert consumers == front + [last];
      ConsumerVerdictsMembers(concept, front, refs);
      var all, before := ConsumerVerdicts(concept, consumers, refs).value, ConsumerVerdicts(concept, front, refs).value;
      assert forall v :: v in before ==> v in all;
      forall v | v in all
        ensures exists c :: c in consumers && TakenFrom(concept, c, refs, v)
      {
        if v in before {
          var c :| c in front && TakenFrom(concept, c, refs, v);
          assert c in consumers;
        } else {
          assert TakenFrom(concept, last, refs, v);
        }
      }
      if Walked(last) && Readable(last, refs) {
        assert all[|before|] in all && TakenFrom(concept, last, refs, all[|before|]);
      }
    }
  }

  lemma {:induction false} RegistryVerdictsMembers(registry: seq<Concept>, refs: References)
    requires RegistryVerdicts(registry, refs).Some?
    ensures forall v :: v in RegistryVerdicts(registry, refs).value ==>
              exists i :: 0 <= i < |registry| && ConceptVerdicts(registry[i], refs).Some? &&
                v in ConceptVerdicts(registry[i], refs).value
    ensures forall i :: 0 <= i < |registry| ==> ConceptVerdicts(registry[i], refs).Some?
    ensures forall i, v :: 0 <= i < |registry| && v in ConceptVerdicts(registry[i], refs).value ==>
              v in RegistryVerdicts(registry, refs).value
  {
    if registry == [] {
    } else {
      var n := |registry| - 1;
      var front, all := registry[..n], RegistryVerdicts(registry, refs).value;
      RegistryVerdictsMembers(front, refs);
      var before, own := RegistryVerdicts(front, refs).value, ConceptVerdicts(registry[n], refs).value;
      assert all == before + own;
      forall v | v in all
        ensures exists i :: 0 <= i < |registry| && ConceptVerdicts(registry[i], refs).Some? &&
                  v in ConceptVerdicts(registry[i], refs).value
      {
        if v in before {
          var i :| 0 <= i < |front| && ConceptVerdicts(front[i], refs).Some? && v in ConceptVerdicts(front[i], refs).value;
          assert registry[i] == front[i];
        } else {
          assert v in own;
        }
      }
      assert forall i :: 0 <= i < n ==> registry[i] == front[i];
    }
  }

  /** The verdicts asked about a declared concept are its own consumers', and all of them that were read. */
  lemma AskedVerdicts(registry: seq<Concept>, refs: References, i: nat, surface: string)
    requires CompiledRegistry(registry) && RegistryVerdicts(registry, refs).Some? && i < |registry|
    ensures forall v :: v in Selected(RegistryVerdicts(registry, refs).value, registry[i].name, surface) ==>
              exists c :: c in registry[i].consumers && c.surface == surface && TakenFrom(registry[i], c, refs, v)
    ensures registry[i].DeclaredValues() != [] ==>
              forall c :: c in registry[i].consumers && c.surface == surface && Walked(c) && Readable(c, refs) ==>
                exists v :: v in Selected(RegistryVerdicts(registry, refs).value, registry[i].name, surface) &&
                  TakenFrom(registry[i], c, refs, v)
  {
    var all := RegistryVerdicts(registry, refs).value;
    var asked := Selected(all, registry[i].name, surface);
    RegistryVerdictsMembers(registry, refs);
    SelectedMembers(all, registry[i].name, surface);
    forall v | v in asked
      ensures v in ConceptVerdicts(registry[i], refs).value
    {
      var j :| 0 <= j < |registry| && v in ConceptVerdicts(registry[j], refs).value;
      OwnVerdictsNameTheConcept(registry[j], refs, v);
    }
    if registry[i].DeclaredValues() != [] {
      ConsumerVerdictsMembers(registry[i], registry[i].consumers, refs);
    }
  }

  lemma OwnVerdictsNameTheConcept(concept: Concept, refs: References, verdict: Verdict)
    requires ConceptVerdicts(concept, refs).Some? && verdict in ConceptVerdicts(concept, refs).value
    ensures verdict.concept == concept.name
  {
    ConsumerVerdictsMembers(concept, concept.consumers, refs);
  }

  lemma {:induction false} ValueHandlesCarryDeclared(
    concept: Concept, values: seq<string>, start: map<string, set<string>>)
    requires ValueHandles(concept, values, start).Some?
    requires forall v :: v in values ==> v in Whole(concept)
    requires forall n :: n in start ==> start[n] <= Whole(concept)
    ensures forall n :: n in ValueHandles(concept, values, start).value ==>
              ValueHandles(concept, values, start).value[n] <= Whole(concept)
  {
    if values == [] {
    } else {
      assert values[|values| - 1] in values;
      ValueHandlesCarryDeclared(concept, values[..|values| - 1], start);
    }
  }

  lemma HeldIsDeclared(target: Target, concept: Concept, names: set<string>)
    requires Handles(target, concept).Some?
    ensures Carried(Handles(target, concept).value, names) <= Whole(concept)
  {
    if concept.DeclaredValues() != [] && target == PythonConstants {
      ValueHandlesCarryDeclared(concept, concept.DeclaredValues(), map[SetName(concept).value := Whole(concept)]);
    }
  }

  lemma DeclaredAreDistinct(concept: Concept)
    requires Compiled(concept)
    ensures Distinct(concept.DeclaredValues()) && |Whole(concept)| == |concept.DeclaredValues()|
  {
    var values := concept.DeclaredValues();
    ExcludingAll(values, Whole(concept));
    ExcludingPartitions(values, Whole(concept));
    assert Whole(concept) * Whole(concept) == Whole(concept);
  }

  /** Held and missing partition the declared values, so nothing is missing exactly when all are held. */
  lemma VerdictPartitions(concept: Concept, consumer: Consumer, refs: References, verdict: Verdict)
    requires Compiled(concept) && TakenFrom(concept, consumer, refs, verdict)
    ensures verdict.held <= Whole(concept)
    ensures |verdict.held| + |verdict.missing| == |Whole(concept)|
    ensures verdict.missing == [] <==> verdict.held == Whole(concept)
  {
    var names := refs[(consumer.surface, consumer.path)];
    HeldIsDeclared(SurfaceTarget(consumer.surface).value, concept, names);
    DeclaredAreDistinct(concept);
    ExcludingPartitions(concept.DeclaredValues(), verdict.held);
    assert verdict.held * Whole(concept) == verdict.held;
    if |verdict.held| == |Whole(concept)| {
      SameSize(verdict.held, Whole(concept));
    }
  }

  lemma SameSize(a: set<string>, b: set<string>)
    requires a <= b && |a| == |b|
    ensures a == b
  {
    assert |b - a| == 0;
    assert b == a + (b - a);
  }

  // ----- the predicate and its measured form -----------------------------------------------------

  lemma {:induction false} IntersectionBounds(verdicts: seq<Verdict>, whole: set<string>)
    requires verdicts != [] && forall v :: v in verdicts ==> v.held <= whole
    ensures forall v :: v in verdicts ==> Intersection(verdicts) <= v.held
    ensures (forall v :: v in verdicts ==> v.held == whole) ==> Intersection(verdicts) == whole
  {
    if |verdicts| > 1 {
      var front, last := verdicts[..|verdicts| - 1], verdicts[|verdicts| - 1];
      assert verdicts == front + [last];
      IntersectionBounds(front, whole);
    } else {
      assert verdicts == [verdicts[0]];
    }
  }

  lemma FullExtent(asked: seq<Verdict>, whole: set<string>)
    requires asked != []
    requires forall v :: v in asked ==> v.held <= whole && (v.missing == [] <==> v.held == whole)
    ensures (forall k :: 0 <= k < |asked| ==> asked[k].missing == []) <==> |Intersection(asked)| == |whole|
  {
    IntersectionBounds(asked, whole);
    assert asked[0] in asked;
    if |Intersection(asked)| == |whole| {
      SameSize(Intersection(asked), whole);
      assert forall k :: 0 <= k < |asked| ==> asked[k] in asked;
    }
    if forall k :: 0 <= k < |asked| ==> asked[k].missing == [] {
      assert forall v :: v in asked ==> v.held == whole;
    }
  }

  lemma AskedPartition(registry: seq<Concept>, refs: References, i: nat, surface: string)
    requires CompiledRegistry(registry) && RegistryVerdicts(registry, refs).Some? && i < |registry|
    ensures forall v :: v in Selected(RegistryVerdicts(registry, refs).value, registry[i].name, surface) ==>
              && v.held <= Whole(registry[i])
              && |v.held| + |v.missing| == |Whole(registry[i])|
              && (v.missing == [] <==> v.held == Whole(registry[i]))
  {
    AskedVerdicts(registry, refs, i, surface);
    forall v | v in Selected(RegistryVerdicts(registry, refs).value, registry[i].name, surface)
      ensures v.held <= Whole(registry[i]) && |v.held| + |v.missing| == |Whole(registry[i])|
      ensures v.missing == [] <==> v.held == Whole(registry[i])
    {
      var c :| c in registry[i].consumers && TakenFrom(registry[i], c, refs, v);
      VerdictPartitions(registry[i], c, refs, v);
    }
  }

  function Taken(registry: seq<Concept>, refs: References): Census
    requires RegistryVerdicts(registry, refs).Some?
  {
    Census(RegistryVerdicts(registry, refs).value, RegistryUnread(registry, refs))
  }

  lemma ExtentOfTaken(registry: seq<Concept>, refs: References, i: nat, surface: string)
    requires CompiledRegistry(registry) && RegistryVerdicts(registry, refs).Some? && i < |registry|
    requires Selected(Taken(registry, refs).verdicts, registry[i].name, surface) != []
    ensures Extent(Taken(registry, refs), registry[i].name, surface) ==
            Some((|Intersection(Selected(Taken(registry, refs).verdicts, registry[i].name, surface))|,
                  |Whole(registry[i])|))
  {
    AskedPartition(registry, refs, i, surface);
    ExtentForm(Taken(registry, refs), registry[i].name, surface, Whole(registry[i]));
  }

  lemma ExtentForm(census: Census, concept: string, surface: string, whole: set<string>)
    requires Selected(census.verdicts, concept, surface) != []
    requires forall v :: v in Selected(census.verdicts, concept, surface) ==> |v.held| + |v.missing| == |whole|
    ensures Extent(census, concept, surface) ==
            Some((|Intersection(Selected(census.verdicts, concept, surface))|, |whole|))
  {
    var asked := Selected(census.verdicts, concept, surface);
    assert asked[0] in asked;
  }

  /** A surface serves a concept exactly when its extent is all of its values. */
  lemma ServesIsFullExtent(registry: seq<Concept>, refs: References, i: nat, surface: string)
    requires CompiledRegistry(registry) && RegistryVerdicts(registry, refs).Some? && i < |registry|
    requires SurfaceTarget(surface).Some?
    ensures Serves(Taken(registry, refs), registry[i].name, surface).None? <==>
            Extent(Taken(registry, refs), registry[i].name, surface).None?
    ensures Serves(Taken(registry, refs), registry[i].name, surface) == Some(true) <==>
            exists n :: Extent(Taken(registry, refs), registry[i].name, surface) == Some((n, n))
  {
    var asked := Selected(Taken(registry, refs).verdicts, registry[i].name, surface);
    if asked != [] {
      AskedPartition(registry, refs, i, surface);
      FullExtent(asked, Whole(registry[i]));
      ExtentOfTaken(registry, refs, i, surface);
    }
  }
}
