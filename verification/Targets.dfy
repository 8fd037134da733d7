/**
 The generated targets of tools/vocabulary/generate.py: what each one claims,
 which names carry which values, and the collision check that makes a name
 mean one thing.
 */
module Targets {
  import opened Wrappers
  import opened Vocabulary
  import opened Naming

  datatype Target = PythonConstants | ConsoleVocabulary

  datatype Role =
    | WholeSet
    | OneValue(value: string)
    | Withheld
    | LabelKeys
    | TypeName
    | KnownType
    | LabelKey(value: string)

  /** A name a concept binds, and what it binds it to. */
  datatype Claim = Claim(name: string, concept: string, role: Role)

  function SetName(concept: Concept): Option<string> {
    Identifier(concept.name + "_" + (if concept.knownValues != [] then "known_values" else "values"))
  }

  function ValueName(concept: Concept, value: string): Option<string> {
    Identifier(concept.name + "_" + value)
  }

  function WithheldName(concept: Concept): Option<string> {
    Identifier(concept.name + "_withheld_values")
  }

  function LabelKeysName(concept: Concept): Option<string> {
    Identifier(concept.name + "_label_keys")
  }

  function TypeNameOf(concept: Concept): Option<string> {
    PascalCase(concept.name)
  }

  function KnownTypeName(concept: Concept): Option<string> {
    match PascalCase(concept.name)
    case Some(name) => Some(name + "Known")
    case None => None
  }

  function LabelKeyOf(concept: Concept, value: string): string {
    (match concept.labelKeyPrefix case Some(prefix) => prefix case None => "None") + "." + value
  }

  // ----- claims --------------------------------------------------------------------

  function Named(name: Option<string>, concept: Concept, role: Role): Option<Claim> {
    match name
    case Some(n) => Some(Claim(n, concept.name, role))
    case None => None
  }

  function ValueClaims(concept: Concept, values: seq<string>): (r: Option<seq<Claim>>)
    ensures r.Some? ==> |r.value| == |values|
    ensures r.Some? ==> forall i :: 0 <= i < |values| ==>
              Some(r.value[i]) == Named(ValueName(concept, values[i]), concept, OneValue(values[i]))
  {
    if values == [] then Some([])
    else
      var front :- ValueClaims(concept, values[..|values| - 1]);
      var last :- Named(ValueName(concept, values[|values| - 1]), concept, OneValue(values[|values| - 1]));
      Some(front + [last])
  }

  function LabelKeyClaims(concept: Concept): seq<Claim> {
    var values := concept.DeclaredValues();
    seq(|values|, i requires 0 <= i < |values| =>
      Claim(LabelKeyOf(concept, values[i]), concept.name, LabelKey(values[i])))
  }

  function WithheldClaims(concept: Concept): Option<seq<Claim>> {
    if concept.withheldValues == [] then Some([])
    else
      var withheld :- Named(WithheldName(concept), concept, Withheld);
      Some([withheld])
  }

  function PythonClaims(concept: Concept): Option<seq<Claim>> {
    var whole :- Named(SetName(concept), concept, WholeSet);
    var each :- ValueClaims(concept, concept.DeclaredValues());
    var withheld :- WithheldClaims(concept);
    Some([whole] + each + withheld)
  }

  function ConsoleClaims(concept: Concept): Option<seq<Claim>> {
    var whole :- Named(SetName(concept), concept, WholeSet);
    var labels :- Named(LabelKeysName(concept), concept, LabelKeys);
    var type_ :- Named(TypeNameOf(concept), concept, TypeName);
    if concept.knownValues == [] then Some([whole, labels, type_] + LabelKeyClaims(concept))
    else
      var known :- Named(KnownTypeName(concept), concept, KnownType);
      Some([whole, labels, type_, known] + LabelKeyClaims(concept))
  }

  /** `_claims`: `None` where a token cannot be spelled on this surface. */
  function Claims(target: Target, concept: Concept): Option<seq<Claim>> {
    if concept.DeclaredValues() == [] then Some([])
    else if target == PythonConstants then PythonClaims(concept)
    else ConsoleClaims(concept)
  }

  function AllClaims(target: Target, registry: seq<Concept>): Option<seq<Claim>> {
    if registry == [] then Some([])
    else
      var front :- AllClaims(target, registry[..|registry| - 1]);
      var last :- Claims(target, registry[|registry| - 1]);
      Some(front + last)
  }

  predicate DistinctNames(claims: seq<Claim>) {
    forall i, j :: 0 <= i < j < |claims| ==> claims[i].name != claims[j].name
  }

  /** A registry this target can be rendered from. */
  predicate Accepted(target: Target, registry: seq<Concept>) {
    AllClaims(target, registry).Some? && DistinctNames(AllClaims(target, registry).value)
  }

  function ClaimedNames(claims: seq<Claim>): set<string> {
    set c | c in claims :: c.name
  }

  /** What the collision check knows once it has looked at the claims seen so far. */
  ghost predicate Tallied(seen: seq<Claim>, claimed: map<string, Claim>, found: seq<(Claim, Claim)>) {
    && claimed.Keys == ClaimedNames(seen)
    && (forall n :: n in claimed ==> claimed[n] in seen && claimed[n].name == n)
    && (found == [] <==> DistinctNames(seen))
    && (forall pair :: pair in found ==> pair.0.name == pair.1.name && pair.0 in seen && pair.1 in seen)
  }

  lemma TalliedStep(seen: seq<Claim>, claimed: map<string, Claim>, found: seq<(Claim, Claim)>, claim: Claim)
    requires Tallied(seen, claimed, found)
    ensures claim.name in claimed ==> Tallied(seen + [claim], claimed, found + [(claimed[claim.name], claim)])
    ensures claim.name !in claimed ==> Tallied(seen + [claim], claimed[claim.name := claim], found)
  {
    DistinctAppend(seen, claim);
    assert ClaimedNames(seen + [claim]) == ClaimedNames(seen) + {claim.name};
  }

  /**
   The collision check. No answer where a token has no spelling; otherwise
   every pair of claims that met on one name, and none exactly when all the
   names of the registry are distinct.
   */
  method CheckForCollisions(target: Target, registry: seq<Concept>)
    returns (collisions: Option<seq<(Claim, Claim)>>)
    ensures collisions.None? <==> AllClaims(target, registry).None?
    ensures collisions.Some? ==> (collisions.value == [] <==> Accepted(target, registry))
    ensures collisions.Some? ==> forall pair :: pair in collisions.value ==>
              && pair.0.name == pair.1.name
              && pair.0 in AllClaims(target, registry).value && pair.1 in AllClaims(target, registry).value
  {
    var claimed: map<string, Claim> := map[];
    var found: seq<(Claim, Claim)> := [];
    ghost var seen: seq<Claim> := [];
    for k := 0 to |registry|
      invariant AllClaims(target, registry[..k]) == Some(seen)
      invariant Tallied(seen, claimed, found)
    {
      assert registry[..k + 1][..k] == registry[..k];
      var claims := Claims(target, registry[k]);
      if claims.None? {
        AllClaimsFail(target, registry, k + 1);
        return None;
      }
      seen, claimed, found := CheckClaims(claims.value, seen, claimed, found);
    }
    assert registry[..|registry|] == registry;
    return Some(found);
  }

  /** One concept's turn of the collision loop. */
  method CheckClaims(claims: seq<Claim>, ghost before: seq<Claim>,
                     claimedBefore: map<string, Claim>, foundBefore: seq<(Claim, Claim)>)
    returns (ghost seen: seq<Claim>, claimed: map<string, Claim>, found: seq<(Claim, Claim)>)
    requires Tallied(before, claimedBefore, foundBefore)
    ensures seen == before + claims && Tallied(seen, claimed, found)
  {
    claimed, found, seen := claimedBefore, foundBefore, before;
    for i := 0 to |claims|
      invariant seen == before + claims[..i]
      invariant Tallied(seen, claimed, found)
    {
      var claim := claims[i];
      TalliedStep(seen, claimed, found, claim);
      if claim.name in claimed {
        found := found + [(claimed[claim.name], claim)];
      } else {
        claimed := claimed[claim.name := claim];
      }
      seen := seen + [claim];
    }
  }

  lemma DistinctSplit(a: seq<Claim>, b: seq<Claim>)
    requires DistinctNames(a + b)
    ensures DistinctNames(a) && DistinctNames(b) && ClaimedNames(a) !! ClaimedNames(b)
  {
    var all := a + b;
    assert forall i :: 0 <= i < |a| ==> all[i] == a[i];
    assert forall i :: 0 <= i < |b| ==> all[|a| + i] == b[i];
    forall x, y | x in a && y in b
      ensures x.name != y.name
    {
      var i :| 0 <= i < |a| && a[i] == x;
      var j :| 0 <= j < |b| && b[j] == y;
      assert all[i].name != all[|a| + j].name;
    }
    forall i, j | 0 <= i < j < |b|
      ensures b[i].name != b[j].name
    {
      assert all[|a| + i].name != all[|a| + j].name;
    }
  }

  lemma DistinctAppend(claims: seq<Claim>, claim: Claim)
    ensures DistinctNames(claims + [claim]) <==>
            DistinctNames(claims) && claim.name !in ClaimedNames(claims)
  {
    if DistinctNames(claims + [claim]) {
      DistinctSplit(claims, [claim]);
      assert claim in [claim];
    }
  }

  lemma {:induction false} AllClaimsFail(target: Target, registry: seq<Concept>, k: nat)
    requires k <= |registry| && AllClaims(target, registry[..k]).None?
    ensures AllClaims(target, registry).None?
    decreases |registry|
  {
    if k == |registry| {
      assert registry[..k] == registry;
    } else {
      assert registry[..|registry| - 1][..k] == registry[..k];
      AllClaimsFail(target, registry[..|registry| - 1], k);
    }
  }

  // ----- handles ---------------------------------------------------------------------

  /** The value handles, written one at a time over the whole-set handle. */
  function ValueHandles(concept: Concept, values: seq<string>, start: map<string, set<string>>)
    : Option<map<string, set<string>>>
  {
    if values == [] then Some(start)
    else
      var front :- ValueHandles(concept, values[..|values| - 1], start);
      var name :- ValueName(concept, values[|values| - 1]);
      Some(front[name := {values[|values| - 1]}])
  }

  function PythonHandles(concept: Concept): Option<map<string, set<string>>> {
    var name :- SetName(concept);
    ValueHandles(concept, concept.DeclaredValues(), map[name := Whole(concept)])
  }

  function ConsoleHandles(concept: Concept): Option<map<string, set<string>>> {
    var name :- SetName(concept);
    var labels :- LabelKeysName(concept);
    var type_ :- if concept.knownValues != [] then KnownTypeName(concept) else TypeNameOf(concept);
    Some(map[name := Whole(concept)][labels := Whole(concept)][type_ := Whole(concept)])
  }

  function Whole(concept: Concept): set<string> {
    set v | v in concept.DeclaredValues()
  }

  /** Which generated names carry which values of the concept. */
  function Handles(target: Target, concept: Concept): Option<map<string, set<string>>> {
    if concept.DeclaredValues() == [] then Some(map[])
    else if target == PythonConstants then PythonHandles(concept)
    else ConsoleHandles(concept)
  }

  /** The values of a concept that a set of referenced names carries. */
  function Carried(handles: map<string, set<string>>, names: set<string>): set<string> {
    set n, v | n in handles && n in names && v in handles[n] :: v
  }

  /** `_held` */
  method Held(handles: map<string, set<string>>, names: set<string>) returns (held: set<string>)
    ensures held == Carried(handles, names)
  {
    held := {};
    var rest := handles.Keys;
    while rest != {}
      invariant rest <= handles.Keys
      invariant held == set n, v | n in handles && n !in rest && n in names && v in handles[n] :: v
    {
      var n :| n in rest;
      rest := rest - {n};
      if n in names {
        held := held + handles[n];
      }
    }
  }

  // ----- one name, one concept -----------------------------------------------------------

  lemma {:induction false} ConceptClaimsAreInAll(target: Target, registry: seq<Concept>, i: nat)
    requires i < |registry| && AllClaims(target, registry).Some?
    ensures Claims(target, registry[i]).Some?
    ensures forall c :: c in Claims(target, registry[i]).value ==> c in AllClaims(target, registry).value
  {
    if i == |registry| - 1 {
    } else {
      ConceptClaimsAreInAll(target, registry[..|registry| - 1], i);
    }
  }

  predicate AllOf(claims: seq<Claim>, concept: string) {
    forall i :: 0 <= i < |claims| ==> claims[i].concept == concept
  }

  lemma PythonClaimsNameTheirConcept(concept: Concept)
    requires PythonClaims(concept).Some?
    ensures AllOf(PythonClaims(concept).value, concept.name)
  {
    var each := ValueClaims(concept, concept.DeclaredValues()).value;
    assert AllOf(each, concept.name) by {
      forall i | 0 <= i < |each|
        ensures each[i].concept == concept.name
      {
        assert Some(each[i]) == Named(ValueName(concept, concept.DeclaredValues()[i]), concept,
                                      OneValue(concept.DeclaredValues()[i]));
      }
    }
    assert AllOf(WithheldClaims(concept).value, concept.name);
  }

  lemma ConsoleClaimsNameTheirConcept(concept: Concept)
    requires ConsoleClaims(concept).Some?
    ensures AllOf(ConsoleClaims(concept).value, concept.name)
  {
    assert AllOf(LabelKeyClaims(concept), concept.name);
  }

  lemma ClaimsNameTheirConcept(target: Target, concept: Concept)
    requires Claims(target, concept).Some?
    ensures AllOf(Claims(target, concept).value, concept.name)
  {
    if concept.DeclaredValues() != [] {
      match target
      case PythonConstants => PythonClaimsNameTheirConcept(concept);
      case ConsoleVocabulary => ConsoleClaimsNameTheirConcept(concept);
    }
  }

  lemma OneClaimPerName(claims: seq<Claim>, a: Claim, b: Claim)
    requires DistinctNames(claims) && a in claims && b in claims && a.name == b.name
    ensures a == b
  {
    var i :| 0 <= i < |claims| && claims[i] == a;
    var j :| 0 <= j < |claims| && claims[j] == b;
  }

  /** An accepted registry gives no name to two concepts. */
  lemma NamesBelongToOneConcept(target: Target, registry: seq<Concept>, i: nat, j: nat)
    requires CompiledRegistry(registry) && Accepted(target, registry)
    requires i < |registry| && j < |registry| && i != j
    ensures Claims(target, registry[i]).Some? && Claims(target, registry[j]).Some?
    ensures ClaimedNames(Claims(target, registry[i]).value) !! ClaimedNames(Claims(target, registry[j]).value)
  {
    ConceptClaimsAreInAll(target, registry, i);
    ConceptClaimsAreInAll(target, registry, j);
    ClaimsNameTheirConcept(target, registry[i]);
    ClaimsNameTheirConcept(target, registry[j]);
    var mine, theirs := Claims(target, registry[i]).value, Claims(target, registry[j]).value;
    forall a, b | a in mine && b in theirs
      ensures a.name != b.name
    {
      if a.name == b.name {
        OneClaimPerName(AllClaims(target, registry).value, a, b);
        assert false;
      }
    }
  }

  lemma {:induction false} ValueHandlesShape(concept: Concept, values: seq<string>, start: map<string, set<string>>)
    requires ValueClaims(concept, values).Some?
    ensures ValueHandles(concept, values, start).Some?
    ensures ValueHandles(concept, values, start).value.Keys ==
            start.Keys + ClaimedNames(ValueClaims(concept, values).value)
  {
    if values == [] {
    } else {
      ValueHandlesShape(concept, values[..|values| - 1], start);
    }
  }

  lemma PythonHandlesAreClaimed(concept: Concept)
    requires PythonClaims(concept).Some?
    ensures PythonHandles(concept).Some?
    ensures PythonHandles(concept).value.Keys <= ClaimedNames(PythonClaims(concept).value)
  {
    var claims := PythonClaims(concept).value;
    var each := ValueClaims(concept, concept.DeclaredValues()).value;
    var start := map[SetName(concept).value := Whole(concept)];
    ValueHandlesShape(concept, concept.DeclaredValues(), start);
    assert claims[0] in claims;
    assert forall c :: c in each ==> c in claims;
  }

  lemma ConsoleHandlesAreClaimed(concept: Concept)
    requires ConsoleClaims(concept).Some?
    ensures ConsoleHandles(concept).Some?
    ensures ConsoleHandles(concept).value.Keys <= ClaimedNames(ConsoleClaims(concept).value)
  {
    var claims := ConsoleClaims(concept).value;
    assert claims[0] in claims && claims[1] in claims && claims[2] in claims;
    if concept.knownValues != [] {
      assert claims[3] in claims;
    }
  }

  /** Every handle is one of the names the concept claimed. */
  lemma HandlesAreClaimed(target: Target, concept: Concept)
    requires Claims(target, concept).Some?
    ensures Handles(target, concept).Some?
    ensures Handles(target, concept).value.Keys <= ClaimedNames(Claims(target, concept).value)
  {
    if concept.DeclaredValues() != [] {
      match target
      case PythonConstants => PythonHandlesAreClaimed(concept);
      case ConsoleVocabulary => ConsoleHandlesAreClaimed(concept);
    }
  }

  /** References to the other concepts of an accepted registry never change what is held of one. */
  lemma OtherConceptsDoNotMatter(
    target: Target, registry: seq<Concept>, i: nat, j: nat, names: set<string>, others: set<string>)
    requires CompiledRegistry(registry) && Accepted(target, registry)
    requires i < |registry| && j < |registry| && i != j
    requires Claims(target, registry[j]).Some? && others <= ClaimedNames(Claims(target, registry[j]).value)
    ensures Handles(target, registry[i]).Some?
    ensures Carried(Handles(target, registry[i]).value, names + others) ==
            Carried(Handles(target, registry[i]).value, names)
  {
    NamesBelongToOneConcept(target, registry, i, j);
    HandlesAreClaimed(target, registry[i]);
  }

  // ----- what a Python consumer holds --------------------------------------------------------

  lemma {:induction false} ValueHandlesBind(
    concept: Concept, values: seq<string>, start: map<string, set<string>>, i: nat)
    requires ValueClaims(concept, values).Some? && DistinctNames(ValueClaims(concept, values).value)
    requires i < |values|
    ensures ValueHandles(concept, values, start).Some?
    ensures ValueName(concept, values[i]).Some?
    ensures var handles := ValueHandles(concept, values, start).value;
            var name := ValueName(concept, values[i]).value;
            name in handles && handles[name] == {values[i]}
  {
    ValueHandlesShape(concept, values, start);
    var claims := ValueClaims(concept, values).value;
    var front := values[..|values| - 1];
    assert ValueClaims(concept, front).value == claims[..|values| - 1];
    assert claims[i].name == ValueName(concept, values[i]).value;
    if i < |values| - 1 {
      ValueHandlesBind(concept, front, start, i);
      assert claims[|values| - 1].name == ValueName(concept, values[|values| - 1]).value;
    }
  }

  lemma {:induction false} ValueHandlesKeepStart(
    concept: Concept, values: seq<string>, start: map<string, set<string>>, name: string)
    requires ValueClaims(concept, values).Some? && name in start
    requires name !in ClaimedNames(ValueClaims(concept, values).value)
    ensures ValueHandles(concept, values, start).Some?
    ensures name in ValueHandles(concept, values, start).value
    ensures ValueHandles(concept, values, start).value[name] == start[name]
  {
    ValueHandlesShape(concept, values, start);
    if values != [] {
      var claims := ValueClaims(concept, values).value;
      assert ValueClaims(concept, values[..|values| - 1]).value == claims[..|values| - 1];
      assert claims[|values| - 1] in claims;
      ValueHandlesKeepStart(concept, values[..|values| - 1], start, name);
    }
  }

  lemma {:induction false} ConceptClaimsDistinct(target: Target, registry: seq<Concept>, i: nat)
    requires i < |registry| && Accepted(target, registry)
    ensures Claims(target, registry[i]).Some? && DistinctNames(Claims(target, registry[i]).value)
  {
    var front := registry[..|registry| - 1];
    DistinctSplit(AllClaims(target, front).value, Claims(target, registry[|registry| - 1]).value);
    if i < |registry| - 1 {
      ConceptClaimsDistinct(target, front, i);
    }
  }

  lemma PythonClaimsDistinct(concept: Concept)
    requires PythonClaims(concept).Some? && DistinctNames(PythonClaims(concept).value)
    ensures SetName(concept).Some? && ValueClaims(concept, concept.DeclaredValues()).Some?
    ensures DistinctNames(ValueClaims(concept, concept.DeclaredValues()).value)
    ensures SetName(concept).value !in ClaimedNames(ValueClaims(concept, concept.DeclaredValues()).value)
  {
    var whole := Named(SetName(concept), concept, WholeSet).value;
    var each := ValueClaims(concept, concept.DeclaredValues()).value;
    DistinctSplit([whole] + each, WithheldClaims(concept).value);
    DistinctSplit([whole], each);
    assert whole in [whole];
  }

  /** In a concept whose claims are distinct, no value handle overwrites another or the whole-set one. */
  lemma PythonHandlesBind(concept: Concept, i: nat)
    requires PythonClaims(concept).Some? && DistinctNames(PythonClaims(concept).value)
    requires i < |concept.DeclaredValues()|
    ensures SetName(concept).Some? && ValueName(concept, concept.DeclaredValues()[i]).Some?
    ensures PythonHandles(concept).Some?
    ensures var handles := PythonHandles(concept).value;
            var own := ValueName(concept, concept.DeclaredValues()[i]).value;
            && SetName(concept).value in handles && handles[SetName(concept).value] == Whole(concept)
            && own in handles && handles[own] == {concept.DeclaredValues()[i]}
  {
    PythonClaimsDistinct(concept);
    var start := map[SetName(concept).value := Whole(concept)];
    ValueHandlesBind(concept, concept.DeclaredValues(), start, i);
    ValueHandlesKeepStart(concept, concept.DeclaredValues(), start, SetName(concept).value);
  }

  lemma OnlyHandlesOf(concept: Concept, name: string) returns (i: nat)
    requires PythonClaims(concept).Some? && DistinctNames(PythonClaims(concept).value)
    requires PythonHandles(concept).Some? && name in PythonHandles(concept).value
    requires SetName(concept) != Some(name)
    ensures i < |concept.DeclaredValues()| && ValueName(concept, concept.DeclaredValues()[i]) == Some(name)
  {
    PythonClaimsDistinct(concept);
    var values := concept.DeclaredValues();
    ValueHandlesShape(concept, values, map[SetName(concept).value := Whole(concept)]);
    var each := ValueClaims(concept, values).value;
    var c :| c in each && c.name == name;
    i :| 0 <= i < |each| && each[i] == c;
  }

  lemma ConceptHoldsByReference(concept: Concept, value: string, names: set<string>)
    requires PythonClaims(concept).Some? && DistinctNames(PythonClaims(concept).value)
    requires value in concept.DeclaredValues()
    ensures PythonHandles(concept).Some? && SetName(concept).Some? && ValueName(concept, value).Some?
    ensures value in Carried(PythonHandles(concept).value, names) <==>
            SetName(concept).value in names || ValueName(concept, value).value in names
  {
    var k :| 0 <= k < |concept.DeclaredValues()| && concept.DeclaredValues()[k] == value;
    PythonHandlesBind(concept, k);
    var handles := PythonHandles(concept).value;
    assert value in Whole(concept);
    assert value in handles[SetName(concept).value] && value in handles[ValueName(concept, value).value];
    forall n | n in handles && value in handles[n]
      ensures n == SetName(concept).value || n == ValueName(concept, value).value
    {
      OnlyBinderOf(concept, n, value);
    }
  }

  lemma OnlyBinderOf(concept: Concept, name: string, value: string)
    requires PythonClaims(concept).Some? && DistinctNames(PythonClaims(concept).value)
    requires PythonHandles(concept).Some? && name in PythonHandles(concept).value
    requires value in PythonHandles(concept).value[name]
    ensures SetName(concept) == Some(name) || ValueName(concept, value) == Some(name)
  {
    if SetName(concept) != Some(name) {
      var m := OnlyHandlesOf(concept, name);
      PythonHandlesBind(concept, m);
    }
  }

  /**
   A Python consumer holds a declared value exactly when it references the
   concept's whole set or that value's own constant.
   */
  lemma PythonHoldsByReference(registry: seq<Concept>, i: nat, value: string, names: set<string>)
    requires Accepted(PythonConstants, registry) && i < |registry|
    requires value in registry[i].DeclaredValues()
    ensures Handles(PythonConstants, registry[i]).Some?
    ensures SetName(registry[i]).Some? && ValueName(registry[i], value).Some?
    ensures value in Carried(Handles(PythonConstants, registry[i]).value, names) <==>
            SetName(registry[i]).value in names || ValueName(registry[i], value).value in names
  {
    ConceptClaimsDistinct(PythonConstants, registry, i);
    ConceptHoldsByReference(registry[i], value, names);
  }

  // ----- what a console consumer holds -------------------------------------------------------

  /** The generated names a console consumer may refer to: the set, the label keys and the type that spells the values. */
  function ConsoleNames(concept: Concept): Option<set<string>> {
    var name :- SetName(concept);
    var labels :- LabelKeysName(concept);
    var type_ :- if concept.knownValues != [] then KnownTypeName(concept) else TypeNameOf(concept);
    Some({name, labels, type_})
  }

  /** A console consumer holds all of a concept's values, by any one of its names, or none of them. */
  lemma ConsoleHoldsAllOrNothing(registry: seq<Concept>, i: nat, names: set<string>)
    requires Accepted(ConsoleVocabulary, registry) && i < |registry| && registry[i].DeclaredValues() != []
    ensures Handles(ConsoleVocabulary, registry[i]).Some? && ConsoleNames(registry[i]).Some?
    ensures Carried(Handles(ConsoleVocabulary, registry[i]).value, names) ==
            if ConsoleNames(registry[i]).value !! names then {} else Whole(registry[i])
  {
    ConceptClaimsDistinct(ConsoleVocabulary, registry, i);
    HandlesAreClaimed(ConsoleVocabulary, registry[i]);
    var handles, own := Handles(ConsoleVocabulary, registry[i]).value, ConsoleNames(registry[i]).value;
    assert handles.Keys == own;
    assert forall n :: n in handles ==> handles[n] == Whole(registry[i]);
    if !(own !! names) {
      var n :| n in own && n in names;
      assert forall v :: v in Whole(registry[i]) ==> v in handles[n];
    }
  }

  /** An open concept's own type admits values nobody declared, and is no handle on the ones that were. */
  lemma OpenTypeIsNoHandle(registry: seq<Concept>, i: nat)
    requires Accepted(ConsoleVocabulary, registry) && i < |registry| && registry[i].knownValues != []
    requires registry[i].DeclaredValues() != []
    ensures TypeNameOf(registry[i]).Some? && ConsoleNames(registry[i]).Some?
    ensures TypeNameOf(registry[i]).value !in ConsoleNames(registry[i]).value
  {
    ConceptClaimsDistinct(ConsoleVocabulary, registry, i);
    var claims := ConsoleClaims(registry[i]).value;
    assert claims[0].name == SetName(registry[i]).value && claims[1].name == LabelKeysName(registry[i]).value;
    assert claims[2].name == TypeNameOf(registry[i]).value && claims[3].name == KnownTypeName(registry[i]).value;
  }
}
