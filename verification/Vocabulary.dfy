/**
 A compiled registry: the concepts of tools/vocabulary/compiler.py, reduced to
 the fields the generator, the census and the decision document read.
 */
module Vocabulary {
  import opened Wrappers

  datatype Consumer = Consumer(surface: string, path: string)

  datatype Concept = Concept(
    name: string,
    kind: string,
    values: seq<string>,
    knownValues: seq<string>,
    withheldValues: seq<string>,
    labelKeyPrefix: Option<string>,
    consumers: seq<Consumer>)
  {
    /** Every value UBB itself authored. */
    function DeclaredValues(): seq<string> {
      if values != [] then values else knownValues
    }

    /** The declared values a producer may write. */
    function OccurringValues(): seq<string> {
      Excluding(DeclaredValues(), (set v | v in withheldValues))
    }
  }

  /** `[v for v in values if v not in excluded]` */
  function Excluding(values: seq<string>, excluded: set<string>): seq<string> {
    if values == [] then []
    else
      var last := values[|values| - 1];
      var rest := Excluding(values[..|values| - 1], excluded);
      if last in excluded then rest else rest + [last]
  }

  /** What the compiler has already refused a concept for lacking. */
  predicate Compiled(concept: Concept) {
    && Distinct(concept.values)
    && Distinct(concept.knownValues)
    && (forall v :: v in concept.withheldValues ==> v in concept.values)
    && (concept.values != [] ==> exists v :: v in concept.values && v !in concept.withheldValues)
  }

  /** The concepts in name order, one per name. */
  predicate CompiledRegistry(registry: seq<Concept>) {
    && (forall i :: 0 <= i < |registry| ==> Compiled(registry[i]))
    && (forall i, j :: 0 <= i < j < |registry| ==> registry[i].name != registry[j].name)
  }

  lemma {:induction false} ExcludingMembers(values: seq<string>, excluded: set<string>)
    ensures forall v :: v in Excluding(values, excluded) <==> v in values && v !in excluded
  {
    if values == [] {
    } else {
      ExcludingMembers(values[..|values| - 1], excluded);
      assert values == values[..|values| - 1] + [values[|values| - 1]];
    }
  }

  /** A held set and what it is missing partition distinct declared values. */
  lemma {:induction false} ExcludingPartitions(values: seq<string>, held: set<string>)
    requires Distinct(values)
    ensures |held * (set v | v in values)| + |Excluding(values, held)| == |values|
  {
    if values == [] {
      assert held * (set v | v in values) == {};
    } else {
      var front, last := values[..|values| - 1], values[|values| - 1];
      var all, earlier := set v | v in values, set v | v in front;
      ExcludingPartitions(front, held);
      assert values == front + [last];
      assert last !in front;
      assert all == earlier + {last};
      MeetsOneMore(held, earlier, last);
    }
  }

  lemma MeetsOneMore(held: set<string>, earlier: set<string>, last: string)
    requires last !in earlier
    ensures |held * (earlier + {last})| == |held * earlier| + if last in held then 1 else 0
  {
    if last in held {
      assert held * (earlier + {last}) == held * earlier + {last};
    } else {
      assert held * (earlier + {last}) == held * earlier;
    }
  }

  lemma {:induction false} ExcludingAll(values: seq<string>, excluded: set<string>)
    requires forall i :: 0 <= i < |values| ==> values[i] in excluded
    ensures Excluding(values, excluded) == []
  {
    if values == [] {
    } else {
      ExcludingAll(values[..|values| - 1], excluded);
    }
  }

  lemma OccurringIsInhabited(concept: Concept)
    requires Compiled(concept) && concept.DeclaredValues() != []
    ensures concept.OccurringValues() != []
  {
    var excluded := set v | v in concept.withheldValues;
    ExcludingMembers(concept.DeclaredValues(), excluded);
    if concept.values != [] {
      var v :| v in concept.values && v !in concept.withheldValues;
      assert v in concept.OccurringValues();
    } else {
      assert concept.DeclaredValues()[0] in concept.OccurringValues();
    }
  }

  lemma OccurringIsDeclared(concept: Concept)
    ensures forall v :: v in concept.OccurringValues() ==>
              v in concept.DeclaredValues() && v !in concept.withheldValues
  {
    ExcludingMembers(concept.DeclaredValues(), (set v | v in concept.withheldValues));
  }
}
