/**
 Parsed JSON and YAML documents.

 An object keeps its members in insertion order, as a Python dictionary does.
 Integers, floats and booleans are three shapes, because the code tells them
 apart with `isinstance`.
 */
module Json {
  import opened Wrappers

  datatype Json =
    | Null
    | Bool(b: bool)
    | Int(n: int)
    | Float(r: real)
    | String(s: string)
    | Array(items: seq<Json>)
    | Object(fields: seq<Field>)

  datatype Field = Field(key: string, value: Json)

  predicate HasKey(fields: seq<Field>, key: string) {
    exists i :: 0 <= i < |fields| && fields[i].key == key
  }

  /** `dict.get`, with a missing member told apart from a null one. */
  function Get(fields: seq<Field>, key: string): (r: Option<Json>)
    ensures r.Some? <==> HasKey(fields, key)
    ensures r.Some? ==> exists i :: 0 <= i < |fields| && fields[i].key == key && fields[i].value == r.value
  {
    if fields == [] then None
    else if fields[0].key == key then
      assert HasKey(fields, key) by { assert fields[0].key == key; }
      Some(fields[0].value)
    else
      assert HasKey(fields[1..], key) ==> HasKey(fields, key) by {
        if HasKey(fields[1..], key) {
          var i :| 0 <= i < |fields[1..]| && fields[1..][i].key == key;
          assert fields[i + 1].key == key;
        }
      }
      assert HasKey(fields, key) ==> HasKey(fields[1..], key) by {
        if HasKey(fields, key) {
          var i :| 0 <= i < |fields| && fields[i].key == key;
          assert fields[1..][i - 1].key == key;
        }
      }
      Get(fields[1..], key)
  }

  /** `dict.get` as Python answers it: null when the member is missing. */
  function GetOrNull(fields: seq<Field>, key: string): Json {
    match Get(fields, key)
    case Some(v) => v
    case None => Null
  }

  /** What a dictionary guarantees: one member per key. */
  predicate DistinctKeys(fields: seq<Field>) {
    forall i, j :: 0 <= i < j < |fields| ==> fields[i].key != fields[j].key
  }

  /** Every object of the document is a dictionary. */
  predicate WellFormed(node: Json)
    decreases node
  {
    match node
    case Array(items) => forall i :: 0 <= i < |items| ==> WellFormed(items[i])
    case Object(fields) =>
      && DistinctKeys(fields)
      && forall i :: 0 <= i < |fields| ==> WellFormed(fields[i].value)
    case _ => true
  }

  /** `isinstance(value, int)`: a Python boolean is an integer. */
  function AsInt(value: Json): Option<int> {
    match value
    case Int(n) => Some(n)
    case Bool(b) => Some(if b then 1 else 0)
    case _ => None
  }

  /** `value == 1`, which `1.0` and `true` satisfy too. */
  predicate EqualsOne(value: Json) {
    value == Int(1) || value == Float(1.0) || value == Bool(true)
  }

  lemma {:induction false} GetAt(fields: seq<Field>, i: nat)
    requires DistinctKeys(fields) && i < |fields|
    ensures Get(fields, fields[i].key) == Some(fields[i].value)
  {
    var key := fields[i].key;
    assert HasKey(fields, key);
    var j :| 0 <= j < |fields| && fields[j].key == key && fields[j].value == Get(fields, key).value;
    assert i == j;
  }

  /** `body.get(key)` of a body that may not be a mapping: null where there is nothing. */
  function Member(body: Json, key: string): Json {
    if body.Object? then GetOrNull(body.fields, key) else Null
  }
}
