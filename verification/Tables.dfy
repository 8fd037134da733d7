/** Dictionaries filled in one pass, where a later item replaces an earlier one. */
module Tables {
  import opened Wrappers

  /** `for item in items: if item states a key: table[key] = value` */
  function Table<T, K(==), V>(items: seq<T>, read: T -> Option<(K, V)>): map<K, V> {
    if items == [] then map[]
    else
      var earlier := Table(items[..|items| - 1], read);
      match read(items[|items| - 1])
      case Some(pair) => earlier[pair.0 := pair.1]
      case None => earlier
  }

  predicate States<T, K(==), V>(item: T, read: T -> Option<(K, V)>, key: K) {
    read(item).Some? && read(item).value.0 == key
  }

  /** The i-th item is the last that states this key. */
  ghost predicate IsLatest<T, K, V>(items: seq<T>, read: T -> Option<(K, V)>, key: K, i: nat) {
    && i < |items| && States(items[i], read, key)
    && forall j :: i < j < |items| ==> !States(items[j], read, key)
  }

  lemma TableStep<T, K, V>(items: seq<T>, read: T -> Option<(K, V)>, k: nat)
    requires k < |items|
    ensures Table(items[..k + 1], read) ==
            match read(items[k])
            case Some(pair) => Table(items[..k], read)[pair.0 := pair.1]
            case None => Table(items[..k], read)
  {
    assert items[..k + 1][..k] == items[..k];
  }

  lemma TableOfOne<T, K, V>(item: T, read: T -> Option<(K, V)>)
    ensures Table([item], read) == match read(item) case Some(pair) => map[pair.0 := pair.1] case None => map[]
  {
    assert [item][..0] == [];
  }

  /** A key is in the table exactly when an item states it, with the value the last such item gives it. */
  lemma {:induction false} TableFinds<T, K, V>(items: seq<T>, read: T -> Option<(K, V)>, key: K)
    ensures key in Table(items, read) <==> exists i: nat :: IsLatest(items, read, key, i)
    ensures forall i: nat :: IsLatest(items, read, key, i) ==>
              key in Table(items, read) && Table(items, read)[key] == read(items[i]).value.1
    ensures key !in Table(items, read) ==> forall i :: 0 <= i < |items| ==> !States(items[i], read, key)
  {
    if items == [] {
    } else {
      var n := |items| - 1;
      TableFinds(items[..n], read, key);
      if States(items[n], read, key) {
        assert IsLatest(items, read, key, n);
      } else {
        LatestInFront(items, read, key);
        if i: nat :| IsLatest(items[..n], read, key, i) {
          assert IsLatest(items, read, key, i);
        }
      }
    }
  }

  lemma LatestInFront<T, K, V>(items: seq<T>, read: T -> Option<(K, V)>, key: K)
    requires items != [] && !States(items[|items| - 1], read, key)
    ensures forall i: nat :: IsLatest(items, read, key, i) <==> IsLatest(items[..|items| - 1], read, key, i)
  {
    var front := items[..|items| - 1];
    assert forall i :: 0 <= i < |front| ==> front[i] == items[i];
  }
}
