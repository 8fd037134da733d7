/** Facts about runs of sets, shared by the two ratchets. */
module Histories {
  /** Held at one moment and not at a later one: it was dropped at some moment in between. */
  lemma {:induction false} LastHeld<T>(held: seq<set<T>>, x: T, i: nat, j: nat)
    requires i <= j < |held| && x in held[i] && x !in held[j]
    ensures exists k :: i < k <= j && x in held[k - 1] && x !in held[k]
    decreases j - i
  {
    if x in held[i + 1] {
      LastHeld(held, x, i + 1, j);
    } else {
      assert x in held[i + 1 - 1];
    }
  }

  /** Missing at one moment and held at a later one: it came in at some moment in between. */
  lemma {:induction false} FirstHeld<T>(held: seq<set<T>>, x: T, i: nat, j: nat)
    requires i <= j < |held| && x !in held[i] && x in held[j]
    ensures exists k :: i < k <= j && x in held[k] && x !in held[k - 1]
    decreases j - i
  {
    if x in held[i + 1] {
      assert x !in held[i + 1 - 1];
    } else {
      FirstHeld(held, x, i + 1, j);
    }
  }

  predicate ComesIn<T(==)>(held: seq<set<T>>, x: T, j: nat) {
    0 < j < |held| && x in held[j] && x !in held[j - 1]
  }

  predicate DroppedAndBack<T(==)>(held: seq<set<T>>, x: T, k: nat, j: nat) {
    k < j < |held| && x !in held[k] && x in held[j]
  }

  /** Held once, it comes in a second time exactly when it is dropped and is back later. */
  lemma ComesInAgainIffDroppedAndBack<T>(held: seq<set<T>>, x: T, i: nat)
    requires i < |held| && x in held[i]
    ensures (exists j: nat :: i < j && ComesIn(held, x, j)) <==> (exists k: nat, j: nat :: i < k && DroppedAndBack(held, x, k, j))
  {
    if j: nat :| i < j && ComesIn(held, x, j) {
      assert j - 1 > i && DroppedAndBack(held, x, j - 1, j);
    }
    if k: nat, j: nat :| i < k && DroppedAndBack(held, x, k, j) {
      FirstHeld(held, x, k, j);
      var again :| k < again <= j && x in held[again] && x !in held[again - 1];
      assert ComesIn(held, x, again);
    }
  }
}
