/**
 A total over an amount that may be missing, and the count of what it left out
 (ubb-platform/core/cost_totals.py).
 */
module CostTotals {
  import opened Wrappers

  /** Which columns a total is taken over, and what its count is called. */
  datatype AmountStatusPair = AmountStatusPair(unresolvedStatus: string, countKey: string)

  /** One row's amount column and the status column beside it. */
  datatype Posting = Posting(amount: Option<int>, status: string)

  predicate CountsAsUnresolved(pair: AmountStatusPair, status: string) {
    status == pair.unresolvedStatus
  }

  /** What the database holds a row to: an unresolved amount is a missing one. */
  predicate Consistent(pair: AmountStatusPair, postings: seq<Posting>) {
    forall i :: 0 <= i < |postings| && postings[i].status == pair.unresolvedStatus ==> postings[i].amount.None?
  }

  // ----- the aggregate, as SQL takes it -------------------------------------------------

  /** `Sum(amount)`: NULL where no row has an amount. */
  function SqlSum(postings: seq<Posting>): Option<int> {
    if postings == [] then None
    else
      var front := SqlSum(postings[..|postings| - 1]);
      match postings[|postings| - 1].amount
      case None => front
      case Some(n) => Some(n + if front.Some? then front.value else 0)
  }

  /** `Count("id", filter=Q(status=unresolved))` */
  function SqlCount(pair: AmountStatusPair, postings: seq<Posting>): nat {
    if postings == [] then 0
    else
      SqlCount(pair, postings[..|postings| - 1]) +
      if postings[|postings| - 1].status == pair.unresolvedStatus then 1 else 0
  }

  /** `cost_total`: the empty sum is nothing. */
  function CostTotal(resolved: Option<int>, unresolved: nat): (int, nat) {
    (if resolved.None? then 0 else resolved.value, unresolved)
  }

  function PairOf(pair: AmountStatusPair, postings: seq<Posting>): (int, nat) {
    CostTotal(SqlSum(postings), SqlCount(pair, postings))
  }

  // ----- a caller that accumulates in Python ----------------------------------------------

  /** Row by row: an amount is added; a missing one is asked about. */
  method Accumulate(pair: AmountStatusPair, postings: seq<Posting>) returns (total: int, unresolved: nat)
    requires Consistent(pair, postings)
    ensures (total, unresolved) == PairOf(pair, postings)
  {
    total, unresolved := 0, 0;
    for i := 0 to |postings|
      invariant (total, unresolved) == PairOf(pair, postings[..i])
    {
      assert postings[..i + 1][..i] == postings[..i];
      if postings[i].amount.Some? {
        total := total + postings[i].amount.value;
      } else if CountsAsUnresolved(pair, postings[i].status) {
        unresolved := unresolved + 1;
      }
    }
    assert postings[..|postings|] == postings;
  }

  // ----- groups ---------------------------------------------------------------------------

  function Plus(a: (int, nat), b: (int, nat)): (int, nat) {
    (a.0 + b.0, a.1 + b.1)
  }

  lemma {:induction false} PairsAdd(pair: AmountStatusPair, a: seq<Posting>, b: seq<Posting>)
    ensures PairOf(pair, a + b) == Plus(PairOf(pair, a), PairOf(pair, b))
  {
    if b == [] {
      assert a + b == a;
    } else {
      assert (a + b)[..|a + b| - 1] == a + b[..|b| - 1];
      PairsAdd(pair, a, b[..|b| - 1]);
    }
  }

  function Flatten(groups: seq<seq<Posting>>): seq<Posting> {
    if groups == [] then [] else Flatten(groups[..|groups| - 1]) + groups[|groups| - 1]
  }

  function GroupPairs(pair: AmountStatusPair, groups: seq<seq<Posting>>): (int, nat) {
    if groups == [] then (0, 0)
    else Plus(GroupPairs(pair, groups[..|groups| - 1]), PairOf(pair, groups[|groups| - 1]))
  }

  /** However the rows are grouped, no group's exclusions are lost or counted against another. */
  lemma {:induction false} GroupsAddUp(pair: AmountStatusPair, groups: seq<seq<Posting>>)
    ensures GroupPairs(pair, groups) == PairOf(pair, Flatten(groups))
  {
    if groups == [] {
    } else {
      GroupsAddUp(pair, groups[..|groups| - 1]);
      PairsAdd(pair, Flatten(groups[..|groups| - 1]), groups[|groups| - 1]);
    }
  }

  /** The pair is a fact about which rows there are, not about their order. */
  lemma {:induction false} PairIgnoresOrder(pair: AmountStatusPair, a: seq<Posting>, b: seq<Posting>)
    requires multiset(a) == multiset(b)
    ensures PairOf(pair, a) == PairOf(pair, b)
    decreases |a|
  {
    if a == [] {
      assert |multiset(b)| == 0;
      assert |b| == 0;
    } else {
      var last, front := a[|a| - 1], a[..|a| - 1];
      assert a == front + [last];
      assert last in multiset(b);
      var i :| 0 <= i < |b| && b[i] == last;
      var rest := b[..i] + b[i + 1..];
      assert b == b[..i] + [last] + b[i + 1..];
      assert multiset(rest) == multiset(b) - multiset{last};
      assert multiset(front) == multiset(a) - multiset{last};
      PairIgnoresOrder(pair, front, rest);
      TakingOneOut(pair, b[..i], last, b[i + 1..]);
      PairsAdd(pair, front, [last]);
    }
  }

  lemma TakingOneOut(pair: AmountStatusPair, x: seq<Posting>, row: Posting, y: seq<Posting>)
    ensures PairOf(pair, x + [row] + y) == Plus(PairOf(pair, x + y), PairOf(pair, [row]))
  {
    PairsAdd(pair, x + [row], y);
    PairsAdd(pair, x, [row]);
    PairsAdd(pair, x, y);
  }

  // ----- resolving a posting ------------------------------------------------------------------

  /** Learning one unresolved amount, of either sign, moves the total by it and the count by one. */
  lemma ResolvingMovesThePair(pair: AmountStatusPair, postings: seq<Posting>, i: nat, amount: int, status: string)
    requires Consistent(pair, postings) && i < |postings|
    requires postings[i].status == pair.unresolvedStatus && status != pair.unresolvedStatus
    ensures PairOf(pair, postings).1 > 0
    ensures PairOf(pair, postings[i := Posting(Some(amount), status)]) ==
            (PairOf(pair, postings).0 + amount, PairOf(pair, postings).1 - 1)
  {
    var x, y := postings[..i], postings[i + 1..];
    var was, now := postings[i], Posting(Some(amount), status);
    assert postings == (x + [was]) + y;
    assert postings[i := now] == (x + [now]) + y;
    PairsAdd(pair, x + [was], y);
    PairsAdd(pair, x + [now], y);
    PairsAdd(pair, x, [was]);
    PairsAdd(pair, x, [now]);
    SinglePair(pair, was);
    SinglePair(pair, now);
  }

  lemma SinglePair(pair: AmountStatusPair, posting: Posting)
    ensures PairOf(pair, [posting]) ==
            (if posting.amount.Some? then posting.amount.value else 0,
             if posting.status == pair.unresolvedStatus then 1 else 0)
  {
    assert [posting][..0] == [];
    assert SqlSum([]) == None && SqlCount(pair, []) == 0;
  }

  // ----- what a complete total is -----------------------------------------------------------------

  /** The amounts as they turn out: the ones held, nothing where none applies, anything where unresolved. */
  predicate TurnsOut(pair: AmountStatusPair, postings: seq<Posting>, truth: seq<int>) {
    && |truth| == |postings|
    && forall i :: 0 <= i < |postings| ==>
         match postings[i].amount
         case Some(n) => truth[i] == n
         case None => postings[i].status != pair.unresolvedStatus ==> truth[i] == 0
  }

  function Total(truth: seq<int>): int {
    if truth == [] then 0 else Total(truth[..|truth| - 1]) + truth[|truth| - 1]
  }

  lemma {:induction false} CompleteIsTrue(pair: AmountStatusPair, postings: seq<Posting>, truth: seq<int>)
    requires TurnsOut(pair, postings, truth) && PairOf(pair, postings).1 == 0
    ensures PairOf(pair, postings).0 == Total(truth)
  {
    if postings == [] {
    } else {
      CompleteIsTrue(pair, postings[..|postings| - 1], truth[..|truth| - 1]);
    }
  }

  function Known(postings: seq<Posting>): seq<int> {
    seq(|postings|, i requires 0 <= i < |postings| =>
      if postings[i].amount.Some? then postings[i].amount.value else 0)
  }

  lemma {:induction false} CountedRowExists(pair: AmountStatusPair, postings: seq<Posting>) returns (i: nat)
    requires SqlCount(pair, postings) > 0
    ensures i < |postings| && postings[i].status == pair.unresolvedStatus
  {
    if postings[|postings| - 1].status == pair.unresolvedStatus {
      i := |postings| - 1;
    } else {
      i := CountedRowExists(pair, postings[..|postings| - 1]);
    }
  }

  lemma {:induction false} TotalMoves(truth: seq<int>, i: nat, to: int)
    requires i < |truth|
    ensures Total(truth[i := to]) == Total(truth) + to - truth[i]
  {
    var moved := truth[i := to];
    if i < |truth| - 1 {
      TotalMoves(truth[..|truth| - 1], i, to);
      assert moved[..|truth| - 1] == truth[..|truth| - 1][i := to];
    } else {
      assert moved[..|truth| - 1] == truth[..|truth| - 1];
    }
  }

  /**
   A count of zero is what makes the sum the true total: with any row counted,
   the amounts can turn out to a total the sum is not.
   */
  lemma ZeroCountMeansComplete(pair: AmountStatusPair, postings: seq<Posting>)
    requires Consistent(pair, postings)
    ensures PairOf(pair, postings).1 == 0 <==>
            forall truth :: TurnsOut(pair, postings, truth) ==> Total(truth) == PairOf(pair, postings).0
  {
    if PairOf(pair, postings).1 == 0 {
      forall truth | TurnsOut(pair, postings, truth)
        ensures Total(truth) == PairOf(pair, postings).0
      {
        CompleteIsTrue(pair, postings, truth);
      }
    } else {
      var i := CountedRowExists(pair, postings);
      var truth := Known(postings);
      assert TurnsOut(pair, postings, truth);
      var moved := truth[i := truth[i] + 1];
      assert TurnsOut(pair, postings, moved);
      TotalMoves(truth, i, truth[i] + 1);
    }
  }

  // ----- one aggregate row, rewritten in place ----------------------------------------------------

  /** What carrying a pair makes of a row's cells. */
  function Carried(cells: map<string, Option<int>>, pair: AmountStatusPair, key: string): map<string, Option<int>>
    requires key in cells && pair.countKey in cells
  {
    cells[key := Some(if cells[key].None? then 0 else cells[key].value)][pair.countKey := cells[pair.countKey]]
  }

  class AggregateRow {
    var cells: map<string, Option<int>>

    constructor (cells: map<string, Option<int>>)
      ensures this.cells == cells
    {
      this.cells := cells;
    }

    /** `carry_cost_total` */
    method CarryCostTotal(pair: AmountStatusPair, key: string)
      requires key in cells && pair.countKey in cells && key != pair.countKey
      modifies this
      ensures cells == Carried(old(cells), pair, key)
      ensures cells[key].Some? && cells[pair.countKey] == old(cells)[pair.countKey]
      ensures forall other :: other in old(cells) && other != key ==> other in cells && cells[other] == old(cells)[other]
      ensures cells.Keys == old(cells).Keys
    {
      var resolved, count := cells[key], cells[pair.countKey];
      cells := cells[key := Some(if resolved.None? then 0 else resolved.value)];
      cells := cells[pair.countKey := count];
    }
  }

  /** Two pairs on one row: each keeps to its own two keys, so the order they are carried in is nothing. */
  lemma CarryingCommutes(cells: map<string, Option<int>>, p: AmountStatusPair, pKey: string,
                         q: AmountStatusPair, qKey: string)
    requires {pKey, p.countKey, qKey, q.countKey} <= cells.Keys
    requires {pKey, p.countKey} !! {qKey, q.countKey} && pKey != p.countKey && qKey != q.countKey
    ensures Carried(Carried(cells, p, pKey), q, qKey) == Carried(Carried(cells, q, qKey), p, pKey)
  {
  }

  /** And a row that has been carried can be carried again. */
  lemma CarryingTwiceIsOnce(cells: map<string, Option<int>>, pair: AmountStatusPair, key: string)
    requires key in cells && pair.countKey in cells && key != pair.countKey
    ensures Carried(Carried(cells, pair, key), pair, key) == Carried(cells, pair, key)
  {
  }
}
