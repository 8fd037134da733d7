/** Money lines and what has crossed them (ubb-platform/core/crossing.py). */
module Crossing {
  import opened Wrappers
  import opened Arithmetic

  // ----- the wallet floor: a balance that falls ------------------------------------------

  function FloorLine(minBalance: int): int {
    -minBalance
  }

  predicate PastFloor(balance: int, minBalance: Option<int>) {
    minBalance.Some? && balance < FloorLine(minBalance.value)
  }

  predicate CrossedFloor(before: int, after: int, minBalance: Option<int>) {
    minBalance.Some? && before >= FloorLine(minBalance.value) && after < FloorLine(minBalance.value)
  }

  predicate RecoveredFloor(balance: int, minBalance: Option<int>) {
    minBalance.None? || balance >= FloorLine(minBalance.value)
  }

  /** The stop and the resume edge meet at the line: it is allowed, one micro below it is past, and there is no gap. */
  lemma EdgesMeetAtTheLine(balance: int, minBalance: Option<int>)
    ensures RecoveredFloor(balance, minBalance) <==> !PastFloor(balance, minBalance)
    ensures minBalance.Some? ==>
              && RecoveredFloor(FloorLine(minBalance.value), minBalance)
              && PastFloor(FloorLine(minBalance.value) - 1, minBalance)
    ensures forall after :: CrossedFloor(balance, after, minBalance) <==>
                              RecoveredFloor(balance, minBalance) && PastFloor(after, minBalance)
  {
  }

  /** How often a run of balances fires the crossing. */
  function Crossings(balances: seq<int>, minBalance: Option<int>): nat {
    if |balances| < 2 then 0
    else
      Crossings(balances[..|balances| - 1], minBalance) +
      if CrossedFloor(balances[|balances| - 2], balances[|balances| - 1], minBalance) then 1 else 0
  }

  /** How often it comes back from past the floor. */
  function Recoveries(balances: seq<int>, minBalance: Option<int>): nat {
    if |balances| < 2 then 0
    else
      Recoveries(balances[..|balances| - 1], minBalance) +
      if PastFloor(balances[|balances| - 2], minBalance) && RecoveredFloor(balances[|balances| - 1], minBalance)
      then 1 else 0
  }

  function Count(b: bool): nat {
    if b then 1 else 0
  }

  /**
   Over any run of balances the crossing fires once per descent: crossings and
   recoveries alternate, and their difference is whether the run now stands
   past the floor, less whether it began there.
   */
  lemma {:induction false} OneCrossingPerDescent(balances: seq<int>, minBalance: Option<int>)
    requires balances != []
    ensures Crossings(balances, minBalance) - Recoveries(balances, minBalance) ==
            Count(PastFloor(balances[|balances| - 1], minBalance)) - Count(PastFloor(balances[0], minBalance))
  {
    if |balances| < 2 {
    } else {
      OneCrossingPerDescent(balances[..|balances| - 1], minBalance);
    }
  }

  predicate FiresAt(balances: seq<int>, minBalance: Option<int>, k: nat) {
    0 < k < |balances| && CrossedFloor(balances[k - 1], balances[k], minBalance)
  }

  predicate RecoversAt(balances: seq<int>, minBalance: Option<int>, k: nat) {
    0 < k < |balances| && PastFloor(balances[k - 1], minBalance) && RecoveredFloor(balances[k], minBalance)
  }

  /** Between any two firings of one run there is a recovery. */
  lemma RecoveryBetweenCrossings(balances: seq<int>, minBalance: Option<int>, i: nat, j: nat)
    requires i < j && FiresAt(balances, minBalance, i) && FiresAt(balances, minBalance, j)
    ensures exists k :: i < k < j && RecoversAt(balances, minBalance, k)
  {
    var k := FirstRecovery(balances, minBalance, i, j - 1);
  }

  lemma {:induction false} FirstRecovery(balances: seq<int>, minBalance: Option<int>, i: nat, j: nat) returns (k: nat)
    requires i <= j < |balances| && PastFloor(balances[i], minBalance) && RecoveredFloor(balances[j], minBalance)
    ensures i < k <= j && RecoversAt(balances, minBalance, k)
    decreases j - i
  {
    if RecoveredFloor(balances[i + 1], minBalance) {
      k := i + 1;
    } else {
      k := FirstRecovery(balances, minBalance, i + 1, j);
    }
  }

  // ----- a total that rises toward an amount -----------------------------------------------

  predicate CeilingReached(known: int, ceiling: Option<int>) {
    ceiling.Some? && known >= ceiling.value
  }

  function UsedPercentage(known: int, ceiling: Option<int>): Option<int> {
    if ceiling.None? || ceiling.value <= 0 then None else Some(known * 100 / ceiling.value)
  }

  function Remaining(known: int, ceiling: Option<int>): Option<int> {
    if ceiling.None? then None
    else Some(if ceiling.value - known < 0 then 0 else ceiling.value - known)
  }

  /** For a positive amount, full, nothing left and reached are one state. */
  lemma ThreeReadsOfReached(known: int, ceiling: int)
    requires ceiling > 0
    ensures UsedPercentage(known, Some(ceiling)).value >= 100 <==> CeilingReached(known, Some(ceiling))
    ensures Remaining(known, Some(ceiling)).value == 0 <==> CeilingReached(known, Some(ceiling))
  {
    DivAtLeast(known * 100, ceiling, 100);
  }

  /** A larger total never reads as less used, with more left, or as not yet reached. */
  lemma ReadsAscend(a: int, b: int, ceiling: Option<int>)
    requires a <= b
    ensures CeilingReached(a, ceiling) ==> CeilingReached(b, ceiling)
    ensures UsedPercentage(a, ceiling).Some? ==> UsedPercentage(a, ceiling).value <= UsedPercentage(b, ceiling).value
    ensures Remaining(a, ceiling).Some? ==> Remaining(b, ceiling).value <= Remaining(a, ceiling).value
  {
    if ceiling.Some? && ceiling.value > 0 {
      DivMonotone(a * 100, b * 100, ceiling.value);
    }
  }

  // ----- the customer spend pool ---------------------------------------------------------------

  const BLOCKING: string := "blocking"

  datatype Pool = Pool(cap: int, hardStopPct: int, enforceMode: string, alertLevels: seq<int>)

  /** A share of an amount, rounded down: the stop line and every alert line. */
  function LineAt(cap: int, percent: int): int {
    cap * percent / 100
  }

  function StopThreshold(cfg: Option<Pool>): Option<int> {
    if cfg.None? || cfg.value.cap <= 0 then None
    else if cfg.value.enforceMode != BLOCKING then None
    else Some(LineAt(cfg.value.cap, cfg.value.hardStopPct))
  }

  predicate PastStop(spend: int, threshold: Option<int>) {
    threshold.Some? && spend >= threshold.value
  }

  datatype PoolAssessment = PoolAssessment(
    usedPercentage: Option<int>,
    remaining: Option<int>,
    highestThresholdReached: Option<int>,
    blockingOccurred: bool)

  function Highest(a: Option<int>, b: int): Option<int> {
    if a.Some? && a.value >= b then a else Some(b)
  }

  /** `max([level for level in levels if known >= line(level)])` */
  function HighestReached(levels: seq<int>, cap: int, known: int): Option<int> {
    if levels == [] then None
    else
      var front := HighestReached(levels[..|levels| - 1], cap, known);
      var last := levels[|levels| - 1];
      if known >= LineAt(cap, last) then Highest(front, last) else front
  }

  function AssessPool(cfg: Option<Pool>, known: int): PoolAssessment {
    if cfg.None? || cfg.value.cap <= 0 then PoolAssessment(None, None, None, false)
    else
      var cap := cfg.value.cap;
      PoolAssessment(UsedPercentage(known, Some(cap)), Remaining(known, Some(cap)),
                     HighestReached(cfg.value.alertLevels, cap, known),
                     PastStop(known, StopThreshold(cfg)))
  }

  /** The threshold named is a configured level that is reached, and the greatest such. */
  lemma {:induction false} HighestReachedIs(levels: seq<int>, cap: int, known: int)
    ensures var h := HighestReached(levels, cap, known);
            && (h.Some? ==> h.value in levels && known >= LineAt(cap, h.value))
            && (forall l :: l in levels && known >= LineAt(cap, l) ==> h.Some? && l <= h.value)
  {
    if levels == [] {
    } else {
      HighestReachedIs(levels[..|levels| - 1], cap, known);
      assert levels == levels[..|levels| - 1] + [levels[|levels| - 1]];
    }
  }

  /** A share of at least L percent means level L's line is reached. */
  lemma PercentageReachesLevel(known: int, cap: int, level: int)
    requires cap > 0 && UsedPercentage(known, Some(cap)).value >= level
    ensures known >= LineAt(cap, level)
  {
    DivAtLeast(known * 100, cap, level);
    assert cap * level == level * cap;
  }

  function CeilOf99(cap: int): int
    requires cap > 0
  {
    (99 + cap - 1) / cap
  }

  /**
   The other way round fails at one total alone: a reached level is above the
   published percentage exactly when the total stands on the level's line and
   that line was rounded down.
   */
  lemma ReachedLevelLeadsPercentage(known: int, cap: int, level: int)
    requires cap > 0
    ensures known >= LineAt(cap, level) && UsedPercentage(known, Some(cap)).value < level <==>
            known == LineAt(cap, level) && (cap * level) % 100 != 0
  {
    var line := LineAt(cap, level);
    DivAtLeast(known * 100, cap, level);
    assert cap * level == level * cap;
    assert cap * level == line * 100 + (cap * level) % 100;
  }

  /** So it is with the level an assessment names. */
  lemma AssessedLevelLeadsPercentage(pool: Pool, known: int)
    requires pool.cap > 0 && AssessPool(Some(pool), known).highestThresholdReached.Some?
    ensures var a := AssessPool(Some(pool), known);
            var level := a.highestThresholdReached.value;
            a.usedPercentage.value < level <==>
            known == LineAt(pool.cap, level) && (pool.cap * level) % 100 != 0
  {
    HighestReachedIs(pool.alertLevels, pool.cap, known);
    ReachedLevelLeadsPercentage(known, pool.cap, HighestReached(pool.alertLevels, pool.cap, known).value);
  }

  /** How far it leads: a reached level runs past the published percentage by at most ceil(99 / cap). */
  lemma ReachedLevelIsNearPercentage(known: int, cap: int, level: int)
    requires cap > 0 && known >= LineAt(cap, level)
    ensures level <= UsedPercentage(known, Some(cap)).value + CeilOf99(cap)
  {
    var q, c := known * 100 / cap, CeilOf99(cap);
    assert known * 100 < q * cap + cap by {
      assert known * 100 == q * cap + (known * 100) % cap;
    }
    assert c * cap >= 99 by {
      assert 99 + cap - 1 == c * cap + (99 + cap - 1) % cap;
    }
    assert level * cap <= known * 100 + 99 by {
      assert cap * level == level * cap;
    }
    LevelBound(level, q, c, cap);
  }

  lemma LevelBound(level: int, q: int, c: int, cap: int)
    requires cap > 0 && level * cap < q * cap + cap + c * cap
    ensures level <= q + c
  {
    var gap := level - q - c;
    assert gap * cap == level * cap - q * cap - c * cap;
    if gap >= 1 {
      MulAtLeast(gap, cap);
    }
  }

  /** What the bound says is reached: a whole level that the percentage has not yet shown. */
  lemma LevelAheadOfPercentageExample()
    ensures LineAt(1, 99) == 0
    ensures 0 >= LineAt(1, 99) && UsedPercentage(0, Some(1)) == Some(0) && CeilOf99(1) == 99
  {
  }

  /** The pool's reads are monotone together, and blocking is the start gate's own compare. */
  lemma PoolReadsAscend(cfg: Option<Pool>, a: int, b: int)
    requires a <= b
    ensures AssessPool(cfg, a).blockingOccurred ==> AssessPool(cfg, b).blockingOccurred
    ensures AssessPool(cfg, a).usedPercentage.Some? ==>
              AssessPool(cfg, a).usedPercentage.value <= AssessPool(cfg, b).usedPercentage.value
    ensures AssessPool(cfg, a).remaining.Some? ==>
              AssessPool(cfg, b).remaining.value <= AssessPool(cfg, a).remaining.value
    ensures AssessPool(cfg, a).highestThresholdReached.Some? ==>
              && AssessPool(cfg, b).highestThresholdReached.Some?
              && AssessPool(cfg, a).highestThresholdReached.value <= AssessPool(cfg, b).highestThresholdReached.value
    ensures AssessPool(cfg, a).blockingOccurred <==> PastStop(a, StopThreshold(cfg))
  {
    if cfg.Some? && cfg.value.cap > 0 {
      ReadsAscend(a, b, Some(cfg.value.cap));
      HighestReachedIs(cfg.value.alertLevels, cfg.value.cap, a);
      HighestReachedIs(cfg.value.alertLevels, cfg.value.cap, b);
    }
  }

  /** Blocking under a whole stop share is the same state as the three reads; an alert-only pool never blocks. */
  lemma WholeShareBlocks(pool: Pool, known: int)
    requires pool.cap > 0
    ensures pool.enforceMode != BLOCKING ==> !AssessPool(Some(pool), known).blockingOccurred
    ensures pool.enforceMode == BLOCKING && pool.hardStopPct == 100 ==>
              (AssessPool(Some(pool), known).blockingOccurred <==>
               AssessPool(Some(pool), known).usedPercentage.value >= 100)
  {
    ThreeReadsOfReached(known, pool.cap);
    assert LineAt(pool.cap, 100) == pool.cap;
  }

  // ----- a unit's ceiling ------------------------------------------------------------------------

  datatype CeilingStatus = NotApplicable | Indeterminate | Reached | Within

  function StatusOf(ceiling: Option<int>, known: int, unresolved: int): CeilingStatus {
    if ceiling.None? then NotApplicable
    else if unresolved > 0 then Indeterminate
    else if CeilingReached(known, ceiling) then Reached
    else Within
  }

  datatype CeilingAssessment = CeilingAssessment(
    status: CeilingStatus,
    usedPercentage: Option<int>,
    remaining: Option<int>)

  function AssessCeiling(ceiling: Option<int>, known: int, unresolved: int): CeilingAssessment {
    var status := StatusOf(ceiling, known, unresolved);
    if status == Indeterminate then CeilingAssessment(status, None, None)
    else CeilingAssessment(status, UsedPercentage(known, ceiling), Remaining(known, ceiling))
  }

  /**
   Where a ceiling applies, the assessment answers what the enforcement trigger
   answers exactly when nothing is unresolved; while something is, it answers
   neither way and publishes no figure.
   */
  lemma AssessmentIsTheTriggerWhenResolved(ceiling: int, known: int, unresolved: nat)
    ensures var a := AssessCeiling(Some(ceiling), known, unresolved);
            && (unresolved == 0 <==> (a.status == if CeilingReached(known, Some(ceiling)) then Reached else Within))
            && (unresolved == 0 <==> a.remaining.Some?)
            && (unresolved > 0 ==> a == CeilingAssessment(Indeterminate, None, None))
            && (unresolved == 0 && ceiling > 0 ==>
                  && (a.status == Reached <==> a.remaining == Some(0))
                  && (a.status == Reached <==> a.usedPercentage.value >= 100))
  {
    if ceiling > 0 {
      ThreeReadsOfReached(known, ceiling);
    }
  }

  /** Why: one unresolved amount, which may be negative, can still settle the answer either way. */
  lemma UnresolvedSettlesNothing(ceiling: int, known: int) returns (up: int, down: int)
    ensures StatusOf(Some(ceiling), known + up, 0) == Reached
    ensures StatusOf(Some(ceiling), known + down, 0) == Within
  {
    up, down := ceiling - known, ceiling - known - 1;
  }
}
