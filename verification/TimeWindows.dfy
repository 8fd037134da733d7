/**
 Half-open UTC windows and calendar months (ubb-platform/core/time_windows.py),
 with the month functions of ubb-platform/core/crossing.py.
 */
module TimeWindows {
  import opened Wrappers
  import opened Calendar

  const REPORT_WINDOW_MAX_DAYS: int := 366
  const HOURLY_REPORT_WINDOW_MAX_DAYS: int := 92

  /** Microseconds in a day. */
  const DAY: int := 86_400_000_000

  // ----- instants -----------------------------------------------------------------------

  datatype Stamp = Stamp(day: Day, time: int)

  /** An instant, as its UTC day and the microseconds into it. */
  type Instant = s: Stamp | 0 <= s.time < DAY witness Stamp(Date(1, 1, 1), 0)

  predicate Earlier(a: Instant, b: Instant) {
    Before(a.day, b.day) || (a.day == b.day && a.time < b.time)
  }

  /** The time line: instants counted in microseconds. */
  function Microseconds(i: Instant): int {
    Ordinal(i.day) * DAY + i.time
  }

  lemma EarlierIsLess(a: Instant, b: Instant)
    ensures Earlier(a, b) <==> Microseconds(a) < Microseconds(b)
  {
    OrdinalOrders(a.day, b.day);
  }

  function UtcDayStart(d: Day): Instant {
    Stamp(d, 0)
  }

  function UtcNextDayStart(d: Day): Instant {
    UtcDayStart(NextDay(d))
  }

  // ----- what a caller passes for a moment ----------------------------------------------

  /** A date, a naive datetime, or an aware one with its offset from UTC. */
  datatype Spelling =
    | OnDay(day: Day)
    | Naive(day: Day, time: int)
    | Aware(day: Day, time: int, offset: int)

  predicate IsMoment(m: Spelling) {
    match m
    case OnDay(_) => true
    case Naive(_, time) => 0 <= time < DAY
    case Aware(_, time, offset) => 0 <= time < DAY && -DAY < offset < DAY
  }

  type Moment = m: Spelling | IsMoment(m) witness OnDay(Date(1, 1, 1))

  /** `astimezone(utc)`; a date stands for its opening, and a naive datetime is read as UTC. */
  function Utc(m: Moment): Instant {
    match m
    case OnDay(day) => Stamp(day, 0)
    case Naive(day, time) => Stamp(day, time)
    case Aware(day, time, offset) =>
      var shifted := time - offset;
      if shifted < 0 then Stamp(PreviousDay(day), shifted + DAY)
      else if shifted >= DAY then Stamp(NextDay(day), shifted - DAY)
      else Stamp(day, shifted)
  }

  lemma UtcIsTheSameInstant(m: Moment)
    requires m.Aware?
    ensures Microseconds(Utc(m)) == Ordinal(m.day) * DAY + m.time - m.offset
  {
    NextDayCounts(m.day);
    PreviousDayCounts(m.day);
  }

  /** `moment - timedelta(days=1)` */
  function DayEarlier(m: Moment): Moment {
    match m
    case OnDay(day) => OnDay(PreviousDay(day))
    case Naive(day, time) => Naive(PreviousDay(day), time)
    case Aware(day, time, offset) => Aware(PreviousDay(day), time, offset)
  }

  lemma UtcOfDayEarlier(m: Moment)
    ensures Utc(DayEarlier(m)) == Stamp(PreviousDay(Utc(m).day), Utc(m).time)
  {
    NextAndPreviousInvert(m.day);
  }

  function MonthBounds(m: Moment): (Day, Day) {
    var day := Utc(m).day;
    (Date(day.y, day.m, 1),
     if day.m == 12 then Date(day.y + 1, 1, 1) else Date(day.y, day.m + 1, 1))
  }

  /** The number of the UTC month an instant falls in. */
  function MonthAt(i: Instant): int {
    MonthIndex(i.day)
  }

  /** The bounds are a month's first day and the next one's, and enclose exactly that month's instants. */
  lemma MonthBoundsAreTheMonths(m: Moment, x: Instant)
    ensures MonthBounds(m) == (FirstOf(MonthAt(Utc(m))), FirstOf(MonthAt(Utc(m)) + 1))
    ensures MonthAt(x) == MonthAt(Utc(m)) <==>
            !Earlier(x, UtcDayStart(MonthBounds(m).0)) && Earlier(x, UtcDayStart(MonthBounds(m).1))
  {
    MonthIndexIdentifies(Utc(m).day);
    MonthIndexIdentifies(MonthBounds(m).1);
    BeforeByMonth(x.day, MonthBounds(m).0);
    BeforeByMonth(x.day, MonthBounds(m).1);
  }

  // ----- closed months --------------------------------------------------------------------

  /** The first days of months `lo`, `lo + 1`, ... below `hi`. */
  function Months(lo: int, hi: int): (r: seq<Day>)
    ensures |r| == if hi <= lo then 0 else hi - lo
    ensures forall i :: 0 <= i < |r| ==> r[i] == FirstOf(lo + i)
    decreases hi - lo
  {
    if hi <= lo then [] else Months(lo, hi - 1) + [FirstOf(hi - 1)]
  }

  function LastMonth(opens: Moment, closes: Option<Moment>): int {
    match closes
    case Some(m) => MonthAt(Utc(DayEarlier(m)))
    case None => MonthAt(Utc(opens))
  }

  function Least(a: int, b: int): int {
    if a < b then a else b
  }

  lemma NextMonthOf(index: int)
    ensures MonthBounds(OnDay(FirstOf(index))).1 == FirstOf(index + 1)
  {
    MonthIndexIdentifies(MonthBounds(OnDay(FirstOf(index))).1);
  }

  /** The loop: month by month from the opening one, while closed and reached. */
  method ClosedMonths(opens: Moment, closes: Option<Moment>, now: Moment) returns (months: seq<Day>)
    ensures months == Months(MonthAt(Utc(opens)), Least(LastMonth(opens, closes) + 1, MonthAt(Utc(now))))
  {
    var thisMonth := MonthBounds(now).0;
    var month := MonthBounds(opens).0;
    var last := if closes.Some? then MonthBounds(DayEarlier(closes.value)).0 else month;
    ghost var lo, hi := MonthAt(Utc(opens)), LastMonth(opens, closes) + 1;
    ghost var stop := MonthAt(Utc(now));
    MonthIndexIdentifies(Utc(now).day);
    MonthIndexIdentifies(Utc(opens).day);
    if closes.Some? {
      MonthIndexIdentifies(Utc(DayEarlier(closes.value)).day);
    }
    months := MonthsFrom(month, last, thisMonth, lo, hi, stop);
  }

  method MonthsFrom(first: Day, last: Day, thisMonth: Day, ghost lo: int, ghost hi: int, ghost stop: int)
    returns (months: seq<Day>)
    requires first == FirstOf(lo) && last == FirstOf(hi - 1) && thisMonth == FirstOf(stop)
    ensures months == Months(lo, Least(hi, stop))
  {
    var month := first;
    months := [];
    ghost var reached := lo;
    while !Before(last, month) && Before(month, thisMonth)
      invariant lo <= reached && month == FirstOf(reached) && months == Months(lo, reached)
      invariant reached == lo || reached <= Least(hi, stop)
      decreases hi - reached
    {
      FirstsInOrder(hi - 1, reached);
      FirstsInOrder(reached, stop);
      NextMonthOf(reached);
      months := months + [month];
      month := MonthBounds(OnDay(month)).1;
      reached := reached + 1;
    }
    FirstsInOrder(hi - 1, reached);
    FirstsInOrder(reached, stop);
  }

  // ----- which months those are --------------------------------------------------------------

  /** Some instant of `[opens, closes)` falls in the month. */
  ghost predicate Touched(opens: Instant, closes: Instant, month: int) {
    exists x: Instant :: !Earlier(x, opens) && Earlier(x, closes) && MonthAt(x) == month
  }

  predicate OpensMonth(i: Instant) {
    i.day.d == 1 && i.time == 0
  }

  /** The month of the last instant before this one. */
  function MonthBefore(i: Instant): int {
    MonthAt(i) - if OpensMonth(i) then 1 else 0
  }

  lemma TouchedIs(opens: Instant, closes: Instant, month: int)
    requires Earlier(opens, closes)
    ensures Touched(opens, closes, month) <==> MonthAt(opens) <= month <= MonthBefore(closes)
  {
    BeforeByMonth(opens.day, closes.day);
    if Touched(opens, closes, month) {
      var x: Instant :| !Earlier(x, opens) && Earlier(x, closes) && MonthAt(x) == month;
      BeforeByMonth(x.day, opens.day);
      BeforeByMonth(x.day, closes.day);
    }
    if MonthAt(opens) <= month <= MonthBefore(closes) {
      var x: Instant := if month == MonthAt(opens) then opens else UtcDayStart(FirstOf(month));
      BeforeByMonth(x.day, opens.day);
      BeforeByMonth(x.day, closes.day);
      assert !Earlier(x, opens) && Earlier(x, closes) && MonthAt(x) == month;
    }
  }

  /** The instant falls inside, and not at the opening of, the first UTC day of a month. */
  predicate InsideFirstDay(i: Instant) {
    i.day.d == 1 && i.time != 0
  }

  /** Taking a day off names the month of the last covered instant, but for that one day. */
  lemma LastMonthIs(opens: Moment, closes: Moment)
    ensures LastMonth(opens, Some(closes)) ==
            MonthBefore(Utc(closes)) - if InsideFirstDay(Utc(closes)) then 1 else 0
  {
    UtcOfDayEarlier(closes);
    PreviousDayMonth(Utc(closes).day);
  }

  ghost predicate ReturnsTheTouchedMonths(opens: Moment, closes: Moment, now: Moment) {
    forall m :: MonthAt(Utc(opens)) <= m < Least(LastMonth(opens, Some(closes)) + 1, MonthAt(Utc(now)))
           <==> Touched(Utc(opens), Utc(closes), m) && m < MonthAt(Utc(now))
  }

  /**
   For a span that closes after it opens: the months returned are exactly those
   that the span touches and that closed before now's month, unless the span
   closes inside the first UTC day of a closed month. That month is touched and
   left out. Spans stated in dates never are in that case.
   */
  lemma ClosedMonthsAreTheTouchedOnes(opens: Moment, closes: Moment, now: Moment)
    requires Earlier(Utc(opens), Utc(closes))
    ensures ReturnsTheTouchedMonths(opens, closes, now) <==>
            !(InsideFirstDay(Utc(closes)) && MonthAt(Utc(closes)) < MonthAt(Utc(now)))
    ensures closes.OnDay? ==> !InsideFirstDay(Utc(closes))
  {
    LastMonthIs(opens, closes);
    forall m
      ensures Touched(Utc(opens), Utc(closes), m) <==> MonthAt(Utc(opens)) <= m <= MonthBefore(Utc(closes))
    {
      TouchedIs(Utc(opens), Utc(closes), m);
    }
    BeforeByMonth(Utc(opens).day, Utc(closes).day);
    if InsideFirstDay(Utc(closes)) {
      assert Touched(Utc(opens), Utc(closes), MonthAt(Utc(closes)));
    }
  }

  /** A span closing at noon on 1 February touches February, and February is not listed. */
  lemma LateFirstDayExample()
    ensures var opens, closes := OnDay(Date(2026, 1, 15)), Naive(Date(2026, 2, 1), DAY / 2);
            var now := OnDay(Date(2026, 4, 1));
            && Touched(Utc(opens), Utc(closes), MonthIndex(Date(2026, 2, 1)))
            && Months(MonthAt(Utc(opens)), Least(LastMonth(opens, Some(closes)) + 1, MonthAt(Utc(now))))
               == [Date(2026, 1, 1)]
  {
    var opens, closes := OnDay(Date(2026, 1, 15)), Naive(Date(2026, 2, 1), DAY / 2);
    TouchedIs(Utc(opens), Utc(closes), MonthIndex(Date(2026, 2, 1)));
    LastMonthIs(opens, closes);
  }

  /** An instant reaches its own month, once that month has closed. */
  lemma ClosedMonthOfAnInstant(opens: Moment, now: Moment)
    ensures Months(MonthAt(Utc(opens)), Least(LastMonth(opens, None) + 1, MonthAt(Utc(now)))) ==
            if MonthAt(Utc(opens)) < MonthAt(Utc(now)) then [MonthBounds(opens).0] else []
  {
    MonthIndexIdentifies(Utc(opens).day);
  }

  /** The listed days are months' first days, consecutive and ascending. */
  lemma MonthsAscendWithoutGaps(lo: int, hi: int, i: int)
    requires 0 <= i < |Months(lo, hi)|
    ensures Months(lo, hi)[i].d == 1 && MonthIndex(Months(lo, hi)[i]) == lo + i
    ensures i > 0 ==> Before(Months(lo, hi)[i - 1], Months(lo, hi)[i])
    ensures i > 0 ==> Months(lo, hi)[i] == MonthBounds(OnDay(Months(lo, hi)[i - 1])).1
  {
    FirstsInOrder(lo + i - 1, lo + i);
    NextMonthOf(lo + i - 1);
  }

  // ----- the pool's own month ---------------------------------------------------------------

  /** `month_label_bounds`, with the label as its year and month; it reads the day as spelled. */
  function MonthLabelBounds(now: Moment): ((int, int), Day, Day) {
    var start := Date(now.day.y, now.day.m, 1);
    ((start.y, start.m), start, if start.m == 12 then Date(start.y + 1, 1, 1) else Date(start.y, start.m + 1, 1))
  }

  function SameMonth(effectiveAt: Option<Moment>, now: Moment): bool {
    match effectiveAt
    case None => true
    case Some(m) => (Utc(m).day.y, Utc(m).day.m) == (now.day.y, now.day.m)
  }

  /**
   An aware `now` is in UTC still on the day it spells, or on a neighbouring day
   of the same month. Every other spelling is taken as UTC.
   */
  predicate SpellsItsMonth(now: Moment) {
    now.Aware? ==>
      && (now.time - now.offset < 0 ==> now.day.d > 1)
      && (now.time - now.offset >= DAY ==> now.day.d < DaysInMonth(now.day.y, now.day.m))
  }

  lemma SpelledMonthIsUtcMonth(now: Moment)
    ensures MonthIndex(now.day) == MonthAt(Utc(now)) <==> SpellsItsMonth(now)
  {
    PreviousDayMonth(now.day);
    NextDayMonth(now.day);
  }

  lemma SameMonthIs(e: Moment, now: Moment)
    ensures SameMonth(Some(e), now) <==> MonthAt(Utc(e)) == MonthIndex(now.day)
    ensures MonthBounds(e).0 == MonthBounds(now).0 <==> MonthAt(Utc(e)) == MonthAt(Utc(now))
  {
  }

  /** The two month functions agree with `month_bounds` exactly for such a `now`. */
  lemma MonthFunctionsAgree(now: Moment)
    ensures (MonthLabelBounds(now).1, MonthLabelBounds(now).2) == MonthBounds(now) <==> SpellsItsMonth(now)
    ensures (forall e: Moment :: SameMonth(Some(e), now) <==> MonthBounds(e).0 == MonthBounds(now).0)
            <==> SpellsItsMonth(now)
    ensures now.OnDay? || now.Naive? || now.offset == 0 ==> SpellsItsMonth(now)
  {
    forall e: Moment
      ensures SameMonth(Some(e), now) <==> MonthAt(Utc(e)) == MonthIndex(now.day)
      ensures MonthBounds(e).0 == MonthBounds(now).0 <==> MonthAt(Utc(e)) == MonthAt(Utc(now))
    {
      SameMonthIs(e, now);
    }
    SpelledMonthIsUtcMonth(now);
    assert SameMonth(Some(now), now) <==> MonthIndex(now.day) == MonthAt(Utc(now));
  }

  const HOUR: int := 3_600_000_000

  /** Half past midnight on 1 February an hour ahead of UTC is still January there. */
  lemma AheadOfUtcExample()
    ensures var now := Aware(Date(2026, 2, 1), HOUR / 2, HOUR);
            && !SpellsItsMonth(now)
            && MonthLabelBounds(now) == ((2026, 2), Date(2026, 2, 1), Date(2026, 3, 1))
            && MonthBounds(now) == (Date(2026, 1, 1), Date(2026, 2, 1))
            && !SameMonth(Some(now), now)
  {
  }
}
