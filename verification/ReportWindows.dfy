/** The calendar-date report window (ubb-platform/core/report_windows.py). */
module ReportWindows {
  import opened Wrappers
  import opened Calendar
  import opened TimeWindows

  datatype ReportWindow = ReportWindow(
    startDate: Day,
    endDate: Day,
    opensAt: Instant,
    closesAt: Instant,
    today: Day)
  {
    function Opens(): Day {
      opensAt.day
    }

    function Closes(): Day {
      closesAt.day
    }

    /** The half-open reading of every query. */
    predicate Holds(x: Instant) {
      !Earlier(x, opensAt) && Earlier(x, closesAt)
    }
  }

  datatype Refusal = RunsBackwards | TooLong

  function Between(startDate: Day, endDate: Day, today: Day): ReportWindow {
    ReportWindow(startDate, endDate, UtcDayStart(startDate), UtcNextDayStart(endDate), today)
  }

  /** The pair a request resolves to, before it is bounded. */
  function Defaulted(startDate: Option<Day>, endDate: Option<Day>, today: Day): (Day, Day) {
    match (startDate, endDate)
    case (None, None) => (Date(today.y, today.m, 1), today)
    case (Some(s), None) => (s, today)
    case (None, Some(e)) => (Date(e.y, e.m, 1), e)
    case (Some(s), Some(e)) => (s, e)
  }

  function Ceiling(hourly: bool): int {
    if hourly then HOURLY_REPORT_WINDOW_MAX_DAYS else REPORT_WINDOW_MAX_DAYS
  }

  function Resolve(startDate: Option<Day>, endDate: Option<Day>, hourly: bool, today: Day)
    : Result<ReportWindow, Refusal>
  {
    var (s, e) := Defaulted(startDate, endDate, today);
    if Before(e, s) then Err(RunsBackwards)
    else
      var window := Between(s, e, today);
      if Microseconds(window.closesAt) - Microseconds(window.opensAt) > Ceiling(hourly) * DAY then Err(TooLong)
      else Ok(window)
  }

  /** How many calendar dates an inclusive pair names. */
  function Dates(s: Day, e: Day): int {
    Ordinal(e) - Ordinal(s) + 1
  }

  lemma DatesAdd(s: Day, middle: Day, e: Day)
    ensures Dates(s, e) == Dates(s, middle) + Dates(NextDay(middle), e)
  {
    NextDayCounts(middle);
  }

  lemma WindowLength(s: Day, e: Day, today: Day)
    ensures Microseconds(Between(s, e, today).closesAt) - Microseconds(Between(s, e, today).opensAt) == Dates(s, e) * DAY
  {
    NextDayCounts(e);
  }

  /**
   A request is refused only for running backwards or for naming more dates
   than the ceiling: the bound on a duration is a bound on dates, and never one
   date more.
   */
  lemma ResolveAccepts(startDate: Option<Day>, endDate: Option<Day>, hourly: bool, today: Day)
    ensures var (s, e) := Defaulted(startDate, endDate, today);
            && (Resolve(startDate, endDate, hourly, today).Ok? <==> 1 <= Dates(s, e) <= Ceiling(hourly))
            && (Resolve(startDate, endDate, hourly, today) == Err(RunsBackwards) <==> Dates(s, e) < 1)
  {
    var (s, e) := Defaulted(startDate, endDate, today);
    WindowLength(s, e, today);
    OrdinalOrders(e, s);
  }

  /** A supplied date is never dropped or moved, and the half-open bounds are the same dates. */
  lemma SuppliedDatesAreKept(startDate: Option<Day>, endDate: Option<Day>, hourly: bool, today: Day)
    requires Resolve(startDate, endDate, hourly, today).Ok?
    ensures var window := Resolve(startDate, endDate, hourly, today).value;
            && (startDate.Some? ==> window.startDate == startDate.value)
            && (endDate.Some? ==> window.endDate == endDate.value)
            && window.Opens() == window.startDate
            && PreviousDay(window.Closes()) == window.endDate
            && (forall x: Instant :: window.Holds(x) <==>
                  !Before(x.day, window.startDate) && !Before(window.endDate, x.day))
  {
    var window := Resolve(startDate, endDate, hourly, today).value;
    NextAndPreviousInvert(window.endDate);
    forall x: Instant
      ensures Earlier(x, window.closesAt) <==> !Before(window.endDate, x.day)
    {
      NextDayIsNext(window.endDate, x.day);
      OrdinalOrders(x.day, window.endDate);
      NextDayIsNext(x.day, window.endDate);
      NextDayIsNext(window.endDate, NextDay(window.endDate));
      OrdinalOrders(x.day, NextDay(window.endDate));
      NextDayCounts(window.endDate);
      OrdinalOrders(window.endDate, x.day);
    }
  }

  /** No dates, or only an end, is never refused: such a window lies inside one month. */
  lemma OpenRequestsAreNeverRefused(endDate: Option<Day>, hourly: bool, today: Day)
    ensures Resolve(None, endDate, hourly, today).Ok?
  {
    ResolveAccepts(None, endDate, hourly, today);
    var (s, e) := Defaulted(None, endDate, today);
    assert Dates(s, e) == e.d;
  }

  // ----- consecutive windows tile time --------------------------------------------------

  predicate IsWindow(w: ReportWindow) {
    w == Between(w.startDate, w.endDate, w.today) && !Before(w.endDate, w.startDate)
  }

  /** Each window starts on the day after the one before ended. */
  ghost predicate Consecutive(windows: seq<ReportWindow>) {
    && (forall i :: 0 <= i < |windows| ==> IsWindow(windows[i]))
    && (forall i, j :: 0 <= i < j < |windows| && j == i + 1 ==> windows[j].startDate == NextDay(windows[i].endDate))
  }

  lemma WindowIsInhabited(w: ReportWindow)
    requires IsWindow(w)
    ensures Earlier(w.opensAt, w.closesAt)
  {
    NextDayIsNext(w.endDate, w.startDate);
    OrdinalOrders(w.endDate, w.startDate);
    NextDayCounts(w.endDate);
    OrdinalOrders(w.startDate, NextDay(w.endDate));
  }

  lemma EarlierIsTransitive(a: Instant, b: Instant, c: Instant)
    ensures Earlier(a, b) && !Earlier(c, b) ==> Earlier(a, c)
    ensures !Earlier(b, a) && !Earlier(c, b) ==> !Earlier(c, a)
  {
    EarlierIsLess(a, b);
    EarlierIsLess(b, a);
    EarlierIsLess(c, b);
    EarlierIsLess(a, c);
    EarlierIsLess(c, a);
  }

  lemma {:induction false} LaterWindowsOpenLater(windows: seq<ReportWindow>, i: nat, j: nat)
    requires Consecutive(windows) && i < j < |windows|
    ensures !Earlier(windows[j].opensAt, windows[i].closesAt)
    decreases j - i
  {
    assert windows[j].startDate == NextDay(windows[j - 1].endDate);
    if i < j - 1 {
      LaterWindowsOpenLater(windows, i, j - 1);
      WindowIsInhabited(windows[j - 1]);
      EarlierIsTransitive(windows[i].closesAt, windows[j - 1].opensAt, windows[j].opensAt);
      EarlierIsTransitive(windows[j - 1].opensAt, windows[j - 1].closesAt, windows[j].opensAt);
      EarlierIsLess(windows[j].opensAt, windows[j - 1].opensAt);
      EarlierIsLess(windows[j - 1].opensAt, windows[j].opensAt);
    }
  }

  lemma {:induction false} SomeWindowHolds(windows: seq<ReportWindow>, x: Instant) returns (i: nat)
    requires Consecutive(windows) && windows != []
    requires !Earlier(x, windows[0].opensAt) && Earlier(x, windows[|windows| - 1].closesAt)
    ensures i < |windows| && windows[i].Holds(x)
  {
    var last := |windows| - 1;
    if windows[last].Holds(x) {
      i := last;
    } else {
      assert windows[last].startDate == NextDay(windows[last - 1].endDate);
      i := SomeWindowHolds(windows[..last], x);
    }
  }

  /** Every instant from the first opening to the last closing lies in one window, and in only one. */
  lemma WindowsTileTime(windows: seq<ReportWindow>, x: Instant)
    requires Consecutive(windows) && windows != []
    ensures (exists i :: 0 <= i < |windows| && windows[i].Holds(x)) <==>
            !Earlier(x, windows[0].opensAt) && Earlier(x, windows[|windows| - 1].closesAt)
    ensures forall i, j :: 0 <= i < |windows| && 0 <= j < |windows| && windows[i].Holds(x) && windows[j].Holds(x) ==>
              i == j
  {
    if !Earlier(x, windows[0].opensAt) && Earlier(x, windows[|windows| - 1].closesAt) {
      var i := SomeWindowHolds(windows, x);
    }
    forall i | 0 <= i < |windows| && windows[i].Holds(x)
      ensures !Earlier(x, windows[0].opensAt) && Earlier(x, windows[|windows| - 1].closesAt)
    {
      HeldIsInside(windows, x, i);
    }
    forall i, j | 0 <= i < j < |windows| && windows[i].Holds(x)
      ensures !windows[j].Holds(x)
    {
      LaterWindowsOpenLater(windows, i, j);
      EarlierIsTransitive(x, windows[i].closesAt, windows[j].opensAt);
    }
  }

  lemma HeldIsInside(windows: seq<ReportWindow>, x: Instant, i: nat)
    requires Consecutive(windows) && i < |windows| && windows[i].Holds(x)
    ensures !Earlier(x, windows[0].opensAt) && Earlier(x, windows[|windows| - 1].closesAt)
  {
    var last := |windows| - 1;
    if i > 0 {
      LaterWindowsOpenLater(windows, 0, i);
      WindowIsInhabited(windows[0]);
      EarlierIsTransitive(windows[0].opensAt, windows[0].closesAt, windows[i].opensAt);
      EarlierIsTransitive(windows[0].opensAt, windows[i].opensAt, x);
      EarlierIsLess(windows[i].opensAt, windows[0].opensAt);
      EarlierIsLess(windows[0].opensAt, windows[i].opensAt);
    }
    if i < last {
      LaterWindowsOpenLater(windows, i, last);
      WindowIsInhabited(windows[last]);
      EarlierIsTransitive(x, windows[i].closesAt, windows[last].opensAt);
      EarlierIsLess(x, windows[last].opensAt);
      EarlierIsLess(windows[last].opensAt, windows[last].closesAt);
      EarlierIsLess(x, windows[last].closesAt);
    }
  }
}
