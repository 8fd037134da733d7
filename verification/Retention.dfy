/** The two retention horizons (ubb-platform/core/retention.py), and the windows it takes to read them. */
module Retention {
  import opened Wrappers
  import opened Calendar
  import opened TimeWindows
  import opened ReportWindows

  const ECONOMIC_RETENTION_YEARS: int := 6

  datatype Horizons = Horizons(economic: Day, measurement: Day)

  datatype Fault = ImproperlyConfigured

  /** `_years_before`: a leap day with no answer falls forward. */
  function YearsBefore(day: Day, years: int): Day {
    if day.m == 2 && day.d == 29 && !Leap(day.y - years) then Date(day.y - years, 3, 1)
    else Date(day.y - years, day.m, day.d)
  }

  function Latest(a: Day, b: Day): Day {
    if Before(a, b) then b else a
  }

  function AtLeastZero(n: int): int {
    if n < 0 then 0 else n
  }

  /** The measurement setting is read from the environment; `None` is a missing one. */
  function RetentionHorizons(asOf: Day, setting: Option<int>): Result<Horizons, Fault> {
    var economic := YearsBefore(asOf, ECONOMIC_RETENTION_YEARS);
    if setting.None? then Err(ImproperlyConfigured)
    else
      var shorter := AddDays(asOf, -AtLeastZero(setting.value));
      Ok(Horizons(economic, Latest(economic, shorter)))
  }

  /** Whatever number is typed: economic, then measurement, then today. */
  lemma HorizonsAreOrdered(asOf: Day, setting: Option<int>)
    requires setting.Some?
    ensures var h := RetentionHorizons(asOf, setting).value;
            !Before(h.measurement, h.economic) && !Before(asOf, h.measurement)
            && Ordinal(h.economic) <= Ordinal(h.measurement) <= Ordinal(asOf)
  {
    var economic := YearsBefore(asOf, ECONOMIC_RETENTION_YEARS);
    var shorter := AddDays(asOf, -AtLeastZero(setting.value));
    AddDaysCounts(asOf, -AtLeastZero(setting.value));
    var h := RetentionHorizons(asOf, setting).value;
    OrdinalOrders(economic, asOf);
    OrdinalOrders(economic, shorter);
    OrdinalOrders(h.measurement, h.economic);
    OrdinalOrders(asOf, h.measurement);
  }

  /** Between the clamps the measurement horizon is exactly the days typed ago. */
  lemma MeasurementIsTheSettingWithinBounds(asOf: Day, days: int)
    ensures var h := RetentionHorizons(asOf, Some(days)).value;
            Ordinal(h.measurement) ==
            if Ordinal(asOf) - AtLeastZero(days) < Ordinal(h.economic) then Ordinal(h.economic)
            else Ordinal(asOf) - AtLeastZero(days)
  {
    var economic := YearsBefore(asOf, ECONOMIC_RETENTION_YEARS);
    AddDaysCounts(asOf, -AtLeastZero(days));
    OrdinalOrders(economic, AddDays(asOf, -AtLeastZero(days)));
  }

  lemma YearsBeforeAscends(a: Day, b: Day, years: int)
    requires !Before(b, a)
    ensures !Before(YearsBefore(b, years), YearsBefore(a, years))
  {
  }

  /** A later day never has an earlier horizon. */
  lemma HorizonsAscend(a: Day, b: Day, setting: Option<int>)
    requires setting.Some? && !Before(b, a)
    ensures var h, k := RetentionHorizons(a, setting).value, RetentionHorizons(b, setting).value;
            Ordinal(h.economic) <= Ordinal(k.economic) && Ordinal(h.measurement) <= Ordinal(k.measurement)
  {
    var h, k := RetentionHorizons(a, setting).value, RetentionHorizons(b, setting).value;
    YearsBeforeAscends(a, b, ECONOMIC_RETENTION_YEARS);
    OrdinalOrders(k.economic, h.economic);
    OrdinalOrders(b, a);
    MeasurementIsTheSettingWithinBounds(a, setting.value);
    MeasurementIsTheSettingWithinBounds(b, setting.value);
  }

  // ----- how many windows read the six years --------------------------------------------

  /** At most one leap year in four. */
  lemma FourYears(y: int)
    ensures DaysBeforeYear(y + 4) - DaysBeforeYear(y) <= 1461
  {
    var n := y - 1;
    assert (n + 4) / 4 == n / 4 + 1;
    CenturiesOutnumberCycles(n);
  }

  lemma CenturiesOutnumberCycles(n: int)
    ensures (n + 4) / 400 - n / 400 <= (n + 4) / 100 - n / 100
  {
    assert n / 400 == (n / 100) / 4 && (n + 4) / 400 == ((n + 4) / 100) / 4;
  }

  lemma SixYearsOfYears(y: int)
    ensures 2190 <= DaysBeforeYear(y) - DaysBeforeYear(y - 6) <= 2193
  {
    YearsAscend(y - 6, y);
    FourYears(y - 6);
    YearsAscend(y - 2, y);
  }

  /** The economic horizon through today is more than five full windows and at most six. */
  lemma SixYearsOfDates(asOf: Day)
    ensures 5 * REPORT_WINDOW_MAX_DAYS < Dates(YearsBefore(asOf, ECONOMIC_RETENTION_YEARS), asOf)
            <= 6 * REPORT_WINDOW_MAX_DAYS
  {
    SixYearsOfYears(asOf.y);
    var then_ := YearsBefore(asOf, ECONOMIC_RETENTION_YEARS);
    assert -1 <= DaysBeforeMonth(asOf.y, asOf.m) - DaysBeforeMonth(then_.y, asOf.m) <= 1;
  }

  predicate Accepted(w: ReportWindow) {
    Resolve(Some(w.startDate), Some(w.endDate), false, w.today) == Ok(w)
  }

  /** Consecutive accepted windows that run from one day to another. */
  ghost predicate Reads(windows: seq<ReportWindow>, from_: Day, to: Day) {
    && windows != [] && Consecutive(windows)
    && (forall i :: 0 <= i < |windows| ==> Accepted(windows[i]))
    && windows[0].startDate == from_ && windows[|windows| - 1].endDate == to
  }

  lemma {:induction false} ReadsAtMost(windows: seq<ReportWindow>, from_: Day, to: Day)
    requires Reads(windows, from_, to)
    ensures Dates(from_, to) <= |windows| * REPORT_WINDOW_MAX_DAYS
  {
    var last := |windows| - 1;
    AcceptedIsBounded(windows[last]);
    if last > 0 {
      assert windows[last].startDate == NextDay(windows[last - 1].endDate);
      assert Reads(windows[..last], from_, windows[last - 1].endDate);
      ReadsAtMost(windows[..last], from_, windows[last - 1].endDate);
      DatesAdd(from_, windows[last - 1].endDate, to);
    }
  }

  lemma AcceptedIsBounded(w: ReportWindow)
    requires Accepted(w)
    ensures Dates(w.startDate, w.endDate) <= REPORT_WINDOW_MAX_DAYS
  {
    ResolveAccepts(Some(w.startDate), Some(w.endDate), false, w.today);
  }

  /** No five windows, however chosen, read from the economic horizon to today. */
  lemma FiveWindowsNeverReachBack(asOf: Day, windows: seq<ReportWindow>)
    requires Reads(windows, YearsBefore(asOf, ECONOMIC_RETENTION_YEARS), asOf)
    ensures |windows| >= 6
  {
    SixYearsOfDates(asOf);
    ReadsAtMost(windows, YearsBefore(asOf, ECONOMIC_RETENTION_YEARS), asOf);
  }

  lemma WindowOf(s: Day, e: Day, today: Day)
    requires 1 <= Dates(s, e) <= REPORT_WINDOW_MAX_DAYS
    ensures IsWindow(Between(s, e, today)) && Accepted(Between(s, e, today))
  {
    ResolveAccepts(Some(s), Some(e), false, today);
    OrdinalOrders(e, s);
  }

  /** Full windows one after another, and a last one to the end. */
  lemma {:induction false} ReadInWindows(from_: Day, to: Day, count: nat) returns (windows: seq<ReportWindow>)
    requires count >= 1 && (count - 1) * REPORT_WINDOW_MAX_DAYS < Dates(from_, to) <= count * REPORT_WINDOW_MAX_DAYS
    ensures |windows| == count && Reads(windows, from_, to)
    decreases count
  {
    if count == 1 {
      windows := [Between(from_, to, to)];
      WindowOf(from_, to, to);
    } else {
      var end := FullWindowEnd(from_, to);
      DatesAdd(from_, end, to);
      var rest := ReadInWindows(NextDay(end), to, count - 1);
      windows := [Between(from_, end, to)] + rest;
      ConsecutiveCons(Between(from_, end, to), rest);
    }
  }

  lemma FullWindowEnd(from_: Day, today: Day) returns (end: Day)
    ensures Dates(from_, end) == REPORT_WINDOW_MAX_DAYS
    ensures IsWindow(Between(from_, end, today)) && Accepted(Between(from_, end, today))
  {
    end := AddDays(from_, REPORT_WINDOW_MAX_DAYS - 1);
    AddDaysCounts(from_, REPORT_WINDOW_MAX_DAYS - 1);
    WindowOf(from_, end, today);
  }

  lemma ConsecutiveCons(w: ReportWindow, rest: seq<ReportWindow>)
    requires IsWindow(w) && Consecutive(rest) && rest != [] && rest[0].startDate == NextDay(w.endDate)
    ensures Consecutive([w] + rest)
  {
    var all := [w] + rest;
    forall i, j | 0 <= i < j < |all| && j == i + 1
      ensures all[j].startDate == NextDay(all[i].endDate)
    {
      assert i > 0 ==> all[i] == rest[i - 1] && all[j] == rest[j - 1];
    }
  }

  /** Six windows always do. */
  lemma SixWindowsReachBack(asOf: Day) returns (windows: seq<ReportWindow>)
    ensures |windows| == 6 && Reads(windows, YearsBefore(asOf, ECONOMIC_RETENTION_YEARS), asOf)
  {
    SixYearsOfDates(asOf);
    windows := ReadInWindows(YearsBefore(asOf, ECONOMIC_RETENTION_YEARS), asOf, 6);
  }
}
