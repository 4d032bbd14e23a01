/** The overlap check between two schedules: a finite list of each stands in for all of their occurrences. */
module ScheduleOverlap {
  import opened JsText
  import opened Calendar
  import opened TimeZone
  import opened Recurrence

  const LIST_LIMIT := 62

  predicate RangesOverlap(aStart: int, aEnd: int, bStart: int, bEnd: int) {
    aStart < bEnd && aEnd > bStart
  }

  /** Two ranges overlap when they share an instant, the ends not counted. */
  lemma OverlapMeansSharedInstant(aStart: int, aEnd: int, bStart: int, bEnd: int)
    requires aStart < aEnd && bStart < bEnd
    ensures RangesOverlap(aStart, aEnd, bStart, bEnd)
       <==> exists t :: During(t, aStart, aEnd) && During(t, bStart, bEnd)
  {
    if RangesOverlap(aStart, aEnd, bStart, bEnd) {
      var t := if aStart < bStart then bStart else aStart;
      assert During(t, aStart, aEnd) && During(t, bStart, bEnd);
    }
  }

  predicate During(t: int, start: int, end: int) {
    start <= t < end
  }

  predicate Overlap(a: Occurrence, b: Occurrence) {
    RangesOverlap(a.startAt, a.endAt, b.startAt, b.endAt)
  }

  ghost predicate OverlapFound(left: Shift, right: Shift, from: int, to: int) {
    exists a <- Listed(left, from, to, LIST_LIMIT), b <- Listed(right, from, to, LIST_LIMIT) :: Overlap(a, b)
  }

  method RecurrencesOverlap(left: Shift, right: Shift, from: int, to: int) returns (found: bool)
    requires Returns(left, from, to, LIST_LIMIT) && Returns(right, from, to, LIST_LIMIT)
    ensures found <==> OverlapFound(left, right, from, to)
  {
    hide Listed, Returns;
    var leftOccurrences := ExpandOccurrences(left, from, to, LIST_LIMIT);
    var rightOccurrences := ExpandOccurrences(right, from, to, LIST_LIMIT);
    for i := 0 to |leftOccurrences|
      invariant forall a <- leftOccurrences[..i], b <- rightOccurrences :: !Overlap(a, b)
    {
      for j := 0 to |rightOccurrences|
        invariant forall b <- rightOccurrences[..j] :: !Overlap(leftOccurrences[i], b)
      {
        var a, b := leftOccurrences[i], rightOccurrences[j];
        if RangesOverlap(a.startAt, a.endAt, b.startAt, b.endAt) {
          assert a in leftOccurrences && b in rightOccurrences && Overlap(a, b);
          return true;
        }
      }
    }
    return false;
  }

  // ---- What is listed ---------------------------------------------------------------------------------------------

  /** The call returns, in a fixed-offset zone, over dates in years 1000 to 9999. */
  ghost predicate Checked(s: Shift, offset: int, from: int, to: int) {
    Fixed(s.zone, offset) && Window(s, from, to) && Returns(s, from, to, LIST_LIMIT)
  }

  /** The check can see the occurrence on this day: it meets the window and, in a series, is not dated before it. */
  ghost predicate Visible(s: Shift, from: int, to: int, day: int) {
    InRange(day) && On(s, day).Some? && Meets(On(s, day).value, from, to)
    && (IsRecurring(s.recurrence) ==> FirstDay(s, from) <= day)
  }

  lemma {:induction false} CollectedIsReal(s: Shift, from: int, to: int, day: int, last: int, limit: nat, o: Occurrence)
    requires o in Collect(s, from, to, day, last, limit)
    ensures exists d :: day <= d <= last && On(s, d) == Some(o) && Meets(o, from, to)
    decreases last - day
  {
    hide On;
    var head := On(s, day);
    if head.Some? && Meets(head.value, from, to) {
      if o != head.value { CollectedIsReal(s, from, to, day + 1, last, limit - 1, o); }
    } else {
      CollectedIsReal(s, from, to, day + 1, last, limit, o);
    }
  }

  /** A meeting date fewer than `limit` days into the range is collected. */
  lemma {:induction false} EarlyDatesAreCollected(s: Shift, from: int, to: int, day: int, last: int, limit: nat, d: int)
    requires day <= d <= last && d - day < limit && On(s, d).Some? && Meets(On(s, d).value, from, to)
    ensures On(s, d).value in Collect(s, from, to, day, last, limit)
    decreases last - day
  {
    hide On;
    if day < d {
      var head := On(s, day);
      if head.Some? && Meets(head.value, from, to) {
        EarlyDatesAreCollected(s, from, to, day + 1, last, limit - 1, d);
      } else {
        EarlyDatesAreCollected(s, from, to, day + 1, last, limit, d);
      }
    }
  }

  /** Everything listed is a real occurrence that the check can see. */
  lemma ListedIsVisible(s: Shift, from: int, to: int, o: Occurrence)
    requires Window(s, from, to) && Returns(s, from, to, LIST_LIMIT) && o in Listed(s, from, to, LIST_LIMIT)
    ensures exists d :: Visible(s, from, to, d) && On(s, d) == Some(o)
  {
    hide On, LocalDay, Collect, LoopEnds, FirstDay, LastDay, Key, OccurrenceOnDate, StartCursor, LastKey;
    BoundsAreKeys(s, from, to);
    if IsRecurring(s.recurrence) {
      ListedIsCollected(s, from, to, LIST_LIMIT);
      CollectedIsReal(s, from, to, FirstDay(s, from), LastDay(s, to), LIST_LIMIT, o);
      var d :| FirstDay(s, from) <= d <= LastDay(s, to) && On(s, d) == Some(o) && Meets(o, from, to);
      assert Visible(s, from, to, d);
    } else {
      OneOffKey(s);
      assert Visible(s, from, to, StartDay(s));
    }
  }

  lemma OneOffKey(s: Shift)
    requires Dated(s)
    ensures OccurrenceOnDate(s, ZonedDateKey(s.startAt, s.zone)) == On(s, StartDay(s)) && InRange(StartDay(s))
  {
    hide OccurrenceOnDate, LocalDay, Key, ZonedDateKey;
    KeyOfLocalDay(s.startAt, s.zone);
  }

  /** What the check can see among the first dates of its range is listed. */
  lemma VisibleIsListed(s: Shift, from: int, to: int, day: int)
    requires Window(s, from, to) && Returns(s, from, to, LIST_LIMIT) && Visible(s, from, to, day)
    requires IsRecurring(s.recurrence) ==> day <= LastDay(s, to) && day - FirstDay(s, from) < LIST_LIMIT
    ensures On(s, day).value in Listed(s, from, to, LIST_LIMIT)
  {
    hide On, LocalDay, Collect, LoopEnds, FirstDay, LastDay, Key, OccurrenceOnDate;
    if IsRecurring(s.recurrence) {
      ListedIsCollected(s, from, to, LIST_LIMIT);
      EarlyDatesAreCollected(s, from, to, FirstDay(s, from), LastDay(s, to), LIST_LIMIT, day);
    } else {
      OneOffKey(s);
      OneOffOn(s, day);
    }
  }

  /** In a fixed-offset zone: an occurrence of a series that is dated on or after the date of `from`, ends no earlier,
      and starts by `to` and within 61 days is listed. */
  lemma DatesAreListed(s: Shift, offset: int, from: int, to: int, day: int)
    requires Checked(s, offset, from, to) && IsRecurring(s.recurrence) && InRange(day) && On(s, day).Some?
    requires LocalDay(from, s.zone) <= day && Meets(On(s, day).value, from, to)
    requires On(s, day).value.startAt <= from + 61 * MS_PER_DAY
    ensures On(s, day).value in Listed(s, from, to, LIST_LIMIT)
  {
    hide On, LocalDay, Listed, Returns, StartMs;
    SeriesDay(s, offset, from, to, day);
    var today := LocalDay(from, s.zone);
    DayAt(s.zone, offset, from, today);
    OccurrenceTimes(s, offset, day);
    assert day <= today + 61;
    VisibleIsListed(s, from, to, day);
  }

  lemma StartsAreListed(s: Shift, offset: int, from: int, to: int, day: int)
    requires Checked(s, offset, from, to) && IsRecurring(s.recurrence) && InRange(day) && On(s, day).Some?
    requires var start := On(s, day).value.startAt; from <= start <= to && start <= from + 61 * MS_PER_DAY
    ensures On(s, day).value in Listed(s, from, to, LIST_LIMIT)
  {
    hide On, LocalDay, Listed, Returns;
    OnShape(s, offset, day);
    LocalDaysIncrease(s.zone, offset, from, On(s, day).value.startAt);
    DatesAreListed(s, offset, from, to, day);
  }

  lemma SeriesDay(s: Shift, offset: int, from: int, to: int, day: int)
    requires Fixed(s.zone, offset) && Window(s, from, to) && IsRecurring(s.recurrence) && InRange(day)
    requires On(s, day).Some?
    ensures LocalDay(from, s.zone) <= day ==> FirstDay(s, from) <= day
    ensures On(s, day).value.startAt <= to ==> day <= LastDay(s, to)
    ensures LocalDay(from, s.zone) <= FirstDay(s, from)
  {
    hide On, LocalDay;
    OnIsInSeries(s, day);
    OnShape(s, offset, day);
    if On(s, day).value.startAt <= to { LocalDaysIncrease(s.zone, offset, On(s, day).value.startAt, to); }
  }

  ghost predicate ClashesOn(s: Shift, day: int, o: Occurrence) {
    InRange(day) && On(s, day).Some? && Overlap(o, On(s, day).value)
  }

  ghost predicate Clash(left: Shift, dl: int, right: Shift, dr: int) {
    InRange(dl) && On(left, dl).Some? && ClashesOn(right, dr, On(left, dl).value)
  }

  /** When the check reports a clash, two real occurrences do overlap, whatever the kinds of the two shifts. */
  lemma FoundOverlapIsReal(left: Shift, right: Shift, from: int, to: int)
    requires Window(left, from, to) && Returns(left, from, to, LIST_LIMIT)
    requires Window(right, from, to) && Returns(right, from, to, LIST_LIMIT)
    requires OverlapFound(left, right, from, to)
    ensures exists dl, dr :: Visible(left, from, to, dl) && Visible(right, from, to, dr) && Clash(left, dl, right, dr)
  {
    hide On, Listed, Returns, Window, Visible;
    var a, b :| a in Listed(left, from, to, LIST_LIMIT) && b in Listed(right, from, to, LIST_LIMIT) && Overlap(a, b);
    ListedIsVisible(left, from, to, a);
    ListedIsVisible(right, from, to, b);
    var dl, dr :| Visible(left, from, to, dl) && On(left, dl) == Some(a)
                  && Visible(right, from, to, dr) && On(right, dr) == Some(b);
    VisibleDates(left, from, to, dl);
    VisibleDates(right, from, to, dr);
    assert Clash(left, dl, right, dr);
  }

  lemma VisibleDates(s: Shift, from: int, to: int, day: int)
    requires Visible(s, from, to, day)
    ensures InRange(day) && On(s, day).Some?
  {
    hide On;
  }

  // ---- Short windows --------------------------------------------------------------------------------------------

  /** In a window of at most 61 days the limit never bites: the check reports a clash if and only if two occurrences
      that it can see overlap, whatever the kinds of the two shifts. */
  lemma ShortWindowSeesExactly(left: Shift, lo: int, right: Shift, ro: int, from: int, to: int)
    requires Checked(left, lo, from, to) && Checked(right, ro, from, to) && to <= from + 61 * MS_PER_DAY
    ensures OverlapFound(left, right, from, to)
       <==> exists dl, dr :: Visible(left, from, to, dl) && Visible(right, from, to, dr) && Clash(left, dl, right, dr)
  {
    hide On, Listed, Returns, Window, Visible, Fixed, Clash;
    if OverlapFound(left, right, from, to) {
      FoundOverlapIsReal(left, right, from, to);
    }
    forall dl, dr | Visible(left, from, to, dl) && Visible(right, from, to, dr) && Clash(left, dl, right, dr)
      ensures OverlapFound(left, right, from, to)
    {
      VisibleEarlyIsListed(left, lo, from, to, dl);
      VisibleEarlyIsListed(right, ro, from, to, dr);
      assert Overlap(On(left, dl).value, On(right, dr).value) by { ClashOverlaps(left, dl, right, dr); }
    }
  }

  lemma ClashOverlaps(left: Shift, dl: int, right: Shift, dr: int)
    requires Clash(left, dl, right, dr)
    ensures On(left, dl).Some? && On(right, dr).Some? && Overlap(On(left, dl).value, On(right, dr).value)
  {
    hide On;
  }

  lemma VisibleEarlyIsListed(s: Shift, offset: int, from: int, to: int, day: int)
    requires Checked(s, offset, from, to) && to <= from + 61 * MS_PER_DAY && Visible(s, from, to, day)
    ensures On(s, day).value in Listed(s, from, to, LIST_LIMIT)
  {
    hide On, LocalDay, Listed, Returns, Window;
    if IsRecurring(s.recurrence) {
      DatesAreListed(s, offset, from, to, day);
    } else {
      VisibleIsListed(s, from, to, day);
    }
  }

  // ---- Two series ---------------------------------------------------------------------------------------------------

  const WEEK := 7 * MS_PER_DAY

  /** The hypotheses under which one week from `t` on, plus the length of an occurrence, settles a series for good. */
  ghost predicate Settleable(s: Shift, offset: int, from: int, to: int, t: int, reach: int) {
    && Checked(s, offset, from, to) && IsRecurring(s.recurrence)
    && from <= t && s.startAt <= t && WEEK + Duration(s) <= reach
    && t + reach <= to && t + reach <= from + 61 * MS_PER_DAY
  }

  lemma SameWeekday(day: int, n: int)
    ensures (day + 7 * n + SUNDAY_SHIFT) % 7 == (day + SUNDAY_SHIFT) % 7
  {
  }

  lemma StartWeeksApart(s: Shift, offset: int, day: int, n: int)
    ensures FixedStart(s, offset, day + 7 * n) == FixedStart(s, offset, day) + n * WEEK
  {
    hide TimeOfDay;
  }

  /** Occurrences recur by whole weeks wherever the series reaches. */
  lemma WeeksApart(s: Shift, offset: int, day: int, n: int)
    requires Fixed(s.zone, offset) && Dated(s) && IsRecurring(s.recurrence) && InRange(day) && On(s, day).Some?
    requires InRange(day + 7 * n) && InSeries(s, day + 7 * n)
    ensures On(s, day + 7 * n).Some?
    ensures var o, p := On(s, day).value, On(s, day + 7 * n).value;
            p.startAt == o.startAt + n * WEEK && p.endAt == o.endAt + n * WEEK
  {
    hide On, Key, LocalDay, MatchingWeekdays, FixedStart, Duration, InSeries, Dated;
    SameWeekday(day, n);
    StartWeeksApart(s, offset, day, n);
    FixedOn(s, offset, day);
    FixedOn(s, offset, day + 7 * n);
  }

  /** An occurrence k weeks earlier is one too, as long as it does not start before `t`. */
  lemma WeeksEarlier(s: Shift, offset: int, from: int, to: int, t: int, reach: int, day: int, k: nat)
    requires Settleable(s, offset, from, to, t, reach) && InRange(day) && On(s, day).Some?
    requires t <= On(s, day).value.startAt - k * WEEK
    ensures InRange(day - 7 * k) && On(s, day - 7 * k).Some?
    ensures var o, p := On(s, day).value, On(s, day - 7 * k).value;
            p.startAt == o.startAt - k * WEEK && p.endAt == o.endAt - k * WEEK
  {
    hide On, Key, LocalDay, Returns, FixedStart, Duration;
    var n: int := k;
    OnShape(s, offset, day);
    StartWeeksApart(s, offset, day, -n);
    DayOfStart(s, offset, day - 7 * k);
    LocalDaysIncrease(s.zone, offset, from, FixedStart(s, offset, day - 7 * k));
    LocalDaysIncrease(s.zone, offset, s.startAt, FixedStart(s, offset, day - 7 * k));
    OnIsInSeries(s, day);
    WeeksApart(s, offset, day, -n);
  }

  lemma DayOfStart(s: Shift, offset: int, day: int)
    requires Fixed(s.zone, offset)
    ensures LocalDay(FixedStart(s, offset, day), s.zone) == day
  {
    hide LocalDay;
    FixedLocalDay(s.zone, offset, day, TimeOfDay(s));
  }

  lemma OccurrenceLength(s: Shift, offset: int, from: int, to: int, day: int)
    requires Checked(s, offset, from, to) && InRange(day) && On(s, day).Some?
    ensures On(s, day).value.endAt - On(s, day).value.startAt <= Duration(s)
  {
    hide On, LocalDay, Returns;
    OnShape(s, offset, day);
  }

  /** A finite check settles an infinite schedule: for any instant `t` by which both series have begun, early enough for
      one more week and an occurrence to fit into the window and the first 61 days, a check that finds nothing means
      that no two occurrences that start at or after `t` ever overlap, however far ahead, in spite of the limit of
      62. */
  lemma FiniteCheckSettlesSchedule(
      left: Shift, lo: int, right: Shift, ro: int, from: int, to: int, t: int, reach: int, dl: int, dr: int)
    requires Settleable(left, lo, from, to, t, reach) && Settleable(right, ro, from, to, t, reach)
    requires !OverlapFound(left, right, from, to)
    requires InRange(dl) && On(left, dl).Some? && t <= On(left, dl).value.startAt
    requires InRange(dr) && On(right, dr).Some? && t <= On(right, dr).value.startAt
    ensures !Overlap(On(left, dl).value, On(right, dr).value)
  {
    hide On, Key, LocalDay, Listed, Returns, Window, Fixed, Duration;
    var a, b := On(left, dl).value, On(right, dr).value;
    OccurrenceLength(left, lo, from, to, dl);
    OccurrenceLength(right, ro, from, to, dr);
    if Overlap(a, b) {
      var k := ((if a.startAt < b.startAt then a.startAt else b.startAt) - t) / WEEK;
      WeeksEarlier(left, lo, from, to, t, reach, dl, k);
      WeeksEarlier(right, ro, from, to, t, reach, dr, k);
      StartsAreListed(left, lo, from, to, dl - 7 * k);
      StartsAreListed(right, ro, from, to, dr - 7 * k);
    }
  }

  /** The series goes on for at least a week and an occurrence after `t`. */
  ghost predicate GoesOn(s: Shift, t: int, reach: int) {
    s.recurrenceEndAt.Some? ==> LocalDay(t + reach, s.zone) <= LocalDay(s.recurrenceEndAt.value, s.zone)
  }

  lemma WeekLater(s: Shift, offset: int, from: int, to: int, t: int, reach: int, day: int)
    requires Settleable(s, offset, from, to, t, reach) && GoesOn(s, t, reach) && InRange(day) && On(s, day).Some?
    requires On(s, day).value.startAt + WEEK <= t + reach
    ensures InRange(day + 7) && On(s, day + 7).Some?
    ensures var o, p := On(s, day).value, On(s, day + 7).value;
            p.startAt == o.startAt + WEEK && p.endAt == o.endAt + WEEK
  {
    hide On, Key, LocalDay, Returns, FixedStart, Duration;
    OnShape(s, offset, day);
    StartWeeksApart(s, offset, day, 1);
    DayOfStart(s, offset, day + 7);
    LocalDaysIncrease(s.zone, offset, FixedStart(s, offset, day + 7), t + reach);
    LocalDaysIncrease(s.zone, offset, t + reach, to);
    OnIsInSeries(s, day);
    WeeksApart(s, offset, day, 1);
  }

  /** With occurrences of at most a week and series that go on, the check also settles the occurrences that are already
      running at `t`: no two occurrences overlap of which one starts at or after `t`. */
  lemma RunningOccurrencesAreSettled(
      left: Shift, lo: int, right: Shift, ro: int, from: int, to: int, t: int, reach: int, dl: int, dr: int)
    requires Settleable(left, lo, from, to, t, reach) && Settleable(right, ro, from, to, t, reach)
    requires GoesOn(left, t, reach) && GoesOn(right, t, reach) && Duration(left) <= WEEK && Duration(right) <= WEEK
    requires !OverlapFound(left, right, from, to)
    requires InRange(dl) && On(left, dl).Some? && InRange(dr) && On(right, dr).Some?
    requires t <= On(left, dl).value.startAt || t <= On(right, dr).value.startAt
    ensures !Overlap(On(left, dl).value, On(right, dr).value)
  {
    hide On, Key, LocalDay, Listed, Returns, Window, Fixed, Duration, GoesOn;
    var a, b := On(left, dl).value, On(right, dr).value;
    OccurrenceLength(left, lo, from, to, dl);
    OccurrenceLength(right, ro, from, to, dr);
    if Overlap(a, b) {
      if t <= a.startAt && t <= b.startAt {
        FiniteCheckSettlesSchedule(left, lo, right, ro, from, to, t, reach, dl, dr);
      } else {
        WeekLater(left, lo, from, to, t, reach, dl);
        WeekLater(right, ro, from, to, t, reach, dr);
        FiniteCheckSettlesSchedule(left, lo, right, ro, from, to, t, reach, dl + 7, dr + 7);
      }
    }
  }

  /** Pairs that pass: shifts in one zone that take turns within the day, each over before the other starts. */
  lemma TakingTurnsPasses(left: Shift, right: Shift, offset: int, from: int, to: int)
    requires Checked(left, offset, from, to) && IsRecurring(left.recurrence)
    requires Checked(right, offset, from, to) && IsRecurring(right.recurrence)
    requires var gap := 1000 * (TimeOfDay(right) - TimeOfDay(left));
             Duration(left) <= gap && Duration(right) <= MS_PER_DAY - gap
    ensures !OverlapFound(left, right, from, to)
  {
    hide On, LocalDay, Listed, TimeOfDay, Duration, Returns, Window;
    forall a, b | a in Listed(left, from, to, LIST_LIMIT) && b in Listed(right, from, to, LIST_LIMIT)
      ensures !Overlap(a, b)
    {
      ListedShape(left, offset, from, to, a);
      ListedShape(right, offset, from, to, b);
    }
  }

  /** A listed occurrence in a fixed-offset zone has the series' time of day and length. */
  lemma ListedShape(s: Shift, offset: int, from: int, to: int, o: Occurrence)
    requires Checked(s, offset, from, to) && IsRecurring(s.recurrence) && o in Listed(s, from, to, LIST_LIMIT)
    ensures exists d :: o.startAt == FixedStart(s, offset, d)
    ensures o.endAt == o.startAt + Duration(s)
  {
    hide On, LocalDay, TimeOfDay, FixedStart, Listed, Returns;
    ListedIsVisible(s, from, to, o);
    var d :| Visible(s, from, to, d) && On(s, d) == Some(o);
    OnShape(s, offset, d);
  }

  // ---- Series that begin later --------------------------------------------------------------------------------------

  /** Where all dates up to a meeting one meet, the list reaches exactly `limit` dates. */
  lemma {:induction false} DenseListing(s: Shift, from: int, to: int, day: int, last: int, limit: nat, o: Occurrence)
    requires forall x, y :: day <= x <= y <= last && On(s, y).Some? && Meets(On(s, y).value, from, to) ==>
               On(s, x).Some? && Meets(On(s, x).value, from, to)
    requires o in Collect(s, from, to, day, last, limit)
    ensures exists d :: day <= d < day + limit && d <= last && On(s, d) == Some(o)
    decreases last - day
  {
    hide On;
    var head := On(s, day);
    if !(head.Some? && Meets(head.value, from, to)) {
      CollectedIsReal(s, from, to, day, last, limit, o);
    } else if o != head.value {
      DenseListing(s, from, to, day + 1, last, limit - 1, o);
    }
  }

  /** The copy of a daily shift that begins `days` days after it. */
  function LaterCopy(s: Shift, days: nat): Shift {
    s.(startAt := s.startAt + days * MS_PER_DAY, endAt := s.endAt + days * MS_PER_DAY)
  }

  lemma CopyTimes(s: Shift, offset: int, days: nat)
    requires Fixed(s.zone, offset)
    ensures var c := LaterCopy(s, days);
            StartDay(c) == StartDay(s) + days && TimeOfDay(c) == TimeOfDay(s) && Duration(c) == Duration(s)
  {
    hide LocalDay, LocalSeconds;
    DaysLater(s.zone, offset, s.startAt, days);
  }

  lemma DaysLater(zone: Zone, offset: int, t: int, days: nat)
    requires Fixed(zone, offset)
    ensures LocalDay(t + days * MS_PER_DAY, zone) == LocalDay(t, zone) + days
    ensures LocalSeconds(t + days * MS_PER_DAY, zone) % DAY_SECONDS == LocalSeconds(t, zone) % DAY_SECONDS
  {
    assert zone(t) == zone(t + days * MS_PER_DAY) == offset;
    assert t + days * MS_PER_DAY == 1000 * (t / 1000 + days * DAY_SECONDS) + t % 1000;
    var s := LocalSeconds(t, zone);
    assert s + days * DAY_SECONDS == DAY_SECONDS * (s / DAY_SECONDS + days) + s % DAY_SECONDS;
  }

  /** A daily shift checked from its own start against its copy that begins later, which coincides with it on every date
      from then on: the check finds that out if and only if the copy begins by `to` and within the first 62 dates. */
  lemma LaterCopyCaughtExactly(s: Shift, offset: int, from: int, to: int, days: nat)
    requires Checked(s, offset, from, to) && Checked(LaterCopy(s, days), offset, from, to)
    requires s.recurrence == DAILY && s.recurrenceEndAt.None? && s.startAt == from && 1000 <= Duration(s) <= MS_PER_DAY
    ensures On(s, StartDay(s) + days) == Some(Occurrence(Key(StartDay(s) + days),
                                                         FixedStart(s, offset, StartDay(s) + days),
                                                          FixedStart(s, offset, StartDay(s) + days) + Duration(s)))
    ensures On(LaterCopy(s, days), StartDay(s) + days) == On(s, StartDay(s) + days)
    ensures OverlapFound(s, LaterCopy(s, days), from, to)
       <==> FixedStart(s, offset, StartDay(s) + days) <= to && days < 62
  {
    hide On, LocalDay, Listed, Returns, TimeOfDay, Duration, Key;
    var c := LaterCopy(s, days);
    CopyTimes(s, offset, days);
    CopyCoincides(s, offset, days);
    if FixedStart(s, offset, StartDay(s) + days) <= to && days < LIST_LIMIT {
      CopyIsCaught(s, offset, from, to, days);
    } else if OverlapFound(s, c, from, to) {
      CaughtCopyIsEarly(s, offset, from, to, days);
    }
  }

  lemma CopyCoincides(s: Shift, offset: int, days: nat)
    requires Fixed(s.zone, offset) && Dated(s) && Dated(LaterCopy(s, days)) && s.recurrence == DAILY
    requires s.recurrenceEndAt.None?
    ensures var day := StartDay(s) + days;
            && On(s, day) == Some(Occurrence(Key(day), FixedStart(s, offset, day),
                                             FixedStart(s, offset, day) + Duration(s)))
            && On(LaterCopy(s, days), day) == On(s, day)
  {
    hide On, LocalDay, MatchingWeekdays, TimeOfDay, Key, Duration;
    var c, day := LaterCopy(s, days), StartDay(s) + days;
    CopyTimes(s, offset, days);
    EveryWeekday(s, day);
    EveryWeekday(c, day);
    FixedOn(s, offset, day);
    FixedOn(c, offset, day);
  }

  lemma CopyIsCaught(s: Shift, offset: int, from: int, to: int, days: nat)
    requires Checked(s, offset, from, to) && Checked(LaterCopy(s, days), offset, from, to)
    requires s.recurrence == DAILY && s.recurrenceEndAt.None? && s.startAt == from && 1000 <= Duration(s)
    requires FixedStart(s, offset, StartDay(s) + days) <= to && days < LIST_LIMIT
    ensures OverlapFound(s, LaterCopy(s, days), from, to)
  {
    hide On, LocalDay, Listed, Returns, TimeOfDay, Duration, Key;
    var c, day := LaterCopy(s, days), StartDay(s) + days;
    CopyTimes(s, offset, days);
    CopyCoincides(s, offset, days);
    SeriesDay(s, offset, from, to, day);
    SeriesDay(c, offset, from, to, day);
    StartTruncates(s, offset);
    VisibleIsListed(s, from, to, day);
    VisibleIsListed(c, from, to, day);
    assert Overlap(On(s, day).value, On(c, day).value);
  }

  /** The first date's occurrence starts less than a second before the series does. */
  lemma StartTruncates(s: Shift, offset: int)
    requires Fixed(s.zone, offset)
    ensures FixedStart(s, offset, StartDay(s)) <= s.startAt < FixedStart(s, offset, StartDay(s)) + 1000
  {
    hide LocalDay;
    OneOffStart(s, offset);
  }

  lemma CaughtCopyIsEarly(s: Shift, offset: int, from: int, to: int, days: nat)
    requires Checked(s, offset, from, to) && Checked(LaterCopy(s, days), offset, from, to)
    requires s.recurrence == DAILY && s.recurrenceEndAt.None? && s.startAt == from && 1000 <= Duration(s) <= MS_PER_DAY
    requires OverlapFound(s, LaterCopy(s, days), from, to)
    ensures FixedStart(s, offset, StartDay(s) + days) <= to && days < LIST_LIMIT
  {
    hide On, LocalDay, Listed, Returns, TimeOfDay, Duration, Key, Dated;
    var c := LaterCopy(s, days);
    var a, b :| a in Listed(s, from, to, LIST_LIMIT) && b in Listed(c, from, to, LIST_LIMIT) && Overlap(a, b);
    CopyTimes(s, offset, days);
    DailyListing(s, offset, from, to, a);
    ListedIsVisible(c, from, to, b);
    var d :| StartDay(s) <= d < StartDay(s) + LIST_LIMIT && a.startAt == FixedStart(s, offset, d)
             && a.endAt == a.startAt + Duration(s);
    var e :| Visible(c, from, to, e) && On(c, e) == Some(b);
    CopyDay(c, offset, e);
  }

  lemma CopyDay(c: Shift, offset: int, e: int)
    requires Fixed(c.zone, offset) && Dated(c) && InRange(e) && c.recurrence == DAILY && c.recurrenceEndAt.None?
    requires On(c, e).Some?
    ensures StartDay(c) <= e && On(c, e).value.startAt == FixedStart(c, offset, e)
    ensures On(c, e).value.endAt == FixedStart(c, offset, e) + Duration(c)
  {
    hide On, LocalDay, Duration, TimeOfDay;
    DailyOn(c, offset, e);
  }

  /** The list of a daily shift that begins at `from` holds its first 62 dates up to `to`. */
  lemma DailyListing(s: Shift, offset: int, from: int, to: int, o: Occurrence)
    requires Checked(s, offset, from, to) && s.recurrence == DAILY && s.recurrenceEndAt.None? && s.startAt == from
    requires 1000 <= Duration(s)
    requires o in Listed(s, from, to, LIST_LIMIT)
    ensures exists d :: StartDay(s) <= d < StartDay(s) + LIST_LIMIT
                        && o.startAt == FixedStart(s, offset, d) && o.endAt == o.startAt + Duration(s)
  {
    hide On, LocalDay, Listed, TimeOfDay, Duration, Key, Collect, LoopEnds, StartCursor, LastKey;
    BoundsAreKeys(s, from, to);
    ListedIsCollected(s, from, to, LIST_LIMIT);
    StartTruncates(s, offset);
    var first, last := FirstDay(s, from), LastDay(s, to);
    forall x, y | first <= x <= y <= last && On(s, y).Some? && Meets(On(s, y).value, from, to)
      ensures On(s, x).Some? && Meets(On(s, x).value, from, to)
    {
      DailyOn(s, offset, x);
      DailyOn(s, offset, y);
    }
    DenseListing(s, from, to, first, last, LIST_LIMIT, o);
    var d :| first <= d < first + LIST_LIMIT && d <= last && On(s, d) == Some(o);
    DailyOn(s, offset, d);
  }

  /** In particular a series that begins after the window is never listed, whatever it clashes with. */
  lemma UnbegunSeriesEscapes(s: Shift, offset: int, from: int, to: int, days: nat)
    requires Checked(s, offset, from, to) && s.recurrence == DAILY && s.recurrenceEndAt.None?
    requires 1000 <= Duration(s) <= MS_PER_DAY && s.startAt == from && Dated(LaterCopy(s, days))
    requires StartDay(s) + days > LocalDay(to, s.zone)
    ensures !OverlapFound(s, LaterCopy(s, days), from, to)
    ensures On(s, StartDay(s) + days).Some? && On(LaterCopy(s, days), StartDay(s) + days).Some?
    ensures Overlap(On(s, StartDay(s) + days).value, On(LaterCopy(s, days), StartDay(s) + days).value)
  {
    hide On, LocalDay, Listed, Returns, TimeOfDay, Duration, Key, OverlapFound;
    LateCopyReturns(s, offset, from, to, days);
    LaterCopyCaughtExactly(s, offset, from, to, days);
    DayAt(s.zone, offset, to, LocalDay(to, s.zone));
    StartOfDate(s, offset, StartDay(s) + days);
  }

  lemma StartOfDate(s: Shift, offset: int, day: int)
    ensures Midnight(offset, day) <= FixedStart(s, offset, day)
  {
  }

  /** Nothing is expanded for a series that begins after the window. */
  lemma LateCopyReturns(s: Shift, offset: int, from: int, to: int, days: nat)
    requires Checked(s, offset, from, to) && s.recurrence == DAILY && s.recurrenceEndAt.None?
    requires Dated(LaterCopy(s, days)) && StartDay(s) + days > LocalDay(to, s.zone)
    ensures Checked(LaterCopy(s, days), offset, from, to)
  {
    hide LocalDay, LoopEnds, MeetingDays, TimeOfDay, Duration;
    var c := LaterCopy(s, days);
    CopyTimes(s, offset, days);
    ExpandLoopEnds(c, from, to, LIST_LIMIT);
  }

  // ---- A one-off shift against a series -----------------------------------------------------------------------------

  /** A one-off shift as the check sees it. */
  function Only(s: Shift): Occurrence {
    Occurrence(Key(StartDay(s)), s.startAt, s.endAt)
  }

  ghost predicate IsOneOff(s: Shift) {
    !IsRecurring(s.recurrence) && InSeries(s, StartDay(s)) && s.startAt <= s.endAt
  }

  lemma OneOffListed(s: Shift, from: int, to: int, o: Occurrence)
    requires IsOneOff(s) && Window(s, from, to)
    ensures o in Listed(s, from, to, LIST_LIMIT) <==> o == Only(s) && Meets(o, from, to)
  {
    hide On, LocalDay, Key, OccurrenceOnDate;
    OneOffKey(s);
    OneOffOn(s, StartDay(s));
  }

  /** An occurrence of an earlier local date is still running at `at`. */
  ghost predicate RunningInto(s: Shift, at: int) {
    exists d :: InRange(d) && d < LocalDay(at, s.zone) && On(s, d).Some? && On(s, d).value.endAt > at
  }

  /** A one-off proposal against a series: the check sees exactly the occurrences dated on or after the proposal's date.
      A proposal that passes is therefore free of clashes if and only if no occurrence of an earlier date is still
      running when it starts. */
  lemma OneOffProposalExactly(p: Shift, s: Shift, offset: int, to: int)
    requires IsOneOff(p) && Window(p, p.startAt, to) && Checked(s, offset, p.startAt, to) && IsRecurring(s.recurrence)
    requires p.endAt <= to && p.endAt <= p.startAt + 61 * MS_PER_DAY
    ensures OverlapFound(p, s, p.startAt, to)
       <==> exists d :: LocalDay(p.startAt, s.zone) <= d && ClashesOn(s, d, Only(p))
    ensures !OverlapFound(p, s, p.startAt, to) ==>
              ((forall d :: !ClashesOn(s, d, Only(p))) <==> !RunningInto(s, p.startAt))
  {
    hide On, LocalDay, Listed, Returns, Window, Key;
    OneOffListed(p, p.startAt, to, Only(p));
    if OverlapFound(p, s, p.startAt, to) {
      FoundIsDatedLater(p, s, offset, to);
    }
    forall d | LocalDay(p.startAt, s.zone) <= d && ClashesOn(s, d, Only(p)) ensures OverlapFound(p, s, p.startAt, to) {
      DatesAreListed(s, offset, p.startAt, to, d);
    }
    forall d | InRange(d) && d < LocalDay(p.startAt, s.zone) && On(s, d).Some?
      ensures ClashesOn(s, d, Only(p)) <==> On(s, d).value.endAt > p.startAt
    {
      EarlierDateStartsEarlier(s, offset, p.startAt, to, d);
    }
  }

  lemma FoundIsDatedLater(p: Shift, s: Shift, offset: int, to: int)
    requires IsOneOff(p) && Window(p, p.startAt, to) && Checked(s, offset, p.startAt, to) && IsRecurring(s.recurrence)
    requires OverlapFound(p, s, p.startAt, to)
    ensures exists d :: LocalDay(p.startAt, s.zone) <= d && ClashesOn(s, d, Only(p))
  {
    hide On, LocalDay, Listed, Returns, Window, Key;
    var from := p.startAt;
    var a, b :| a in Listed(p, from, to, LIST_LIMIT) && b in Listed(s, from, to, LIST_LIMIT) && Overlap(a, b);
    OneOffListed(p, from, to, a);
    ListedIsVisible(s, from, to, b);
    var d :| Visible(s, from, to, d) && On(s, d) == Some(b);
    assert LocalDay(from, s.zone) <= d && ClashesOn(s, d, Only(p));
  }

  lemma EarlierDateStartsEarlier(s: Shift, offset: int, from: int, to: int, day: int)
    requires Checked(s, offset, from, to) && InRange(day) && On(s, day).Some? && day < LocalDay(from, s.zone)
    ensures On(s, day).value.startAt < from
  {
    hide On, LocalDay, Returns;
    OnShape(s, offset, day);
    if from <= On(s, day).value.startAt { LocalDaysIncrease(s.zone, offset, from, On(s, day).value.startAt); }
  }

  const HOUR := 3_600_000

  /** Such a proposal: a one-off from 02:00 to 04:00 against a daily shift from 22:00 to 06:00 passes, although the
      shift of the evening before is running through it. */
  lemma NightShiftEscapes(p: Shift, s: Shift, offset: int, to: int, day: int)
    requires IsOneOff(p) && Window(p, p.startAt, to) && Checked(s, offset, p.startAt, to) && p.endAt <= to
    requires p.startAt == Midnight(offset, day) + 2 * HOUR && p.endAt == Midnight(offset, day) + 4 * HOUR
    requires s.recurrence == DAILY && s.recurrenceEndAt.None? && StartDay(s) < day && InRange(day - 1)
    requires 1000 * TimeOfDay(s) == 22 * HOUR && Duration(s) == 8 * HOUR
    ensures !OverlapFound(p, s, p.startAt, to) && ClashesOn(s, day - 1, Only(p))
  {
    hide On, LocalDay, Listed, Returns, TimeOfDay, Duration, Key, Window, OverlapFound, Dated;
    DayAt(s.zone, offset, p.startAt, day);
    OneOffProposalExactly(p, s, offset, to);
    WindowIsDated(s, p.startAt, to);
    DailyOn(s, offset, day - 1);
    forall d | day <= d ensures !ClashesOn(s, d, Only(p)) {
      if InRange(d) { DailyOn(s, offset, d); }
    }
  }

  lemma WindowIsDated(s: Shift, from: int, to: int)
    requires Window(s, from, to)
    ensures Dated(s)
  {
  }

  /** A series proposed against a one-off shift that ends within the window and its first 61 days: the check is exact,
      up to occurrences that end before the series begins. */
  lemma SeriesProposalExactly(p: Shift, s: Shift, offset: int, to: int)
    requires Checked(p, offset, p.startAt, to) && IsRecurring(p.recurrence) && IsOneOff(s) && Window(s, p.startAt, to)
    requires s.endAt <= to && s.endAt <= p.startAt + 61 * MS_PER_DAY
    ensures OverlapFound(p, s, p.startAt, to)
       <==> p.startAt <= s.endAt && exists d :: ClashesOn(p, d, Only(s)) && p.startAt <= On(p, d).value.endAt
  {
    hide On, LocalDay, Listed, Returns, Window, Key, Duration;
    var from := p.startAt;
    OneOffListed(s, from, to, Only(s));
    if OverlapFound(p, s, from, to) {
      var a, b :| a in Listed(p, from, to, LIST_LIMIT) && b in Listed(s, from, to, LIST_LIMIT) && Overlap(a, b);
      OneOffListed(s, from, to, b);
      ListedIsVisible(p, from, to, a);
      var d :| Visible(p, from, to, d) && On(p, d) == Some(a);
      assert ClashesOn(p, d, Only(s));
    }
    if from <= s.endAt {
      forall d | ClashesOn(p, d, Only(s)) && from <= On(p, d).value.endAt ensures OverlapFound(p, s, from, to) {
        FromItsFirstDate(p, from, to, d);
        DatesAreListed(p, offset, from, to, d);
        assert Overlap(On(p, d).value, Only(s));
      }
    }
  }

  lemma FromItsFirstDate(p: Shift, from: int, to: int, day: int)
    requires Window(p, from, to) && p.startAt == from && InRange(day) && On(p, day).Some?
    ensures LocalDay(from, p.zone) <= day
  {
    hide On, LocalDay;
    OnIsInSeries(p, day);
  }

  /** A one-off shift after the window is never listed: a daily series passes although it will clash with it. */
  lemma FarOneOffEscapes(p: Shift, s: Shift, offset: int, to: int, day: int)
    requires Checked(p, offset, p.startAt, to) && p.recurrence == DAILY && p.recurrenceEndAt.None? && Duration(p) > 0
    requires IsOneOff(s) && Window(s, p.startAt, to) && InRange(day) && StartDay(p) <= day
    requires s.startAt == FixedStart(p, offset, day) && s.endAt == s.startAt + Duration(p) && to < s.startAt
    ensures !OverlapFound(p, s, p.startAt, to) && ClashesOn(p, day, Only(s))
  {
    hide On, LocalDay, Listed, Returns, Window, Key, Duration, TimeOfDay, FixedStart, Dated;
    WindowIsDated(p, p.startAt, to);
    DailyOn(p, offset, day);
    forall b | b in Listed(s, p.startAt, to, LIST_LIMIT) ensures false { OneOffListed(s, p.startAt, to, b); }
  }

  // ---- A series that ends ---------------------------------------------------------------------------------------

  /** A proposed series is checked up to its own last instant, and that within 61 days. */
  ghost predicate Ending(p: Shift, po: int, s: Shift, so: int, to: int) {
    && IsRecurring(p.recurrence) && p.recurrenceEndAt == Some(to) && to <= p.startAt + 61 * MS_PER_DAY
    && 1000 <= Duration(p) && IsRecurring(s.recurrence)
    && Checked(p, po, p.startAt, to) && Checked(s, so, p.startAt, to)
  }

  /** An occurrence of the other series that is dated before the proposal, or over when it begins, still runs into one
      of its occurrences. */
  ghost predicate EarlierRunsIn(p: Shift, s: Shift) {
    exists dp, ds :: InRange(dp) && On(p, dp).Some? && InRange(ds) && On(s, ds).Some?
                     && (ds < LocalDay(p.startAt, s.zone) || On(s, ds).value.endAt < p.startAt)
                     && On(s, ds).value.endAt > On(p, dp).value.startAt
  }

  /** The last occurrence of the proposal runs beyond its last instant into one that starts later. */
  ghost predicate LaterMeets(p: Shift, s: Shift, to: int) {
    exists dp, ds :: InRange(dp) && On(p, dp).Some? && InRange(ds) && On(s, ds).Some?
                     && On(p, dp).value.startAt <= to < On(s, ds).value.startAt < On(p, dp).value.endAt
  }

  /** The proposal occurs on its last date after its last instant, and clashes there. */
  ghost predicate LastDateMissed(p: Shift, s: Shift, to: int) {
    var e := LocalDay(to, p.zone);
    && InRange(e) && On(p, e).Some? && On(p, e).value.startAt > to
    && exists ds :: ClashesOn(s, ds, On(p, e).value)
  }

  /** A proposed series that ends within 61 days is free of clashes with another series, on any date, if and only if
      the check finds nothing, no earlier occurrence of the other still runs into it, none that starts after the last
      instant meets it, and its last date is not missed. */
  lemma EndingProposalExactly(p: Shift, po: int, s: Shift, so: int, to: int)
    requires Ending(p, po, s, so, to)
    ensures (forall dp, ds :: !Clash(p, dp, s, ds))
       <==> !OverlapFound(p, s, p.startAt, to) && !EarlierRunsIn(p, s) && !LaterMeets(p, s, to)
            && !LastDateMissed(p, s, to)
  {
    hide On, Visible, LastDateMissed, EarlierRunsIn, LaterMeets, OverlapFound, Clash, Ending;
    if OverlapFound(p, s, p.startAt, to) { FoundIsClash(p, po, s, so, to); }
    if EarlierRunsIn(p, s) { EarlierIsClash(p, po, s, so, to); }
    if LaterMeets(p, s, to) { LaterIsClash(p, po, s, so, to); }
    if LastDateMissed(p, s, to) { MissedIsClash(p, s, to); }
    forall dp, ds | Clash(p, dp, s, ds)
      ensures OverlapFound(p, s, p.startAt, to) || EarlierRunsIn(p, s) || LaterMeets(p, s, to)
              || LastDateMissed(p, s, to)
    {
      ClashIsOneOfFour(p, po, s, so, to, dp, ds);
    }
  }

  lemma FoundIsClash(p: Shift, po: int, s: Shift, so: int, to: int)
    requires Ending(p, po, s, so, to) && OverlapFound(p, s, p.startAt, to)
    ensures exists dp, ds :: Clash(p, dp, s, ds)
  {
    hide On, Visible, OverlapFound, Checked, Clash;
    ShortWindowSeesExactly(p, po, s, so, p.startAt, to);
  }

  lemma EarlierIsClash(p: Shift, po: int, s: Shift, so: int, to: int)
    requires Ending(p, po, s, so, to) && EarlierRunsIn(p, s)
    ensures exists dp, ds :: Clash(p, dp, s, ds)
  {
    hide On, LocalDay, Returns, Duration;
    var dp, ds :| InRange(dp) && On(p, dp).Some? && InRange(ds) && On(s, ds).Some?
                  && (ds < LocalDay(p.startAt, s.zone) || On(s, ds).value.endAt < p.startAt)
                  && On(s, ds).value.endAt > On(p, dp).value.startAt;
    RunsPastStart(p, po, dp);
    OnShape(s, so, ds);
    if ds < LocalDay(p.startAt, s.zone) { EarlierDateStartsEarlier(s, so, p.startAt, to, ds); }
    assert On(s, ds).value.startAt < p.startAt by { DurationNonnegative(s); }
    assert Clash(p, dp, s, ds);
  }

  lemma DurationNonnegative(s: Shift)
    ensures Duration(s) >= 0
  {
  }

  /** Every occurrence of a series that lasts a second or more ends after the series begins. */
  lemma RunsPastStart(p: Shift, offset: int, day: int)
    requires Fixed(p.zone, offset) && Dated(p) && IsRecurring(p.recurrence) && 1000 <= Duration(p)
    requires InRange(day) && On(p, day).Some?
    ensures p.startAt < On(p, day).value.endAt
  {
    hide On, LocalDay, Duration, TimeOfDay, Key;
    OnShape(p, offset, day);
    OnIsInSeries(p, day);
    StartTruncates(p, offset);
  }

  lemma LaterIsClash(p: Shift, po: int, s: Shift, so: int, to: int)
    requires Ending(p, po, s, so, to) && LaterMeets(p, s, to)
    ensures exists dp, ds :: Clash(p, dp, s, ds)
  {
    hide On, LocalDay, Returns, Duration, Key;
    var dp, ds :| InRange(dp) && On(p, dp).Some? && InRange(ds) && On(s, ds).Some?
                  && On(p, dp).value.startAt <= to < On(s, ds).value.startAt < On(p, dp).value.endAt;
    OnShape(s, so, ds);
    DurationNonnegative(s);
    assert Clash(p, dp, s, ds);
  }

  lemma MissedIsClash(p: Shift, s: Shift, to: int)
    requires LastDateMissed(p, s, to)
    ensures exists dp, ds :: Clash(p, dp, s, ds)
  {
    hide On, LocalDay, ClashesOn;
    var e := LocalDay(to, p.zone);
    var ds :| ClashesOn(s, ds, On(p, e).value);
    assert Clash(p, e, s, ds);
  }

  /** Where a clash can be: the check sees it, or it lies before the window, after it, or on the last date. */
  lemma ClashIsOneOfFour(p: Shift, po: int, s: Shift, so: int, to: int, dp: int, ds: int)
    requires Ending(p, po, s, so, to) && Clash(p, dp, s, ds)
    ensures OverlapFound(p, s, p.startAt, to) || EarlierRunsIn(p, s) || LaterMeets(p, s, to)
            || LastDateMissed(p, s, to)
  {
    hide On, LocalDay, Returns, Duration, Listed, Key, Visible, OverlapFound;
    var a, b := On(p, dp).value, On(s, ds).value;
    if a.startAt > to {
      LateIsLastDate(p, po, to, dp);
      assert LastDateMissed(p, s, to);
    } else if ds < LocalDay(p.startAt, s.zone) || b.endAt < p.startAt {
      assert EarlierRunsIn(p, s);
    } else if b.startAt > to {
      assert LaterMeets(p, s, to);
    } else {
      SeenProposal(p, po, to, dp);
      SeenOther(s, so, p.startAt, to, ds);
      ShortWindowSeesExactly(p, po, s, so, p.startAt, to);
    }
  }

  lemma LateIsLastDate(p: Shift, offset: int, to: int, day: int)
    requires Fixed(p.zone, offset) && Dated(p) && IsRecurring(p.recurrence) && p.recurrenceEndAt == Some(to)
    requires InRange(day) && On(p, day).Some? && On(p, day).value.startAt > to
    ensures day == LocalDay(to, p.zone)
  {
    hide On, LocalDay, Key;
    OnIsInSeries(p, day);
    OnShape(p, offset, day);
    LocalDaysIncrease(p.zone, offset, to, On(p, day).value.startAt);
  }

  lemma SeenProposal(p: Shift, offset: int, to: int, day: int)
    requires Checked(p, offset, p.startAt, to) && IsRecurring(p.recurrence) && 1000 <= Duration(p)
    requires InRange(day) && On(p, day).Some? && On(p, day).value.startAt <= to
    ensures Visible(p, p.startAt, to, day)
  {
    hide On, LocalDay, Returns, Duration;
    RunsPastStart(p, offset, day);
    OnIsInSeries(p, day);
  }

  lemma SeenOther(s: Shift, offset: int, from: int, to: int, day: int)
    requires Checked(s, offset, from, to) && IsRecurring(s.recurrence)
    requires InRange(day) && On(s, day).Some? && Meets(On(s, day).value, from, to) && LocalDay(from, s.zone) <= day
    ensures Visible(s, from, to, day)
  {
    hide On, LocalDay, Returns;
    OnIsInSeries(s, day);
  }

  /** Which series pass although they clash, 1: a daily series that runs past midnight and ends on some date, at most
      five dates after it begins, against one that occurs on the weekday after that date only and starts before the
      last occurrence is over - from 22:00 to 06:00 against from 02:00 to 04:00, say. */
  lemma NightSeriesEscapes(p: Shift, s: Shift, offset: int, to: int, e: int)
    requires Ending(p, offset, s, offset, to) && p.recurrence == DAILY && LocalDay(to, p.zone) == e
    requires StartDay(p) <= e <= StartDay(p) + 5 && InRange(e + 1)
    requires MatchingWeekdays(s) == {(e + 1 + SUNDAY_SHIFT) % 7} && InSeries(s, e + 1)
    requires StartMs(p) + Duration(p) > MS_PER_DAY + StartMs(s)
    ensures !OverlapFound(p, s, p.startAt, to) && Clash(p, e, s, e + 1)
  {
    hide On, LocalDay, Returns, Duration, Listed, Key, Visible, OverlapFound, MatchingWeekdays, StartMs, Clash;
    DayAt(p.zone, offset, to, e);
    WithinDay(p);
    WithinDay(s);
    forall ds ensures !Visible(s, p.startAt, to, ds) {
      if Visible(s, p.startAt, to, ds) { NotBeforeThatWeekday(p, s, offset, to, e + 1, ds); }
    }
    ShortWindowSeesExactly(p, offset, s, offset, p.startAt, to);
    NightsMeet(p, s, offset, e, e + 1);
  }

  lemma NotBeforeThatWeekday(p: Shift, s: Shift, offset: int, to: int, day: int, ds: int)
    requires Fixed(s.zone, offset) && Fixed(p.zone, offset) && Dated(s) && IsRecurring(s.recurrence)
    requires MatchingWeekdays(s) == {(day + SUNDAY_SHIFT) % 7} && day - 7 < StartDay(p)
    requires Visible(s, p.startAt, to, ds)
    ensures day <= ds && to >= Midnight(offset, day) + StartMs(s)
  {
    hide On, LocalDay, Duration, Key, MatchingWeekdays, StartMs, InSeries;
    SameDay(p.zone, s.zone, offset, p.startAt);
    FixedOn(s, offset, ds);
    OccurrenceTimes(s, offset, ds);
    assert (ds + SUNDAY_SHIFT) % 7 == (day + SUNDAY_SHIFT) % 7;
    assert (ds - day) % 7 == 0;
  }

  lemma WithinDay(s: Shift)
    ensures 0 <= StartMs(s) < MS_PER_DAY
  {
  }

  lemma SameDay(y: Zone, z: Zone, offset: int, t: int)
    requires Fixed(y, offset) && Fixed(z, offset)
    ensures LocalDay(t, y) == LocalDay(t, z)
  {
    assert y(t) == z(t);
  }

  lemma NightsMeet(p: Shift, s: Shift, offset: int, dp: int, ds: int)
    requires Fixed(p.zone, offset) && Fixed(s.zone, offset) && Dated(p) && Dated(s)
    requires p.recurrence == DAILY && IsRecurring(s.recurrence) && InRange(dp) && InRange(ds) && dp <= ds
    requires InSeries(p, dp) && InSeries(s, ds) && (ds + SUNDAY_SHIFT) % 7 in MatchingWeekdays(s)
    requires Midnight(offset, dp) + StartMs(p) <= Midnight(offset, ds) + StartMs(s)
    requires Midnight(offset, ds) + StartMs(s) < Midnight(offset, dp) + StartMs(p) + Duration(p)
    requires dp == ds ==> Duration(s) > 0
    ensures Clash(p, dp, s, ds)
  {
    hide On, LocalDay, Duration, Key, MatchingWeekdays, StartMs, InSeries;
    EveryWeekday(p, dp);
    FixedOn(p, offset, dp);
    FixedOn(s, offset, ds);
    OccurrenceTimes(p, offset, dp);
    OccurrenceTimes(s, offset, ds);
    DurationNonnegative(s);
  }

  /** Which series pass although they clash, 2: a daily series whose last instant comes before its start on the last
      date, at most six dates after it begins, against one on that weekday only at the same time of day. */
  lemma LastDateEscapes(p: Shift, s: Shift, offset: int, to: int, e: int)
    requires Ending(p, offset, s, offset, to) && p.recurrence == DAILY && LocalDay(to, p.zone) == e
    requires StartDay(p) <= e <= StartDay(p) + 6 && to < Midnight(offset, e) + StartMs(p)
    requires MatchingWeekdays(s) == {(e + SUNDAY_SHIFT) % 7} && InSeries(s, e)
    requires StartMs(s) == StartMs(p) && Duration(s) > 0
    ensures !OverlapFound(p, s, p.startAt, to) && Clash(p, e, s, e)
  {
    hide On, LocalDay, Returns, Duration, Listed, Key, Visible, OverlapFound, MatchingWeekdays, StartMs, Clash;
    forall ds ensures !Visible(s, p.startAt, to, ds) {
      if Visible(s, p.startAt, to, ds) { NotBeforeThatWeekday(p, s, offset, to, e, ds); }
    }
    ShortWindowSeesExactly(p, offset, s, offset, p.startAt, to);
    NightsMeet(p, s, offset, e, e);
  }
}
