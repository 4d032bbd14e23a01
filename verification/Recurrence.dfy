/** Occurrences of one-off and recurring shifts, and the finite checks made over them. */
module Recurrence {
  import opened JsText
  import opened Calendar
  import opened TimeZone

  datatype RecurrenceType = NONE | DAILY | WEEKLY | CUSTOM_WEEKDAYS

  datatype Shift = Shift(
    recurrence: RecurrenceType,
    startAt: int,
    endAt: int,
    recurrenceEndAt: Option<int>,
    daysOfWeek: seq<int>,
    zone: Zone)

  datatype Occurrence = Occurrence(dateKey: string, startAt: int, endAt: int)

  predicate IsRecurring(t: RecurrenceType) {
    t == DAILY || t == WEEKLY || t == CUSTOM_WEEKDAYS
  }

  function NormaliseDays(days: seq<int>): set<int> {
    set d <- days | 0 <= d <= 6
  }

  function MatchingWeekdays(s: Shift): set<int> {
    var explicit := NormaliseDays(s.daysOfWeek);
    if s.recurrence == DAILY then {0, 1, 2, 3, 4, 5, 6}
    else if explicit != {} then explicit
    else if s.recurrence == WEEKLY then {ZonedParts(s.startAt, s.zone).weekday}
    else {}
  }

  function Duration(s: Shift): int {
    if s.endAt > s.startAt then s.endAt - s.startAt else 0
  }

  function OccurrenceOnDate(s: Shift, dateKey: string): Option<Occurrence> {
    var parsed := ParseDateKey(dateKey);
    var startKey := ZonedDateKey(s.startAt, s.zone);
    if parsed.None? || Less(dateKey, startKey) then None
    else if s.recurrenceEndAt.Some? && Less(ZonedDateKey(s.recurrenceEndAt.value, s.zone), dateKey) then None
    else if !IsRecurring(s.recurrence) then
      if dateKey == startKey then Some(Occurrence(dateKey, s.startAt, s.endAt)) else None
    else
      var p := parsed.value;
      var probe := ZonedInstant(s.zone, p.year, p.month, p.day, 12, 0, 0);
      if ZonedParts(probe, s.zone).weekday !in MatchingWeekdays(s) then None
      else
        var start := ZonedParts(s.startAt, s.zone);
        var startAt := ZonedInstant(s.zone, p.year, p.month, p.day, start.hour, start.minute, start.second);
        Some(Occurrence(dateKey, startAt, startAt + Duration(s)))
  }

  // ---- Dates as day numbers ---------------------------------------------------------------------------

  function StartDay(s: Shift): int {
    LocalDay(s.startAt, s.zone)
  }

  /** The dates the schedule itself names lie in years 1000 to 9999. */
  predicate Dated(s: Shift) {
    InRange(StartDay(s)) && (s.recurrenceEndAt.Some? ==> InRange(LocalDay(s.recurrenceEndAt.value, s.zone)))
  }

  /** The occurrence on a day, if there is one. */
  function On(s: Shift, day: int): Option<Occurrence> {
    OccurrenceOnDate(s, Key(day))
  }

  predicate InSeries(s: Shift, day: int) {
    StartDay(s) <= day && (s.recurrenceEndAt.Some? ==> day <= LocalDay(s.recurrenceEndAt.value, s.zone))
  }

  lemma OnKeepsKey(s: Shift, day: int)
    ensures On(s, day).Some? ==> On(s, day).value.dateKey == Key(day)
  {
    hide ParseDateKey, ZonedInstant, ZonedParts, MatchingWeekdays, Less, Key, ZonedDateKey;
  }

  /** Comparing key strings puts an occurrence inside the series' own dates. */
  lemma OnIsInSeries(s: Shift, day: int)
    requires Dated(s) && InRange(day) && On(s, day).Some?
    ensures InSeries(s, day)
  {
    hide ParseDateKey, ZonedInstant, ZonedParts, MatchingWeekdays, Less, Key, ZonedDateKey;
    KeyOfLocalDay(s.startAt, s.zone);
    KeyOrder(day, StartDay(s));
    if s.recurrenceEndAt.Some? {
      KeyOfLocalDay(s.recurrenceEndAt.value, s.zone);
      KeyOrder(LocalDay(s.recurrenceEndAt.value, s.zone), day);
    }
  }

  // ---- Expansion ------------------------------------------------------------------------------------------

  /** The occurrence ends no earlier than `from` and starts no later than `to`. */
  predicate Meets(o: Occurrence, from: int, to: int) {
    o.endAt >= from && o.startAt <= to
  }

  /** The first `limit` occurrences on days day..last that meet [from, to]. */
  function Collect(s: Shift, from: int, to: int, day: int, last: int, limit: nat): seq<Occurrence>
    decreases last - day
  {
    if day > last || limit == 0 then []
    else
      var o := On(s, day);
      if o.Some? && Meets(o.value, from, to)
      then [o.value] + Collect(s, from, to, day + 1, last, limit - 1)
      else Collect(s, from, to, day + 1, last, limit)
  }

  function FirstDay(s: Shift, from: int): int {
    var f := LocalDay(from, s.zone);
    if f < StartDay(s) then StartDay(s) else f
  }

  function LastDay(s: Shift, to: int): int {
    var t := LocalDay(to, s.zone);
    if s.recurrenceEndAt.Some? && LocalDay(s.recurrenceEndAt.value, s.zone) < t
    then LocalDay(s.recurrenceEndAt.value, s.zone) else t
  }

  predicate Window(s: Shift, from: int, to: int) {
    Dated(s) && InRange(LocalDay(from, s.zone)) && InRange(LocalDay(to, s.zone))
  }

  // The loop itself, on any strings.

  datatype Loop = Loop(cursor: string, results: seq<Occurrence>)

  function StartCursor(s: Shift, from: int): string {
    var fromKey, startKey := ZonedDateKey(from, s.zone), ZonedDateKey(s.startAt, s.zone);
    if Less(fromKey, startKey) then startKey else fromKey
  }

  function LastKey(s: Shift, to: int): string {
    var toKey := ZonedDateKey(to, s.zone);
    var seriesEndKey := if s.recurrenceEndAt.Some? then ZonedDateKey(s.recurrenceEndAt.value, s.zone) else toKey;
    if Less(seriesEndKey, toKey) then seriesEndKey else toKey
  }

  predicate Running(l: Loop, last: string, limit: nat) {
    !Less(last, l.cursor) && |l.results| < limit
  }

  function Round(s: Shift, from: int, to: int, l: Loop): Loop {
    var o := OccurrenceOnDate(s, l.cursor);
    Loop(AddCalendarDays(l.cursor, 1),
         if o.Some? && o.value.endAt >= from && o.value.startAt <= to then l.results + [o.value] else l.results)
  }

  /** The loop's state after n rounds, or where it stopped before. */
  function Rounds(s: Shift, from: int, to: int, last: string, limit: nat, l: Loop, n: nat): Loop
    decreases n
  {
    if n == 0 || !Running(l, last, limit) then l else Rounds(s, from, to, last, limit, Round(s, from, to, l), n - 1)
  }

  function LoopAfter(s: Shift, from: int, to: int, limit: nat, n: nat): Loop {
    Rounds(s, from, to, LastKey(s, to), limit, Loop(StartCursor(s, from), []), n)
  }

  predicate StopsWithin(s: Shift, from: int, to: int, limit: nat, n: nat) {
    !Running(LoopAfter(s, from, to, limit, n), LastKey(s, to), limit)
  }

  ghost predicate LoopEnds(s: Shift, from: int, to: int, limit: nat) {
    exists n: nat :: StopsWithin(s, from, to, limit, n)
  }

  /** The call returns. */
  ghost predicate Returns(s: Shift, from: int, to: int, limit: nat) {
    IsRecurring(s.recurrence) ==> LoopEnds(s, from, to, limit)
  }

  /** What expandOccurrences returns, when it does. */
  ghost function Listed(s: Shift, from: int, to: int, limit: nat): seq<Occurrence> {
    if IsRecurring(s.recurrence) then
      if LoopEnds(s, from, to, limit) then
        var n: nat :| StopsWithin(s, from, to, limit, n);
        LoopAfter(s, from, to, limit, n).results
      else []
    else
      var o := OccurrenceOnDate(s, ZonedDateKey(s.startAt, s.zone));
      if o.Some? && o.value.endAt >= from && o.value.startAt <= to then [o.value] else []
  }

  lemma {:induction false} StoppedStays(s: Shift, from: int, to: int, last: string, limit: nat, l: Loop, n: nat, m: nat)
    requires n <= m && !Running(Rounds(s, from, to, last, limit, l, n), last, limit)
    ensures Rounds(s, from, to, last, limit, l, m) == Rounds(s, from, to, last, limit, l, n)
    decreases n
  {
    hide Round, Running;
    if n > 0 && Running(l, last, limit) {
      StoppedStays(s, from, to, last, limit, Round(s, from, to, l), n - 1, m - 1);
    }
  }

  /** However many rounds the loop is followed past its end, the list is the same. */
  lemma ListedIs(s: Shift, from: int, to: int, limit: nat, n: nat)
    requires IsRecurring(s.recurrence) && StopsWithin(s, from, to, limit, n)
    ensures Listed(s, from, to, limit) == LoopAfter(s, from, to, limit, n).results
  {
    hide Rounds, StartCursor, LastKey, Running;
    forall m: nat | StopsWithin(s, from, to, limit, m)
      ensures LoopAfter(s, from, to, limit, m) == LoopAfter(s, from, to, limit, n)
    {
      var last, l := LastKey(s, to), Loop(StartCursor(s, from), []);
      if n <= m {
        StoppedStays(s, from, to, last, limit, l, n, m);
      } else {
        StoppedStays(s, from, to, last, limit, l, m, n);
      }
    }
  }

  lemma RoundsStep(s: Shift, from: int, to: int, last: string, limit: nat, l: Loop, n: nat)
    ensures !Running(l, last, limit) ==> Rounds(s, from, to, last, limit, l, n) == l
    ensures Running(l, last, limit) && n > 0 ==>
              Rounds(s, from, to, last, limit, l, n) == Rounds(s, from, to, last, limit, Round(s, from, to, l), n - 1)
    ensures n == 0 ==> Rounds(s, from, to, last, limit, l, n) == l
  {
    hide Running, Round;
  }

  method ExpandOccurrences(s: Shift, from: int, to: int, limit: nat) returns (results: seq<Occurrence>)
    requires Returns(s, from, to, limit)
    ensures results == Listed(s, from, to, limit)
  {
    hide OccurrenceOnDate, ZonedDateKey, AddCalendarDays, Less, Rounds;
    var fromKey, toKey := ZonedDateKey(from, s.zone), ZonedDateKey(to, s.zone);
    var startKey := ZonedDateKey(s.startAt, s.zone);
    var seriesEndKey := if s.recurrenceEndAt.Some? then ZonedDateKey(s.recurrenceEndAt.value, s.zone) else toKey;
    if !IsRecurring(s.recurrence) {
      var oneOff := OccurrenceOnDate(s, startKey);
      if oneOff.Some? && oneOff.value.endAt >= from && oneOff.value.startAt <= to {
        return [oneOff.value];
      }
      return [];
    }
    ghost var n: nat :| StopsWithin(s, from, to, limit, n);
    ListedIs(s, from, to, limit, n);
    hide Listed, LoopEnds;
    var cursor := if Less(fromKey, startKey) then startKey else fromKey;
    var last := if Less(seriesEndKey, toKey) then seriesEndKey else toKey;
    results := [];
    ghost var left := n;
    while !Less(last, cursor) && |results| < limit
      invariant Rounds(s, from, to, last, limit, Loop(cursor, results), left) == LoopAfter(s, from, to, limit, n)
      decreases left
    {
      RoundsStep(s, from, to, last, limit, Loop(cursor, results), left);
      var occurrence := OccurrenceOnDate(s, cursor);
      if occurrence.Some? && occurrence.value.endAt >= from && occurrence.value.startAt <= to {
        results := results + [occurrence.value];
      }
      cursor := AddCalendarDays(cursor, 1);
      left := left - 1;
    }
    RoundsStep(s, from, to, last, limit, Loop(cursor, results), left);
  }

  // The list by day numbers.

  lemma BoundsAreKeys(s: Shift, from: int, to: int)
    requires Window(s, from, to)
    ensures StartCursor(s, from) == Key(FirstDay(s, from)) && LastKey(s, to) == Key(LastDay(s, to))
    ensures InRange(FirstDay(s, from)) && InRange(LastDay(s, to))
  {
    hide Key, ZonedDateKey, Less, LocalDay;
    KeyOfLocalDay(from, s.zone);
    KeyOfLocalDay(to, s.zone);
    KeyOfLocalDay(s.startAt, s.zone);
    KeyOrder(LocalDay(from, s.zone), StartDay(s));
    LessIrreflexive(ZonedDateKey(to, s.zone));
    if s.recurrenceEndAt.Some? {
      KeyOfLocalDay(s.recurrenceEndAt.value, s.zone);
      KeyOrder(LocalDay(s.recurrenceEndAt.value, s.zone), LocalDay(to, s.zone));
    }
  }

  ghost predicate OnSomeDay(s: Shift, first: int, last: int, o: Occurrence) {
    exists d :: first <= d <= last && On(s, d) == Some(o)
  }

  /** What expansion promises, without its loop: occurrences of dates in the range that meet the window, in
      strictly increasing date order, and no such date left out except behind a full list. */
  ghost predicate FirstMeeting(s: Shift, from: int, to: int, first: int, last: int, limit: nat, r: seq<Occurrence>) {
    && |r| <= limit
    && (forall i :: 0 <= i < |r| ==> Meets(r[i], from, to))
    && (forall i :: 0 <= i < |r| ==> OnSomeDay(s, first, last, r[i]))
    && (forall i, j :: 0 <= i < j < |r| ==> Less(r[i].dateKey, r[j].dateKey))
    && (forall d :: first <= d <= last && On(s, d).Some? && Meets(On(s, d).value, from, to) ==>
         On(s, d).value in r || (|r| == limit && forall o <- r :: Less(o.dateKey, Key(d))))
  }

  lemma {:induction false} CollectIsFirstMeeting(s: Shift, from: int, to: int, day: int, last: int, limit: nat)
    requires MIN_DAY <= day && last <= MAX_DAY
    ensures FirstMeeting(s, from, to, day, last, limit, Collect(s, from, to, day, last, limit))
    decreases last - day
  {
    hide OccurrenceOnDate, Key, Less, On;
    var r := Collect(s, from, to, day, last, limit);
    if day <= last && limit > 0 {
      var o := On(s, day);
      if o.Some? && Meets(o.value, from, to) {
        CollectIsFirstMeeting(s, from, to, day + 1, last, limit - 1);
        var rest := Collect(s, from, to, day + 1, last, limit - 1);
        assert r == [o.value] + rest;
        forall d | day < d <= last ensures Less(Key(day), Key(d)) { KeyOrder(day, d); }
        OnKeepsKey(s, day);
        forall j | 0 <= j < |rest| ensures Less(o.value.dateKey, rest[j].dateKey) {
          var d :| day + 1 <= d <= last && On(s, d) == Some(rest[j]);
          OnKeepsKey(s, d);
        }
      } else {
        CollectIsFirstMeeting(s, from, to, day + 1, last, limit);
      }
    }
  }

  // ---- When the loop of expandOccurrences ends ------------------------------------------------------------

  /** The text after 9999-12-31 sorts before it and does not parse, so from there the cursor never moves. */
  lemma AfterTheLastDate(s: Shift)
    ensures var stuck := AddCalendarDays(Key(MAX_DAY), 1);
            !Less(Key(MAX_DAY), stuck) && AddCalendarDays(stuck, 1) == stuck && OccurrenceOnDate(s, stuck).None?
  {
    AddIsDayAddition(MAX_DAY, 1);
    var stuck := AddCalendarDays(Key(MAX_DAY), 1);
    assert OccurrenceOnDate(s, stuck).None? && AddCalendarDays(stuck, 1) == stuck by { hide ZonedInstant, Less, Key; }
    StuckText();
  }

  lemma StuckText()
    ensures !Less(Key(MAX_DAY), AddCalendarDays(Key(MAX_DAY), 1))
  {
    hide CivilOf, ParseDateKey, DateUtc, Decimal, PadStart, Digits, Less, DayOf;
    ParseOfKey(MAX_DAY);
    UtcOfKey(MAX_DAY, 1);
    KeyIsDigits(MAX_DAY);
    DayOfDates();
    var ms := (MAX_DAY + 1) * MS_PER_DAY;
    assert ms / MS_PER_DAY == MAX_DAY + 1;
    YearTexts();
    var a, b := Key(MAX_DAY), UtcText(ms);
    assert a[0] == '9';
    var c := CivilOf(ms / MS_PER_DAY);
    var rest := "-" + PadStart(NumberText(c.month), 2) + "-" + PadStart(NumberText(c.day), 2);
    SignOrDigit(c.year);
    assert b == NumberText(c.year) + rest;
    assert b[0] == '1';
    FirstDecides(a, b);
  }

  lemma DayOfDates()
    ensures CivilOf(MAX_DAY) == Civil(9999, 12, 31) && CivilOf(MAX_DAY + 1) == Civil(10000, 1, 1)
  {
    hide CivilOf;
    var y, m := 9999, 11;
    assert DayFromYear(y) + MonthStart(IsLeap(y), m) + 30 == MAX_DAY;
    hide DayFromYear, MonthStart, IsLeap;
    assert DayOf(Civil(y, m + 1, 31)) == MAX_DAY;
    DayOfCivil(Civil(y, m + 1, 31));
    DaysAreConsecutive(MAX_DAY);
  }

  lemma YearTexts()
    ensures Digits(9999, 4)[0] == '9' && Decimal(10000)[0] == '1'
  {
    assert Digits(9, 1) == "9";
    assert Digits(99, 2) == "99";
    assert Digits(999, 3) == "999";
    assert Decimal(10) == "10";
    assert Decimal(100) == "100";
    assert Decimal(1000) == "1000";
  }

  lemma FirstDecides(a: string, b: string)
    requires a != "" && b != "" && b[0] < a[0]
    ensures !Less(a, b)
  {
  }

  lemma {:induction false} StuckForever(s: Shift, from: int, to: int, limit: nat, l: Loop, n: nat)
    requires l.cursor == AddCalendarDays(Key(MAX_DAY), 1) && |l.results| < limit
    ensures Running(Rounds(s, from, to, Key(MAX_DAY), limit, l, n), Key(MAX_DAY), limit)
    decreases n
  {
    hide AddCalendarDays, OccurrenceOnDate, Less, Key;
    AfterTheLastDate(s);
    if n > 0 { StuckForever(s, from, to, limit, Round(s, from, to, l), n - 1); }
  }

  /** What one day adds to a collected list. */
  function Head(s: Shift, from: int, to: int, day: int): seq<Occurrence> {
    var o := On(s, day);
    if o.Some? && Meets(o.value, from, to) then [o.value] else []
  }

  lemma CollectHead(s: Shift, from: int, to: int, day: int, last: int, limit: nat)
    ensures day > last || limit == 0 ==> Collect(s, from, to, day, last, limit) == []
    ensures day <= last && limit > 0 ==>
              var head := Head(s, from, to, day);
              Collect(s, from, to, day, last, limit) == head + Collect(s, from, to, day + 1, last, limit - |head|)
  {
    hide On;
  }

  /** From a day in range the loop stops, with exactly the collected list, unless it runs past the last date. */
  lemma {:induction false} LoopFrom(s: Shift, from: int, to: int, limit: nat, day: int, last: int, l: Loop)
    returns (n: nat)
    requires MIN_DAY <= day <= MAX_DAY && MIN_DAY <= last <= MAX_DAY && l.cursor == Key(day) && |l.results| <= limit
    requires last < MAX_DAY || day > last
             || |l.results| + |Collect(s, from, to, day, last, limit - |l.results|)| == limit
    ensures var r := Rounds(s, from, to, Key(last), limit, l, n);
            && !Running(r, Key(last), limit)
            && r.results == l.results + Collect(s, from, to, day, last, limit - |l.results|)
    decreases last - day
  {
    hide AddCalendarDays, OccurrenceOnDate, Less, Key, Collect, Rounds;
    KeyOrder(last, day);
    CollectHead(s, from, to, day, last, limit - |l.results|);
    if Running(l, Key(last), limit) {
      AddIsDayAddition(day, 1);
      var next := Round(s, from, to, l);
      assert next.results == l.results + Head(s, from, to, day);
      CollectHead(s, from, to, day + 1, last, limit - |next.results|);
      if day == MAX_DAY {
        n := 1;
        RoundsStep(s, from, to, Key(last), limit, next, 0);
      } else {
        n := LoopFrom(s, from, to, limit, day + 1, last, next);
        n := n + 1;
      }
      RoundsStep(s, from, to, Key(last), limit, l, n);
    } else {
      n := 0;
      RoundsStep(s, from, to, Key(last), limit, l, 0);
    }
  }

  lemma {:induction false} LoopRunsOn(s: Shift, from: int, to: int, limit: nat, day: int, l: Loop, n: nat)
    requires InRange(day) && l.cursor == Key(day)
    requires |l.results| < limit && |l.results| + |Collect(s, from, to, day, MAX_DAY, limit - |l.results|)| < limit
    ensures Running(Rounds(s, from, to, Key(MAX_DAY), limit, l, n), Key(MAX_DAY), limit)
    decreases n
  {
    hide AddCalendarDays, OccurrenceOnDate, Less, Key;
    KeyOrder(MAX_DAY, day);
    if n > 0 {
      var next := Round(s, from, to, l);
      if day == MAX_DAY {
        StuckForever(s, from, to, limit, next, n - 1);
      } else {
        AddIsDayAddition(day, 1);
        LoopRunsOn(s, from, to, limit, day + 1, next, n - 1);
      }
    }
  }

  /** The days of a range whose occurrence exists and meets [from, to]. */
  function MeetingDays(s: Shift, from: int, to: int, first: int, last: int): set<int> {
    set d | first <= d <= last && On(s, d).Some? && Meets(On(s, d).value, from, to)
  }

  lemma {:induction false} CollectCounts(s: Shift, from: int, to: int, day: int, last: int, limit: nat)
    ensures var n := |MeetingDays(s, from, to, day, last)|;
            |Collect(s, from, to, day, last, limit)| == if n < limit then n else limit
    decreases last - day
  {
    hide Collect, On;
    CollectHead(s, from, to, day, last, limit);
    MeetingDaysStep(s, from, to, day, last);
    hide MeetingDays;
    if day <= last {
      CollectCounts(s, from, to, day + 1, last, if limit == 0 then 0 else limit - |Head(s, from, to, day)|);
    }
  }

  lemma MeetingDaysStep(s: Shift, from: int, to: int, day: int, last: int)
    ensures day > last ==> MeetingDays(s, from, to, day, last) == {}
    ensures day <= last ==> |MeetingDays(s, from, to, day, last)|
                            == |Head(s, from, to, day)| + |MeetingDays(s, from, to, day + 1, last)|
  {
    hide On;
    if day <= last {
      var days, later := MeetingDays(s, from, to, day, last), MeetingDays(s, from, to, day + 1, last);
      if Head(s, from, to, day) == [] {
        assert days == later;
      } else {
        assert days == later + {day};
      }
    }
  }

  predicate EndsInTime(s: Shift, from: int, to: int, limit: nat) {
    LastDay(s, to) < MAX_DAY || LastDay(s, to) < FirstDay(s, from)
    || limit <= |MeetingDays(s, from, to, FirstDay(s, from), MAX_DAY)|
  }

  lemma EndsWhen(s: Shift, from: int, to: int, limit: nat)
    requires Window(s, from, to) && IsRecurring(s.recurrence) && EndsInTime(s, from, to, limit)
    ensures LoopEnds(s, from, to, limit)
    ensures Listed(s, from, to, limit) == Collect(s, from, to, FirstDay(s, from), LastDay(s, to), limit)
  {
    hide Rounds, Collect, FirstDay, LastDay, Key, Running, LocalDay, OccurrenceOnDate, Window, StartCursor, LastKey,
      MeetingDays, Listed, IsRecurring;
    BoundsAreKeys(s, from, to);
    var first, last := FirstDay(s, from), LastDay(s, to);
    CollectCounts(s, from, to, first, last, limit);
    var start := Loop(Key(first), []);
    var n := LoopFrom(s, from, to, limit, first, last, start);
    assert StopsWithin(s, from, to, limit, n);
    ListedIs(s, from, to, limit, n);
  }

  lemma RunsOnWhen(s: Shift, from: int, to: int, limit: nat)
    requires Window(s, from, to) && IsRecurring(s.recurrence) && !EndsInTime(s, from, to, limit)
    ensures !LoopEnds(s, from, to, limit)
  {
    hide Rounds, Collect, FirstDay, LastDay, Key, Running, LocalDay, OccurrenceOnDate, Window, StartCursor, LastKey,
      MeetingDays;
    BoundsAreKeys(s, from, to);
    var first := FirstDay(s, from);
    CollectCounts(s, from, to, first, MAX_DAY, limit);
    forall n: nat ensures !StopsWithin(s, from, to, limit, n) {
      LoopRunsOn(s, from, to, limit, first, Loop(Key(first), []), n);
    }
  }

  /** The string-compared loop ends exactly when the range stops before 9999-12-31, is empty, or has enough meeting days
      up to that date to fill the list. */
  lemma ExpandLoopEnds(s: Shift, from: int, to: int, limit: nat)
    requires Window(s, from, to) && IsRecurring(s.recurrence)
    ensures LoopEnds(s, from, to, limit)
       <==> LastDay(s, to) < MAX_DAY || LastDay(s, to) < FirstDay(s, from)
            || limit <= |MeetingDays(s, from, to, FirstDay(s, from), MAX_DAY)|
  {
    hide LoopEnds, FirstDay, LastDay, MeetingDays, Window, IsRecurring;
    if EndsInTime(s, from, to, limit) {
      EndsWhen(s, from, to, limit);
    } else {
      RunsOnWhen(s, from, to, limit);
    }
  }

  /** When it ends, the list is the one collected by day numbers. */
  lemma ListedIsCollected(s: Shift, from: int, to: int, limit: nat)
    requires Window(s, from, to) && IsRecurring(s.recurrence) && LoopEnds(s, from, to, limit)
    ensures Listed(s, from, to, limit) == Collect(s, from, to, FirstDay(s, from), LastDay(s, to), limit)
  {
    hide LoopEnds, FirstDay, LastDay, MeetingDays, Window, Listed, Collect, IsRecurring;
    ExpandLoopEnds(s, from, to, limit);
    EndsWhen(s, from, to, limit);
  }

  /** expandOccurrences of a recurring shift lists exactly the first `limit` dates from the date of `from` to the date
      of `to` whose occurrence exists and meets [from, to]. */
  lemma ExpandIsFirstMeeting(s: Shift, from: int, to: int, limit: nat)
    requires Window(s, from, to) && IsRecurring(s.recurrence) && LoopEnds(s, from, to, limit)
    ensures FirstMeeting(s, from, to, LocalDay(from, s.zone), LocalDay(to, s.zone), limit, Listed(s, from, to, limit))
  {
    hide LoopEnds, Listed, StartCursor, LastKey, FirstMeeting, On, LocalDay, FirstDay, LastDay, Collect;
    BoundsAreKeys(s, from, to);
    ListedIsCollected(s, from, to, limit);
    CollectIsFirstMeeting(s, from, to, FirstDay(s, from), LastDay(s, to), limit);
    forall d | LocalDay(from, s.zone) <= d <= LocalDay(to, s.zone) && On(s, d).Some?
      ensures FirstDay(s, from) <= d <= LastDay(s, to)
    {
      OccurrenceInBounds(s, from, to, d);
    }
    BoundsInside(s, from, to);
    WiderBounds(s, from, to, FirstDay(s, from), LastDay(s, to), LocalDay(from, s.zone), LocalDay(to, s.zone), limit,
                Listed(s, from, to, limit));
  }

  lemma BoundsInside(s: Shift, from: int, to: int)
    ensures LocalDay(from, s.zone) <= FirstDay(s, from) && LastDay(s, to) <= LocalDay(to, s.zone)
  {
    hide LocalDay;
  }

  lemma OccurrenceInBounds(s: Shift, from: int, to: int, day: int)
    requires Window(s, from, to) && LocalDay(from, s.zone) <= day <= LocalDay(to, s.zone) && On(s, day).Some?
    ensures FirstDay(s, from) <= day <= LastDay(s, to)
  {
    hide LocalDay, On;
    OnIsInSeries(s, day);
  }

  /** Dates outside the series do not matter. */
  lemma WiderBounds(s: Shift, from: int, to: int, first: int, last: int, lo: int, hi: int, limit: nat,
                    r: seq<Occurrence>)
    requires lo <= first && last <= hi && FirstMeeting(s, from, to, first, last, limit, r)
    requires forall d :: lo <= d <= hi && On(s, d).Some? ==> first <= d <= last
    ensures FirstMeeting(s, from, to, lo, hi, limit, r)
  {
    hide OccurrenceOnDate, Less, Key;
    forall i | 0 <= i < |r| ensures OnSomeDay(s, lo, hi, r[i]) {
      assert OnSomeDay(s, first, last, r[i]);
    }
    forall d | lo <= d <= hi && On(s, d).Some? && Meets(On(s, d).value, from, to)
      ensures On(s, d).value in r || (|r| == limit && forall o <- r :: Less(o.dateKey, Key(d)))
    {
      assert first <= d <= last;
    }
  }

  /** Asking for more dates than are left up to 9999-12-31 never returns: any recurring shift, any zone. */
  lemma TooFewDatesLeft(s: Shift, from: int, to: int, limit: nat)
    requires Window(s, from, to) && IsRecurring(s.recurrence)
    requires FirstDay(s, from) <= LastDay(s, to) == MAX_DAY && MAX_DAY - FirstDay(s, from) + 1 < limit
    ensures !LoopEnds(s, from, to, limit)
  {
    hide LoopEnds, FirstDay, LastDay, Window, On;
    ExpandLoopEnds(s, from, to, limit);
    MeetingDaysBound(s, from, to, FirstDay(s, from), MAX_DAY);
  }

  lemma {:induction false} MeetingDaysBound(s: Shift, from: int, to: int, first: int, last: int)
    requires first <= last
    ensures |MeetingDays(s, from, to, first, last)| <= last - first + 1
    decreases last - first
  {
    hide On;
    var later := MeetingDays(s, from, to, first + 1, last);
    assert MeetingDays(s, from, to, first, last) <= later + {first};
    SubsetIsSmaller(MeetingDays(s, from, to, first, last), later + {first});
    if first < last {
      MeetingDaysBound(s, from, to, first + 1, last);
    } else {
      assert later == {};
    }
  }

  lemma SubsetIsSmaller(a: set<int>, b: set<int>)
    requires a <= b
    ensures |a| <= |b|
  {
    assert b == a + (b - a);
  }

  /** So does any range up to that date for a custom series without a valid weekday. */
  lemma NoWeekdayNeverReturns(s: Shift, from: int, to: int, limit: nat)
    requires Window(s, from, to) && s.recurrence == CUSTOM_WEEKDAYS && NormaliseDays(s.daysOfWeek) == {}
    requires FirstDay(s, from) <= LastDay(s, to) == MAX_DAY && limit > 0
    ensures !LoopEnds(s, from, to, limit)
  {
    hide LoopEnds, FirstDay, LastDay, Window, NormaliseDays;
    ExpandLoopEnds(s, from, to, limit);
    forall d ensures On(s, d).None? { NeverOn(s, d); }
    assert MeetingDays(s, from, to, FirstDay(s, from), MAX_DAY) == {};
  }

  lemma NeverOn(s: Shift, day: int)
    requires s.recurrence == CUSTOM_WEEKDAYS && NormaliseDays(s.daysOfWeek) == {}
    ensures On(s, day).None?
  {
    hide ParseDateKey, ZonedInstant, ZonedParts, Less, Key, ZonedDateKey, NormaliseDays;
  }

  // ---- Any zone ----------------------------------------------------------------------------------------------

  lemma ReadingIsClock(ms: int, zone: Zone)
    ensures var p := ZonedParts(ms, zone); ValidClock(p.hour, p.minute, p.second)
  {
    hide CivilOf;
  }

  /** In any zone with one offset change near the wanted time: an occurrence starts on its date at the time of day that
      the series starts at, if and only if that wall time exists on the date. */
  lemma OccurrenceShowsSeriesTime(s: Shift, day: int, t: int, a: int, b: int)
    requires IsRecurring(s.recurrence) && InRange(day) && On(s, day).Some?
    requires var c, r := CivilOf(day), ZonedParts(s.startAt, s.zone);
             OneChange(s.zone, DateUtc(c.year, c.month - 1, c.day, r.hour, r.minute, r.second), t, a, b)
    ensures var c, r, o := CivilOf(day), ZonedParts(s.startAt, s.zone), On(s, day).value;
            var q := ZonedParts(o.startAt, s.zone);
            && (WallExists(s.zone, DateUtc(c.year, c.month - 1, c.day, r.hour, r.minute, r.second))
                <==> q == Parts(c.year, c.month, c.day, r.hour, r.minute, r.second, q.weekday))
            && o.endAt == o.startAt + Duration(s)
  {
    hide CivilOf, ZonedInstant, ZonedParts, DateUtc, WallExists, MatchingWeekdays, Less, Key, ParseDateKey, OneChange;
    ParseOfKey(day);
    CivilOfDay(day);
    RangeIsYears(day);
    ReadingIsClock(s.startAt, s.zone);
    var c, r := CivilOf(day), ZonedParts(s.startAt, s.zone);
    ZonedDateTimeRightInverse(s.zone, c, r.hour, r.minute, r.second, t, a, b);
  }

  // ---- Fixed-offset zones -------------------------------------------------------------------------------------

  function TimeOfDay(s: Shift): int {
    LocalSeconds(s.startAt, s.zone) % DAY_SECONDS
  }

  function FixedStart(s: Shift, offset: int, day: int): int {
    1000 * (day * DAY_SECONDS + TimeOfDay(s) - offset)
  }

  lemma FixedLocalDay(zone: Zone, offset: int, day: int, second: int)
    requires Fixed(zone, offset) && 0 <= second < DAY_SECONDS
    ensures LocalDay(1000 * (day * DAY_SECONDS + second - offset), zone) == day
  {
    var ms := 1000 * (day * DAY_SECONDS + second - offset);
    assert ms / 1000 == day * DAY_SECONDS + second - offset;
    assert zone(ms) == offset;
    SplitMillis(day, second);
  }

  lemma LocalDaysIncrease(zone: Zone, offset: int, a: int, b: int)
    requires Fixed(zone, offset) && a <= b
    ensures LocalDay(a, zone) <= LocalDay(b, zone)
    ensures LocalDay(a + MS_PER_DAY, zone) == LocalDay(a, zone) + 1
    ensures LocalDay(a - MS_PER_DAY, zone) == LocalDay(a, zone) - 1
  {
    assert zone(a) == zone(b) == zone(a + MS_PER_DAY) == zone(a - MS_PER_DAY) == offset;
    assert (a + MS_PER_DAY) / 1000 == a / 1000 + DAY_SECONDS && (a - MS_PER_DAY) / 1000 == a / 1000 - DAY_SECONDS;
    assert a / 1000 <= b / 1000;
  }

  lemma ZonedReading(s: Shift, offset: int, day: int, second: int)
    requires Fixed(s.zone, offset) && InRange(day) && 0 <= second < DAY_SECONDS
    ensures var c, p := CivilOf(day), PartsOf(second);
            var instant := ZonedInstant(s.zone, c.year, c.month, c.day, p.hour, p.minute, p.second);
            instant == 1000 * (day * DAY_SECONDS + second - offset)
  {
    hide CivilOf, ZonedInstant, DayOf;
    CivilOfDay(day);
    RangeIsYears(day);
    ClockOfSeconds(second);
    FixedInstant(s.zone, offset, CivilOf(day), second / 3600, second / 60 % 60, second % 60);
  }

  /** In a fixed-offset zone a recurring shift occurs on exactly the matching weekdays of its series, always at the
      series' own time of day. */
  lemma FixedOn(s: Shift, offset: int, day: int)
    requires Fixed(s.zone, offset) && Dated(s) && InRange(day) && IsRecurring(s.recurrence)
    ensures On(s, day) == if InSeries(s, day) && (day + SUNDAY_SHIFT) % 7 in MatchingWeekdays(s)
                          then Some(Occurrence(Key(day), FixedStart(s, offset, day),
                                               FixedStart(s, offset, day) + Duration(s)))
                          else None
  {
    hide ZonedInstant, CivilOf, Key, Less, ParseDateKey, MatchingWeekdays, LocalDay, ZonedDateKey;
    ParseOfKey(day);
    ZonedReading(s, offset, day, 43_200);
    ZonedReading(s, offset, day, TimeOfDay(s));
    NoonWeekday(s.zone, offset, day);
    StartClock(s);
    assert PartsOf(43_200).hour == 12 && PartsOf(43_200).minute == 0 && PartsOf(43_200).second == 0;
    SeriesByKeys(s, day);
  }

  lemma SeriesByKeys(s: Shift, day: int)
    requires Dated(s) && InRange(day)
    ensures InSeries(s, day)
       <==> !Less(Key(day), ZonedDateKey(s.startAt, s.zone))
            && !(s.recurrenceEndAt.Some? && Less(ZonedDateKey(s.recurrenceEndAt.value, s.zone), Key(day)))
    ensures Key(day) == ZonedDateKey(s.startAt, s.zone) <==> day == StartDay(s)
  {
    hide Key, Less, LocalDay, ZonedDateKey;
    KeyOfLocalDay(s.startAt, s.zone);
    KeyOrder(day, StartDay(s));
    if s.recurrenceEndAt.Some? {
      KeyOfLocalDay(s.recurrenceEndAt.value, s.zone);
      KeyOrder(LocalDay(s.recurrenceEndAt.value, s.zone), day);
    }
  }

  lemma NoonWeekday(zone: Zone, offset: int, day: int)
    requires Fixed(zone, offset)
    ensures ZonedParts(1000 * (day * DAY_SECONDS + 43_200 - offset), zone).weekday == (day + SUNDAY_SHIFT) % 7
  {
    hide CivilOf;
    FixedLocalDay(zone, offset, day, 43_200);
  }

  lemma StartClock(s: Shift)
    ensures var p, q := ZonedParts(s.startAt, s.zone), PartsOf(TimeOfDay(s));
            p.hour == q.hour && p.minute == q.minute && p.second == q.second
  {
    hide CivilOf;
    var t := TimeOfDay(s);
    assert t % DAY_SECONDS == t;
  }

  /** The weekdays a series occurs on, counted on the calendar: all of them when it is daily; those listed when some
      valid one, from 0 for Sunday to 6 for Saturday, is listed; else, when it is weekly, that of its first date, which
      comes round every seven days. */
  ghost predicate DueOn(s: Shift, weekday: Civil -> int, day: int) {
    if s.recurrence == DAILY then true
    else if exists w <- s.daysOfWeek :: 0 <= w <= 6 then weekday(CivilOf(day)) in s.daysOfWeek
    else s.recurrence == WEEKLY && (day - LocalDay(s.startAt, s.zone)) % 7 == 0
  }

  /** In a fixed-offset zone: a series occurs on a date if and only if the date lies between its first and its last one
      and has a weekday it is due on. It then starts whole days after its own start, on the second, and lasts as long.
      */
  lemma OccursExactly(s: Shift, offset: int, day: int, weekday: Civil -> int)
    requires Fixed(s.zone, offset) && Dated(s) && InRange(day) && s.recurrence != NONE && CountsWeekdays(weekday)
    ensures On(s, day).Some?
       <==> && LocalDay(s.startAt, s.zone) <= day
            && (s.recurrenceEndAt.Some? ==> day <= LocalDay(s.recurrenceEndAt.value, s.zone))
            && DueOn(s, weekday, day)
    ensures On(s, day).Some? ==>
              && On(s, day).value.dateKey == Key(day)
              && On(s, day).value.startAt
                 == s.startAt - s.startAt % 1000 + (day - LocalDay(s.startAt, s.zone)) * MS_PER_DAY
              && On(s, day).value.endAt - On(s, day).value.startAt
                 == if s.startAt < s.endAt then s.endAt - s.startAt else 0
  {
    hide On, Key, LocalDay, MatchingWeekdays, DueOn, CountsWeekdays, TimeOfDay;
    FixedOn(s, offset, day);
    DueExactly(s, day, weekday);
    OneOffStart(s, offset);
  }

  lemma DueExactly(s: Shift, day: int, weekday: Civil -> int)
    requires IsRecurring(s.recurrence) && CountsWeekdays(weekday)
    ensures (day + SUNDAY_SHIFT) % 7 in MatchingWeekdays(s) <==> DueOn(s, weekday, day)
  {
    hide CivilOf, CountsWeekdays, LocalDay;
    WeekdayOfDay(weekday, day);
    var w := (day + SUNDAY_SHIFT) % 7;
    assert NormaliseDays(s.daysOfWeek) != {} <==> exists d <- s.daysOfWeek :: 0 <= d <= 6 by {
      if NormaliseDays(s.daysOfWeek) != {} {
        var d :| d in NormaliseDays(s.daysOfWeek);
        assert d in s.daysOfWeek;
      }
      if d :| d in s.daysOfWeek && 0 <= d <= 6 { assert d in NormaliseDays(s.daysOfWeek); }
    }
    if s.recurrence == DAILY { EveryWeekday(s, day); }
    StartWeekday(s, weekday);
    SevenDaysApart(day, StartDay(s));
  }

  lemma StartWeekday(s: Shift, weekday: Civil -> int)
    requires CountsWeekdays(weekday)
    ensures ZonedParts(s.startAt, s.zone).weekday == (StartDay(s) + 4) % 7
  {
    hide CivilOf, CountsWeekdays;
    ZonedWeekday(s.startAt, s.zone, weekday);
    WeekdayOfDay(weekday, StartDay(s));
  }

  lemma SevenDaysApart(a: int, b: int)
    ensures (a + 4) % 7 == (b + 4) % 7 <==> (a - b) % 7 == 0
  {
  }

  /** A one-off shift occurs once, at its own times, on its own local date, unless that lies behind its end date. */
  lemma OneOffOn(s: Shift, day: int)
    requires Dated(s) && InRange(day) && s.recurrence == NONE
    ensures On(s, day) == if InSeries(s, day) && day == StartDay(s)
                          then Some(Occurrence(Key(day), s.startAt, s.endAt)) else None
    ensures On(s, day).Some?
       <==> day == LocalDay(s.startAt, s.zone)
            && (s.recurrenceEndAt.Some? ==> day <= LocalDay(s.recurrenceEndAt.value, s.zone))
  {
    hide ZonedInstant, Key, Less, ParseDateKey, MatchingWeekdays, LocalDay, ZonedDateKey;
    ParseOfKey(day);
    SeriesByKeys(s, day);
  }

  /** Occurrences start on their own local date and last at most the shift's duration. */
  lemma OnShape(s: Shift, offset: int, day: int)
    requires Fixed(s.zone, offset) && Dated(s) && InRange(day) && On(s, day).Some?
    ensures var o := On(s, day).value;
            LocalDay(o.startAt, s.zone) == day && o.dateKey == Key(day) && o.endAt - o.startAt <= Duration(s)
            && (IsRecurring(s.recurrence) ==>
                  o.startAt == FixedStart(s, offset, day) && o.endAt - o.startAt == Duration(s))
            && (!IsRecurring(s.recurrence) ==> day == StartDay(s))
  {
    hide On, Key, LocalDay, MatchingWeekdays, InSeries, Dated;
    if IsRecurring(s.recurrence) {
      FixedOn(s, offset, day);
      FixedLocalDay(s.zone, offset, day, TimeOfDay(s));
    } else {
      OneOffOn(s, day);
    }
  }

  lemma EveryWeekday(s: Shift, day: int)
    requires s.recurrence == DAILY
    ensures (day + SUNDAY_SHIFT) % 7 in MatchingWeekdays(s)
  {
    hide NormaliseDays, ZonedParts;
    var w := (day + SUNDAY_SHIFT) % 7;
    assert w == 0 || w == 1 || w == 2 || w == 3 || w == 4 || w == 5 || w == 6;
  }

  /** An endless daily shift occurs on every date from its first on. */
  lemma DailyOn(s: Shift, offset: int, day: int)
    requires Fixed(s.zone, offset) && Dated(s) && InRange(day) && s.recurrence == DAILY && s.recurrenceEndAt.None?
    ensures On(s, day).Some? <==> StartDay(s) <= day
    ensures On(s, day).Some? ==> On(s, day).value.startAt == FixedStart(s, offset, day)
                                 && On(s, day).value.endAt == FixedStart(s, offset, day) + Duration(s)
  {
    hide On, LocalDay, MatchingWeekdays, TimeOfDay, Key;
    FixedOn(s, offset, day);
    EveryWeekday(s, day);
  }

  // ---- The current occurrence -----------------------------------------------------------------------------------

  /** `now` lies in the occurrence, its early window or its grace period. */
  predicate InWindow(o: Occurrence, now: int, earlyMs: int, graceMs: int) {
    o.startAt - earlyMs <= now <= o.endAt + graceMs
  }

  function FirstInWindow(s: Shift, now: int, earlyMs: int, graceMs: int, keys: seq<string>): Option<Occurrence> {
    if keys == [] then None
    else
      var o := OccurrenceOnDate(s, keys[0]);
      if o.Some? && o.value.startAt - earlyMs <= now && now <= o.value.endAt + graceMs then o
      else FirstInWindow(s, now, earlyMs, graceMs, keys[1..])
  }

  function NearbyKeys(s: Shift, now: int): seq<string> {
    var today := ZonedDateKey(now, s.zone);
    [AddCalendarDays(today, -1), today, AddCalendarDays(today, 1)]
  }

  function Current(s: Shift, now: int, earlyMs: int, graceMs: int): Option<Occurrence> {
    FirstInWindow(s, now, earlyMs, graceMs, NearbyKeys(s, now))
  }

  method CurrentOccurrence(s: Shift, now: int, earlyMs: int, graceMs: int) returns (r: Option<Occurrence>)
    ensures r == Current(s, now, earlyMs, graceMs)
  {
    hide OccurrenceOnDate, AddCalendarDays, ZonedDateKey;
    var todayKey := ZonedDateKey(now, s.zone);
    var keys := [AddCalendarDays(todayKey, -1), todayKey, AddCalendarDays(todayKey, 1)];
    for i := 0 to |keys|
      invariant FirstInWindow(s, now, earlyMs, graceMs, keys) == FirstInWindow(s, now, earlyMs, graceMs, keys[i..])
    {
      var occurrence := OccurrenceOnDate(s, keys[i]);
      if occurrence.Some? {
        if occurrence.value.startAt - earlyMs <= now && now <= occurrence.value.endAt + graceMs {
          return occurrence;
        }
      }
    }
    return None;
  }

  lemma FirstOfThree(s: Shift, now: int, earlyMs: int, graceMs: int, x: string, y: string, z: string)
    ensures var a, b, c := OccurrenceOnDate(s, x), OccurrenceOnDate(s, y), OccurrenceOnDate(s, z);
            var first := if a.Some? && InWindow(a.value, now, earlyMs, graceMs) then a
                         else if b.Some? && InWindow(b.value, now, earlyMs, graceMs) then b
                         else if c.Some? && InWindow(c.value, now, earlyMs, graceMs) then c
                         else None;
            FirstInWindow(s, now, earlyMs, graceMs, [x, y, z]) == first
  {
    hide OccurrenceOnDate;
    assert [x, y, z][1..] == [y, z] && [y, z][1..] == [z] && [z][1..] == [];
    assert FirstInWindow(s, now, earlyMs, graceMs, []) == None;
    var c := OccurrenceOnDate(s, z);
    assert FirstInWindow(s, now, earlyMs, graceMs, [z])
        == if c.Some? && InWindow(c.value, now, earlyMs, graceMs) then c else None;
    assert FirstInWindow(s, now, earlyMs, graceMs, [y, z])
        == if OccurrenceOnDate(s, y).Some? && InWindow(OccurrenceOnDate(s, y).value, now, earlyMs, graceMs)
           then OccurrenceOnDate(s, y) else FirstInWindow(s, now, earlyMs, graceMs, [z]);
  }

  /** The probed keys are those of yesterday, today and tomorrow. */
  lemma NearbyKeysAreDays(s: Shift, now: int)
    requires var today := LocalDay(now, s.zone); InRange(today - 1) && InRange(today) && InRange(today + 1)
    ensures var today := LocalDay(now, s.zone);
            NearbyKeys(s, now) == [Key(today - 1), Key(today), Key(today + 1)]
  {
    hide AddCalendarDays, ZonedDateKey, Key, LocalDay;
    var today := LocalDay(now, s.zone);
    KeyOfLocalDay(now, s.zone);
    AddIsDayAddition(today, -1);
    AddIsDayAddition(today, 1);
  }

  lemma CurrentByDays(s: Shift, now: int, earlyMs: int, graceMs: int)
    requires var today := LocalDay(now, s.zone); InRange(today - 1) && InRange(today) && InRange(today + 1)
    ensures var today := LocalDay(now, s.zone);
            var y, t, m := On(s, today - 1), On(s, today), On(s, today + 1);
            var first := if y.Some? && InWindow(y.value, now, earlyMs, graceMs) then y
                         else if t.Some? && InWindow(t.value, now, earlyMs, graceMs) then t
                         else if m.Some? && InWindow(m.value, now, earlyMs, graceMs) then m
                         else None;
            Current(s, now, earlyMs, graceMs) == first
  {
    hide OccurrenceOnDate, NearbyKeys, FirstInWindow, Key, LocalDay, InWindow;
    var today := LocalDay(now, s.zone);
    NearbyKeysAreDays(s, now);
    FirstOfThree(s, now, earlyMs, graceMs, Key(today - 1), Key(today), Key(today + 1));
  }

  // ---- What the three-day probe sees ---------------------------------------------------------------------------

  function Midnight(offset: int, day: int): int {
    1000 * (day * DAY_SECONDS - offset)
  }

  lemma DayAt(zone: Zone, offset: int, t: int, day: int)
    requires Fixed(zone, offset)
    ensures LocalDay(t, zone) == day <==> Midnight(offset, day) <= t < Midnight(offset, day + 1)
  {
    assert zone(t) == offset;
    var l := LocalSeconds(t, zone);
    assert t == 1000 * (l - offset) + t % 1000;
    assert l == DAY_SECONDS * (l / DAY_SECONDS) + l % DAY_SECONDS;
    assert l / DAY_SECONDS == day <==> day * DAY_SECONDS <= l < (day + 1) * DAY_SECONDS;
  }

  /** How far into its date an occurrence starts. A recurring one drops the milliseconds. */
  function StartMs(s: Shift): int {
    1000 * TimeOfDay(s) + if IsRecurring(s.recurrence) then 0 else s.startAt % 1000
  }

  function Length(s: Shift): int {
    if IsRecurring(s.recurrence) then Duration(s) else s.endAt - s.startAt
  }

  lemma OccurrenceTimes(s: Shift, offset: int, day: int)
    requires Fixed(s.zone, offset) && Dated(s) && InRange(day) && On(s, day).Some?
    ensures 0 <= StartMs(s) < MS_PER_DAY
    ensures var o := On(s, day).value;
            o.startAt == Midnight(offset, day) + StartMs(s) && o.endAt == o.startAt + Length(s)
  {
    hide On, Key, LocalDay, MatchingWeekdays, InSeries, Dated;
    if IsRecurring(s.recurrence) {
      FixedOn(s, offset, day);
    } else {
      OneOffOn(s, day);
      OneOffStart(s, offset);
    }
  }

  lemma OneOffStart(s: Shift, offset: int)
    requires Fixed(s.zone, offset)
    ensures s.startAt == Midnight(offset, StartDay(s)) + 1000 * TimeOfDay(s) + s.startAt % 1000
  {
    assert s.zone(s.startAt) == offset;
    var l := LocalSeconds(s.startAt, s.zone);
    assert l == DAY_SECONDS * (l / DAY_SECONDS) + l % DAY_SECONDS;
  }

  /** While some date has an occurrence with `now` in its window, the probe finds one that starts no later if and only
      if that date is no earlier than yesterday. */
  lemma CurrentMissesExactly(s: Shift, offset: int, now: int, earlyMs: int, graceMs: int, day: int)
    requires Fixed(s.zone, offset) && Dated(s) && earlyMs <= MS_PER_DAY
    requires var today := LocalDay(now, s.zone); InRange(today - 1) && InRange(today) && InRange(today + 1)
    requires InRange(day) && On(s, day).Some? && InWindow(On(s, day).value, now, earlyMs, graceMs)
    ensures var r := Current(s, now, earlyMs, graceMs);
            && (r.Some? && r.value.startAt <= On(s, day).value.startAt <==> LocalDay(now, s.zone) - 1 <= day)
            && (r.Some? ==> InWindow(r.value, now, earlyMs, graceMs) && exists d :: InRange(d) && On(s, d) == r)
  {
    hide On, OccurrenceOnDate, Key, LocalDay, Dated, Current, StartMs, Length;
    var today := LocalDay(now, s.zone);
    DayAt(s.zone, offset, now, today);
    OccurrenceTimes(s, offset, day);
    assert day <= today + 1;
    CurrentByDays(s, now, earlyMs, graceMs);
    if On(s, today - 1).Some? { OccurrenceTimes(s, offset, today - 1); }
    if On(s, today).Some? { OccurrenceTimes(s, offset, today); }
    if On(s, today + 1).Some? { OccurrenceTimes(s, offset, today + 1); }
  }

  /** The three-day probe misses nothing while windows close before the second midnight after their date begins: if any
      date has an occurrence whose window contains `now`, the probe finds one, and it is the earliest such. */
  lemma CurrentMissesNothing(s: Shift, offset: int, now: int, earlyMs: int, graceMs: int, day: int)
    requires Fixed(s.zone, offset) && Dated(s) && earlyMs <= MS_PER_DAY
    requires StartMs(s) + Length(s) + graceMs < 2 * MS_PER_DAY
    requires var today := LocalDay(now, s.zone); InRange(today - 1) && InRange(today) && InRange(today + 1)
    requires InRange(day) && On(s, day).Some? && InWindow(On(s, day).value, now, earlyMs, graceMs)
    ensures var r := Current(s, now, earlyMs, graceMs);
            && r.Some? && InWindow(r.value, now, earlyMs, graceMs) && r.value.startAt <= On(s, day).value.startAt
            && (exists d :: InRange(d) && On(s, d) == r)
  {
    hide On, OccurrenceOnDate, Key, LocalDay, Dated, Current, StartMs, Length;
    DayAt(s.zone, offset, now, LocalDay(now, s.zone));
    OccurrenceTimes(s, offset, day);
    CurrentMissesExactly(s, offset, now, earlyMs, graceMs, day);
  }

  /** And only then: an occurrence whose window is still open at that midnight is missed there. */
  lemma ProbeSufficesExactly(s: Shift, offset: int, earlyMs: int, graceMs: int, day: int)
    requires Fixed(s.zone, offset) && Dated(s) && 0 <= earlyMs <= MS_PER_DAY
    requires InRange(day - 2) && InRange(day + 3) && On(s, day).Some?
    ensures (forall now :: InWindow(On(s, day).value, now, earlyMs, graceMs) ==>
               var r := Current(s, now, earlyMs, graceMs); r.Some? && r.value.startAt <= On(s, day).value.startAt)
       <==> StartMs(s) + Length(s) + graceMs < 2 * MS_PER_DAY
  {
    hide On, OccurrenceOnDate, Key, LocalDay, Dated, Current, StartMs, Length;
    OccurrenceTimes(s, offset, day);
    if StartMs(s) + Length(s) + graceMs < 2 * MS_PER_DAY {
      forall now | InWindow(On(s, day).value, now, earlyMs, graceMs)
        ensures var r := Current(s, now, earlyMs, graceMs); r.Some? && r.value.startAt <= On(s, day).value.startAt
      {
        DayAt(s.zone, offset, now, LocalDay(now, s.zone));
        CurrentMissesNothing(s, offset, now, earlyMs, graceMs, day);
      }
    } else {
      var now := Midnight(offset, day + 2);
      DayAt(s.zone, offset, now, day + 2);
      assert InWindow(On(s, day).value, now, earlyMs, graceMs);
      CurrentMissesExactly(s, offset, now, earlyMs, graceMs, day);
    }
  }

  // ---- Clock-in --------------------------------------------------------------------------------------------------

  function TodayOccurrence(s: Shift, now: int): Option<Occurrence> {
    OccurrenceOnDate(s, ZonedDateKey(now, s.zone))
  }

  function OccurrenceFromClientDate(s: Shift, now: int, dateKey: Option<string>): Option<Occurrence> {
    if dateKey.None? || dateKey.value == "" || dateKey.value !in NearbyKeys(s, now) then None
    else OccurrenceOnDate(s, dateKey.value)
  }

  function OrElse(a: Option<Occurrence>, b: Option<Occurrence>): Option<Occurrence> {
    if a.Some? then a else b
  }

  function ResolveOnce(s: Shift, now: int, earlyMs: int, graceMs: int, clientDate: Option<string>): Option<Occurrence> {
    OrElse(OccurrenceFromClientDate(s, now, clientDate),
           OrElse(Current(s, now, earlyMs, graceMs), TodayOccurrence(s, now)))
  }

  function ResolveClockIn(s: Shift, now: int, earlyMs: int, graceMs: int,
                          clientDate: Option<string>): Option<Occurrence> {
    var primary := ResolveOnce(s, now, earlyMs, graceMs, clientDate);
    if primary.Some? then primary
    else if !IsRecurring(s.recurrence) then ResolveOnce(s.(recurrence := DAILY), now, earlyMs, graceMs, clientDate)
    else None
  }

  /** The clock-in gate: from the scheduled start to the scheduled end. */
  predicate Open(o: Occurrence, now: int) {
    o.startAt <= now <= o.endAt
  }

  /** Yesterday's occurrence has ended and is still in its grace period. */
  ghost predicate YesterdayLingers(s: Shift, now: int, graceMs: int) {
    var y := On(s, LocalDay(now, s.zone) - 1);
    y.Some? && y.value.endAt < now <= y.value.endAt + graceMs
  }

  /** The request names a date near by on which the shift occurs. */
  ghost predicate Names(s: Shift, now: int, clientDate: Option<string>, day: int) {
    var today := LocalDay(now, s.zone);
    today - 1 <= day <= today + 1 && clientDate == Some(Key(day)) && On(s, day).Some?
  }

  /** The date a request names is read before anything else; it counts if and only if it is yesterday's, today's or
      tomorrow's and the shift occurs on it. */
  lemma NamedOccurrence(s: Shift, now: int, clientDate: Option<string>)
    requires var today := LocalDay(now, s.zone); InRange(today - 1) && InRange(today) && InRange(today + 1)
    ensures var named := OccurrenceFromClientDate(s, now, clientDate);
            && (named.Some? <==> exists d :: Names(s, now, clientDate, d))
            && (forall d :: Names(s, now, clientDate, d) ==> named == On(s, d))
  {
    hide OccurrenceOnDate, OccurrenceFromClientDate, LocalDay, Key, On;
    var today := LocalDay(now, s.zone);
    var named := OccurrenceFromClientDate(s, now, clientDate);
    ReadsNearKey(s, now, clientDate);
    forall d | Names(s, now, clientDate, d) ensures named.Some? && named == On(s, d) {
      NamedDay(s, now, clientDate, d);
    }
    if named.Some? {
      var d :| today - 1 <= d <= today + 1 && clientDate == Some(Key(d)) && named == On(s, d);
      NamedDay(s, now, clientDate, d);
    }
  }

  lemma ReadsNearKey(s: Shift, now: int, clientDate: Option<string>)
    requires var today := LocalDay(now, s.zone); InRange(today - 1) && InRange(today) && InRange(today + 1)
    ensures var today := LocalDay(now, s.zone);
            OccurrenceFromClientDate(s, now, clientDate).Some? ==>
              exists d :: today - 1 <= d <= today + 1 && clientDate == Some(Key(d))
                          && OccurrenceFromClientDate(s, now, clientDate) == On(s, d)
  {
    hide OccurrenceOnDate, LocalDay, Key, NearbyKeys;
    var today := LocalDay(now, s.zone);
    NearbyKeysAreDays(s, now);
    if OccurrenceFromClientDate(s, now, clientDate).Some? {
      var d := if clientDate.value == Key(today - 1) then today - 1
               else if clientDate.value == Key(today) then today else today + 1;
      assert clientDate == Some(Key(d)) && OccurrenceFromClientDate(s, now, clientDate) == On(s, d);
    }
  }

  lemma NamedDay(s: Shift, now: int, clientDate: Option<string>, day: int)
    requires var today := LocalDay(now, s.zone); InRange(today - 1) && InRange(today) && InRange(today + 1)
    requires var today := LocalDay(now, s.zone); today - 1 <= day <= today + 1 && clientDate == Some(Key(day))
    ensures OccurrenceFromClientDate(s, now, clientDate) == On(s, day)
    ensures Names(s, now, clientDate, day) <==> On(s, day).Some?
  {
    hide OccurrenceOnDate, LocalDay, Key, NearbyKeys;
    NearbyKeysAreDays(s, now);
    KeyNotEmpty(day);
  }

  lemma KeyNotEmpty(day: int)
    requires InRange(day)
    ensures Key(day) != ""
  {
    hide Key;
    KeyIsDigits(day);
  }

  /** While some occurrence is open, clock-in resolves to an open one if and only if the occurrence that the request
      names is open or, when it names none, yesterday's is not an ended one in its grace period, which then hides the
      open one. A request that names the date of the open one always resolves to it. */
  lemma ClockInFindsOpenOccurrence(s: Shift, offset: int, now: int, earlyMs: int, graceMs: int,
                                   clientDate: Option<string>, day: int)
    requires Fixed(s.zone, offset) && Dated(s) && IsRecurring(s.recurrence) && Duration(s) <= MS_PER_DAY
    requires var today := LocalDay(now, s.zone); InRange(today - 1) && InRange(today) && InRange(today + 1)
    requires 0 <= earlyMs && 0 <= graceMs
    requires InRange(day) && On(s, day).Some? && Open(On(s, day).value, now)
    ensures var named := OccurrenceFromClientDate(s, now, clientDate);
            var r := ResolveClockIn(s, now, earlyMs, graceMs, clientDate);
            && r.Some?
            && (Open(r.value, now)
                <==> if named.Some? then Open(named.value, now) else !YesterdayLingers(s, now, graceMs))
            && (named.Some? ==> r == named)
            && (named.None? && YesterdayLingers(s, now, graceMs) ==> r == On(s, LocalDay(now, s.zone) - 1))
    ensures clientDate == Some(Key(day)) ==> ResolveClockIn(s, now, earlyMs, graceMs, clientDate) == On(s, day)
  {
    hide On, LocalDay, Dated, Current, ResolveClockIn, OccurrenceFromClientDate, StartMs, Duration, Key;
    OpenIsNear(s, offset, now, day);
    UnnamedFindsOpen(s, offset, now, earlyMs, graceMs, day);
    ResolvesInOrder(s, now, earlyMs, graceMs, clientDate);
    if clientDate == Some(Key(day)) {
      NamedOccurrence(s, now, clientDate);
      assert Names(s, now, clientDate, day);
    }
  }

  lemma OpenIsNear(s: Shift, offset: int, now: int, day: int)
    requires Fixed(s.zone, offset) && Dated(s) && IsRecurring(s.recurrence) && Duration(s) <= MS_PER_DAY
    requires InRange(day) && On(s, day).Some? && Open(On(s, day).value, now)
    ensures LocalDay(now, s.zone) - 1 <= day <= LocalDay(now, s.zone)
  {
    hide On, LocalDay, Dated, StartMs, Duration;
    DayAt(s.zone, offset, now, LocalDay(now, s.zone));
    OccurrenceTimes(s, offset, day);
  }

  /** While some occurrence is open, the probe finds an open one unless yesterday's lingers. */
  lemma UnnamedFindsOpen(s: Shift, offset: int, now: int, earlyMs: int, graceMs: int, day: int)
    requires Fixed(s.zone, offset) && Dated(s) && IsRecurring(s.recurrence) && Duration(s) <= MS_PER_DAY
    requires var today := LocalDay(now, s.zone); InRange(today - 1) && InRange(today) && InRange(today + 1)
    requires 0 <= earlyMs && 0 <= graceMs
    requires InRange(day) && On(s, day).Some? && Open(On(s, day).value, now)
    ensures var r := Current(s, now, earlyMs, graceMs);
            && r.Some?
            && (Open(r.value, now) <==> !YesterdayLingers(s, now, graceMs))
            && (YesterdayLingers(s, now, graceMs) ==> r == On(s, LocalDay(now, s.zone) - 1))
  {
    hide On, LocalDay, Dated, Current, StartMs, Duration;
    var today := LocalDay(now, s.zone);
    DayAt(s.zone, offset, now, today);
    OpenIsNear(s, offset, now, day);
    CurrentByDays(s, now, earlyMs, graceMs);
    if On(s, today - 1).Some? { OccurrenceTimes(s, offset, today - 1); }
    if On(s, today).Some? { OccurrenceTimes(s, offset, today); }
  }

  lemma ResolvesInOrder(s: Shift, now: int, earlyMs: int, graceMs: int, clientDate: Option<string>)
    requires Current(s, now, earlyMs, graceMs).Some?
    ensures var named := OccurrenceFromClientDate(s, now, clientDate);
            ResolveClockIn(s, now, earlyMs, graceMs, clientDate)
            == if named.Some? then named else Current(s, now, earlyMs, graceMs)
  {
    hide Current, TodayOccurrence, OccurrenceFromClientDate;
  }

  /** When the request names no date near by and `now` is in no window near by, clock-in resolves to today's
      occurrence, if there is one, however long over or ahead. */
  lemma FallsBackToToday(s: Shift, now: int, earlyMs: int, graceMs: int, clientDate: Option<string>)
    requires var today := LocalDay(now, s.zone); InRange(today - 1) && InRange(today) && InRange(today + 1)
    requires IsRecurring(s.recurrence) && forall d :: !Names(s, now, clientDate, d)
    requires forall d :: InRange(d) && On(s, d).Some? ==> !InWindow(On(s, d).value, now, earlyMs, graceMs)
    ensures ResolveClockIn(s, now, earlyMs, graceMs, clientDate) == On(s, LocalDay(now, s.zone))
  {
    hide LocalDay, Key, OccurrenceOnDate, InWindow, Current, OccurrenceFromClientDate, ZonedDateKey;
    CurrentByDays(s, now, earlyMs, graceMs);
    NamedOccurrence(s, now, clientDate);
    KeyOfLocalDay(now, s.zone);
  }

  /** A one-off shift without an occurrence near by is resolved as a daily one. */
  lemma FallsBackToDaily(s: Shift, now: int, earlyMs: int, graceMs: int, clientDate: Option<string>)
    requires var today := LocalDay(now, s.zone); InRange(today - 1) && InRange(today) && InRange(today + 1)
    requires s.recurrence == NONE
    requires forall d :: LocalDay(now, s.zone) - 1 <= d <= LocalDay(now, s.zone) + 1 ==> On(s, d).None?
    ensures ResolveClockIn(s, now, earlyMs, graceMs, clientDate)
         == ResolveClockIn(s.(recurrence := DAILY), now, earlyMs, graceMs, clientDate)
  {
    hide LocalDay, Key, OccurrenceOnDate, InWindow, Current, OccurrenceFromClientDate, ZonedDateKey;
    CurrentByDays(s, now, earlyMs, graceMs);
    NamedOccurrence(s, now, clientDate);
    KeyOfLocalDay(now, s.zone);
  }

  /** A post manned around the clock: after each changeover, for the grace period or until midnight, a clock-in that
      names no date near by resolves to the occurrence that has just ended, and so does one that names yesterday's; one
      that names today's resolves to the open occurrence. */
  lemma ChangeoverResolves(s: Shift, offset: int, now: int, earlyMs: int, graceMs: int,
                           clientDate: Option<string>, day: int)
    requires Fixed(s.zone, offset) && Dated(s) && s.recurrence == DAILY && Duration(s) == MS_PER_DAY
    requires InRange(day - 1) && InRange(day + 2) && 0 <= earlyMs && 0 <= graceMs
    requires On(s, day - 1).Some? && On(s, day).Some?
    requires var start := On(s, day).value.startAt; start < now <= start + graceMs && LocalDay(now, s.zone) == day
    ensures Open(On(s, day).value, now) && On(s, day - 1).value.endAt < now
    ensures On(s, day + 1).Some? ==> now < On(s, day + 1).value.startAt
    ensures ResolveClockIn(s, now, earlyMs, graceMs, clientDate)
         == if clientDate == Some(Key(day)) then On(s, day)
            else if clientDate == Some(Key(day + 1)) && On(s, day + 1).Some? then On(s, day + 1)
            else On(s, day - 1)
  {
    hide On, LocalDay, Dated, Current, ResolveClockIn, StartMs, Duration, OccurrenceFromClientDate, Key;
    OccurrenceTimes(s, offset, day - 1);
    OccurrenceTimes(s, offset, day);
    DayAt(s.zone, offset, now, day);
    if On(s, day + 1).Some? { OccurrenceTimes(s, offset, day + 1); }
    ClockInFindsOpenOccurrence(s, offset, now, earlyMs, graceMs, clientDate, day);
    NamedOccurrence(s, now, clientDate);
    NearKeysDiffer(day);
    assert Names(s, now, clientDate, day - 1) <==> clientDate == Some(Key(day - 1));
    assert Names(s, now, clientDate, day + 1) <==> clientDate == Some(Key(day + 1)) && On(s, day + 1).Some?;
  }

  lemma NearKeysDiffer(day: int)
    requires InRange(day - 1) && InRange(day + 1)
    ensures Key(day - 1) != Key(day) && Key(day) != Key(day + 1) && Key(day - 1) != Key(day + 1)
  {
    hide Key;
    KeyOrder(day - 1, day);
    KeyOrder(day, day + 1);
    KeyOrder(day - 1, day + 1);
  }

  /** The request names this date, or none of yesterday, today and tomorrow. */
  predicate NamesNoOther(s: Shift, now: int, clientDate: Option<string>, day: int) {
    clientDate.None? || clientDate.value == Key(day) || clientDate.value !in NearbyKeys(s, now)
  }

  /** The original occurrence is over with its grace period when its projection onto the day begins; from the second
      day on it always is. */
  predicate OriginalOver(s: Shift, graceMs: int, day: int) {
    StartDay(s) + 1 < day || (StartDay(s) + 1 == day && s.startAt % 1000 + Duration(s) + graceMs < MS_PER_DAY)
  }

  /** A one-off shift is projected onto any later day: unless the request names another date near by, clock-in resolves
      to the occurrence that the shift would have there as a daily one. */
  lemma ProjectedOccurrence(s: Shift, offset: int, now: int, earlyMs: int, graceMs: int,
                            clientDate: Option<string>, day: int)
    requires Fixed(s.zone, offset) && Dated(s) && s.recurrence == NONE && s.recurrenceEndAt.None?
    requires InRange(day) && InRange(day + 2) && 0 <= earlyMs && 0 <= graceMs
    requires Duration(s) + graceMs < MS_PER_DAY && OriginalOver(s, graceMs, day)
    requires NamesNoOther(s, now, clientDate, day)
    requires var start := FixedStart(s, offset, day); start <= now <= start + Duration(s)
    ensures var start := FixedStart(s, offset, day);
            ResolveClockIn(s, now, earlyMs, graceMs, clientDate)
            == Some(Occurrence(Key(day), start, start + Duration(s)))
  {
    hide On, LocalDay, Current, TimeOfDay, Duration, Key, TodayOccurrence, FixedStart, MatchingWeekdays,
      OccurrenceFromClientDate, NamesNoOther, NearbyKeys, OriginalOver;
    var daily := s.(recurrence := DAILY);
    NothingNearby(s, offset, now, earlyMs, graceMs, clientDate, day);
    SameTimes(s, offset, day);
    assert NamesNoOther(daily, now, clientDate, day) by { SameNames(s, now, clientDate, day); }
    LaterThanOriginal(s, graceMs, day);
    DailyResolved(daily, offset, now, earlyMs, graceMs, clientDate, day);
  }

  lemma SameTimes(s: Shift, offset: int, day: int)
    ensures var daily := s.(recurrence := DAILY);
            FixedStart(daily, offset, day) == FixedStart(s, offset, day) && Duration(daily) == Duration(s)
            && StartDay(daily) == StartDay(s)
  {
  }

  lemma SameNames(s: Shift, now: int, clientDate: Option<string>, day: int)
    requires NamesNoOther(s, now, clientDate, day)
    ensures NamesNoOther(s.(recurrence := DAILY), now, clientDate, day)
  {
    hide AddCalendarDays, ZonedDateKey, Key;
  }

  lemma LaterThanOriginal(s: Shift, graceMs: int, day: int)
    requires OriginalOver(s, graceMs, day)
    ensures StartDay(s) < day
  {
    hide LocalDay, Duration;
  }

  lemma NearProjection(s: Shift, offset: int, now: int, day: int)
    requires Fixed(s.zone, offset) && Duration(s) < MS_PER_DAY
    requires var start := FixedStart(s, offset, day); start <= now <= start + Duration(s)
    ensures day <= LocalDay(now, s.zone) <= day + 1
  {
    hide LocalDay, TimeOfDay, Duration;
    DayAt(s.zone, offset, now, LocalDay(now, s.zone));
    TimeInDay(s);
  }

  /** The daily occurrence running now is the one that is resolved, if yesterday's is over with its grace period and the
      request names no other. */
  lemma DailyResolved(s: Shift, offset: int, now: int, earlyMs: int, graceMs: int,
                      clientDate: Option<string>, day: int)
    requires Fixed(s.zone, offset) && Dated(s) && s.recurrence == DAILY && s.recurrenceEndAt.None?
    requires StartDay(s) < day && InRange(day) && InRange(day + 2) && 0 <= earlyMs && 0 <= graceMs
    requires Duration(s) + graceMs < MS_PER_DAY && NamesNoOther(s, now, clientDate, day)
    requires var start := FixedStart(s, offset, day); start <= now <= start + Duration(s)
    ensures ResolveOnce(s, now, earlyMs, graceMs, clientDate)
         == Some(Occurrence(Key(day), FixedStart(s, offset, day), FixedStart(s, offset, day) + Duration(s)))
  {
    hide On, LocalDay, Current, TimeOfDay, Duration, Key, OccurrenceFromClientDate, FixedStart, NamesNoOther,
      TodayOccurrence;
    NearProjection(s, offset, now, day);
    DailyCurrent(s, offset, now, earlyMs, graceMs, day);
    OnlyNames(s, now, clientDate, day);
    NamedOccurrence(s, now, clientDate);
    DailyAt(s, offset, day);
  }

  lemma DailyAt(s: Shift, offset: int, day: int)
    requires Fixed(s.zone, offset) && Dated(s) && s.recurrence == DAILY && s.recurrenceEndAt.None?
    requires StartDay(s) < day && InRange(day)
    ensures On(s, day)
         == Some(Occurrence(Key(day), FixedStart(s, offset, day), FixedStart(s, offset, day) + Duration(s)))
  {
    hide On, LocalDay, TimeOfDay, Duration, Key, MatchingWeekdays;
    FixedOn(s, offset, day);
    EveryWeekday(s, day);
  }

  lemma OnlyNames(s: Shift, now: int, clientDate: Option<string>, day: int)
    requires var today := LocalDay(now, s.zone); InRange(today - 1) && InRange(today) && InRange(today + 1)
    requires NamesNoOther(s, now, clientDate, day) && InRange(day)
    ensures forall d :: Names(s, now, clientDate, d) ==> d == day
  {
    hide LocalDay, Key, NearbyKeys, On;
    NearbyKeysAreDays(s, now);
    forall d | Names(s, now, clientDate, d) ensures d == day { KeyOrder(d, day); }
  }

  lemma DailyCurrent(s: Shift, offset: int, now: int, earlyMs: int, graceMs: int, day: int)
    requires Fixed(s.zone, offset) && Dated(s) && s.recurrence == DAILY && s.recurrenceEndAt.None?
    requires StartDay(s) < day && InRange(day) && InRange(day + 2) && 0 <= earlyMs && 0 <= graceMs
    requires Duration(s) + graceMs < MS_PER_DAY
    requires var start := FixedStart(s, offset, day); start <= now <= start + Duration(s)
    ensures Current(s, now, earlyMs, graceMs)
         == Some(Occurrence(Key(day), FixedStart(s, offset, day), FixedStart(s, offset, day) + Duration(s)))
  {
    hide On, LocalDay, Current, TimeOfDay, Duration, Key, MatchingWeekdays;
    NearProjection(s, offset, now, day);
    DailyAt(s, offset, day);
    DailyOn(s, offset, day - 1);
    CurrentByDays(s, now, earlyMs, graceMs);
  }

  lemma TimeInDay(s: Shift)
    ensures 0 <= TimeOfDay(s) < DAY_SECONDS
  {
  }

  /** While the projection runs, nothing of the one-off shift itself is resolved. */
  lemma NothingNearby(s: Shift, offset: int, now: int, earlyMs: int, graceMs: int,
                      clientDate: Option<string>, day: int)
    requires Fixed(s.zone, offset) && Dated(s) && s.recurrence == NONE && s.recurrenceEndAt.None?
    requires InRange(day) && InRange(day + 2) && 0 <= earlyMs && 0 <= graceMs
    requires Duration(s) + graceMs < MS_PER_DAY && OriginalOver(s, graceMs, day)
    requires NamesNoOther(s, now, clientDate, day)
    requires var start := FixedStart(s, offset, day); start <= now <= start + Duration(s)
    ensures ResolveOnce(s, now, earlyMs, graceMs, clientDate).None?
  {
    hide LocalDay, OccurrenceOnDate, Key, ZonedDateKey, Current, NamesNoOther, OccurrenceFromClientDate, Duration,
      FixedStart;
    var today := LocalDay(now, s.zone);
    NearProjection(s, offset, now, day);
    forall d | InRange(d) && On(s, d).Some?
      ensures d == StartDay(s) && On(s, d).value.endAt + graceMs < now
    {
      OriginalIsOver(s, offset, now, graceMs, day, d);
    }
    LaterThanOriginal(s, graceMs, day);
    CurrentByDays(s, now, earlyMs, graceMs);
    KeyOfLocalDay(now, s.zone);
    OnlyNames(s, now, clientDate, day);
    NamedOccurrence(s, now, clientDate);
  }

  lemma OriginalIsOver(s: Shift, offset: int, now: int, graceMs: int, day: int, d: int)
    requires Fixed(s.zone, offset) && Dated(s) && s.recurrence == NONE && InRange(d) && On(s, d).Some?
    requires 0 <= graceMs && Duration(s) + graceMs < MS_PER_DAY && OriginalOver(s, graceMs, day)
    requires FixedStart(s, offset, day) <= now
    ensures d == StartDay(s) && On(s, d).value.endAt + graceMs < now
  {
    hide LocalDay, Dated, On, Key, TimeOfDay;
    OneOffOn(s, d);
    OneOffStart(s, offset);
  }
}
