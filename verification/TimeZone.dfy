/** Wall-clock time in a time zone. A zone is its offset function: UTC milliseconds to seconds east of UTC. */
module TimeZone {
  import opened JsText
  import opened Calendar

  type Zone = int -> int

  datatype Parts = Parts(year: int, month: int, day: int, hour: int, minute: int, second: int, weekday: int)

  const DAY_SECONDS := 86_400
  const SUNDAY_SHIFT := 4 // 1970-01-01 was a Thursday

  /** What a clock in the zone shows, as seconds since its own 1970-01-01 midnight. */
  function LocalSeconds(ms: int, zone: Zone): int {
    ms / 1000 + zone(ms)
  }

  function LocalDay(ms: int, zone: Zone): int {
    LocalSeconds(ms, zone) / DAY_SECONDS
  }

  function PartsOf(local: int): Parts {
    var c, s := CivilOf(local / DAY_SECONDS), local % DAY_SECONDS;
    Parts(c.year, c.month, c.day, s / 3600, s / 60 % 60, s % 60, (local / DAY_SECONDS + SUNDAY_SHIFT) % 7)
  }

  function ZonedParts(ms: int, zone: Zone): Parts {
    PartsOf(LocalSeconds(ms, zone))
  }

  function ZonedDateKey(ms: int, zone: Zone): string {
    var p := ZonedParts(ms, zone);
    KeyText(Civil(p.year, p.month, p.day))
  }

  function PartsAsUtc(p: Parts): int {
    DateUtc(p.year, p.month - 1, p.day, p.hour, p.minute, p.second)
  }

  /** The value of `utc` after at most n rounds of correction. */
  function Corrected(zone: Zone, wanted: int, utc: int, n: nat): int
    decreases n
  {
    var delta := wanted - PartsAsUtc(ZonedParts(utc, zone));
    if n == 0 || delta == 0 then utc else Corrected(zone, wanted, utc + delta, n - 1)
  }

  function ZonedInstant(zone: Zone, year: int, month: int, day: int, hour: int, minute: int, second: int): int {
    var wanted := DateUtc(year, month - 1, day, hour, minute, second);
    Corrected(zone, wanted, wanted, 4)
  }

  method ZonedDateTime(zone: Zone, year: int, month: int, day: int, hour: int, minute: int, second: int)
    returns (utc: int)
    ensures utc == ZonedInstant(zone, year, month, day, hour, minute, second)
  {
    hide PartsAsUtc, ZonedParts, DateUtc;
    var wanted := DateUtc(year, month - 1, day, hour, minute, second);
    utc := wanted;
    var i := 0;
    while i < 4
      invariant 0 <= i <= 4
      invariant Corrected(zone, wanted, utc, 4 - i) == Corrected(zone, wanted, wanted, 4)
    {
      var delta := wanted - PartsAsUtc(ZonedParts(utc, zone));
      if delta == 0 {
        break;
      }
      utc := utc + delta;
      i := i + 1;
    }
  }

  function StartOfZonedDay(dateKey: string, zone: Zone): Option<int> {
    match ParseDateKey(dateKey)
    case None => None
    case Some(p) => Some(ZonedInstant(zone, p.year, p.month, p.day, 0, 0, 0))
  }

  function EndOfZonedDay(dateKey: string, zone: Zone): Option<int> {
    match ParseDateKey(dateKey)
    case None => None
    case Some(p) => Some(ZonedInstant(zone, p.year, p.month, p.day, 23, 59, 59) + 999)
  }

  // ---- Readings -------------------------------------------------------------------------------------

  /** From here on Date.UTC reads every year as itself, with two days to spare. */
  const YEAR_100 := -683_003 // DayFromYear(100)
  const MIN_WALL := (YEAR_100 + 2) * MS_PER_DAY

  lemma DateUtcIsDay(c: Civil, hour: int, minute: int, second: int)
    requires c.year >= 100
    ensures DateUtc(c.year, c.month - 1, c.day, hour, minute, second)
         == 1000 * (DayOf(c) * DAY_SECONDS + (hour * 60 + minute) * 60 + second)
  {
    hide MakeDay;
  }

  lemma ClockOfSeconds(s: int)
    requires 0 <= s < DAY_SECONDS
    ensures (s / 3600 * 60 + s / 60 % 60) * 60 + s % 60 == s
    ensures ValidClock(s / 3600, s / 60 % 60, s % 60)
  {
    assert s / 60 / 60 == s / 3600;
  }

  /** Feeding a reading to Date.UTC gives the reading back in milliseconds. */
  lemma ReadingAsUtc(local: int)
    requires YEAR_100 * DAY_SECONDS <= local
    ensures PartsAsUtc(PartsOf(local)) == 1000 * local
  {
    hide CivilOf, DayOf, DateUtc, DayFromYear;
    var day, s := local / DAY_SECONDS, local % DAY_SECONDS;
    CivilOfDay(day);
    YearHundred();
    YearAtLeast(day, 100);
    ClockOfSeconds(s);
    hide ValidClock, ValidDate;
    DateUtcIsDay(CivilOf(day), s / 3600, s / 60 % 60, s % 60);
  }

  lemma YearHundred()
    ensures DayFromYear(100) == YEAR_100
  {
  }

  lemma YearAtLeast(day: int, y: int)
    requires DayFromYear(y) <= day
    ensures CivilOf(day).year >= y
  {
    hide DayFromYear;
    var r := YearOf(day);
    if r < y { YearsIncrease(r + 1, y); }
  }

  predicate ValidClock(hour: int, minute: int, second: int) {
    0 <= hour < 24 && 0 <= minute < 60 && 0 <= second < 60
  }

  /** The wall time of valid fields, and the fields as its parts. */
  lemma WallFields(c: Civil, hour: int, minute: int, second: int)
    requires ValidDate(c) && c.year >= 101 && ValidClock(hour, minute, second)
    ensures var wanted := DateUtc(c.year, c.month - 1, c.day, hour, minute, second);
            var p := PartsOf(wanted / 1000);
            wanted % 1000 == 0 && wanted >= MIN_WALL
            && wanted / 1000 / DAY_SECONDS == DayOf(c)
            && p == Parts(c.year, c.month, c.day, hour, minute, second, p.weekday)
  {
    var wanted := DateUtc(c.year, c.month - 1, c.day, hour, minute, second);
    hide CivilOf, DayOf, DateUtc, DayFromYear;
    var s := (hour * 60 + minute) * 60 + second;
    DayOfCivil(c);
    CivilOfDay(DayOf(c));
    DayNotBeforeYear(c);
    YearsIncrease(100, c.year);
    YearHundred();
    DateUtcIsDay(c, hour, minute, second);
    SecondsOfClock(hour, minute, second);
    SplitMillis(DayOf(c), s);
  }

  lemma SplitMillis(day: int, s: int)
    requires 0 <= s < DAY_SECONDS
    ensures var ms := 1000 * (day * DAY_SECONDS + s);
            ms % 1000 == 0 && ms / 1000 / DAY_SECONDS == day && ms / 1000 % DAY_SECONDS == s
  {
    assert 1000 * (day * DAY_SECONDS + s) / 1000 == day * DAY_SECONDS + s;
  }

  lemma SecondsOfClock(hour: int, minute: int, second: int)
    requires ValidClock(hour, minute, second)
    ensures var s := (hour * 60 + minute) * 60 + second;
            0 <= s < DAY_SECONDS && s / 3600 == hour && s / 60 % 60 == minute && s % 60 == second
  {
    var s := (hour * 60 + minute) * 60 + second;
    assert s / 60 == hour * 60 + minute;
  }

  lemma DayNotBeforeYear(c: Civil)
    requires ValidDate(c)
    ensures DayFromYear(c.year) <= DayOf(c)
  {
    hide DayFromYear;
    MonthsIncrease(IsLeap(c.year), 0, c.month - 1);
  }

  /** The weekday a zone's clock shows is that of the date it shows, counted on the calendar. */
  lemma ZonedWeekday(ms: int, zone: Zone, weekday: Civil -> int)
    requires CountsWeekdays(weekday)
    ensures var p := ZonedParts(ms, zone); p.weekday == weekday(Civil(p.year, p.month, p.day))
  {
    hide CivilOf, CountsWeekdays;
    WeekdayOfDay(weekday, LocalDay(ms, zone));
  }

  // ---- Right inverse ----------------------------------------------------------------------------------

  /** Within a day of `wanted` the zone's offset is a before t and b from t on. */
  ghost predicate OneChange(zone: Zone, wanted: int, t: int, a: int, b: int) {
    -DAY_SECONDS < a < DAY_SECONDS && -DAY_SECONDS < b < DAY_SECONDS
    && forall u :: -MS_PER_DAY <= u - wanted <= MS_PER_DAY ==> zone(u) == if u < t then a else b
  }

  /** At some instant the zone's clock turns to `wanted`. */
  ghost predicate WallExists(zone: Zone, wanted: int) {
    exists u :: -MS_PER_DAY < u - wanted < MS_PER_DAY && ShowsAt(zone, wanted, u)
  }

  predicate ShowsAt(zone: Zone, wanted: int, u: int) {
    u + 1000 * zone(u) == wanted
  }

  /** One round moves to `wanted` minus the offset in force at the current guess. */
  lemma CorrectionStep(zone: Zone, wanted: int, utc: int, n: nat)
    requires wanted % 1000 == 0 && utc % 1000 == 0 && wanted >= MIN_WALL
    requires -MS_PER_DAY <= utc - wanted <= MS_PER_DAY && -DAY_SECONDS < zone(utc) < DAY_SECONDS
    ensures PartsAsUtc(ZonedParts(utc, zone)) == utc + 1000 * zone(utc)
    ensures var next := wanted - 1000 * zone(utc);
            Corrected(zone, wanted, utc, n) ==
              if n == 0 || utc == next then utc else Corrected(zone, wanted, next, n - 1)
  {
    hide PartsAsUtc, PartsOf, DayFromYear;
    ReadingAsUtc(LocalSeconds(utc, zone));
  }

  /** A guess that already shows the wanted time is the answer. */
  lemma Settled(zone: Zone, wanted: int, utc: int, n: nat)
    requires wanted % 1000 == 0 && utc % 1000 == 0 && wanted >= MIN_WALL
    requires -MS_PER_DAY <= utc - wanted <= MS_PER_DAY && -DAY_SECONDS < zone(utc) < DAY_SECONDS
    requires utc == wanted - 1000 * zone(utc)
    ensures Corrected(zone, wanted, utc, n) == utc && PartsAsUtc(ZonedParts(utc, zone)) == wanted
  {
    hide PartsAsUtc, ZonedParts, Corrected;
    CorrectionStep(zone, wanted, utc, n);
  }

  /** Four rounds are enough: where some instant shows the wanted time, the loop ends on one that does. */
  lemma LoopReachesWall(zone: Zone, wanted: int, t: int, a: int, b: int)
    requires wanted % 1000 == 0 && wanted >= MIN_WALL && OneChange(zone, wanted, t, a, b)
    requires wanted - 1000 * a < t || wanted - 1000 * b >= t
    ensures var r := Corrected(zone, wanted, wanted, 4);
            PartsAsUtc(ZonedParts(r, zone)) == wanted && r == wanted - 1000 * zone(r)
  {
    hide PartsAsUtc, ZonedParts, Corrected;
    var u1 := wanted - 1000 * zone(wanted);
    var u2 := wanted - 1000 * zone(u1);
    CorrectionStep(zone, wanted, wanted, 4);
    CorrectionStep(zone, wanted, u1, 3);
    assert u2 == wanted - 1000 * zone(u2);
    Settled(zone, wanted, u2, 2);
    if u1 == wanted { Settled(zone, wanted, wanted, 4); }
    else if u2 == u1 { Settled(zone, wanted, u1, 3); }
  }

  /** When the wanted time exists, in terms of the change: before it at offset a or from it on at offset b. */
  lemma WallExistsWhen(zone: Zone, wanted: int, t: int, a: int, b: int)
    requires wanted % 1000 == 0 && OneChange(zone, wanted, t, a, b)
    ensures WallExists(zone, wanted) <==> wanted - 1000 * a < t || wanted - 1000 * b >= t
  {
    if WallExists(zone, wanted) {
      var u :| -MS_PER_DAY < u - wanted < MS_PER_DAY && ShowsAt(zone, wanted, u);
      assert zone(u) == if u < t then a else b;
    }
    if wanted - 1000 * a < t { assert ShowsAt(zone, wanted, wanted - 1000 * a); }
    if wanted - 1000 * b >= t { assert ShowsAt(zone, wanted, wanted - 1000 * b); }
  }

  /** Two guesses that correct to each other go on doing so. */
  lemma {:induction false} Alternating(zone: Zone, wanted: int, u: int, v: int, n: nat)
    requires wanted % 1000 == 0 && wanted >= MIN_WALL && u != v
    requires -MS_PER_DAY <= u - wanted <= MS_PER_DAY && -DAY_SECONDS < zone(u) < DAY_SECONDS
    requires -MS_PER_DAY <= v - wanted <= MS_PER_DAY && -DAY_SECONDS < zone(v) < DAY_SECONDS
    requires v == wanted - 1000 * zone(u) && u == wanted - 1000 * zone(v)
    ensures Corrected(zone, wanted, u, n) == if n % 2 == 0 then u else v
    decreases n
  {
    hide PartsAsUtc, ZonedParts, Corrected;
    CorrectionStep(zone, wanted, u, n);
    if n > 0 { Alternating(zone, wanted, v, u, n - 1); }
  }

  /** A wall time skipped by the change makes the loop alternate: the answer misses by the length of the gap,
      forward when `wanted` read as UTC is past the change and backward otherwise. */
  lemma SkippedWallTime(zone: Zone, wanted: int, t: int, a: int, b: int)
    requires wanted % 1000 == 0 && wanted >= MIN_WALL && OneChange(zone, wanted, t, a, b)
    requires !WallExists(zone, wanted)
    ensures a < b
    ensures PartsAsUtc(ZonedParts(Corrected(zone, wanted, wanted, 4), zone))
         == if wanted < t then wanted - 1000 * (b - a) else wanted + 1000 * (b - a)
  {
    hide PartsAsUtc, ZonedParts, Corrected, WallExists;
    WallExistsWhen(zone, wanted, t, a, b);
    var ua, ub := wanted - 1000 * a, wanted - 1000 * b;
    assert zone(ua) == b && zone(ub) == a;
    if wanted < t {
      assert zone(wanted) == a;
      EndsOn(zone, wanted, ua, ub);
    } else {
      assert zone(wanted) == b;
      EndsOn(zone, wanted, ub, ua);
    }
  }

  lemma EndsOn(zone: Zone, wanted: int, u: int, v: int)
    requires wanted % 1000 == 0 && wanted >= MIN_WALL && u != v && u != wanted
    requires -MS_PER_DAY <= u - wanted <= MS_PER_DAY && -DAY_SECONDS < zone(u) < DAY_SECONDS
    requires -MS_PER_DAY <= v - wanted <= MS_PER_DAY && -DAY_SECONDS < zone(v) < DAY_SECONDS
    requires u == wanted - 1000 * zone(wanted) && v == wanted - 1000 * zone(u) && u == wanted - 1000 * zone(v)
    ensures PartsAsUtc(ZonedParts(Corrected(zone, wanted, wanted, 4), zone)) == v + 1000 * zone(v)
  {
    hide PartsAsUtc, ZonedParts, Corrected;
    CorrectionStep(zone, wanted, wanted, 4);
    Alternating(zone, wanted, u, v, 3);
    CorrectionStep(zone, wanted, v, 0);
  }

  lemma WeekdayIgnored(p: Parts, q: Parts)
    requires PartsAsUtc(p) != PartsAsUtc(q)
    ensures p.(weekday := 0) != q.(weekday := 0)
  {
    hide DateUtc;
  }

  /** zonedDateTime is a right inverse of zonedParts on every wall time that exists. */
  lemma ZonedDateTimeRightInverse(zone: Zone, c: Civil, hour: int, minute: int, second: int, t: int, a: int, b: int)
    requires ValidDate(c) && c.year >= 101 && ValidClock(hour, minute, second)
    requires OneChange(zone, DateUtc(c.year, c.month - 1, c.day, hour, minute, second), t, a, b)
    ensures var wanted := DateUtc(c.year, c.month - 1, c.day, hour, minute, second);
            var p := ZonedParts(ZonedInstant(zone, c.year, c.month, c.day, hour, minute, second), zone);
            WallExists(zone, wanted) <==> p == Parts(c.year, c.month, c.day, hour, minute, second, p.weekday)
  {
    hide PartsOf, DateUtc, Corrected, PartsAsUtc;
    var wanted := DateUtc(c.year, c.month - 1, c.day, hour, minute, second);
    var r := Corrected(zone, wanted, wanted, 4);
    WallFields(c, hour, minute, second);
    WallExistsWhen(zone, wanted, t, a, b);
    if WallExists(zone, wanted) {
      LoopReachesWall(zone, wanted, t, a, b);
      assert LocalSeconds(r, zone) == wanted / 1000;
    } else {
      SkippedWallTime(zone, wanted, t, a, b);
      ReadingAsUtc(wanted / 1000);
      WeekdayIgnored(PartsOf(wanted / 1000), ZonedParts(r, zone));
    }
  }

  // ---- Fixed-offset zones -------------------------------------------------------------------------------

  ghost predicate Fixed(zone: Zone, offset: int) {
    -DAY_SECONDS < offset < DAY_SECONDS && forall u :: zone(u) == offset
  }

  lemma FixedInstant(zone: Zone, offset: int, c: Civil, hour: int, minute: int, second: int)
    requires Fixed(zone, offset) && ValidDate(c) && c.year >= 101 && ValidClock(hour, minute, second)
    ensures ZonedInstant(zone, c.year, c.month, c.day, hour, minute, second)
         == 1000 * (DayOf(c) * DAY_SECONDS + (hour * 60 + minute) * 60 + second - offset)
  {
    hide DateUtc, Corrected, ZonedParts, DayOf, PartsAsUtc, ValidClock, PartsOf;
    var wanted := DateUtc(c.year, c.month - 1, c.day, hour, minute, second);
    DateUtcIsDay(c, hour, minute, second);
    WallFields(c, hour, minute, second);
    CorrectionStep(zone, wanted, wanted, 4);
    Settled(zone, wanted, wanted - 1000 * offset, 3);
  }

  lemma KeyOfLocalDay(ms: int, zone: Zone)
    ensures ZonedDateKey(ms, zone) == Key(LocalDay(ms, zone))
  {
  }

  /** In a fixed-offset zone a day's bounds enclose exactly the instants that carry its key. */
  lemma DayBounds(zone: Zone, offset: int, day: int, ms: int)
    requires Fixed(zone, offset) && InRange(day) && InRange(LocalDay(ms, zone))
    ensures StartOfZonedDay(Key(day), zone).Some? && EndOfZonedDay(Key(day), zone).Some?
    ensures ZonedDateKey(ms, zone) == Key(day)
       <==> StartOfZonedDay(Key(day), zone).value <= ms <= EndOfZonedDay(Key(day), zone).value
  {
    hide Key, ParseDateKey, CivilOf, ZonedInstant, ZonedDateKey;
    ParseOfKey(day);
    CivilOfDay(day);
    RangeIsYears(day);
    FixedInstant(zone, offset, CivilOf(day), 0, 0, 0);
    FixedInstant(zone, offset, CivilOf(day), 23, 59, 59);
    KeyOfLocalDay(ms, zone);
    KeyOrder(LocalDay(ms, zone), day);
  }
}
