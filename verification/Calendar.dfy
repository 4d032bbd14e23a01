/** Calendar dates, their day numbers and the "YYYY-MM-DD" keys the back end compares as strings.
    Day 0 is 1970-01-01; Date.UTC and the UTC getters are those of the proleptic Gregorian calendar. */
module Calendar {
  import opened JsText

  datatype Civil = Civil(year: int, month: int, day: int)

  const MS_PER_DAY := 86_400_000
  const MAX_TIME := 8_640_000_000_000_000 // the largest time value a Date holds

  // ---- Years and months -------------------------------------------------------------------------

  predicate IsLeap(y: int) {
    y % 4 == 0 && (y % 100 != 0 || y % 400 == 0)
  }

  /** Month lengths, RFC 3339 section 5.7. */
  function DaysInMonth(y: int, m: int): int {
    if m == 2 then (if IsLeap(y) then 29 else 28)
    else if m == 4 || m == 6 || m == 9 || m == 11 then 30
    else 31
  }

  predicate ValidDate(c: Civil) {
    1 <= c.month <= 12 && 1 <= c.day <= DaysInMonth(c.year, c.month)
  }

  /** The calendar day after c, by carrying over the month lengths. */
  function NextDate(c: Civil): Civil {
    if c.day < DaysInMonth(c.year, c.month) then c.(day := c.day + 1)
    else if c.month < 12 then Civil(c.year, c.month + 1, 1)
    else Civil(c.year + 1, 1, 1)
  }

  function DayFromYear(y: int): int {
    365 * (y - 1970) + (y - 1969) / 4 - (y - 1901) / 100 + (y - 1601) / 400
  }

  function YearLength(y: int): int {
    if IsLeap(y) then 366 else 365
  }

  lemma Quotient4(y: int)
    ensures (y - 1968) / 4 == y / 4 - 492 && (y - 1969) / 4 == y / 4 - if y % 4 == 0 then 493 else 492
  {
  }

  lemma Quotient100(y: int)
    ensures (y - 1900) / 100 == y / 100 - 19 && (y - 1901) / 100 == y / 100 - if y % 100 == 0 then 20 else 19
  {
  }

  lemma Quotient400(y: int)
    ensures (y - 1600) / 400 == y / 400 - 4 && (y - 1601) / 400 == y / 400 - if y % 400 == 0 then 5 else 4
  {
  }

  lemma LeapDivisors(y: int)
    ensures y % 400 == 0 ==> y % 100 == 0
    ensures y % 100 == 0 ==> y % 4 == 0
  {
    MultipleOf(y, 400, 100);
    MultipleOf(y, 100, 4);
  }

  lemma MultipleOf(y: int, m: int, k: int)
    requires (m == 400 && k == 100) || (m == 100 && k == 4)
    ensures y % m == 0 ==> y % k == 0
  {
    var q := y / m;
    if y % m == 0 {
      if m == 400 { assert y == 100 * (4 * q); } else { assert y == 4 * (25 * q); }
    }
  }

  lemma YearStep(y: int)
    ensures DayFromYear(y + 1) == DayFromYear(y) + YearLength(y)
  {
    Quotient4(y);
    Quotient100(y);
    Quotient400(y);
    LeapDivisors(y);
    assert y + 1 - 1969 == y - 1968 && y + 1 - 1901 == y - 1900 && y + 1 - 1601 == y - 1600;
  }

  lemma {:induction false} YearsIncrease(y: int, z: int)
    requires y <= z
    ensures DayFromYear(z) >= DayFromYear(y) + 365 * (z - y)
    decreases z - y
  {
    if y < z {
      YearsIncrease(y, z - 1);
      YearStep(z - 1);
    }
  }

  /** Days of the year before month m, counted from 0 for January to 12 for the whole year. */
  function MonthStart(leap: bool, m: int): int
    requires 0 <= m <= 12
  {
    var extra := if leap && m >= 2 then 1 else 0;
    extra + (if m == 0 then 0 else if m == 1 then 31 else if m == 2 then 59 else if m == 3 then 90
             else if m == 4 then 120 else if m == 5 then 151 else if m == 6 then 181 else if m == 7 then 212
             else if m == 8 then 243 else if m == 9 then 273 else if m == 10 then 304 else if m == 11 then 334 else 365)
  }

  // ---- Date.UTC and the getters -------------------------------------------------------------------

  /** MakeDay: months count from 0 and overflow into years, days overflow freely. */
  function MakeDay(y: int, month0: int, day: int): int {
    var year := y + month0 / 12;
    DayFromYear(year) + MonthStart(IsLeap(year), month0 % 12) + day - 1
  }

  /** Date.UTC in milliseconds; years 0 to 99 mean 1900 to 1999. */
  function DateUtc(y: int, month0: int, day: int, hour: int, minute: int, second: int): int {
    var year := if 0 <= y <= 99 then 1900 + y else y;
    ((MakeDay(year, month0, day) * 24 + hour) * 60 + minute) * 60_000 + second * 1000
  }

  /** Midnight of a date is its day number in milliseconds, but that the years 0 to 99 are read as 1900 to 1999. */
  lemma DateUtcMeans(c: Civil)
    ensures c.year < 0 || 100 <= c.year ==> DateUtc(c.year, c.month - 1, c.day, 0, 0, 0) == DayOf(c) * MS_PER_DAY
    ensures 0 <= c.year < 100 ==>
              DateUtc(c.year, c.month - 1, c.day, 0, 0, 0) == DayOf(c.(year := 1900 + c.year)) * MS_PER_DAY
  {
    hide MakeDay;
  }

  function YearUp(day: int, y: int): (r: int)
    requires DayFromYear(y) <= day
    ensures DayFromYear(r) <= day < DayFromYear(r + 1)
    decreases day - DayFromYear(y)
  {
    YearStep(y);
    if day < DayFromYear(y + 1) then y else YearUp(day, y + 1)
  }

  function YearDown(day: int, y: int): (r: int)
    requires day < DayFromYear(y + 1)
    ensures DayFromYear(r) <= day < DayFromYear(r + 1)
    decreases DayFromYear(y + 1) - day
  {
    YearStep(y);
    if DayFromYear(y) <= day then y else YearDown(day, y - 1)
  }

  function YearOf(day: int): (r: int)
    ensures DayFromYear(r) <= day < DayFromYear(r + 1)
  {
    if day >= 0 then YearUp(day, 1970) else YearDown(day, 1969)
  }

  function MonthIn(leap: bool, dayOfYear: int, m: int): (r: int)
    requires 0 <= m <= 11 && MonthStart(leap, m) <= dayOfYear < MonthStart(leap, 12)
    ensures m <= r <= 11 && MonthStart(leap, r) <= dayOfYear < MonthStart(leap, r + 1)
    decreases 12 - m
  {
    if dayOfYear < MonthStart(leap, m + 1) then m else MonthIn(leap, dayOfYear, m + 1)
  }

  /** getUTCFullYear, getUTCMonth + 1 and getUTCDate of a day. */
  function CivilOf(day: int): Civil {
    var y := YearOf(day);
    YearStep(y);
    MonthStep(y, 0);
    var m := MonthIn(IsLeap(y), day - DayFromYear(y), 0);
    Civil(y, m + 1, day - DayFromYear(y) - MonthStart(IsLeap(y), m) + 1)
  }

  function DayOf(c: Civil): int {
    MakeDay(c.year, c.month - 1, c.day)
  }

  lemma YearUnique(day: int, y: int)
    requires DayFromYear(y) <= day < DayFromYear(y + 1)
    ensures YearOf(day) == y
  {
    hide DayFromYear;
    var r := YearOf(day);
    if r < y { YearsIncrease(r + 1, y); }
    if y < r { YearsIncrease(y + 1, r); }
  }

  lemma MonthStep(y: int, m: int)
    requires 0 <= m <= 11
    ensures MonthStart(IsLeap(y), m + 1) == MonthStart(IsLeap(y), m) + DaysInMonth(y, m + 1)
    ensures MonthStart(IsLeap(y), 0) == 0 && MonthStart(IsLeap(y), 12) == YearLength(y)
  {
  }

  lemma MonthsIncrease(leap: bool, m: int, n: int)
    requires 0 <= m <= n <= 12
    ensures MonthStart(leap, m) <= MonthStart(leap, n) <= MonthStart(leap, 12)
  {
  }

  lemma MonthUnique(leap: bool, d: int, m: int)
    requires 0 <= m <= 11 && 0 <= MonthStart(leap, m) <= d < MonthStart(leap, m + 1)
    requires d < MonthStart(leap, 12)
    ensures MonthIn(leap, d, 0) == m
  {
    hide MonthStart;
    MonthsIncrease(leap, 0, m);
    var r := MonthIn(leap, d, 0);
    if r < m { MonthsIncrease(leap, r + 1, m); }
    if m < r { MonthsIncrease(leap, m + 1, r); }
  }

  /** A day number determines a valid date and the date gives the number back. */
  lemma CivilOfDay(day: int)
    ensures ValidDate(CivilOf(day)) && DayOf(CivilOf(day)) == day
  {
    hide DayFromYear, MonthStart, DaysInMonth, IsLeap;
    var y := YearOf(day);
    MonthStep(y, CivilOf(day).month - 1);
  }

  /** A valid date determines a day number and the number gives the date back. */
  lemma DayOfCivil(c: Civil)
    requires ValidDate(c)
    ensures CivilOf(DayOf(c)) == c
  {
    hide DayFromYear, MonthStart, DaysInMonth, IsLeap;
    var day, leap := DayOf(c), IsLeap(c.year);
    MonthStep(c.year, c.month - 1);
    MonthStep(c.year, 0);
    MonthsIncrease(leap, 0, c.month - 1);
    MonthsIncrease(leap, c.month, 12);
    YearStep(c.year);
    YearUnique(day, c.year);
    MonthUnique(leap, day - DayFromYear(c.year), c.month - 1);
  }

  lemma NextDateIsNextDay(c: Civil)
    requires ValidDate(c)
    ensures ValidDate(NextDate(c)) && DayOf(NextDate(c)) == DayOf(c) + 1
  {
    hide DayFromYear, MonthStart, IsLeap;
    YearStep(c.year);
    MonthStep(c.year, c.month - 1);
    MonthStep(c.year, 0);
    MonthStep(c.year + 1, 0);
  }

  /** Day 0 is 1970-01-01. */
  lemma Epoch()
    ensures DayOf(Civil(1970, 1, 1)) == 0
  {
    var y, m := 1970, 0;
    assert DayFromYear(y) == 0 && MonthStart(IsLeap(y), m) == 0;
    hide DayFromYear, MonthStart, IsLeap;
    assert MakeDay(y, m, 1) == 0;
  }

  /** Consecutive day numbers are consecutive calendar dates, across months and leap years. */
  lemma DaysAreConsecutive(day: int)
    ensures CivilOf(day + 1) == NextDate(CivilOf(day))
  {
    CivilOfDay(day);
    hide CivilOf, DayOf, NextDate, ValidDate;
    NextDateIsNextDay(CivilOf(day));
    DayOfCivil(NextDate(CivilOf(day)));
  }

  // ---- Weekdays -----------------------------------------------------------------------------------

  /** A count of weekdays from Sunday, 0, to Saturday, 6: 1970-01-01 is a Thursday, and the weekday moves on by one from
      each date to the next. */
  ghost predicate CountsWeekdays(weekday: Civil -> int) {
    && weekday(Civil(1970, 1, 1)) == 4
    && forall c :: ValidDate(c) ==> 0 <= weekday(c) < 7 && weekday(NextDate(c)) == (weekday(c) + 1) % 7
  }

  /** There is one, and it is the remainder of the day number, shifted, by seven. */
  lemma WeekdaysExist()
    ensures CountsWeekdays(c => (DayOf(c) + 4) % 7)
  {
    hide DayOf, NextDate, ValidDate;
    Epoch();
    forall c | ValidDate(c) ensures (DayOf(NextDate(c)) + 4) % 7 == ((DayOf(c) + 4) % 7 + 1) % 7 {
      NextDateIsNextDay(c);
    }
  }

  lemma {:induction false} WeekdayOfDay(weekday: Civil -> int, day: int)
    requires CountsWeekdays(weekday)
    ensures weekday(CivilOf(day)) == (day + 4) % 7
    decreases if day < 0 then -day else day
  {
    hide CivilOf, CountsWeekdays;
    if day == 0 {
      EpochWeekday(weekday);
    } else if day > 0 {
      WeekdayOfDay(weekday, day - 1);
      NextWeekday(weekday, day - 1);
      SevenSteps(day - 1, weekday(CivilOf(day - 1)));
    } else {
      WeekdayOfDay(weekday, day + 1);
      NextWeekday(weekday, day);
      SevenSteps(day, weekday(CivilOf(day)));
    }
  }

  lemma SevenSteps(day: int, w: int)
    requires 0 <= w < 7
    ensures w == (day + 4) % 7 <==> (w + 1) % 7 == (day + 1 + 4) % 7
  {
  }

  lemma EpochWeekday(weekday: Civil -> int)
    requires CountsWeekdays(weekday)
    ensures weekday(CivilOf(0)) == 4
  {
    hide CivilOf, DayOf, NextDate;
    Epoch();
    EpochIsValid();
    DayOfCivil(Civil(1970, 1, 1));
  }

  lemma NextWeekday(weekday: Civil -> int, day: int)
    requires CountsWeekdays(weekday)
    ensures 0 <= weekday(CivilOf(day)) < 7 && weekday(CivilOf(day + 1)) == (weekday(CivilOf(day)) + 1) % 7
  {
    hide CivilOf, NextDate, ValidDate;
    CivilOfDay(day);
    DaysAreConsecutive(day);
  }

  lemma EpochIsValid()
    ensures ValidDate(Civil(1970, 1, 1))
  {
  }

  // ---- Date keys ----------------------------------------------------------------------------------

  const MIN_DAY := -354285 // 1000-01-01
  const MAX_DAY := 2932896 // 9999-12-31

  predicate InRange(day: int) {
    MIN_DAY <= day <= MAX_DAY
  }

  /** zonedDateKey's text: every part padded. */
  function KeyText(c: Civil): string {
    PadStart(NumberText(c.year), 4) + "-" + PadStart(NumberText(c.month), 2) + "-" + PadStart(NumberText(c.day), 2)
  }

  /** addCalendarDays's text: the year is not padded, and a time value out of range prints NaN. */
  function UtcText(ms: int): string {
    if ms < -MAX_TIME || ms > MAX_TIME then "NaN-NaN-NaN"
    else
      var c := CivilOf(ms / MS_PER_DAY);
      NumberText(c.year) + "-" + PadStart(NumberText(c.month), 2) + "-" + PadStart(NumberText(c.day), 2)
  }

  function Key(day: int): string {
    KeyText(CivilOf(day))
  }

  /** parseDateKey: four, two and two ASCII digits after trimming; the numbers are not range-checked. */
  function ParseDateKey(value: string): Option<Civil> {
    var t := Trim(value);
    if |t| == 10 && t[4] == '-' && t[7] == '-'
       && (forall c <- t[..4] :: IsDigit(c)) && (forall c <- t[5..7] :: IsDigit(c))
       && (forall c <- t[8..] :: IsDigit(c))
    then Some(Civil(DigitsValue(t[..4]), DigitsValue(t[5..7]), DigitsValue(t[8..])))
    else None
  }

  function AddCalendarDays(dateKey: string, days: int): string {
    match ParseDateKey(dateKey)
    case None => dateKey
    case Some(p) => UtcText(DateUtc(p.year, p.month - 1, p.day + days, 0, 0, 0))
  }

  /** dateKeyToUtcDate for a key that parses; any other text goes to the Date constructor. */
  function DateKeyToUtcDate(dateKey: string): Option<int> {
    match ParseDateKey(dateKey)
    case None => None
    case Some(p) => Some(DateUtc(p.year, p.month - 1, p.day, 0, 0, 0))
  }

  /** toISOString().slice(0, 10) for years 0 to 9999. */
  function IsoDate(ms: int): string {
    KeyText(CivilOf(ms / MS_PER_DAY))
  }

  // ---- Keys are a faithful calendar -----------------------------------------------------------------

  lemma RangeIsYears(day: int)
    ensures InRange(day) <==> 1000 <= CivilOf(day).year <= 9999
  {
    assert DayFromYear(1000) == MIN_DAY && DayFromYear(10000) == MAX_DAY + 1;
    hide DayFromYear;
    var y := YearOf(day);
    if y < 1000 { YearsIncrease(y + 1, 1000); }
    if y > 9999 { YearsIncrease(10000, y); }
    if 1000 <= y { YearsIncrease(1000, y); }
    if y <= 9999 { YearsIncrease(y + 1, 10000); }
  }

  lemma PowersOfTen()
    ensures Pow10(2) == 100 && Pow10(3) == 1000 && Pow10(4) == 10000
  {
    assert Pow10(1) == 10;
    assert Pow10(2) == 100;
    assert Pow10(3) == 1000;
  }

  /** In range a key is ten characters of plain digits. */
  lemma KeyIsDigits(day: int)
    requires InRange(day)
    ensures var c := CivilOf(day);
            0 <= c.year < 10000 && 0 <= c.month < 100 && 0 <= c.day < 100
            && Key(day) == Digits(c.year, 4) + "-" + Digits(c.month, 2) + "-" + Digits(c.day, 2)
            && NumberText(c.year) == Digits(c.year, 4)
  {
    RangeIsYears(day);
    CivilOfDay(day);
    PowersOfTen();
    hide CivilOf, DayOf, Digits, Decimal, Pow10, InRange;
    var c := CivilOf(day);
    PadStartIsDigits(c.year, 4);
    PadStartIsDigits(c.month, 2);
    PadStartIsDigits(c.day, 2);
    DecimalLength(c.year, 4);
    DecimalLength(c.year, 3);
  }

  lemma {:induction false} TrimNothing(text: string)
    requires text != "" && !IsSpace(text[0]) && !IsSpace(text[|text| - 1])
    ensures Trim(text) == text
  {
  }

  /** Reading a key gives back its date. */
  lemma ParseOfKey(day: int)
    requires InRange(day)
    ensures ParseDateKey(Key(day)) == Some(CivilOf(day))
  {
    hide CivilOf, Digits, DigitsValue, Decimal, Trim, Pow10, PadStart, KeyText;
    KeyIsDigits(day);
    PowersOfTen();
    var c := CivilOf(day);
    var k := Key(day);
    var ys, ms, ds := Digits(c.year, 4), Digits(c.month, 2), Digits(c.day, 2);
    assert k[..4] == ys && k[5..7] == ms && k[8..] == ds && k[4] == '-' && k[7] == '-';
    assert IsDigit(k[0]) by { assert k[0] == ys[0]; }
    assert IsDigit(k[9]) by { assert k[9] == ds[1]; }
    TrimNothing(k);
    DigitsValueInverse(c.year, 4);
    DigitsValueInverse(c.month, 2);
    DigitsValueInverse(c.day, 2);
  }

  predicate DateBefore(a: Civil, b: Civil) {
    a.year < b.year || (a.year == b.year && (a.month < b.month || (a.month == b.month && a.day < b.day)))
  }

  lemma DateBeforeIsDayOrder(a: Civil, b: Civil)
    requires ValidDate(a) && ValidDate(b)
    ensures DateBefore(a, b) ==> DayOf(a) < DayOf(b)
  {
    hide DayFromYear, MonthStart, IsLeap, DaysInMonth;
    var leap := IsLeap(a.year);
    MonthStep(a.year, a.month - 1);
    MonthStep(a.year, 0);
    MonthStep(b.year, 0);
    MonthsIncrease(leap, a.month, 12);
    MonthsIncrease(IsLeap(b.year), 0, b.month - 1);
    YearStep(a.year);
    if a.year < b.year { YearsIncrease(a.year + 1, b.year); }
    else if a.month < b.month { MonthsIncrease(leap, a.month, b.month - 1); }
  }

  /** String order of keys is day order: what every `<` on date keys relies on. */
  lemma KeyOrder(a: int, b: int)
    requires InRange(a) && InRange(b)
    ensures Less(Key(a), Key(b)) <==> a < b
    ensures Key(a) == Key(b) <==> a == b
  {
    KeyIsDigits(a);
    KeyIsDigits(b);
    PowersOfTen();
    var c, d := CivilOf(a), CivilOf(b);
    KeyLess(c, d);
    CivilOfDay(a);
    CivilOfDay(b);
    DateBeforeIsDayOrder(c, d);
    DateBeforeIsDayOrder(d, c);
    ParseOfKey(a);
    ParseOfKey(b);
    if a == b { LessIrreflexive(Key(a)); }
  }

  lemma KeyLess(c: Civil, d: Civil)
    requires 0 <= c.year < Pow10(4) && 0 <= c.month < Pow10(2) && 0 <= c.day < Pow10(2)
    requires 0 <= d.year < Pow10(4) && 0 <= d.month < Pow10(2) && 0 <= d.day < Pow10(2)
    ensures DateBefore(c, d)
       <==> Less(Digits(c.year, 4) + "-" + Digits(c.month, 2) + "-" + Digits(c.day, 2),
                 Digits(d.year, 4) + "-" + Digits(d.month, 2) + "-" + Digits(d.day, 2))
  {
    var y1, m1, d1 := Digits(c.year, 4), Digits(c.month, 2), Digits(c.day, 2);
    var y2, m2, d2 := Digits(d.year, 4), Digits(d.month, 2), Digits(d.day, 2);
    DigitsOrder(c.year, d.year, 4);
    DigitsOrder(c.month, d.month, 2);
    DigitsOrder(c.day, d.day, 2);
    LessSplit(y1 + "-" + m1 + "-", d1, y2 + "-" + m2 + "-", d2);
    LessSplit(y1 + "-" + m1, "-", y2 + "-" + m2, "-");
    LessSplit(y1 + "-", m1, y2 + "-", m2);
    LessSplit(y1, "-", y2, "-");
    LessSingle('-', '-');
    SamePrefix(y1, y2, m1, m2);
  }

  lemma SamePrefix(y1: string, y2: string, m1: string, m2: string)
    requires |y1| == |y2| && |m1| == |m2|
    ensures y1 + "-" == y2 + "-" <==> y1 == y2
    ensures y1 + "-" + m1 == y2 + "-" + m2 <==> y1 == y2 && m1 == m2
    ensures y1 + "-" + m1 + "-" == y2 + "-" + m2 + "-" <==> y1 == y2 && m1 == m2
  {
    assert y1 == (y1 + "-")[..|y1|] && y2 == (y2 + "-")[..|y1|];
    assert y1 == (y1 + "-" + m1)[..|y1|] && m1 == (y1 + "-" + m1)[|y1| + 1..];
    assert y2 == (y2 + "-" + m2)[..|y1|] && m2 == (y2 + "-" + m2)[|y1| + 1..];
    var n := |y1| + 1 + |m1|;
    assert y1 + "-" + m1 == (y1 + "-" + m1 + "-")[..n] && y2 + "-" + m2 == (y2 + "-" + m2 + "-")[..n];
  }

  lemma UtcOfKey(day: int, days: int)
    requires InRange(day)
    ensures var c := CivilOf(day); DateUtc(c.year, c.month - 1, c.day + days, 0, 0, 0) == (day + days) * MS_PER_DAY
  {
    RangeIsYears(day);
    CivilOfDay(day);
    hide CivilOf, DayFromYear, MonthStart, IsLeap, InRange;
    MakeDayShift(CivilOf(day), days);
  }

  lemma MakeDayShift(c: Civil, days: int)
    ensures MakeDay(c.year, c.month - 1, c.day + days) == DayOf(c) + days
  {
    hide DayFromYear, MonthStart, IsLeap;
  }

  lemma NaNDoesNotParse()
    ensures ParseDateKey("NaN-NaN-NaN").None?
  {
    TrimNothing("NaN-NaN-NaN");
  }

  lemma UtcTextIsKey(day: int)
    requires InRange(day)
    ensures UtcText(day * MS_PER_DAY) == Key(day)
  {
    hide CivilOf, Digits, Decimal;
    KeyIsDigits(day);
    assert day * MS_PER_DAY / MS_PER_DAY == day;
  }

  /** addCalendarDays is addition on day numbers, across months and leap years, for every shift that stays in
      years 1000 to 9999 - and only then does its result still parse. */
  lemma AddIsDayAddition(day: int, days: int)
    requires InRange(day)
    ensures InRange(day + days) ==> AddCalendarDays(Key(day), days) == Key(day + days)
    ensures InRange(day + days) <==> ParseDateKey(AddCalendarDays(Key(day), days)).Some?
  {
    hide CivilOf, ParseDateKey, DateUtc, Key, InRange, PadStart, NumberText;
    ParseOfKey(day);
    UtcOfKey(day, days);
    var ms := (day + days) * MS_PER_DAY;
    assert ms / MS_PER_DAY == day + days;
    if InRange(day + days) {
      UtcTextIsKey(day + days);
      ParseOfKey(day + days);
    } else if ms < -MAX_TIME || ms > MAX_TIME {
      assert UtcText(ms) == "NaN-NaN-NaN";
      NaNDoesNotParse();
    } else {
      UnparsableText(day + days);
    }
  }

  /** Hence shifts compose as long as the first one stays in range. */
  lemma AddComposes(day: int, m: int, n: int)
    requires InRange(day) && InRange(day + m) && InRange(day + m + n)
    ensures AddCalendarDays(AddCalendarDays(Key(day), m), n) == AddCalendarDays(Key(day), m + n)
  {
    hide AddCalendarDays, Key, ParseDateKey;
    AddIsDayAddition(day, m);
    AddIsDayAddition(day + m, n);
    AddIsDayAddition(day, m + n);
  }

  lemma {:induction false} DecimalLength(n: nat, w: nat)
    requires w > 0
    ensures |Decimal(n)| <= w <==> n < Pow10(w)
    ensures IsDigit(Decimal(n)[0])
  {
    assert Pow10(1) == 10;
    if n >= 10 {
      if w > 1 { DecimalLength(n / 10, w - 1); } else { DecimalLength(n / 10, 1); }
    } else if w > 1 {
      DecimalLength(n, w - 1);
    }
  }

  lemma SignOrDigit(n: int)
    ensures |NumberText(n)| >= 1
    ensures n < 0 ==> NumberText(n)[0] == '-'
    ensures n >= 0 ==> IsDigit(NumberText(n)[0])
    ensures 0 <= n ==> (|NumberText(n)| == 4 <==> 1000 <= n <= 9999)
  {
    PowersOfTen();
    if n >= 0 {
      DecimalLength(n, 4);
      DecimalLength(n, 3);
    }
  }

  /** Outside years 1000 to 9999 the unpadded year breaks the shape of the key. */
  lemma UnparsableText(day: int)
    requires !InRange(day)
    ensures var c := CivilOf(day);
            ParseDateKey(NumberText(c.year) + "-" + PadStart(NumberText(c.month), 2)
                         + "-" + PadStart(NumberText(c.day), 2)).None?
  {
    hide CivilOf, DayOf, Digits, Decimal, Trim, Pow10, InRange, PadStart, NumberText;
    RangeIsYears(day);
    CivilOfDay(day);
    PowersOfTen();
    var c := CivilOf(day);
    PadStartIsDigits(c.month, 2);
    PadStartIsDigits(c.day, 2);
    SignOrDigit(c.year);
    assert NumberText(c.month) == Decimal(c.month) && NumberText(c.day) == Decimal(c.day) by {
      DecimalIsText(c.month);
      DecimalIsText(c.day);
    }
    var ys, ms, ds := NumberText(c.year), Digits(c.month, 2), Digits(c.day, 2);
    var t := ys + "-" + ms + "-" + ds;
    assert t[0] == ys[0] && t[|t| - 1] == ds[1];
    assert |t| == |ys| + 6;
    assert ds[1] in ds;
    assert t[0] in t[..4];
    if c.year < 0 {
      assert t[0] == '-';
      TrimNothing(t);
    } else {
      assert IsDigit(t[0]);
      TrimNothing(t);
    }
  }

  lemma DecimalIsText(n: nat)
    ensures NumberText(n) == Decimal(n)
  {
  }

  /** key -> UTC date -> key is the identity: an attendance row's occurrence date keeps its calendar day. */
  lemma KeyRoundTrip(day: int)
    requires InRange(day)
    ensures DateKeyToUtcDate(Key(day)) == Some(day * MS_PER_DAY)
    ensures IsoDate(day * MS_PER_DAY) == Key(day)
  {
    hide CivilOf, ParseDateKey, DateUtc;
    ParseOfKey(day);
    UtcOfKey(day, 0);
    assert day * MS_PER_DAY / MS_PER_DAY == day;
  }
}
