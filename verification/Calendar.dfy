/**
 * Day numbers (0 is 1970-01-01) and dates of the Gregorian calendar, in both directions.  The program
 * divides with truncation toward zero and corrects the dividend of a negative number first.
 */
module Calendar {

  datatype Date = Date(year: int, month: int, day: int)

  // ---- The calendar ------------------------------------------------------------------------------

  predicate Leap(year: int) {
    year % 4 == 0 && (year % 100 != 0 || year % 400 == 0)
  }

  function DaysInMonth(year: int, month: int): int {
    if month == 2 then (if Leap(year) then 29 else 28)
    else if month in {4, 6, 9, 11} then 30
    else 31
  }

  predicate ValidDate(d: Date) {
    1 <= d.month <= 12 && 1 <= d.day <= DaysInMonth(d.year, d.month)
  }

  function Successor(d: Date): Date {
    if d.day < DaysInMonth(d.year, d.month) then Date(d.year, d.month, d.day + 1)
    else if d.month < 12 then Date(d.year, d.month + 1, 1)
    else Date(d.year + 1, 1, 1)
  }

  // ---- What the program computes -----------------------------------------------------------------

  /** Division that truncates toward zero. */
  function Div(a: int, b: int): int
    requires b > 0
  {
    if a >= 0 then a / b else -(-a / b)
  }

  function YearOfEra(doe: int): int {
    (doe - doe / 1460 + doe / 36524 - doe / 146096) / 365
  }

  function CivilFromDays(days: int): Date {
    var z := days + 719468;
    var era := Div(if z >= 0 then z else z - 146096, 146097);
    var doe := z - era * 146097;
    var yoe := YearOfEra(doe);
    var y := yoe + era * 400;
    var doy := doe - (365 * yoe + yoe / 4 - yoe / 100);
    var mp := (5 * doy + 2) / 153;
    var day := doy - (153 * mp + 2) / 5 + 1;
    var month := mp + (if mp < 10 then 3 else -9);
    Date(y + (if month <= 2 then 1 else 0), month, day)
  }

  function DaysFromCivil(d: Date): int {
    var year := d.year - (if d.month <= 2 then 1 else 0);
    var era := Div(if year >= 0 then year else year - 399, 400);
    var yearOfEra := year - era * 400;
    var adjustedMonth := d.month + (if d.month > 2 then -3 else 9);
    var dayOfYear := (153 * adjustedMonth + 2) / 5 + d.day - 1;
    var dayOfEra := yearOfEra * 365 + yearOfEra / 4 - yearOfEra / 100 + dayOfYear;
    era * 146097 + dayOfEra - 719468
  }

  // ---- Years that begin in March, counted from 0 in an era of 400 ---------------------------------

  /** Does the March year end with a 29 February? */
  predicate EndsLong(yoe: int) {
    (yoe + 1) % 4 == 0 && ((yoe + 1) % 100 != 0 || yoe == 399)
  }

  function LastDay(yoe: int): int {
    if EndsLong(yoe) then 365 else 364
  }

  function YearStart(yoe: int): int {
    365 * yoe + yoe / 4 - yoe / 100
  }

  /** Truncating after the correction is rounding down: an era and the days into it. */
  lemma EraOfDays(z: int, era: int, doe: int)
    requires z == era * 146097 + doe && 0 <= doe < 146097
    ensures Div(if z >= 0 then z else z - 146096, 146097) == era
  {
  }

  lemma EraOfYear(year: int, era: int, yoe: int)
    requires year == era * 400 + yoe && 0 <= yoe < 400
    ensures Div(if year >= 0 then year else year - 399, 400) == era
  {
  }

  /** A day of an era, split into century, four-year cycle, year of the cycle and day of the year. */
  lemma YearOfEraSplit(c: int, q: int, r: int, doy: int)
    requires 0 <= c < 4 && 0 <= q < 25 && 0 <= r < 4 && 0 <= doy <= 365
    requires doy == 365 ==> r == 3 && (q < 24 || c == 3)
    ensures YearOfEra(36524 * c + 1461 * q + 365 * r + doy) == 100 * c + 4 * q + r
  {
    var doe := 36524 * c + 1461 * q + 365 * r + doy;
    var over := 24 * c + q + 365 * r + doy;
    var k := if over >= 1460 then 1 else 0;
    assert doe == 1460 * (25 * c + q) + over;
    assert doe / 1460 == 25 * c + q + k;
    var within := 1461 * q + 365 * r + doy;
    assert within <= 36524;
    assert doe / 36524 - doe / 146096 == c;
    assert doe - doe / 1460 + doe / 36524 - doe / 146096 == 365 * (100 * c + 4 * q + r) + doy - k;
  }

  lemma YearStartSplit(c: int, q: int, r: int)
    requires 0 <= c < 4 && 0 <= q < 25 && 0 <= r < 4
    ensures YearStart(100 * c + 4 * q + r) == 36524 * c + 1461 * q + 365 * r
    ensures EndsLong(100 * c + 4 * q + r) <==> r == 3 && (q < 24 || c == 3)
  {
    var n := 100 * c + 4 * q + r;
    assert n / 4 == 25 * c + q && n / 100 == c;
    assert n + 1 == 4 * (25 * c + q) + (r + 1);
    assert n + 1 == 100 * c + (4 * q + r + 1);
  }

  /** From year and day of the year to the day of the era and back. */
  lemma DayOfEraRoundTrip(yoe: int, doy: int)
    requires 0 <= yoe < 400 && 0 <= doy <= LastDay(yoe)
    ensures 0 <= YearStart(yoe) + doy < 146097
    ensures YearOfEra(YearStart(yoe) + doy) == yoe
  {
    var c, q, r := yoe / 100, yoe % 100 / 4, yoe % 4;
    assert yoe == 100 * c + 4 * q + r;
    YearStartSplit(c, q, r);
    YearOfEraSplit(c, q, r, doy);
  }

  /** Every day of an era lies in the year the formula finds for it. */
  lemma DayOfEraSplit(doe: int)
    requires 0 <= doe < 146097
    ensures var yoe := YearOfEra(doe);
      0 <= yoe < 400 && 0 <= doe - YearStart(yoe) <= LastDay(yoe)
  {
    var c := if doe == 146096 then 3 else doe / 36524;
    var inCentury := doe - 36524 * c;
    var q := if inCentury == 36524 then 24 else inCentury / 1461;
    var inCycle := inCentury - 1461 * q;
    var r := if inCycle == 1460 then 3 else inCycle / 365;
    var doy := inCycle - 365 * r;
    assert 0 <= c < 4 && 0 <= inCentury <= 36524;
    assert 0 <= q < 25 && 0 <= inCycle <= 1460;
    YearOfEraSplit(c, q, r, doy);
    YearStartSplit(c, q, r);
  }

  // ---- Months from March ---------------------------------------------------------------------------

  function MonthStart(mp: int): int {
    (153 * mp + 2) / 5
  }

  function MonthOf(mp: int): int {
    mp + (if mp < 10 then 3 else -9)
  }

  /** The day of a March year and its month, both ways. */
  lemma MonthSplit(doy: int, mp: int, day: int)
    requires 0 <= mp < 12 && 1 <= day <= (if mp == 11 then 29 else DaysInMonth(1, MonthOf(mp)))
    requires doy == MonthStart(mp) + day - 1
    ensures (5 * doy + 2) / 153 == mp && 0 <= doy <= 365
    ensures mp == 11 ==> (day == 29 <==> doy == 365)
    ensures mp < 11 ==> doy < 337
  {
  }

  lemma DayOfYearSplit(doy: int)
    requires 0 <= doy <= 365
    ensures var mp := (5 * doy + 2) / 153;
      var day := doy - MonthStart(mp) + 1;
      0 <= mp < 12 && 1 <= day <= (if mp == 11 then (if doy == 365 then 29 else 28) else DaysInMonth(1, MonthOf(mp)))
  {
  }

  // ---- Both directions -----------------------------------------------------------------------------

  lemma EraRemainders(era: int, n: int)
    ensures (era * 400 + n) % 4 == n % 4
    ensures (era * 400 + n) % 100 == n % 100
    ensures (era * 400 + n) % 400 == n % 400
  {
    Remainder4(100 * era, n);
    Remainder100(4 * era, n);
  }

  lemma Remainder4(k: int, n: int)
    ensures (4 * k + n) % 4 == n % 4
  {
  }

  lemma Remainder100(k: int, n: int)
    ensures (100 * k + n) % 100 == n % 100
  {
  }

  lemma LeapOfEra(era: int, yoe: int)
    requires 0 <= yoe < 400
    ensures Leap(era * 400 + yoe + 1) <==> EndsLong(yoe)
  {
    EraRemainders(era, yoe + 1);
  }

  /** A March year, given by era and year of the era, and a month and day in it, as a date. */
  function DateAt(era: int, yoe: int, mp: int, day: int): Date {
    Date(era * 400 + yoe + (if MonthOf(mp) <= 2 then 1 else 0), MonthOf(mp), day)
  }

  lemma CivilAt(days: int, era: int, doe: int, yoe: int, mp: int, day: int)
    requires days + 719468 == era * 146097 + doe && 0 <= doe < 146097
    requires yoe == YearOfEra(doe) && mp == (5 * (doe - YearStart(yoe)) + 2) / 153
    requires day == doe - YearStart(yoe) - MonthStart(mp) + 1
    ensures CivilFromDays(days) == DateAt(era, yoe, mp, day)
  {
    EraOfDays(days + 719468, era, doe);
  }

  /** The length of a month by its place. */
  function Length(yoe: int, mp: int): int {
    if mp == 11 then (if EndsLong(yoe) then 29 else 28) else DaysInMonth(1, MonthOf(mp))
  }

  lemma LengthAt(era: int, yoe: int, mp: int, day: int)
    requires 0 <= yoe < 400 && 0 <= mp < 12
    ensures var d := DateAt(era, yoe, mp, day);
      1 <= d.month <= 12 && DaysInMonth(d.year, d.month) == Length(yoe, mp)
  {
    LeapOfEra(era, yoe);
  }

  function NumberAt(era: int, yoe: int, mp: int, day: int): int {
    era * 146097 + YearStart(yoe) + MonthStart(mp) + day - 1 - 719468
  }

  lemma DaysAt(era: int, yoe: int, mp: int, day: int)
    requires 0 <= yoe < 400 && 0 <= mp < 12
    ensures DaysFromCivil(DateAt(era, yoe, mp, day)) == NumberAt(era, yoe, mp, day)
  {
    EraOfYear(era * 400 + yoe, era, yoe);
  }

  /** Every date is at one place in one era. */
  lemma PlaceOf(d: Date) returns (era: int, yoe: int, mp: int)
    requires ValidDate(d)
    ensures d == DateAt(era, yoe, mp, d.day) && 0 <= yoe < 400 && 0 <= mp < 12
    ensures 1 <= d.day <= Length(yoe, mp) == DaysInMonth(d.year, d.month)
  {
    var year := d.year - (if d.month <= 2 then 1 else 0);
    era, yoe := year / 400, year % 400;
    mp := d.month + (if d.month > 2 then -3 else 9);
    LengthAt(era, yoe, mp, d.day);
  }

  /** Where a day number's date is. */
  lemma PlaceOfNumber(days: int) returns (era: int, yoe: int, mp: int, day: int)
    ensures 0 <= yoe < 400 && 0 <= mp < 12 && 1 <= day <= Length(yoe, mp)
    ensures CivilFromDays(days) == DateAt(era, yoe, mp, day) && NumberAt(era, yoe, mp, day) == days
  {
    var doe;
    era, doe := SplitEra(days);
    yoe := YearOfEra(doe);
    var doy := doe - YearStart(yoe);
    mp := (5 * doy + 2) / 153;
    day := doy - MonthStart(mp) + 1;
    assert 0 <= yoe < 400 && 0 <= doy <= LastDay(yoe) by { DayOfEraSplit(doe); }
    assert 0 <= mp < 12 && 1 <= day <= Length(yoe, mp) by { DayOfYearSplit(doy); }
    assert CivilFromDays(days) == DateAt(era, yoe, mp, day) by { CivilAt(days, era, doe, yoe, mp, day); }
  }

  lemma SplitEra(days: int) returns (era: int, doe: int)
    ensures days + 719468 == era * 146097 + doe && 0 <= doe < 146097
  {
    era, doe := (days + 719468) / 146097, (days + 719468) % 146097;
  }

  /** Every day number is a date of the calendar, and that date's number is the day. */
  lemma DaysRoundTrip(days: int)
    ensures ValidDate(CivilFromDays(days))
    ensures DaysFromCivil(CivilFromDays(days)) == days
  {
    var era, yoe, mp, day := PlaceOfNumber(days);
    var d := DateAt(era, yoe, mp, day);
    assert DaysFromCivil(d) == days by { DaysAt(era, yoe, mp, day); }
    assert ValidDate(d) by { LengthAt(era, yoe, mp, day); }
  }

  /** Every date of the calendar comes back from its day number. */
  lemma DateRoundTrip(d: Date)
    requires ValidDate(d)
    ensures CivilFromDays(DaysFromCivil(d)) == d
  {
    var era, yoe, mp := PlaceOf(d);
    var doy := MonthStart(mp) + d.day - 1;
    var doe := YearStart(yoe) + doy;
    assert (5 * doy + 2) / 153 == mp && 0 <= doy <= LastDay(yoe) by { MonthSplit(doy, mp, d.day); }
    assert 0 <= doe < 146097 && YearOfEra(doe) == yoe by { DayOfEraRoundTrip(yoe, doy); }
    var days := DaysFromCivil(d);
    assert days == NumberAt(era, yoe, mp, d.day) by { DaysAt(era, yoe, mp, d.day); }
    assert CivilFromDays(days) == DateAt(era, yoe, mp, d.day) by { CivilAt(days, era, doe, yoe, mp, d.day); }
  }

  /** The March year after a year of an era begins one day after its last. */
  lemma NextYearStart(yoe: int)
    requires 0 <= yoe < 400
    ensures yoe < 399 ==> YearStart(yoe + 1) == YearStart(yoe) + LastDay(yoe) + 1
    ensures yoe == 399 ==> YearStart(yoe) + LastDay(yoe) + 1 == 146097
  {
  }

  /** Where the day after is. */
  lemma PlaceOfSuccessor(era: int, yoe: int, mp: int, day: int) returns (era': int, yoe': int, mp': int, day': int)
    requires 0 <= yoe < 400 && 0 <= mp < 12 && 1 <= day <= Length(yoe, mp)
    ensures 0 <= yoe' < 400 && 0 <= mp' < 12 && 1 <= day' <= Length(yoe', mp')
    ensures Successor(DateAt(era, yoe, mp, day)) == DateAt(era', yoe', mp', day')
    ensures NumberAt(era', yoe', mp', day') == NumberAt(era, yoe, mp, day) + 1
  {
    LengthAt(era, yoe, mp, day);
    if day < Length(yoe, mp) {
      era', yoe', mp', day' := era, yoe, mp, day + 1;
    } else if mp < 11 {
      era', yoe', mp', day' := era, yoe, mp + 1, 1;
      MonthLength(mp);
    } else {
      era', yoe' := if yoe < 399 then era else era + 1, if yoe < 399 then yoe + 1 else 0;
      mp', day' := 0, 1;
      NextYearStart(yoe);
    }
  }

  /** The day after a date has the next number. */
  lemma SuccessorNumber(d: Date)
    requires ValidDate(d)
    ensures ValidDate(Successor(d))
    ensures DaysFromCivil(Successor(d)) == DaysFromCivil(d) + 1
  {
    var era, yoe, mp := PlaceOf(d);
    var era', yoe', mp', day' := PlaceOfSuccessor(era, yoe, mp, d.day);
    var e := DateAt(era', yoe', mp', day');
    assert DaysFromCivil(d) == NumberAt(era, yoe, mp, d.day) by { DaysAt(era, yoe, mp, d.day); }
    assert DaysFromCivil(e) == NumberAt(era', yoe', mp', day') by { DaysAt(era', yoe', mp', day'); }
    assert ValidDate(e) by { LengthAt(era', yoe', mp', day'); }
  }

  lemma MonthLength(mp: int)
    requires 0 <= mp < 11
    ensures MonthStart(mp + 1) == MonthStart(mp) + DaysInMonth(1, MonthOf(mp))
  {
  }

  /** Counting days and turning the calendar's pages are the same thing. */
  lemma NextDay(days: int)
    ensures CivilFromDays(days + 1) == Successor(CivilFromDays(days))
  {
    var d := CivilFromDays(days);
    var e := Successor(d);
    assert ValidDate(d) && DaysFromCivil(d) == days by { DaysRoundTrip(days); }
    assert ValidDate(e) && DaysFromCivil(e) == days + 1 by { SuccessorNumber(d); }
    assert CivilFromDays(DaysFromCivil(e)) == e by { DateRoundTrip(e); }
  }
}
