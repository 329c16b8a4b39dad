/**
 * OLE Automation dates, as days since 1899-12-30 with the time as a fraction of a day, and their way
 * back to a date and a time of day.  Doubles are exact reals here, and seconds are whole.
 */
module OleDate {
  import opened Calendar

  const UNIX_DAY := 25569
  const DAY_SECONDS := 86400

  datatype FieldKind = DateTimeField | DateField | TimeField

  datatype Moment = Moment(date: Date, hour: int, minute: int, second: int)

  predicate ValidMoment(m: Moment) {
    ValidDate(m.date) && 0 <= m.hour < 24 && 0 <= m.minute < 60 && 0 <= m.second < 60
  }

  function SecondOfDay(m: Moment): int {
    m.hour * 3600 + m.minute * 60 + m.second
  }

  /** The value stored for a moment; a time field drops the date, a date field the time. */
  function OleDateValue(m: Moment, kind: FieldKind): real {
    var fraction := SecondOfDay(m) as real / 86400.0;
    if kind == TimeField then fraction
    else
      var date := DaysFromCivil(m.date) as real + 25569.0;
      if kind == DateField then date else date + fraction
  }

  /** Rounding toward zero, as modf splits off the whole part. */
  function Truncate(x: real): int {
    if x >= 0.0 then x.Floor else -(-x).Floor
  }

  /** Rounding to the nearest whole number, halves away from zero. */
  function Round(x: real): int {
    if x >= 0.0 then (x + 0.5).Floor else -(-x + 0.5).Floor
  }

  /** Seconds since 1970-01-01 00:00:00. */
  function OleToTimepoint(ole: real): int {
    var whole := Truncate(ole);
    var frac := ole - whole as real;
    var corrected := if ole < 0.0 && frac != 0.0 then whole + 1 else whole;
    (corrected - UNIX_DAY) * DAY_SECONDS + Round((ole - corrected as real) * 86400.0)
  }

  /** Days and seconds of the day, the way the formatter splits them. */
  function SplitSeconds(total: int): (int, int) {
    var days := if total >= 0 then total / DAY_SECONDS else Div(total - 86399, DAY_SECONDS);
    var rem := total - days * DAY_SECONDS;
    if rem < 0 then (days - 1, rem + DAY_SECONDS) else (days, rem)
  }

  function MomentAt(days: int, rem: int): Moment {
    Moment(CivilFromDays(days), rem / 3600, rem % 3600 / 60, rem % 60)
  }

  function MomentOf(total: int): Moment {
    MomentAt(SplitSeconds(total).0, SplitSeconds(total).1)
  }

  lemma RoundNearest(x: real)
    ensures -0.5 <= Round(x) as real - x <= 0.5
  {
  }

  /** Scaling days to seconds goes through the whole part unharmed. */
  lemma ScaleWhole(ole: real, w: int)
    ensures (ole - w as real) * 86400.0 == ole * 86400.0 - (w * 86400) as real
  {
  }

  /**
   * Whatever the sign, and whichever whole part the correction for negative dates picks, the answer is
   * the second nearest to the exact instant.
   */
  lemma NearestSecond(ole: real)
    ensures -0.5 <= OleToTimepoint(ole) as real - (ole - 25569.0) * 86400.0 <= 0.5
  {
    var whole := Truncate(ole);
    var corrected := if ole < 0.0 && ole - whole as real != 0.0 then whole + 1 else whole;
    ScaleWhole(ole, corrected);
    RoundNearest((ole - corrected as real) * 86400.0);
  }

  /** A whole number of seconds is met exactly, before 1899-12-30 and before 1970 as well. */
  lemma ExactSeconds(ole: real, n: int)
    requires ole * 86400.0 == n as real
    ensures OleToTimepoint(ole) == n - UNIX_DAY * DAY_SECONDS
  {
    NearestSecond(ole);
    assert (ole - 25569.0) * 86400.0 == (n - UNIX_DAY * DAY_SECONDS) as real;
  }

  /** Half a second goes away from 1899-12-30: up from there on, down before. */
  lemma HalfSeconds(ole: real, n: int)
    requires ole * 86400.0 == n as real + 0.5
    ensures OleToTimepoint(ole) == (if ole >= 0.0 then n + 1 else n) - UNIX_DAY * DAY_SECONDS
  {
    var whole := Truncate(ole);
    var corrected := if ole < 0.0 && ole - whole as real != 0.0 then whole + 1 else whole;
    ScaleWhole(ole, corrected);
  }

  /** The split is by rounding down: its remainder is a second of the day, and its last correction never runs. */
  lemma SplitIsFloor(total: int)
    ensures var (days, rem) := SplitSeconds(total);
      && total == days * DAY_SECONDS + rem
      && 0 <= rem < DAY_SECONDS
    ensures total < 0 ==> total - Div(total - 86399, DAY_SECONDS) * DAY_SECONDS >= 0
  {
  }

  lemma SplitAt(days: int, rem: int)
    requires 0 <= rem < DAY_SECONDS
    ensures SplitSeconds(days * DAY_SECONDS + rem) == (days, rem)
  {
  }

  lemma TimeOfDay(h: int, mi: int, s: int)
    requires 0 <= h < 24 && 0 <= mi < 60 && 0 <= s < 60
    ensures var rem := h * 3600 + mi * 60 + s;
      0 <= rem < DAY_SECONDS && rem / 3600 == h && rem % 3600 / 60 == mi && rem % 60 == s
  {
  }

  lemma SecondsOfRemainder(rem: int)
    requires 0 <= rem < DAY_SECONDS
    ensures 0 <= rem / 3600 < 24 && rem / 3600 * 3600 + rem % 3600 / 60 * 60 + rem % 60 == rem
  {
    assert rem % 60 == rem % 3600 % 60;
  }

  /** Every second since or before 1970 is a moment of the calendar. */
  lemma EverySecondIsAMoment(total: int)
    ensures ValidMoment(MomentOf(total))
    ensures DaysFromCivil(MomentOf(total).date) * DAY_SECONDS + SecondOfDay(MomentOf(total)) == total
  {
    var days, rem := SplitSeconds(total).0, SplitSeconds(total).1;
    assert total == days * DAY_SECONDS + rem && 0 <= rem < DAY_SECONDS by { SplitIsFloor(total); }
    var m := MomentAt(days, rem);
    assert ValidDate(m.date) && DaysFromCivil(m.date) == days by { DaysRoundTrip(days); }
    assert ValidMoment(m) && SecondOfDay(m) == rem by { SecondsOfRemainder(rem); }
  }

  /** What reading a stored field back shows. */
  function Shown(m: Moment, kind: FieldKind): Moment {
    match kind
    case DateTimeField => m
    case DateField => Moment(m.date, 0, 0, 0)
    case TimeField => Moment(Date(1899, 12, 30), m.hour, m.minute, m.second)
  }

  lemma Epoch()
    ensures ValidDate(Date(1899, 12, 30)) && DaysFromCivil(Date(1899, 12, 30)) == -UNIX_DAY
    ensures DaysFromCivil(Date(1970, 1, 1)) == 0
  {
  }

  lemma MomentFrom(days: int, m: Moment, total: int)
    requires CivilFromDays(days) == m.date && 0 <= m.hour < 24 && 0 <= m.minute < 60 && 0 <= m.second < 60
    requires total == days * DAY_SECONDS + SecondOfDay(m)
    ensures MomentOf(total) == m
  {
    TimeOfDay(m.hour, m.minute, m.second);
    SplitAt(days, SecondOfDay(m));
  }

  /** A moment's number of seconds leads back to the moment. */
  lemma MomentRoundTrip(m: Moment, total: int)
    requires ValidMoment(m) && total == DaysFromCivil(m.date) * DAY_SECONDS + SecondOfDay(m)
    ensures MomentOf(total) == m
  {
    var days := DaysFromCivil(m.date);
    assert CivilFromDays(days) == m.date by { DateRoundTrip(m.date); }
    MomentFrom(days, m, total);
  }

  lemma SecondsOfValue(days: int, second: int)
    ensures DaysValue(days, second) * 86400.0 == (days * 86400 + second + 25569 * 86400) as real
  {
  }

  function DaysValue(days: int, second: int): real {
    days as real + 25569.0 + second as real / 86400.0
  }

  lemma ValueOfShown(m: Moment, kind: FieldKind)
    ensures OleDateValue(m, kind) == DaysValue(DaysFromCivil(Shown(m, kind).date), SecondOfDay(Shown(m, kind)))
  {
    Epoch();
  }

  lemma ReadBack(days: int, second: int)
    ensures OleToTimepoint(DaysValue(days, second)) == days * DAY_SECONDS + second
  {
    SecondsOfValue(days, second);
    ExactSeconds(DaysValue(days, second), days * 86400 + second + 25569 * 86400);
  }

  lemma ShownIsValid(m: Moment, kind: FieldKind)
    requires ValidMoment(m)
    ensures ValidMoment(Shown(m, kind))
  {
  }

  lemma StoredSeconds(m: Moment, kind: FieldKind)
    ensures var shown := Shown(m, kind);
      OleToTimepoint(OleDateValue(m, kind)) == DaysFromCivil(shown.date) * DAY_SECONDS + SecondOfDay(shown)
  {
    var days, second := DaysFromCivil(Shown(m, kind).date), SecondOfDay(Shown(m, kind));
    ValueOfShown(m, kind);
    ReadBack(days, second);
  }

  /** Stored and read back: every year, month, day, hour, minute and second that the field keeps. */
  lemma OleRoundTrip(m: Moment, kind: FieldKind)
    requires ValidMoment(m)
    ensures MomentOf(OleToTimepoint(OleDateValue(m, kind))) == Shown(m, kind)
  {
    StoredSeconds(m, kind);
    ShownIsValid(m, kind);
    MomentRoundTrip(Shown(m, kind), OleToTimepoint(OleDateValue(m, kind)));
  }
}
