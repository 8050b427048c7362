/** Dates (http_date.c): the conversion of a broken-down date to seconds, and IMF-fixdate text. */
module HttpDate {
  import opened Bytes

  /** struct tm, with tm_mon from 0 and tm_year from 1900. */
  datatype Tm = Tm(year: int, mon: int, mday: int, hour: int, min: int, sec: int, wday: int)

  // ---------------------------------------------------------------- the calendar

  predicate Leap(y: int) { y % 4 == 0 && (y % 100 != 0 || y % 400 == 0) }

  function MonthLength(y: int, m: int): (n: int)
    requires 1 <= m <= 12
    ensures 28 <= n <= 31
  {
    if m == 2 then (if Leap(y) then 29 else 28) else if m == 4 || m == 6 || m == 9 || m == 11 then 30 else 31
  }

  predicate ValidDate(y: int, m: int, d: int) { 1 <= m <= 12 && 1 <= d <= MonthLength(y, m) }

  /** Days from the start of 1970 to the start of a year, counted year by year. */
  function YearStart(y: int): int
    decreases if y < 1970 then 1970 - y else y - 1970
  {
    if y == 1970 then 0
    else if y > 1970 then YearStart(y - 1) + (if Leap(y - 1) then 366 else 365)
    else YearStart(y + 1) - (if Leap(y) then 366 else 365)
  }

  /** Days from the start of a year to the start of a month, counted month by month. */
  function MonthStart(y: int, m: int): int
    requires 1 <= m <= 12
    decreases m
  {
    if m == 1 then 0 else MonthStart(y, m - 1) + MonthLength(y, m - 1)
  }

  /** The day number in the proleptic Gregorian calendar; day 0 is 1970-01-01. */
  function DayNumber(y: int, m: int, d: int): int
    requires 1 <= m <= 12
  {
    YearStart(y) + MonthStart(y, m) + d - 1
  }

  // ---------------------------------------------------------------- timegm

  /** Division of C, towards zero. */
  function Quot(a: int, b: int): int
    requires b > 0
  {
    if a >= 0 then a / b else -((-a) / b)
  }

  /** The year that starts in March, in which a month lies. */
  function MarchYear(y: int, m: int): int { if m <= 2 then y - 1 else y }

  /** days_since_1970 */
  function CivilDays(y0: int, m: int, d: int): int {
    var y := MarchYear(y0, m);
    var era := Quot(y, 400);
    var yoe := y - era * 400;
    var doy := Quot(153 * (m + (if m > 2 then -3 else 9)) + 2, 5) + d - 1;
    var doe := yoe * 365 + Quot(yoe, 4) - Quot(yoe, 100) + doy;
    era * 146097 + doe - 719468
  }

  const INT_MAX := 0x7FFF_FFFF

  predicate IsInt(x: int) { -INT_MAX - 1 <= x <= INT_MAX }

  /** No step of the computation of days_since_1970, which is one in C ints, overflows. */
  predicate IntsFit(y0: int, m: int, d: int) {
    var y := MarchYear(y0, m);
    var era := Quot(y, 400);
    var yoe := y - era * 400;
    var doy := Quot(153 * (m + (if m > 2 then -3 else 9)) + 2, 5) + d - 1;
    var doe := yoe * 365 + Quot(yoe, 4) - Quot(yoe, 100) + doy;
    && IsInt(y0) && IsInt(y) && IsInt(era * 400) && IsInt(yoe) && IsInt(doy) && IsInt(yoe * 365) && IsInt(doe)
    && IsInt(era * 146097) && IsInt(era * 146097 + doe) && IsInt(era * 146097 + doe - 719468)
  }

  /** http_date_timegm; None when an int overflows. */
  function Timegm(tm: Tm): Option<int> {
    if IntsFit(tm.year + 1900, tm.mon + 1, tm.mday) then
      Some(60 * (60 * (24 * CivilDays(tm.year + 1900, tm.mon + 1, tm.mday) + tm.hour) + tm.min) + tm.sec)
    else None
  }

  /** The day counts that the computation can give. */
  predicate DaysFit(days: int) { -INT_MAX - 1 <= days <= INT_MAX - 719468 }

  /** The day count alone says whether an int overflows on the way. */
  lemma IntsFitExact(y0: int, m: int, d: int)
    requires 1 <= m <= 12 && 1 <= d <= 31
    ensures IntsFit(y0, m, d) <==> DaysFit(CivilDays(y0, m, d))
  {
    var y := MarchYear(y0, m);
    var era := Quot(y, 400);
    var yoe := y - era * 400;
    assert -400 < yoe < 400 && -99 <= Quot(yoe, 4) <= 99 && -3 <= Quot(yoe, 100) <= 3;
    MarchMonths(m);
  }

  // ---------------------------------------------------------------- the conversion is the calendar's count

  /** The day count of whole years, with divisions that round down. */
  function YearDays(y: int): int { 365 * y + y / 4 - y / 100 + y / 400 }

  lemma YearDaysStep(y: int)
    ensures YearDays(y) - YearDays(y - 1) == if Leap(y) then 366 else 365
  {
    Step4(y);
    Step100(y);
    Step400(y);
  }

  lemma Step4(y: int)
    ensures y / 4 - (y - 1) / 4 == if y % 4 == 0 then 1 else 0
  {
  }

  lemma Step100(y: int)
    ensures y / 100 - (y - 1) / 100 == if y % 100 == 0 then 1 else 0
    ensures y % 100 == 0 ==> y % 4 == 0
  {
    var q, r := y / 100, y % 100;
    var q', r' := (y - 1) / 100, (y - 1) % 100;
    assert y == 100 * q + r && y - 1 == 100 * q' + r';
    assert q' == if r == 0 then q - 1 else q;
    if r == 0 { assert y == 4 * (25 * q); }
  }

  lemma Step400(y: int)
    ensures y / 400 - (y - 1) / 400 == if y % 400 == 0 then 1 else 0
    ensures y % 400 == 0 ==> y % 100 == 0
  {
    var q, r := y / 400, y % 400;
    var q', r' := (y - 1) / 400, (y - 1) % 400;
    assert y == 400 * q + r && y - 1 == 400 * q' + r';
    assert q' == if r == 0 then q - 1 else q;
    if r == 0 { assert y == 100 * (4 * q); }
  }

  /** The era computation, whose divisions round towards zero. */
  lemma EraDays(a: int)
    ensures var e := Quot(a, 400); var r := a - e * 400;
      146097 * e + 365 * r + Quot(r, 4) - Quot(r, 100) == YearDays(a) + if a < 0 && !Leap(a) then 1 else 0
  {
    var e := Quot(a, 400);
    var r := a - e * 400;
    if a >= 0 {
      assert a / 4 == 100 * e + r / 4 && a / 100 == 4 * e + r / 100;
    } else {
      NegativeEra(-a, -e, -r);
    }
  }

  lemma NegativeEra(b: int, e: int, r: int)
    requires b == 400 * e + r && 0 <= r < 400 && b > 0 && e >= 0
    ensures -(r / 4) + r / 100 - 97 * e == (-b) / 4 - (-b) / 100 + (-b) / 400 + if !Leap(-b) then 1 else 0
  {
    assert b / 4 == 100 * e + r / 4 && b / 100 == 4 * e + r / 100 && b / 400 == e;
    assert (-b) / 4 == -(b / 4) - (if b % 4 == 0 then 0 else 1);
    assert (-b) / 100 == -(b / 100) - (if b % 100 == 0 then 0 else 1);
    assert (-b) / 400 == -(b / 400) - (if b % 400 == 0 then 0 else 1);
  }

  lemma {:induction false} YearStartIs(y: int)
    ensures YearStart(y) == YearDays(y - 1) - YearDays(1969)
    decreases if y < 1970 then 1970 - y else y - 1970
  {
    if y > 1970 {
      YearStartIs(y - 1);
      YearDaysStep(y - 1);
    } else if y < 1970 {
      YearStartIs(y + 1);
      YearDaysStep(y);
    }
  }

  lemma MonthStartIs(y: int, m: int)
    requires 1 <= m <= 12
    ensures MonthStart(y, m) ==
      if m <= 2 then 31 * (m - 1) else (153 * (m - 3) + 2) / 5 + 59 + (if Leap(y) then 1 else 0)
  {
  }

  /** By how much the conversion is off: a day too many before March of year 0 unless the March year is a
      leap year, nothing otherwise. */
  lemma CivilDaysIs(y: int, m: int, d: int)
    requires 1 <= m <= 12
    ensures var a := MarchYear(y, m);
      CivilDays(y, m, d) == DayNumber(y, m, d) + if a < 0 && !Leap(a) then 1 else 0
  {
    hide YearDays, Leap, Quot, YearStart, MonthStart;
    var a := MarchYear(y, m);
    YearStartIs(y);
    MonthStartIs(y, m);
    YearDaysStep(y);
    EraDays(a);
    assert YearDays(1969) == 719162 by { Epoch(); }
    MarchMonths(m);
  }

  lemma Epoch()
    ensures YearDays(1969) == 719162
  {
  }

  lemma MarchMonths(m: int)
    requires 1 <= m <= 12
    ensures Quot(153 * (m + (if m > 2 then -3 else 9)) + 2, 5) == if m > 2 then (153 * (m - 3) + 2) / 5 else 306 + 31 * (m - 1)
  {
  }

  predicate ValidTm(tm: Tm) {
    ValidDate(tm.year + 1900, tm.mon + 1, tm.mday) && 0 <= tm.hour < 24 && 0 <= tm.min < 60 && 0 <= tm.sec < 60
  }

  /** Seconds since 1970-01-01 00:00:00. */
  function Seconds(tm: Tm): int
    requires 0 <= tm.mon < 12
  {
    86400 * DayNumber(tm.year + 1900, tm.mon + 1, tm.mday) + 3600 * tm.hour + 60 * tm.min + tm.sec
  }

  /** The conversion is right exactly when the day count fits, from March of year 0 on, and before that in
      leap years; before March of year 0 it is a day late otherwise. */
  lemma TimegmExact(tm: Tm)
    requires 0 <= tm.mon < 12 && 1 <= tm.mday <= 31
    ensures var a := MarchYear(tm.year + 1900, tm.mon + 1); var late := if a < 0 && !Leap(a) then 1 else 0;
      var days := DayNumber(tm.year + 1900, tm.mon + 1, tm.mday);
      && Timegm(tm) == (if DaysFit(days + late) then Some(Seconds(tm) + 86400 * late) else None)
      && (Timegm(tm) == Some(Seconds(tm)) <==> DaysFit(days) && (a >= 0 || Leap(a)))
  {
    hide CivilDays, IntsFit, DayNumber, Leap, MarchYear;
    CivilDaysIs(tm.year + 1900, tm.mon + 1, tm.mday);
    IntsFitExact(tm.year + 1900, tm.mon + 1, tm.mday);
  }

  /** The last day that can be converted is the 9th of September of the year 5879610; a later day overflows. */
  lemma LastDay()
    ensures DayNumber(5879610, 9, 9) == INT_MAX - 719468
    ensures Timegm(Tm(5879610 - 1900, 8, 10, 0, 0, 0, 0)) == None
  {
    hide Timegm, YearStart, MonthStart;
    YearStartIs(5879610);
    MonthStartIs(5879610, 9);
    Epoch();
    TimegmExact(Tm(5879610 - 1900, 8, 10, 0, 0, 0, 0));
  }

  /** The day after a date. */
  function NextDay(y: int, m: int, d: int): (int, int, int)
    requires ValidDate(y, m, d)
  {
    if d < MonthLength(y, m) then (y, m, d + 1) else if m < 12 then (y, m + 1, 1) else (y + 1, 1, 1)
  }

  lemma NextDayCounts(y: int, m: int, d: int)
    requires ValidDate(y, m, d)
    ensures var (y', m', d') := NextDay(y, m, d); ValidDate(y', m', d') && DayNumber(y', m', d') == DayNumber(y, m, d) + 1
  {
    if m == 12 && d == 31 {
      YearLength(y);
    }
  }

  lemma YearLength(y: int)
    ensures YearStart(y + 1) == YearStart(y) + MonthStart(y, 12) + 31
  {
    YearStartIs(y);
    YearStartIs(y + 1);
    YearDaysStep(y);
    MonthStartIs(y, 12);
  }

  lemma NextDayYear(y: int, m: int, d: int)
    requires ValidDate(y, m, d)
    ensures var (y', m', d') := NextDay(y, m, d); y' >= y && 1 <= m' <= 12
  {
  }

  predicate InRange(tm: Tm)
    requires 0 <= tm.mon < 12
  {
    tm.year + 1900 >= 1 && DayNumber(tm.year + 1900, tm.mon + 1, tm.mday) <= INT_MAX - 719468
  }

  /** From year 1 on, a day later is 86400 seconds later, over the ends of months and years, up to the last
      day that fits. */
  lemma OneDayLater(tm: Tm)
    requires ValidTm(tm) && InRange(tm)
    ensures var (y, m, d) := NextDay(tm.year + 1900, tm.mon + 1, tm.mday);
      var next := tm.(year := y - 1900, mon := m - 1, mday := d);
      Timegm(tm).Some? && 0 <= next.mon < 12 && Timegm(next) == if InRange(next) then Some(Timegm(tm).value + 86400) else None
  {
    hide Timegm, DayNumber, NextDay, Leap;
    var (y, m, d) := NextDay(tm.year + 1900, tm.mon + 1, tm.mday);
    NextDayYear(tm.year + 1900, tm.mon + 1, tm.mday);
    NextDayCounts(tm.year + 1900, tm.mon + 1, tm.mday);
    AfterYearOne(tm);
    TimegmExact(tm);
    TimegmExact(tm.(year := y - 1900, mon := m - 1, mday := d));
  }

  lemma {:induction false} YearStartGrows(y: int, z: int)
    requires y <= z
    ensures YearStart(z) >= YearStart(y) + 365 * (z - y)
    decreases z - y
  {
    if y < z {
      YearStartGrows(y, z - 1);
      YearStartIs(z);
      YearStartIs(z - 1);
      YearDaysStep(z - 1);
    }
  }

  lemma {:induction false} MonthStartGrows(y: int, m: int, n: int)
    requires 1 <= m < n <= 12
    ensures MonthStart(y, m) + MonthLength(y, m) <= MonthStart(y, n)
    decreases n - m
  {
    if m < n - 1 { MonthStartGrows(y, m, n - 1); }
  }

  lemma WithinYear(y: int, m: int, d: int)
    requires ValidDate(y, m, d)
    ensures YearStart(y) <= DayNumber(y, m, d) < YearStart(y + 1)
  {
    YearStartIs(y);
    YearStartIs(y + 1);
    YearDaysStep(y);
    if m < 12 { MonthStartGrows(y, m, 12); }
    if m > 1 { MonthStartGrows(y, 1, m); }
    MonthStartIs(y, 12);
  }

  /** Dates from year 1 on are well above the least day that fits. */
  lemma AfterYearOne(tm: Tm)
    requires ValidTm(tm) && tm.year + 1900 >= 1
    ensures DayNumber(tm.year + 1900, tm.mon + 1, tm.mday) >= -719162
  {
    WithinYear(tm.year + 1900, tm.mon + 1, tm.mday);
    YearStartGrows(1, tm.year + 1900);
    YearStartIs(1);
    Epoch();
  }

  predicate Before(a: Tm, b: Tm) {
    a.year < b.year || (a.year == b.year && (a.mon < b.mon || (a.mon == b.mon && (a.mday < b.mday || (a.mday == b.mday &&
      3600 * a.hour + 60 * a.min + a.sec < 3600 * b.hour + 60 * b.min + b.sec)))))
  }

  /** Later dates give larger numbers. */
  lemma Monotone(a: Tm, b: Tm)
    requires ValidTm(a) && ValidTm(b) && Before(a, b) && a.year + 1900 >= 1 && InRange(b)
    ensures Timegm(a).Some? && Timegm(b).Some? && Timegm(a).value < Timegm(b).value
  {
    hide Timegm, DayNumber, Leap;
    EarlierDay(a, b);
    AfterYearOne(a);
    TimegmExact(a);
    TimegmExact(b);
  }

  lemma EarlierDay(a: Tm, b: Tm)
    requires ValidTm(a) && ValidTm(b) && Before(a, b)
    ensures var m, n := DayNumber(a.year + 1900, a.mon + 1, a.mday), DayNumber(b.year + 1900, b.mon + 1, b.mday);
      m < n || (m == n && 3600 * a.hour + 60 * a.min + a.sec < 3600 * b.hour + 60 * b.min + b.sec)
  {
    hide YearStart, MonthStart, MonthLength, Leap;
    var y, z := a.year + 1900, b.year + 1900;
    WithinYear(y, a.mon + 1, a.mday);
    WithinYear(z, b.mon + 1, b.mday);
    if y < z {
      YearStartGrows(y + 1, z);
    } else if a.mon < b.mon {
      MonthStartGrows(y, a.mon + 1, b.mon + 1);
    }
  }

  lemma AtEpoch()
    ensures Timegm(Tm(70, 0, 1, 0, 0, 0, 4)) == Some(0)
  {
    hide Timegm, YearStart, MonthStart, YearDays, Leap;
    TimegmExact(Tm(70, 0, 1, 0, 0, 0, 4));
    YearStartIs(1970);
    MonthStartIs(1970, 1);
  }

  /** The first date that goes wrong, one day before March of year 0. */
  lemma YearZero()
    ensures var tm := Tm(-1900, 1, 29, 0, 0, 0, 2);
      ValidTm(tm) && Timegm(tm) == Some(Seconds(tm) + 86400) == Timegm(tm.(mon := 2, mday := 1))
  {
    hide Timegm, YearStart, MonthStart;
    TimegmExact(Tm(-1900, 1, 29, 0, 0, 0, 2));
    NextDayCounts(0, 2, 29);
    YearStartIs(0);
    MonthStartIs(0, 2);
    Epoch();
    TimegmExact(Tm(-1900, 2, 1, 0, 0, 0, 2));
  }

  // ---------------------------------------------------------------- IMF-fixdate

  const DAYS: seq<Octets> := [[83, 117, 110], [77, 111, 110], [84, 117, 101], [87, 101, 100], [84, 104, 117], [70, 114, 105], [83, 97, 116]]
  const MONTHS: seq<Octets> := [
    [74, 97, 110], [70, 101, 98], [77, 97, 114], [65, 112, 114], [77, 97, 121], [74, 117, 110],
    [74, 117, 108], [65, 117, 103], [83, 101, 112], [79, 99, 116], [78, 111, 118], [68, 101, 99]]

  const COMMA: Byte := 44
  const COLON: Byte := 58
  const GMT: Octets := [SP, 71, 77, 84]

  function TwoDigits(n: nat): (s: Octets)
    requires n < 100
    ensures |s| == 2
  {
    [48 + n / 10, 48 + n % 10]
  }

  /** Dates whose fields fit into the text; their ranges are not checked further. */
  predicate Fits(tm: Tm) {
    0 <= tm.wday < 7 && 0 <= tm.mon < 12 && 0 <= tm.mday < 100 && 0 <= tm.hour < 100 && 0 <= tm.min < 100 && 0 <= tm.sec < 100
    && 0 <= tm.year + 1900 < 10000
  }

  /** "%a, %d %b %Y %H:%M:%S GMT" */
  function Format(tm: Tm): (s: Octets)
    requires Fits(tm)
  {
    DAYS[tm.wday] + [COMMA, SP] + TwoDigits(tm.mday) + [SP] + MONTHS[tm.mon] + [SP]
    + TwoDigits((tm.year + 1900) / 100) + TwoDigits((tm.year + 1900) % 100) + [SP]
    + TwoDigits(tm.hour) + [COLON] + TwoDigits(tm.min) + [COLON] + TwoDigits(tm.sec) + GMT
  }

  /** The text of a date, piece by piece. */
  ghost predicate Shape(s: Octets, tm: Tm)
    requires |s| == 29
  {
    && Fits(tm) && s[0..3] == DAYS[tm.wday] && s[3..5] == [COMMA, SP] && s[5..7] == TwoDigits(tm.mday) && s[7] == SP
    && s[8..11] == MONTHS[tm.mon] && s[11] == SP
    && s[12..14] == TwoDigits((tm.year + 1900) / 100) && s[14..16] == TwoDigits((tm.year + 1900) % 100) && s[16] == SP
    && s[17..19] == TwoDigits(tm.hour) && s[19] == COLON && s[20..22] == TwoDigits(tm.min) && s[22] == COLON
    && s[23..25] == TwoDigits(tm.sec) && s[25..29] == GMT
  }

  lemma NamesLength()
    ensures (forall i :: 0 <= i < 7 ==> |DAYS[i]| == 3) && (forall i :: 0 <= i < 12 ==> |MONTHS[i]| == 3)
  {
  }

  lemma FormatShape(s: Octets, tm: Tm)
    requires Fits(tm) && |s| == 29
    ensures s == Format(tm) <==> Shape(s, tm)
  {
    hide Format, Shape;
    FormatHasShape(tm);
    if Shape(s, tm) { ShapeIsFormat(s, tm); }
  }

  lemma ShapeIsFormat(s: Octets, tm: Tm)
    requires |s| == 29 && Shape(s, tm)
    ensures s == Format(tm)
  {
    hide TwoDigits;
    assert s == s[0..3] + s[3..5] + s[5..7] + [s[7]] + s[8..11] + [s[11]] + s[12..14] + s[14..16] + [s[16]]
             + s[17..19] + [s[19]] + s[20..22] + [s[22]] + s[23..25] + s[25..29];
  }

  /** Piece by piece from the end. */
  lemma FormatHasShape(tm: Tm)
    requires Fits(tm)
    ensures |Format(tm)| == 29 && Shape(Format(tm), tm)
  {
    hide TwoDigits;
    NamesLength();
    var t := Format(tm);
    var day := DAYS[tm.wday] + [COMMA, SP] + TwoDigits(tm.mday) + [SP];
    var month := day + MONTHS[tm.mon] + [SP];
    var year := month + TwoDigits((tm.year + 1900) / 100) + TwoDigits((tm.year + 1900) % 100) + [SP];
    var time := year + TwoDigits(tm.hour) + [COLON] + TwoDigits(tm.min) + [COLON];
    assert |day| == 8 && |month| == 12 && |year| == 17 && |time| == 23;
    assert t[..23] == time && t[23..25] == TwoDigits(tm.sec) && t[25..] == GMT by { assert t == time + TwoDigits(tm.sec) + GMT; }
    assert t[..17] == year && t[17..19] == TwoDigits(tm.hour) && t[19] == COLON && t[20..22] == TwoDigits(tm.min) && t[22] == COLON by {
      assert t[..17] == time[..17] && t[17..19] == time[17..19] && t[20..22] == time[20..22];
    }
    assert t[..12] == month && t[12..14] == TwoDigits((tm.year + 1900) / 100) && t[14..16] == TwoDigits((tm.year + 1900) % 100) && t[16] == SP by {
      assert t[..12] == year[..12] && t[12..14] == year[12..14] && t[14..16] == year[14..16] && t[16] == year[16];
    }
    assert t[..8] == month[..8] == day && t[8..11] == month[8..11] == MONTHS[tm.mon] && t[11] == month[11] == SP;
    assert t[0..3] == day[0..3] == DAYS[tm.wday] && t[3..5] == day[3..5] == [COMMA, SP] && t[5..7] == day[5..7] && t[7] == day[7] == SP;
  }

  lemma DayNames()
    ensures DAYS[0] == Ascii("Sun") && DAYS[1] == Ascii("Mon") && DAYS[2] == Ascii("Tue") && DAYS[3] == Ascii("Wed")
    ensures DAYS[4] == Ascii("Thu") && DAYS[5] == Ascii("Fri") && DAYS[6] == Ascii("Sat") && |DAYS| == 7
  {
  }

  lemma MonthNames()
    ensures MONTHS[0] == Ascii("Jan") && MONTHS[1] == Ascii("Feb") && MONTHS[2] == Ascii("Mar") && MONTHS[3] == Ascii("Apr")
    ensures MONTHS[4] == Ascii("May") && MONTHS[5] == Ascii("Jun") && |MONTHS| == 12
  {
  }

  lemma MoreMonthNames()
    ensures MONTHS[6] == Ascii("Jul") && MONTHS[7] == Ascii("Aug") && MONTHS[8] == Ascii("Sep") && MONTHS[9] == Ascii("Oct")
    ensures MONTHS[10] == Ascii("Nov") && MONTHS[11] == Ascii("Dec")
  {
  }

  /** The example of section 7.1.1.1 of RFC 7231. */
  lemma Example()
    ensures var tm := Tm(94, 10, 6, 8, 49, 37, 0); Fits(tm) && Format(tm) == Ascii("Sun, 06 Nov 1994 08:49:37 GMT")
  {
    hide Ascii, TwoDigits;
    ExampleBytes();
    ExampleDigits();
    var day := DAYS[0] + [COMMA, SP] + TwoDigits(6) + [SP] + MONTHS[10] + [SP];
    assert day == [83, 117, 110, 44, 32, 48, 54, 32, 78, 111, 118, 32];
    var year := day + TwoDigits(19) + TwoDigits(94) + [SP];
    assert year == [83, 117, 110, 44, 32, 48, 54, 32, 78, 111, 118, 32, 49, 57, 57, 52, 32];
    assert Format(Tm(94, 10, 6, 8, 49, 37, 0)) ==
      year + TwoDigits(8) + [COLON] + TwoDigits(49) + [COLON] + TwoDigits(37) + GMT;
  }

  lemma ExampleDigits()
    ensures TwoDigits(6) == [48, 54] && TwoDigits(19) == [49, 57] && TwoDigits(94) == [57, 52]
    ensures TwoDigits(8) == [48, 56] && TwoDigits(49) == [52, 57] && TwoDigits(37) == [51, 55]
  {
  }

  lemma ExampleBytes()
    ensures Ascii("Sun, 06 Nov 1994 08:49:37 GMT") ==
      [83, 117, 110, 44, 32, 48, 54, 32, 78, 111, 118, 32, 49, 57, 57, 52, 32, 48, 56, 58, 52, 57, 58, 51, 55, 32, 71, 77, 84]
  {
  }

  /** The loop over a table of names. */
  method FindName(s: Octets, at: nat, names: seq<Octets>) returns (k: nat)
    requires at + 3 <= |s| && forall i :: 0 <= i < |names| ==> |names[i]| == 3
    ensures k <= |names| && (k < |names| ==> s[at..at + 3] == names[k]) && forall i :: 0 <= i < k ==> s[at..at + 3] != names[i]
  {
    k := 0;
    while k < |names|
      invariant k <= |names| && forall i :: 0 <= i < k ==> s[at..at + 3] != names[i]
    {
      if s[at] == names[k][0] && s[at + 1] == names[k][1] && s[at + 2] == names[k][2] { return; }
      assert s[at..at + 3][0] == s[at] && s[at..at + 3][1] == s[at + 1] && s[at..at + 3][2] == s[at + 2];
      k := k + 1;
    }
  }

  predicate IsDigit(c: Byte) { 48 <= c <= 57 }

  /** Two digits as a number, or -1. */
  method Number(s: Octets, at: nat) returns (n: int)
    requires at + 2 <= |s|
    ensures -1 <= n < 100 && (n >= 0 ==> s[at..at + 2] == TwoDigits(n))
    ensures n < 0 ==> forall k :: 0 <= k < 100 ==> s[at..at + 2] != TwoDigits(k)
  {
    assert s[at..at + 2][0] == s[at] && s[at..at + 2][1] == s[at + 1];
    if !IsDigit(s[at]) || !IsDigit(s[at + 1]) { return -1; }
    n := 10 * (s[at] - 48) + (s[at + 1] - 48);
  }

  lemma SameDay(i: nat, j: nat)
    requires i < 7 && j < 7 && DAYS[i] == DAYS[j]
    ensures i == j
  {
  }

  lemma SameMonth(i: nat, j: nat)
    requires i < 12 && j < 12 && MONTHS[i] == MONTHS[j]
    ensures i == j
  {
  }

  /** http_date_parse_IMF_fixdate on 29 bytes: exactly the texts of dates are accepted, and the date is found. */
  method ParseImf(s: Octets) returns (r: Option<Tm>)
    requires |s| == 29
    ensures r.Some? ==> Fits(r.value) && s == Format(r.value)
    ensures forall tm :: Fits(tm) && s == Format(tm) ==> r == Some(tm)
  {
    hide Format, TwoDigits, Shape, Fits;
    NamesLength();
    forall tm ensures Fits(tm) ==> (s == Format(tm) <==> Shape(s, tm)) {
      if Fits(tm) { FormatShape(s, tm); }
    }
    r := None;
    BadName(s);
    BadMark(s);
    var wday := FindName(s, 0, DAYS);
    if wday == 7 { return; }
    var mday := Number(s, 5);
    BadNumber(s, 5);
    if s[3] != COMMA || s[4] != SP || mday < 0 { return; }
    if s[7] != SP { return; }
    var mon := FindName(s, 8, MONTHS);
    if mon == 12 { return; }
    var cent := Number(s, 12);
    var year := Number(s, 14);
    BadNumber(s, 12);
    BadNumber(s, 14);
    if s[11] != SP || cent < 0 || year < 0 { return; }
    var hour := Number(s, 17);
    BadNumber(s, 17);
    if s[16] != SP || hour < 0 { return; }
    var min := Number(s, 20);
    BadNumber(s, 20);
    if s[19] != COLON || min < 0 { return; }
    var sec := Number(s, 23);
    BadNumber(s, 23);
    if s[22] != COLON || sec < 0 { return; }
    if s[25..29] != GMT { return; }
    var tm := Tm(cent * 100 + year - 1900, mon, mday, hour, min, sec, wday);
    FieldsFit(tm, cent, year);
    AllPieces(s, tm, cent, year);
    r := Some(tm);
  }

  lemma FieldsFit(tm: Tm, cent: int, year: int)
    requires 0 <= cent < 100 && 0 <= year < 100 && tm.year == cent * 100 + year - 1900
    requires 0 <= tm.wday < 7 && 0 <= tm.mon < 12 && 0 <= tm.mday < 100 && 0 <= tm.hour < 100 && 0 <= tm.min < 100 && 0 <= tm.sec < 100
    ensures Fits(tm)
  {
  }

  lemma PiecesFit(s: Octets, tm: Tm, cent: int, year: int)
    requires |s| == 29 && Fits(tm) && 0 <= cent < 100 && 0 <= year < 100 && tm.year == cent * 100 + year - 1900
    requires s[0..3] == DAYS[tm.wday] && s[3] == COMMA && s[4] == SP && s[5..7] == TwoDigits(tm.mday) && s[7] == SP
    requires s[8..11] == MONTHS[tm.mon] && s[11] == SP && s[12..14] == TwoDigits(cent) && s[14..16] == TwoDigits(year) && s[16] == SP
    requires s[17..19] == TwoDigits(tm.hour) && s[19] == COLON && s[20..22] == TwoDigits(tm.min) && s[22] == COLON
    requires s[23..25] == TwoDigits(tm.sec) && s[25..29] == GMT
    ensures Shape(s, tm)
  {
    hide TwoDigits;
    assert s[3..5] == [COMMA, SP];
    YearParts(cent, year);
  }

  lemma YearParts(cent: int, year: int)
    requires 0 <= cent && 0 <= year < 100
    ensures (cent * 100 + year) / 100 == cent && (cent * 100 + year) % 100 == year
  {
  }

  lemma AllPieces(s: Octets, tm: Tm, cent: int, year: int)
    requires |s| == 29 && Fits(tm) && 0 <= cent < 100 && 0 <= year < 100 && tm.year == cent * 100 + year - 1900
    requires s[0..3] == DAYS[tm.wday] && s[3] == COMMA && s[4] == SP && s[5..7] == TwoDigits(tm.mday) && s[7] == SP
    requires s[8..11] == MONTHS[tm.mon] && s[11] == SP && s[12..14] == TwoDigits(cent) && s[14..16] == TwoDigits(year) && s[16] == SP
    requires s[17..19] == TwoDigits(tm.hour) && s[19] == COLON && s[20..22] == TwoDigits(tm.min) && s[22] == COLON
    requires s[23..25] == TwoDigits(tm.sec) && s[25..29] == GMT
    ensures Shape(s, tm) && forall other :: Shape(s, other) ==> other == tm
  {
    hide TwoDigits, Shape;
    PiecesFit(s, tm, cent, year);
    forall other | Shape(s, other) ensures other == tm { SameTm(s, tm, other); }
  }

  lemma BadName(s: Octets)
    requires |s| == 29
    ensures (forall i :: 0 <= i < 7 ==> s[0..3] != DAYS[i]) ==> forall tm :: !Shape(s, tm)
    ensures (forall i :: 0 <= i < 12 ==> s[8..11] != MONTHS[i]) ==> forall tm :: !Shape(s, tm)
  {
  }

  lemma BadNumber(s: Octets, at: nat)
    requires |s| == 29 && (at == 5 || at == 12 || at == 14 || at == 17 || at == 20 || at == 23)
    ensures (forall k :: 0 <= k < 100 ==> s[at..at + 2] != TwoDigits(k)) ==> forall tm :: !Shape(s, tm)
  {
    hide TwoDigits;
  }

  lemma BadMark(s: Octets)
    requires |s| == 29
    ensures s[3] != COMMA || s[4] != SP || s[7] != SP || s[11] != SP || s[16] != SP || s[19] != COLON || s[22] != COLON || s[25..29] != GMT ==>
      forall tm :: !Shape(s, tm)
  {
    assert s[3..5][0] == s[3] && s[3..5][1] == s[4];
  }

  lemma DigitsOf(a: nat, b: nat)
    requires a < 100 && b < 100 && TwoDigits(a) == TwoDigits(b)
    ensures a == b
  {
  }

  /** One text stands for one date. */
  lemma SameTm(s: Octets, a: Tm, b: Tm)
    requires |s| == 29 && Shape(s, a) && Shape(s, b)
    ensures a == b
  {
    hide TwoDigits;
    SameDay(a.wday, b.wday);
    SameMonth(a.mon, b.mon);
    DigitsOf(a.mday, b.mday);
    DigitsOf(a.hour, b.hour);
    DigitsOf(a.min, b.min);
    DigitsOf(a.sec, b.sec);
    DigitsOf((a.year + 1900) / 100, (b.year + 1900) / 100);
    DigitsOf((a.year + 1900) % 100, (b.year + 1900) % 100);
  }
}
