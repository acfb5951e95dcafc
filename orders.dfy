/** The order-item rows the dashboard works on, and the calendar arithmetic on their
    timestamps (calendar day of a timestamp, calendar month of a day, `YYYY-MM` labels). */
module Orders {

  datatype Option<+T> = None | Some(value: T)

  datatype Result<+T, +E> = Success(value: T) | Failure(error: E)

  /** A timestamp is a count of seconds since 1970-01-01 00:00:00 (naive local time);
      a day is a count of days since 1970-01-01. */
  const SecondsPerDay: int := 86400

  /** One row of the merged order-items table. A missing timestamp (a value the CSV
      parser coerced to NaT), a missing category or a missing review score is `None`. */
  datatype Row = Row(
    customer: string,
    order: string,
    purchasedAt: Option<int>,
    approvedAt: Option<int>,
    price: real,
    category: Option<string>,
    reviewScore: Option<int>)

  /** Every row carries a purchase timestamp. */
  predicate AllPurchased(rows: seq<Row>)
  {
    forall i :: 0 <= i < |rows| ==> rows[i].purchasedAt.Some?
  }

  /** The calendar date of a timestamp (pandas `.dt.date`): the day whose
      midnight-to-midnight interval holds it. */
  function DayOf(t: int): (d: int)
    ensures Midnight(d) <= t < Midnight(d + 1)
  {
    t / SecondsPerDay
  }

  /** The timestamp of 00:00 on day `d`, which is what comparing a timestamp
      column against the string form of a date compares against. */
  function Midnight(d: int): int
  {
    d * SecondsPerDay
  }

  lemma DayOfMonotone(t1: int, t2: int)
    requires t1 <= t2
    ensures DayOf(t1) <= DayOf(t2)
  {
  }

  /** A calendar month: `month` is 1..12 in a well-formed value. */
  datatype Month = Month(year: int, month: int)

  predicate ValidMonth(m: Month)
  {
    1 <= m.month <= 12
  }

  /** Months numbered consecutively: January of year 0 is 0. */
  function MonthIndex(m: Month): int
  {
    m.year * 12 + m.month - 1
  }

  function MonthFromIndex(k: int): (m: Month)
    ensures ValidMonth(m) && MonthIndex(m) == k
  {
    Month(k / 12, k % 12 + 1)
  }

  lemma MonthIndexInjective(m1: Month, m2: Month)
    requires ValidMonth(m1) && ValidMonth(m2) && MonthIndex(m1) == MonthIndex(m2)
    ensures m1 == m2
  {
  }

  /** Days from 1 March of year 0 of a 400-year era to 1 March of its year `yoe`. */
  function DaysBeforeYearOfEra(yoe: int): int
  {
    365 * yoe + yoe / 4 - yoe / 100
  }

  /** Days from 1 March to the first day of the `mp`-th month counted from March. */
  function DaysBeforeShiftedMonth(mp: int): int
  {
    (153 * mp + 2) / 5
  }

  /** The year of a 400-year era that holds its day `doe`. */
  function YearOfEra(doe: int): (yoe: int)
    requires 0 <= doe < 146097
    ensures 0 <= yoe < 400
  {
    (doe - doe / 1460 + doe / 36524 - doe / 146096) / 365
  }

  /** The day-of-year left after `YearOfEra` is a day of a (possibly leap) year. */
  lemma DayOfYearBound(doe: int)
    requires 0 <= doe < 146097
    ensures 0 <= doe - DaysBeforeYearOfEra(YearOfEra(doe)) < 366
  {
    if doe < 146096 {
      var c, t := doe / 36524, doe % 36524;
      var a := (24 * c + t) / 1460;
      assert doe == 1460 * (25 * c) + 24 * c + t;
      assert doe / 1460 == 25 * c + a;
      assert doe / 146096 == 0;
      var s := (t - a) / 365;
      var u := (t - a) % 365;
      var yoe := YearOfEra(doe);
      assert yoe == 100 * c + s;
      var p, w := s / 4, s % 4;
      assert yoe / 4 == 25 * c + p;
      assert yoe / 100 == c;
      assert t == 1460 * p + 365 * w + u + a;
      var e := a - p;
      assert 1459 * e <= 24 * c + p + 365 * w + u;
      assert 24 * c + p + 365 * w + u < 1459 * e + 1460;
      assert doe - DaysBeforeYearOfEra(yoe) == u + e;
    }
  }

  /** The month, counted from March, that holds day `doy` of a March-based year. */
  function ShiftedMonth(doy: int): (mp: int)
    requires 0 <= doy < 366
    ensures 0 <= mp < 12
  {
    (5 * doy + 2) / 153
  }

  /** The day number of the first day of a month in the proleptic Gregorian calendar
      (days-from-civil, with March as the first month of the computational year). */
  function FirstDayOf(m: Month): int
    requires ValidMonth(m)
  {
    var y := if m.month <= 2 then m.year - 1 else m.year;
    var mp := if m.month > 2 then m.month - 3 else m.month + 9;
    FirstDayInEra(y / 400, y % 400, mp)
  }

  /** The day number of the first day of the `mp`-th month (counted from March) of
      year `yoe` of the 400-year era `era`. */
  function FirstDayInEra(era: int, yoe: int, mp: int): int
  {
    era * 146097 + DaysBeforeYearOfEra(yoe) + DaysBeforeShiftedMonth(mp) - 719468
  }

  /** The calendar month a day falls in (civil-from-days), which is the month
      that resampling by month and `strftime('%Y-%m')` assign to a timestamp of that day. */
  function MonthOfDay(z: int): (m: Month)
    ensures ValidMonth(m)
  {
    MonthInEra((z + 719468) / 146097, (z + 719468) % 146097)
  }

  /** The month holding day `doe` of the 400-year era `era` (eras start on 1 March of a
      year divisible by 400). */
  function MonthInEra(era: int, doe: int): (m: Month)
    requires 0 <= doe < 146097
    ensures ValidMonth(m)
  {
    var yoe := YearOfEra(doe);
    DayOfYearBound(doe);
    CivilMonth(era, yoe, ShiftedMonth(doe - DaysBeforeYearOfEra(yoe)))
  }

  /** The calendar month of month `mp` (counted from March) of year `yoe` of an era:
      January and February belong to the next calendar year. */
  function CivilMonth(era: int, yoe: int, mp: int): (m: Month)
    requires 0 <= mp < 12
    ensures ValidMonth(m)
  {
    var month := if mp < 10 then mp + 3 else mp - 9;
    Month(yoe + era * 400 + (if month <= 2 then 1 else 0), month)
  }

  /** Within one 400-year era, the year-of-era that `FirstDayOf` folds into a
      day-of-era is recovered by `YearOfEra`. */
  lemma {:induction false} YearOfEraRecovered(yoe: int, doy: int)
    requires 0 <= yoe < 400 && 0 <= doy <= 337
    ensures 0 <= DaysBeforeYearOfEra(yoe) + doy < 146097
    ensures YearOfEra(DaysBeforeYearOfEra(yoe) + doy) == yoe
  {
    var c, s := yoe / 100, yoe % 100;
    var q, r := s / 4, s % 4;
    assert yoe / 4 == 25 * c + q;
    var doe := 365 * yoe + yoe / 4 - yoe / 100 + doy;
    assert doe == 36524 * c + 365 * s + q + doy;
    assert doe / 146096 == 0;
    assert doe / 36524 == c;
    var rest := 24 * c + 365 * r + q + doy;
    assert doe == 1460 * (25 * c + q) + rest;
    var n := doe - doe / 1460 + doe / 36524 - doe / 146096;
    if rest < 1460 {
      assert doe / 1460 == 25 * c + q;
      assert n == 365 * yoe + doy;
    } else {
      assert doe / 1460 == 25 * c + q + 1;
      assert n == 365 * yoe + doy - 1;
    }
  }

  lemma ShiftedMonthRecovered(mp: int)
    requires 0 <= mp < 12
    ensures 0 <= DaysBeforeShiftedMonth(mp) <= 337
    ensures ShiftedMonth(DaysBeforeShiftedMonth(mp)) == mp
  {
  }

  /** The month index of the calendar month a timestamp falls in: the key by which
      the monthly series bucket their rows. */
  function CalendarMonth(t: int): (k: int)
    ensures MonthFromIndex(k) == MonthOfDay(DayOf(t))
  {
    MonthIndex(MonthOfDay(DayOf(t)))
  }

  /** `MonthOfDay` inverts `FirstDayOf`: the first day of a month lies in that month. */
  lemma MonthOfFirstDay(m: Month)
    requires ValidMonth(m)
    ensures MonthOfDay(FirstDayOf(m)) == m
  {
    var y := if m.month <= 2 then m.year - 1 else m.year;
    var era, yoe := y / 400, y % 400;
    var mp := if m.month > 2 then m.month - 3 else m.month + 9;
    assert FirstDayOf(m) == FirstDayInEra(era, yoe, mp);
    MonthOfFirstDayInEra(era, yoe, mp);
  }

  /** The first day of month `mp` (counted from March) of year `yoe` of an era lies in
      that month. */
  lemma MonthOfFirstDayInEra(era: int, yoe: int, mp: int)
    requires 0 <= yoe < 400 && 0 <= mp < 12
    ensures MonthOfDay(FirstDayInEra(era, yoe, mp)) == CivilMonth(era, yoe, mp)
  {
    var doe := DaysBeforeYearOfEra(yoe) + DaysBeforeShiftedMonth(mp);
    MonthInEraOfFirstDay(era, yoe, mp);
    EraSplit(FirstDayInEra(era, yoe, mp) + 719468, era, doe);
  }

  /** `MonthInEra` reads back the year and month that a day-of-era was built from. */
  lemma MonthInEraOfFirstDay(era: int, yoe: int, mp: int)
    requires 0 <= yoe < 400 && 0 <= mp < 12
    ensures 0 <= DaysBeforeYearOfEra(yoe) + DaysBeforeShiftedMonth(mp) < 146097
    ensures MonthInEra(era, DaysBeforeYearOfEra(yoe) + DaysBeforeShiftedMonth(mp)) == CivilMonth(era, yoe, mp)
  {
    var doy := DaysBeforeShiftedMonth(mp);
    ShiftedMonthRecovered(mp);
    YearOfEraRecovered(yoe, doy);
    var doe := DaysBeforeYearOfEra(yoe) + doy;
    assert YearOfEra(doe) == yoe;
    assert doe - DaysBeforeYearOfEra(YearOfEra(doe)) == doy;
    assert ShiftedMonth(doe - DaysBeforeYearOfEra(YearOfEra(doe))) == mp;
    assert MonthInEra(era, doe) == CivilMonth(era, YearOfEra(doe), ShiftedMonth(doe - DaysBeforeYearOfEra(YearOfEra(doe))));
  }

  lemma EraSplit(x: int, era: int, doe: int)
    requires x == era * 146097 + doe && 0 <= doe < 146097
    ensures x / 146097 == era && x % 146097 == doe
  {
  }

  /** Day-of-era on which the year after year `yoe` of an era starts; the last year of
      an era ends where the next era begins. */
  function NextYearStart(yoe: int): int
  {
    if yoe == 399 then 146097 else DaysBeforeYearOfEra(yoe + 1)
  }

  /** Every day of year `yoe` of an era, not only its first months, is read back as
      year `yoe` by `YearOfEra`. */
  lemma YearOfEraWithin(yoe: int, doy: int)
    requires 0 <= yoe < 400 && 0 <= doy && DaysBeforeYearOfEra(yoe) + doy < NextYearStart(yoe)
    ensures 0 <= DaysBeforeYearOfEra(yoe) + doy < 146097
    ensures YearOfEra(DaysBeforeYearOfEra(yoe) + doy) == yoe
  {
    YearLength(yoe, doy);
    var c, s := yoe / 100, yoe % 100;
    var q, r := s / 4, s % 4;
    assert yoe / 4 == 25 * c + q;
    var doe := DaysBeforeYearOfEra(yoe) + doy;
    assert doe == 36524 * c + 365 * s + q + doy;
    var n := doe - doe / 1460 + doe / 36524 - doe / 146096;
    if yoe == 399 && doy == 365 {
      assert doe == 146096;
      assert n == 365 * 399 + 364;
      YearSplit(n, 399, 364);
    } else {
      assert doe / 146096 == 0;
      assert doe / 36524 == c;
      var rest := 24 * c + 365 * r + q + doy;
      assert doe == 1460 * (25 * c + q) + rest;
      if rest < 1460 {
        assert doe / 1460 == 25 * c + q;
        assert n == 365 * yoe + doy;
        YearSplit(n, yoe, doy);
      } else {
        assert doe / 1460 == 25 * c + q + 1;
        assert n == 365 * yoe + doy - 1;
        YearSplit(n, yoe, doy - 1);
      }
    }
    assert YearOfEra(doe) == n / 365;
  }

  /** A year of an era has 365 days, or 366 when its February ends a leap year. */
  lemma YearLength(yoe: int, doy: int)
    requires 0 <= yoe < 400 && 0 <= doy && DaysBeforeYearOfEra(yoe) + doy < NextYearStart(yoe)
    ensures doy <= 365 && (doy == 365 ==> yoe % 4 == 3)
  {
    if yoe < 399 {
      var c, s := yoe / 100, yoe % 100;
      var q, r := s / 4, s % 4;
      assert yoe / 4 == 25 * c + q;
      assert (yoe + 1) / 4 == 25 * c + q + (if r == 3 then 1 else 0);
      assert (yoe + 1) / 100 == c + (if s == 99 then 1 else 0);
    }
  }

  lemma YearSplit(n: int, yoe: int, doy: int)
    requires n == 365 * yoe + doy && 0 <= doy < 365
    ensures n / 365 == yoe
  {
  }

  /** Every day of the `mp`-th month counted from March is read back as that month by
      `ShiftedMonth`; the last of them, February, runs to the end of the year. */
  lemma ShiftedMonthWithin(mp: int, doy: int)
    requires 0 <= mp < 12
    requires DaysBeforeShiftedMonth(mp) <= doy < (if mp == 11 then 366 else DaysBeforeShiftedMonth(mp + 1))
    ensures 0 <= doy < 366
    ensures ShiftedMonth(doy) == mp
  {
    assert 153 * mp <= 5 * doy + 2 < 153 * mp + 153;
  }

  /** The month number of the calendar month built from an era, a year of it and a
      month counted from March: consecutive March-based months are consecutive months. */
  lemma CivilMonthIndex(era: int, yoe: int, mp: int)
    requires 0 <= mp < 12
    ensures MonthIndex(CivilMonth(era, yoe, mp)) == 12 * (400 * era + yoe) + mp + 2
  {
  }

  /** `CivilMonth` is undone by the decomposition `FirstDayOf` starts with. */
  lemma FirstDayOfCivil(era: int, yoe: int, mp: int)
    requires 0 <= yoe < 400 && 0 <= mp < 12
    ensures FirstDayOf(CivilMonth(era, yoe, mp)) == FirstDayInEra(era, yoe, mp)
  {
    var y := era * 400 + yoe;
    assert y / 400 == era && y % 400 == yoe;
  }

  /** Every valid month is the `CivilMonth` of the decomposition `FirstDayOf` uses. */
  lemma CivilOfMonth(m: Month)
    requires ValidMonth(m)
    ensures var y := if m.month <= 2 then m.year - 1 else m.year;
            var mp := if m.month > 2 then m.month - 3 else m.month + 9;
            m == CivilMonth(y / 400, y % 400, mp) && FirstDayOf(m) == FirstDayInEra(y / 400, y % 400, mp)
  {
  }

  /** Every day from the first day of a month up to the first day of the next month
      lies in that month: the calendar month of a day is the month whose span holds it. */
  lemma MonthOfDayWithin(m: Month, d: int)
    requires ValidMonth(m)
    requires FirstDayOf(m) <= d < FirstDayOf(MonthFromIndex(MonthIndex(m) + 1))
    ensures MonthOfDay(d) == m
  {
    var y := if m.month <= 2 then m.year - 1 else m.year;
    var era, yoe := y / 400, y % 400;
    var mp := if m.month > 2 then m.month - 3 else m.month + 9;
    CivilOfMonth(m);
    var era', yoe', mp' := if mp < 11 then era else if yoe < 399 then era else era + 1,
                           if mp < 11 then yoe else if yoe < 399 then yoe + 1 else 0,
                           if mp < 11 then mp + 1 else 0;
    CivilMonthIndex(era, yoe, mp);
    CivilMonthIndex(era', yoe', mp');
    var next := CivilMonth(era', yoe', mp');
    MonthIndexInjective(MonthFromIndex(MonthIndex(m) + 1), next);
    FirstDayOfCivil(era', yoe', mp');
    DayInMonthOfEra(era, yoe, mp, d);
  }

  /** The in-era half of `MonthOfDayWithin`. */
  lemma DayInMonthOfEra(era: int, yoe: int, mp: int, d: int)
    requires 0 <= yoe < 400 && 0 <= mp < 12
    requires FirstDayInEra(era, yoe, mp) <= d
    requires mp < 11 ==> d < FirstDayInEra(era, yoe, mp + 1)
    requires mp == 11 && yoe < 399 ==> d < FirstDayInEra(era, yoe + 1, 0)
    requires mp == 11 && yoe == 399 ==> d < FirstDayInEra(era + 1, 0, 0)
    ensures MonthOfDay(d) == CivilMonth(era, yoe, mp)
  {
    var doe := d + 719468 - era * 146097;
    DayOfEraParts(era, yoe, mp, d);
    EraSplit(d + 719468, era, doe);
    assert MonthInEra(era, doe) == CivilMonth(era, YearOfEra(doe), ShiftedMonth(doe - DaysBeforeYearOfEra(YearOfEra(doe))));
  }

  /** Within its era, a day of that span reads back as year `yoe` and month `mp`. */
  lemma DayOfEraParts(era: int, yoe: int, mp: int, d: int)
    requires 0 <= yoe < 400 && 0 <= mp < 12
    requires FirstDayInEra(era, yoe, mp) <= d
    requires mp < 11 ==> d < FirstDayInEra(era, yoe, mp + 1)
    requires mp == 11 && yoe < 399 ==> d < FirstDayInEra(era, yoe + 1, 0)
    requires mp == 11 && yoe == 399 ==> d < FirstDayInEra(era + 1, 0, 0)
    ensures 0 <= d + 719468 - era * 146097 < 146097
    ensures YearOfEra(d + 719468 - era * 146097) == yoe
    ensures 0 <= d + 719468 - era * 146097 - DaysBeforeYearOfEra(yoe) < 366
    ensures ShiftedMonth(d + 719468 - era * 146097 - DaysBeforeYearOfEra(yoe)) == mp
  {
    var doe := d + 719468 - era * 146097;
    var doy := doe - DaysBeforeYearOfEra(yoe);
    assert DaysBeforeShiftedMonth(11) == 337;
    assert doe < NextYearStart(yoe);
    YearOfEraWithin(yoe, doy);
    ShiftedMonthWithin(mp, doy);
  }

  /** Day 0 is 1 January 1970, the epoch of the timestamps. */
  lemma EpochIsFirstOfJanuary1970()
    ensures FirstDayOf(Month(1970, 1)) == 0
    ensures MonthOfDay(0) == Month(1970, 1)
  {
    assert 1969 / 400 == 4 && 1969 % 400 == 369;
    assert DaysBeforeYearOfEra(369) == 134774 && DaysBeforeShiftedMonth(10) == 306;
    assert FirstDayOf(Month(1970, 1)) == FirstDayInEra(4, 369, 10) == 0;
    MonthOfFirstDay(Month(1970, 1));
  }

  /** The decimal digit for `n`. */
  function Digit(n: int): (c: char)
    requires 0 <= n < 10
    ensures '0' <= c <= '9' && c as int - '0' as int == n
  {
    (n + '0' as int) as char
  }

  function DigitValue(c: char): int
  {
    c as int - '0' as int
  }

  /** The `YYYY-MM` label of a month (the bucket label produced by `strftime('%Y-%m')`).
      pandas timestamps lie between the years 1677 and 2262, so four year digits suffice. */
  function MonthLabel(m: Month): (s: string)
    requires ValidMonth(m) && 0 <= m.year <= 9999
    ensures |s| == 7 && s[4] == '-'
    ensures forall i :: 0 <= i < 7 && i != 4 ==> '0' <= s[i] <= '9'
  {
    [Digit(m.year / 1000), Digit(m.year / 100 % 10), Digit(m.year / 10 % 10), Digit(m.year % 10),
     '-', Digit(m.month / 10), Digit(m.month % 10)]
  }

  /** Reads a `YYYY-MM` label back. */
  function ParseMonthLabel(s: string): Option<Month>
  {
    if |s| == 7 && s[4] == '-' && forall i :: 0 <= i < 7 && i != 4 ==> '0' <= s[i] <= '9' then
      Some(Month(1000 * DigitValue(s[0]) + 100 * DigitValue(s[1]) + 10 * DigitValue(s[2]) + DigitValue(s[3]),
                 10 * DigitValue(s[5]) + DigitValue(s[6])))
    else
      None
  }

  /** A label determines its month: parsing a label gives back the month it labels. */
  lemma LabelRoundTrip(m: Month)
    requires ValidMonth(m) && 0 <= m.year <= 9999
    ensures ParseMonthLabel(MonthLabel(m)) == Some(m)
  {
    var s := MonthLabel(m);
    var y := m.year;
    assert DigitValue(s[0]) == y / 1000 && DigitValue(s[1]) == y / 100 % 10;
    assert DigitValue(s[2]) == y / 10 % 10 && DigitValue(s[3]) == y % 10;
    assert DigitValue(s[5]) == m.month / 10 && DigitValue(s[6]) == m.month % 10;
    DecimalDigits(y);
  }

  lemma DecimalDigits(y: int)
    requires 0 <= y <= 9999
    ensures 1000 * (y / 1000) + 100 * (y / 100 % 10) + 10 * (y / 10 % 10) + y % 10 == y
  {
    var a, r := y / 1000, y % 1000;
    var b, r2 := r / 100, r % 100;
    var c, d := r2 / 10, r2 % 10;
    assert y == 100 * (10 * a + b) + r2;
    assert y / 100 == 10 * a + b;
    assert y == 10 * (100 * a + 10 * b + c) + d;
    assert y / 10 == 100 * a + 10 * b + c;
    assert (10 * a + b) % 10 == b;
    assert (100 * a + 10 * b + c) % 10 == c;
    assert y % 10 == d;
  }
}
