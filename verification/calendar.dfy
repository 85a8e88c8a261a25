/** The proleptic Gregorian calendar of Python's `datetime`, the text formats the
    core gives dates (`strftime('%Y-%m-%d')`, `strftime('%Y-%m')`, and the
    `isoformat(" ")` that sqlite3 applies to a `datetime` parameter), and the
    billing-cycle start of `get_date_of_last_tenth`. */
module Calendar {
  import opened Results
  import opened Text

  datatype Date = Date(year: int, month: int, day: int)

  datatype Time = Time(hour: int, minute: int, second: int, microsecond: int)

  datatype DateTime = DateTime(date: Date, time: Time)

  /** `datetime.MINYEAR` and `datetime.MAXYEAR`. */
  const MinYear: int := 1
  const MaxYear: int := 9999

  predicate IsLeap(y: int) {
    y % 4 == 0 && (y % 100 != 0 || y % 400 == 0)
  }

  function DaysInMonth(y: int, m: int): (n: int)
    requires 1 <= m <= 12
    ensures 28 <= n <= 31
  {
    if m == 2 then (if IsLeap(y) then 29 else 28)
    else if m == 4 || m == 6 || m == 9 || m == 11 then 30
    else 31
  }

  function DaysInYear(y: int): int {
    if IsLeap(y) then 366 else 365
  }

  /** A value `datetime.date` accepts. */
  predicate ValidDate(d: Date) {
    && MinYear <= d.year <= MaxYear
    && 1 <= d.month <= 12
    && 1 <= d.day <= DaysInMonth(d.year, d.month)
  }

  predicate ValidTime(t: Time) {
    && 0 <= t.hour < 24
    && 0 <= t.minute < 60
    && 0 <= t.second < 60
    && 0 <= t.microsecond < 1000000
  }

  predicate ValidDateTime(dt: DateTime) {
    ValidDate(dt.date) && ValidTime(dt.time)
  }

  /** Chronological three-way comparison: by year, then month, then day. */
  function DateCmp(a: Date, b: Date): int {
    if a.year != b.year then Sign(a.year - b.year)
    else if a.month != b.month then Sign(a.month - b.month)
    else Sign(a.day - b.day)
  }

  predicate DateLe(a: Date, b: Date) {
    DateCmp(a, b) <= 0
  }

  /** Days in the years before `y`, in the closed form Python's `datetime` uses. */
  function DaysBeforeYear(y: int): int
    requires y >= 1
  {
    var p := y - 1;
    p * 365 + p / 4 - p / 100 + p / 400
  }

  /** Days in the months of year `y` before month `m`. */
  function DaysBeforeMonth(y: int, m: int): int
    requires 1 <= m <= 12
  {
    var common :=
      if m == 1 then 0 else if m == 2 then 31 else if m == 3 then 59
      else if m == 4 then 90 else if m == 5 then 120 else if m == 6 then 151
      else if m == 7 then 181 else if m == 8 then 212 else if m == 9 then 243
      else if m == 10 then 273 else if m == 11 then 304 else 334;
    common + (if m > 2 && IsLeap(y) then 1 else 0)
  }

  /** `date.toordinal()`: 0001-01-01 is day 1 and each later day adds one. */
  function Ordinal(d: Date): int
    requires ValidDate(d)
  {
    DaysBeforeYear(d.year) + DaysBeforeMonth(d.year, d.month) + d.day
  }

  lemma DivStep(p: int, k: int)
    requires k == 4 || k == 100 || k == 400
    requires p >= 1
    ensures p / k - (p - 1) / k == if p % k == 0 then 1 else 0
  {
  }

  /** A multiple of 400 is a multiple of 100, and a multiple of 100 one of 4. */
  lemma MultipleOf400(p: int)
    requires p % 400 == 0
    ensures p % 100 == 0
  {
    var q := p / 400;
    assert p == 100 * (4 * q);
  }

  lemma MultipleOf100(p: int)
    requires p % 100 == 0
    ensures p % 4 == 0
  {
    var q := p / 100;
    assert p == 4 * (25 * q);
  }

  /** The closed form grows from one year to the next by 365 plus the three
      leap-rule corrections. */
  lemma DaysBeforeYearDiff(y: int)
    requires y > 1
    ensures DaysBeforeYear(y) - DaysBeforeYear(y - 1)
      == 365 + ((y - 1) / 4 - (y - 2) / 4) - ((y - 1) / 100 - (y - 2) / 100) + ((y - 1) / 400 - (y - 2) / 400)
  {
  }

  /** One more year adds that year's length. */
  lemma DaysBeforeYearStep(y: int)
    requires y > 1
    ensures DaysBeforeYear(y) == DaysBeforeYear(y - 1) + DaysInYear(y - 1)
  {
    var p := y - 1;
    DaysBeforeYearDiff(y);
    DivStep(p, 4);
    DivStep(p, 100);
    DivStep(p, 400);
    if p % 400 == 0 {
      MultipleOf400(p);
      MultipleOf100(p);
    } else if p % 100 == 0 {
      MultipleOf100(p);
    }
  }

  lemma DaysBeforeYearPositive(y: int)
    requires y > 1
    ensures DaysBeforeYear(y) > 0
  {
  }

  lemma OrdinalStepMonth(y: int, m: int)
    requires MinYear <= y <= MaxYear && 1 < m <= 12
    ensures Ordinal(Date(y, m - 1, DaysInMonth(y, m - 1))) + 1 == Ordinal(Date(y, m, 1))
  {
  }

  lemma OrdinalStepYear(y: int)
    requires MinYear < y <= MaxYear
    ensures Ordinal(Date(y - 1, 12, 31)) + 1 == Ordinal(Date(y, 1, 1))
  {
    DaysBeforeYearStep(y);
  }

  lemma OrdinalAboveOne(d: Date)
    requires ValidDate(d)
    ensures d != Date(MinYear, 1, 1) ==> Ordinal(d) > 1
  {
    if d.year > MinYear {
      DaysBeforeYearPositive(d.year);
    } else if d.month > 1 {
    }
  }

  /** The day before `d`; stepping back from 0001-01-01 is Python's `OverflowError`. */
  function PrevDay(d: Date): (r: Result<Date>)
    requires ValidDate(d)
    ensures r.Err? <==> d == Date(MinYear, 1, 1)
    ensures r.Err? ==> r.error == DateOutOfRange
    ensures r.Ok? ==> ValidDate(r.value) && DateCmp(r.value, d) < 0
  {
    if d.day > 1 then Ok(d.(day := d.day - 1))
    else if d.month > 1 then Ok(Date(d.year, d.month - 1, DaysInMonth(d.year, d.month - 1)))
    else if d.year > MinYear then Ok(Date(d.year - 1, 12, 31))
    else Err(DateOutOfRange)
  }

  lemma PrevDayInMonth(d: Date)
    requires ValidDate(d) && d.day > 1
    ensures Ordinal(PrevDay(d).value) == Ordinal(d) - 1
  {
    assert PrevDay(d).value == d.(day := d.day - 1);
  }

  lemma PrevDayAcrossMonth(d: Date)
    requires ValidDate(d) && d.day == 1 && d.month > 1
    ensures Ordinal(PrevDay(d).value) == Ordinal(d) - 1
  {
    assert PrevDay(d).value == Date(d.year, d.month - 1, DaysInMonth(d.year, d.month - 1));
    OrdinalStepMonth(d.year, d.month);
  }

  lemma PrevDayAcrossYear(d: Date)
    requires ValidDate(d) && d.day == 1 && d.month == 1 && d.year > MinYear
    ensures Ordinal(PrevDay(d).value) == Ordinal(d) - 1
  {
    assert PrevDay(d).value == Date(d.year - 1, 12, 31);
    OrdinalStepYear(d.year);
  }

  /** `PrevDay` steps back exactly one ordinal, and fails exactly on ordinal 1. */
  lemma PrevDayOrdinal(d: Date)
    requires ValidDate(d)
    ensures PrevDay(d).Err? <==> Ordinal(d) == 1
    ensures PrevDay(d).Ok? ==> Ordinal(PrevDay(d).value) == Ordinal(d) - 1
  {
    OrdinalAboveOne(d);
    if d.day > 1 {
      PrevDayInMonth(d);
    } else if d.month > 1 {
      PrevDayAcrossMonth(d);
    } else if d.year > MinYear {
      PrevDayAcrossYear(d);
    }
  }

  /** `d - timedelta(days=n)`, taken one day at a time. */
  function MinusDays(d: Date, n: nat): (r: Result<Date>)
    requires ValidDate(d)
    ensures r.Err? ==> r.error == DateOutOfRange
    ensures r.Ok? ==> ValidDate(r.value)
    decreases n
  {
    if n == 0 then Ok(d)
    else
      match PrevDay(d)
      case Err(e) => Err(e)
      case Ok(e) => MinusDays(e, n - 1)
  }

  /** Subtracting `n` days fails exactly when the result would fall before
      0001-01-01, and otherwise lands `n` ordinals earlier. */
  lemma {:induction false} MinusDaysOrdinal(d: Date, n: nat)
    requires ValidDate(d)
    ensures MinusDays(d, n).Ok? <==> Ordinal(d) > n
    ensures MinusDays(d, n).Ok? ==> Ordinal(MinusDays(d, n).value) == Ordinal(d) - n
    decreases n
  {
    var r := MinusDays(d, n);
    var o := Ordinal(d);
    if n == 0 {
      assert r == Ok(d);
    } else {
      PrevDayOrdinal(d);
      var p := PrevDay(d);
      if p.Err? {
        assert r.Err? && o == 1;
      } else {
        var o' := Ordinal(p.value);
        assert o' == o - 1;
        assert r == MinusDays(p.value, n - 1);
        MinusDaysOrdinal(p.value, n - 1);
        assert r.Ok? <==> o' > n - 1;
        assert r.Ok? ==> Ordinal(r.value) == o' - (n - 1);
      }
    }
  }

  /** The field ranges the fixed-width formats below can print. */
  predicate Printable(d: Date) {
    0 <= d.year < 10000 && 0 <= d.month < 100 && 0 <= d.day < 100
  }

  /** `strftime('%Y-%m-%d')`. */
  function FormatDate(d: Date): (s: string)
    requires Printable(d)
    ensures |s| == 10 && s[4] == '-' && s[7] == '-'
    ensures forall k :: 0 <= k < 10 && k != 4 && k != 7 ==> IsDigit(s[k])
  {
    Pad(d.year, 4) + ("-" + (Pad(d.month, 2) + ("-" + Pad(d.day, 2))))
  }

  /** `strftime('%Y-%m')`. */
  function MonthPrefix(d: Date): string
    requires Printable(d)
  {
    Pad(d.year, 4) + ("-" + Pad(d.month, 2))
  }

  /** `time.isoformat()`: microseconds are printed only when non-zero. */
  function FormatTime(t: Time): string
    requires ValidTime(t)
  {
    Pad(t.hour, 2) + ":" + Pad(t.minute, 2) + ":" + Pad(t.second, 2)
    + (if t.microsecond != 0 then "." + Pad(t.microsecond, 6) else "")
  }

  /** `str(dt)`, i.e. `dt.isoformat(" ")`: the text sqlite3's default adapter binds
      for a `datetime` parameter. */
  function FormatDateTime(dt: DateTime): (s: string)
    requires ValidDateTime(dt)
    ensures |s| == if dt.time.microsecond != 0 then 26 else 19
    ensures s[..10] == FormatDate(dt.date) && s[10] == ' '
  {
    var s := FormatDate(dt.date) + (" " + FormatTime(dt.time));
    assert s[..10] == FormatDate(dt.date);
    s
  }

  /** The shape `YYYY-MM-DD` with ASCII digits and no calendar check. */
  predicate DateShaped(s: string) {
    && |s| == 10
    && s[4] == '-' && s[7] == '-'
    && AllDigits(s[..4]) && AllDigits(s[5..7]) && AllDigits(s[8..])
  }

  /** The numbers written in a date-shaped string. */
  function FieldsOf(s: string): (d: Date)
    requires DateShaped(s)
    ensures Printable(d)
  {
    Date(DigitsValue(s[..4]), DigitsValue(s[5..7]), DigitsValue(s[8..]))
  }

  /** Where the three numbers sit in a formatted date. */
  lemma FormatDateFields(d: Date)
    requires Printable(d)
    ensures |FormatDate(d)| == 10 && FormatDate(d)[4] == '-' && FormatDate(d)[7] == '-'
    ensures FormatDate(d)[..4] == Pad(d.year, 4)
    ensures FormatDate(d)[5..7] == Pad(d.month, 2)
    ensures FormatDate(d)[8..] == Pad(d.day, 2)
  {
    var tail := "-" + (Pad(d.month, 2) + ("-" + Pad(d.day, 2)));
    var s := Pad(d.year, 4) + tail;
    assert s[..4] == Pad(d.year, 4);
    assert s[4..] == tail;
    assert tail[1..3] == Pad(d.month, 2);
    assert tail[4..] == Pad(d.day, 2);
  }

  /** Formatting and reading back are inverse, in both directions. */
  lemma FormatDateRoundTrip(d: Date)
    requires Printable(d)
    ensures DateShaped(FormatDate(d)) && FieldsOf(FormatDate(d)) == d
  {
    FormatDateFields(d);
    DigitsValueOfPad(d.year, 4);
    DigitsValueOfPad(d.month, 2);
    DigitsValueOfPad(d.day, 2);
  }

  lemma FieldsRoundTrip(s: string)
    requires DateShaped(s)
    ensures FormatDate(FieldsOf(s)) == s
  {
    PadOfDigitsValue(s[..4]);
    PadOfDigitsValue(s[5..7]);
    PadOfDigitsValue(s[8..]);
    assert s == s[..4] + ("-" + (s[5..7] + ("-" + s[8..])));
  }

  /** Formatted dates compare as strings exactly as the dates compare in time,
      which is what makes the source's `date >= ?` text comparisons chronological. */
  lemma CmpFormatDate(a: Date, b: Date)
    requires Printable(a) && Printable(b)
    ensures Cmp(FormatDate(a), FormatDate(b)) == DateCmp(a, b)
  {
    var ma := Pad(a.month, 2) + ("-" + Pad(a.day, 2));
    var mb := Pad(b.month, 2) + ("-" + Pad(b.day, 2));
    CmpPad(a.year, b.year, 4);
    CmpPad(a.month, b.month, 2);
    CmpPad(a.day, b.day, 2);
    CmpConcat(Pad(a.year, 4), "-" + ma, Pad(b.year, 4), "-" + mb);
    CmpConcat("-", ma, "-", mb);
    CmpConcat(Pad(a.month, 2), "-" + Pad(a.day, 2), Pad(b.month, 2), "-" + Pad(b.day, 2));
    CmpConcat("-", Pad(a.day, 2), "-", Pad(b.day, 2));
  }

  /** `date LIKE 'YYYY-MM%'` on a date-shaped string holds exactly for the dates of that month. */
  lemma MonthPrefixMatches(s: string, d: Date)
    requires DateShaped(s) && Printable(d)
    ensures StartsWith(s, MonthPrefix(d)) <==> FieldsOf(s).year == d.year && FieldsOf(s).month == d.month
  {
    var f := FieldsOf(s);
    FieldsRoundTrip(s);
    assert s[..7] == Pad(f.year, 4) + ("-" + Pad(f.month, 2));
    CmpPad(f.year, d.year, 4);
    CmpPad(f.month, d.month, 2);
    CmpConcat(Pad(f.year, 4), "-" + Pad(f.month, 2), Pad(d.year, 4), "-" + Pad(d.month, 2));
    CmpConcat("-", Pad(f.month, 2), "-", Pad(d.month, 2));
  }

  /** Appending `-10` to `strftime('%Y-%m')` spells the tenth of that month. */
  lemma MonthPrefixTenth(d: Date)
    requires Printable(d)
    ensures MonthPrefix(d) + "-10" == FormatDate(d.(day := 10))
  {
    assert Pad(10, 2) == "10";
  }

  /** The day before the 1st of a month is in the previous month, and still a valid date. */
  lemma PrevDayOfFirst(d: Date)
    requires ValidDate(d) && d.day == 1
    ensures d.month > 1 ==> PrevDay(d) == Ok(Date(d.year, d.month - 1, DaysInMonth(d.year, d.month - 1)))
    ensures d.month == 1 && d.year > MinYear ==> PrevDay(d) == Ok(Date(d.year - 1, 12, 31))
  {
  }

  /** The 10th of the month that the day before the 1st of `today`'s month falls in. */
  function TenthOfPreviousMonth(today: Date): (r: Result<Date>)
    requires ValidDate(today)
    ensures today.month > 1 ==> r == Ok(Date(today.year, today.month - 1, 10))
    ensures today.month == 1 && today.year > MinYear ==> r == Ok(Date(today.year - 1, 12, 10))
    ensures r.Err? <==> today.month == 1 && today.year == MinYear
    ensures r.Ok? ==> ValidDate(r.value) && r.value.day == 10 && DateCmp(r.value, today) < 0
  {
    var firstOfMonth := today.(day := 1);
    PrevDayOfFirst(firstOfMonth);
    var lastOfPrevious := PrevDay(firstOfMonth);
    if lastOfPrevious.Err? then Err(lastOfPrevious.error)
    else Ok(lastOfPrevious.value.(day := 10))
  }

  /** The tenth that opens the billing cycle containing `today`, as
      `get_date_of_last_tenth` means it: from the 10th on, the 10th of this month;
      before it, the 10th of the previous month. */
  function CycleStart(today: Date): (r: Result<Date>)
    requires ValidDate(today)
    ensures today.day >= 10 ==> r == Ok(Date(today.year, today.month, 10))
    ensures today.day < 10 && today.month > 1 ==> r == Ok(Date(today.year, today.month - 1, 10))
    ensures today.day < 10 && today.month == 1 && today.year > MinYear ==> r == Ok(Date(today.year - 1, 12, 10))
    ensures r.Err? <==> today.day < 10 && today.month == 1 && today.year == MinYear
    ensures r.Ok? ==> ValidDate(r.value) && r.value.day == 10 && DateLe(r.value, today)
  {
    if today.day < 10 then TenthOfPreviousMonth(today)
    else Ok(today.(day := 10))
  }

  /** No tenth of a month lies strictly between the cycle start and `today`. */
  lemma CycleStartIsLatestTenth(today: Date, d: Date)
    requires ValidDate(today) && CycleStart(today).Ok?
    requires ValidDate(d) && d.day == 10 && DateLe(d, today)
    ensures DateLe(d, CycleStart(today).value)
  {
  }

  /** `get_date_of_last_tenth` as written: `timedelta` is never imported into its
      module, so every call before the 10th raises `NameError`. */
  function CycleStartAsWritten(today: Date): (r: Result<Date>)
    requires ValidDate(today)
    ensures today.day < 10 ==> r == Err(UndefinedName("timedelta"))
    ensures today.day >= 10 ==> r == CycleStart(today)
  {
    if today.day < 10 then Err(UndefinedName("timedelta"))
    else Ok(today.(day := 10))
  }
}
