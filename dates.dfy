/** Date normalisation: extract_date and date_2_time, with strptime and the epoch conversion
    written out. */
module Dates {
  import opened Wrappers

  predicate IsDigit(c: char) {
    '0' <= c <= '9'
  }

  function DigitValue(c: char): nat
    requires IsDigit(c)
  {
    (c as int) - ('0' as int)
  }

  function DigitChar(n: int): char
    requires 0 <= n <= 9
  {
    (('0' as int) + n) as char
  }

  /** The pattern `\d{2}<sep>\d{2}<sep>\d{4}` matches the ten characters of `s` from index `i`. */
  predicate PatternAt(s: string, i: int, sep: char) {
    && 0 <= i && i + 10 <= |s|
    && IsDigit(s[i]) && IsDigit(s[i + 1]) && s[i + 2] == sep
    && IsDigit(s[i + 3]) && IsDigit(s[i + 4]) && s[i + 5] == sep
    && IsDigit(s[i + 6]) && IsDigit(s[i + 7]) && IsDigit(s[i + 8]) && IsDigit(s[i + 9])
  }

  /** `re.search` of the pattern: the leftmost index from `from` on where it matches. */
  function Search(s: string, sep: char, from: nat): (r: Option<nat>)
    decreases |s| - from
    ensures r.Some? ==> from <= r.value && PatternAt(s, r.value, sep)
    ensures forall j :: from <= j && (r.None? || j < r.value) ==> !PatternAt(s, j, sep)
  {
    if from + 10 > |s| then None
    else if PatternAt(s, from, sep) then Some(from)
    else Search(s, sep, from + 1)
  }

  datatype Date = Date(year: int, month: int, day: int)

  predicate IsLeapYear(y: int) {
    y % 4 == 0 && (y % 100 != 0 || y % 400 == 0)
  }

  function DaysInMonth(y: int, m: int): int
    requires 1 <= m <= 12
  {
    if m == 2 then (if IsLeapYear(y) then 29 else 28)
    else if m == 4 || m == 6 || m == 9 || m == 11 then 30
    else 31
  }

  function DaysInYear(y: int): int {
    if IsLeapYear(y) then 366 else 365
  }

  /** The dates a `datetime` can hold: years 1 to 9999 and a day that exists in its month. */
  predicate ValidDate(d: Date) {
    1 <= d.year <= 9999 && 1 <= d.month <= 12 && 1 <= d.day <= DaysInMonth(d.year, d.month)
  }

  /** `a` is a strictly earlier calendar date than `b`. */
  predicate Before(a: Date, b: Date) {
    || a.year < b.year
    || (a.year == b.year && a.month < b.month)
    || (a.year == b.year && a.month == b.month && a.day < b.day)
  }

  /** `strftime` with the format `%d<sep>%m<sep>%Y`. */
  function Format(d: Date, sep: char): string
    requires ValidDate(d)
  {
    [DigitChar(d.day / 10), DigitChar(d.day % 10), sep,
     DigitChar(d.month / 10), DigitChar(d.month % 10), sep,
     DigitChar(d.year / 1000), DigitChar(d.year / 100 % 10), DigitChar(d.year / 10 % 10), DigitChar(d.year % 10)]
  }

  /** The day, month and year digits of a matched window, read as numbers. */
  function WindowFields(s: string, i: nat, sep: char): Date
    requires PatternAt(s, i, sep)
  {
    Date(1000 * DigitValue(s[i + 6]) + 100 * DigitValue(s[i + 7]) + 10 * DigitValue(s[i + 8]) + DigitValue(s[i + 9]),
         10 * DigitValue(s[i + 3]) + DigitValue(s[i + 4]),
         10 * DigitValue(s[i]) + DigitValue(s[i + 1]))
  }

  lemma TwoDigits(n: int)
    requires 0 <= n <= 99
    ensures 0 <= n / 10 <= 9 && 0 <= n % 10 <= 9 && n == 10 * (n / 10) + n % 10
  {
  }

  lemma FourDigits(n: int)
    requires 0 <= n <= 9999
    ensures 0 <= n / 1000 <= 9 && 0 <= n / 100 % 10 <= 9 && 0 <= n / 10 % 10 <= 9 && 0 <= n % 10 <= 9
    ensures n == 1000 * (n / 1000) + 100 * (n / 100 % 10) + 10 * (n / 10 % 10) + n % 10
  {
    var a := n / 1000;
    var r1 := n - 1000 * a;
    var b := r1 / 100;
    var r2 := r1 - 100 * b;
    var c := r2 / 10;
    var e := r2 - 10 * c;
    assert 0 <= a <= 9 && 0 <= b <= 9 && 0 <= c <= 9 && 0 <= e <= 9;
    assert n == 1000 * a + 100 * b + 10 * c + e;
    ReadFour(a, b, c, e);
  }

  lemma ReadTwo(a: int, b: int)
    requires 0 <= a <= 9 && 0 <= b <= 9
    ensures (10 * a + b) / 10 == a && (10 * a + b) % 10 == b
  {
  }

  lemma ReadFour(a: int, b: int, c: int, e: int)
    requires 0 <= a <= 9 && 0 <= b <= 9 && 0 <= c <= 9 && 0 <= e <= 9
    ensures var n := 1000 * a + 100 * b + 10 * c + e;
      n / 1000 == a && n / 100 % 10 == b && n / 10 % 10 == c && n % 10 == e
  {
    var n := 1000 * a + 100 * b + 10 * c + e;
    assert n / 10 == 100 * a + 10 * b + c;
    assert n / 100 == 10 * a + b;
  }

  /** Formatting a date and reading its window back gives the date again. */
  lemma FormatRead(d: Date, sep: char)
    requires ValidDate(d)
    ensures PatternAt(Format(d, sep), 0, sep) && WindowFields(Format(d, sep), 0, sep) == d
  {
    TwoDigits(d.day);
    TwoDigits(d.month);
    FourDigits(d.year);
    var f := Format(d, sep);
    assert DigitValue(f[0]) == d.day / 10 && DigitValue(f[1]) == d.day % 10;
    assert DigitValue(f[3]) == d.month / 10 && DigitValue(f[4]) == d.month % 10;
    assert DigitValue(f[6]) == d.year / 1000 && DigitValue(f[7]) == d.year / 100 % 10;
    assert DigitValue(f[8]) == d.year / 10 % 10 && DigitValue(f[9]) == d.year % 10;
  }

  /** Reading a window and formatting it back gives the window again. */
  lemma ReadFormat(s: string, i: nat, sep: char)
    requires PatternAt(s, i, sep) && ValidDate(WindowFields(s, i, sep))
    ensures Format(WindowFields(s, i, sep), sep) == s[i..i + 10]
  {
    var d := WindowFields(s, i, sep);
    ReadTwo(DigitValue(s[i]), DigitValue(s[i + 1]));
    ReadTwo(DigitValue(s[i + 3]), DigitValue(s[i + 4]));
    ReadFour(DigitValue(s[i + 6]), DigitValue(s[i + 7]), DigitValue(s[i + 8]), DigitValue(s[i + 9]));
    var f := Format(d, sep);
    assert f == s[i..i + 10];
  }

  /** The fields of a window depend on the window alone. */
  lemma WindowOnly(s: string, i: nat, sep: char)
    requires PatternAt(s, i, sep)
    ensures PatternAt(s[i..i + 10], 0, sep) && WindowFields(s[i..i + 10], 0, sep) == WindowFields(s, i, sep)
  {
  }

  /** `strptime` on a matched window: a date exactly when the window is how some real date
      is written. */
  function Strptime(s: string, i: nat, sep: char): (r: Option<Date>)
    requires PatternAt(s, i, sep)
    ensures r.Some? ==> ValidDate(r.value) && Format(r.value, sep) == s[i..i + 10]
    ensures forall d :: ValidDate(d) && Format(d, sep) == s[i..i + 10] ==> r == Some(d)
  {
    forall d | ValidDate(d) && Format(d, sep) == s[i..i + 10] ensures WindowFields(s, i, sep) == d {
      FormatRead(d, sep);
      WindowOnly(s, i, sep);
    }
    var d := WindowFields(s, i, sep);
    if ValidDate(d) then
      ReadFormat(s, i, sep);
      Some(d)
    else
      None
  }

  /** Days in the years before `y`, in the proleptic Gregorian calendar. */
  function DaysBeforeYear(y: int): int
    requires y >= 1
  {
    var p := y - 1;
    p * 365 + p / 4 - p / 100 + p / 400
  }

  /** Days in the months of year `y` before month `m`. */
  function DaysBeforeMonth(y: int, m: int): int
    requires 1 <= m <= 12
  {
    [0, 31, 59, 90, 120, 151, 181, 212, 243, 273, 304, 334][m - 1] + (if m > 2 && IsLeapYear(y) then 1 else 0)
  }

  /** The proleptic Gregorian ordinal: 1 January of year 1 is day 1. */
  function Ordinal(d: Date): int
    requires ValidDate(d)
  {
    DaysBeforeYear(d.year) + DaysBeforeMonth(d.year, d.month) + d.day
  }

  /** The ordinal of 1 January 1970. */
  const EpochOrdinal: int := 719163

  /** `datetime.timestamp` of midnight on `d`, with the clock's zone taken to be UTC. */
  function Timestamp(d: Date): int
    requires ValidDate(d)
  {
    (Ordinal(d) - EpochOrdinal) * 86400
  }

  lemma EpochIsZero()
    ensures ValidDate(Date(1970, 1, 1)) && Timestamp(Date(1970, 1, 1)) == 0
  {
  }

  lemma YearStep(y: int)
    requires y >= 1
    ensures DaysBeforeYear(y + 1) == DaysBeforeYear(y) + DaysInYear(y)
  {
    var p := y - 1;
    assert y / 4 == p / 4 + (if y % 4 == 0 then 1 else 0);
    assert y / 100 == p / 100 + (if y % 100 == 0 then 1 else 0);
    assert y / 400 == p / 400 + (if y % 400 == 0 then 1 else 0);
  }

  lemma {:induction false} YearsMonotone(y: int, z: int)
    requires 1 <= y < z
    ensures DaysBeforeYear(y) + DaysInYear(y) <= DaysBeforeYear(z)
    decreases z - y
  {
    YearStep(y);
    if y + 1 < z {
      YearsMonotone(y + 1, z);
    }
  }

  lemma MonthStep(y: int, m: int)
    requires 1 <= m <= 12
    ensures m < 12 ==> DaysBeforeMonth(y, m + 1) == DaysBeforeMonth(y, m) + DaysInMonth(y, m)
    ensures m == 12 ==> DaysBeforeMonth(y, m) + DaysInMonth(y, m) == DaysInYear(y)
  {
  }

  lemma {:induction false} MonthsMonotone(y: int, m: int, n: int)
    requires 1 <= m < n <= 12
    ensures DaysBeforeMonth(y, m) + DaysInMonth(y, m) <= DaysBeforeMonth(y, n)
    decreases n - m
  {
    MonthStep(y, m);
    if m + 1 < n {
      MonthsMonotone(y, m + 1, n);
      MonthStep(y, m + 1);
    }
  }

  /** The ordinal counts days: a later date has a strictly larger ordinal. */
  lemma OrdinalMonotone(a: Date, b: Date)
    requires ValidDate(a) && ValidDate(b) && Before(a, b)
    ensures Ordinal(a) < Ordinal(b)
  {
    if a.year < b.year {
      MonthStep(a.year, a.month);
      if a.month < 12 {
        MonthsMonotone(a.year, a.month, 12);
        MonthStep(a.year, 12);
      }
      YearsMonotone(a.year, b.year);
    } else if a.month < b.month {
      MonthsMonotone(a.year, a.month, b.month);
    }
  }

  /** Timestamps order dates exactly as the calendar does. */
  lemma TimestampOrder(a: Date, b: Date)
    requires ValidDate(a) && ValidDate(b)
    ensures Timestamp(a) < Timestamp(b) <==> Before(a, b)
    ensures Timestamp(a) == Timestamp(b) <==> a == b
  {
    if Before(a, b) {
      OrdinalMonotone(a, b);
    } else if Before(b, a) {
      OrdinalMonotone(b, a);
    }
  }

  /** date_2_time: the timestamp of the matched window, or the ValueError strptime raises when
      the window names no real date. */
  function DateToTime(s: string, i: nat, sep: char): (r: Result<int>)
    requires PatternAt(s, i, sep)
    ensures forall d :: ValidDate(d) && Format(d, sep) == s[i..i + 10] ==> r == Ok(Timestamp(d))
    ensures r.Err? ==> r.error == ValueError && forall d :: ValidDate(d) ==> Format(d, sep) != s[i..i + 10]
  {
    match Strptime(s, i, sep)
    case Some(d) => Ok(Timestamp(d))
    case None => Err(ValueError)
  }

  /** The pair extract_date returns once a window has been found. */
  function Parsed(s: string, i: nat, sep: char): Result<(int, bool)>
    requires PatternAt(s, i, sep)
  {
    var t :- DateToTime(s, i, sep);
    Ok((t, true))
  }

  /** extract_date: the first `dd/mm/yyyy` window if there is one, otherwise the first
      `dd-mm-yyyy` window, otherwise the current time flagged as not valid. A window that
      matches the pattern but is not a real date raises. */
  function ExtractDate(date: Option<string>, now: int): (r: Result<(int, bool)>)
    ensures r.Ok? && !r.value.1 ==> r.value.0 == now
    ensures r.Err? ==> r.error == ValueError
  {
    match date
    case None => Ok((now, false))
    case Some(s) =>
      match Search(s, '/', 0)
      case Some(i) => Parsed(s, i, '/')
      case None =>
        match Search(s, '-', 0)
        case Some(i) => Parsed(s, i, '-')
        case None => Ok((now, false))
  }

  /** With no answer, or no window of either form, the current time is returned as not valid. */
  lemma NoDateDegrades(date: Option<string>, now: int)
    requires date.Some? ==> forall i :: !PatternAt(date.value, i, '/') && !PatternAt(date.value, i, '-')
    ensures ExtractDate(date, now) == Ok((now, false))
  {
  }

  /** The first slash window decides, whatever dash windows there are: its date when it is
      one, a ValueError when it is not. */
  lemma SlashDecides(s: string, i: nat, now: int)
    requires PatternAt(s, i, '/') && forall j :: 0 <= j < i ==> !PatternAt(s, j, '/')
    ensures forall d :: ValidDate(d) && Format(d, '/') == s[i..i + 10] ==> ExtractDate(Some(s), now) == Ok((Timestamp(d), true))
    ensures (forall d :: ValidDate(d) ==> Format(d, '/') != s[i..i + 10]) ==> ExtractDate(Some(s), now) == Err(ValueError)
  {
    assert Search(s, '/', 0) == Some(i);
  }

  /** Without any slash window, the first dash window decides. */
  lemma DashFallback(s: string, i: nat, now: int)
    requires forall j :: !PatternAt(s, j, '/')
    requires PatternAt(s, i, '-') && forall j :: 0 <= j < i ==> !PatternAt(s, j, '-')
    ensures forall d :: ValidDate(d) && Format(d, '-') == s[i..i + 10] ==> ExtractDate(Some(s), now) == Ok((Timestamp(d), true))
    ensures (forall d :: ValidDate(d) ==> Format(d, '-') != s[i..i + 10]) ==> ExtractDate(Some(s), now) == Err(ValueError)
  {
    assert Search(s, '-', 0) == Some(i);
  }

  /** A result flagged valid is the timestamp of a real date written in the answer. */
  lemma ValidComesFromADate(s: string, now: int)
    requires ExtractDate(Some(s), now).Ok? && ExtractDate(Some(s), now).value.1
    ensures exists i: nat, sep, d ::
              && PatternAt(s, i, sep) && ValidDate(d) && Format(d, sep) == s[i..i + 10]
              && ExtractDate(Some(s), now).value.0 == Timestamp(d)
  {
    var r := ExtractDate(Some(s), now);
    var sep := if Search(s, '/', 0).Some? then '/' else '-';
    var i := Search(s, sep, 0).value;
    var d := Strptime(s, i, sep).value;
    assert PatternAt(s, i, sep) && ValidDate(d) && Format(d, sep) == s[i..i + 10] && r.value.0 == Timestamp(d);
  }

  /** The same digits read the same with either separator: 15/03/2024 and 15-03-2024 name
      one moment. */
  lemma SeparatorIrrelevant(d: Date, now: int)
    requires ValidDate(d)
    ensures ExtractDate(Some(Format(d, '/')), now) == Ok((Timestamp(d), true))
    ensures ExtractDate(Some(Format(d, '-')), now) == Ok((Timestamp(d), true))
  {
    FormatRead(d, '/');
    FormatRead(d, '-');
    var s := Format(d, '-');
    forall j ensures !PatternAt(s, j, '/') {
      assert s[2] == '-';
    }
    SlashDecides(Format(d, '/'), 0, now);
    DashFallback(s, 0, now);
  }

  lemma SlashExample(now: int)
    ensures ExtractDate(Some("Valid to 15/03/2024"), now) == Ok((1710460800, true))
  {
    var s := "Valid to 15/03/2024";
    var d := Date(2024, 3, 15);
    assert Timestamp(d) == 1710460800;
    SlashExampleWindow();
    SlashDecides(s, 9, now);
  }

  lemma SlashExampleWindow()
    ensures var s := "Valid to 15/03/2024";
      && PatternAt(s, 9, '/') && (forall j :: 0 <= j < 9 ==> !PatternAt(s, j, '/'))
      && ValidDate(Date(2024, 3, 15)) && Format(Date(2024, 3, 15), '/') == s[9..19]
  {
    var s := "Valid to 15/03/2024";
    forall j | 0 <= j < 9 ensures !PatternAt(s, j, '/') {
      assert !IsDigit(s[j]);
    }
    assert Format(Date(2024, 3, 15), '/') == s[9..19];
  }

  lemma NotADateExample(now: int)
    ensures ExtractDate(Some("31-02-2024"), now) == Err(ValueError)
  {
    var s := "31-02-2024";
    assert Search(s, '/', 0) == None;
    assert Search(s, '-', 0) == Some(0);
    assert WindowFields(s, 0, '-') == Date(2024, 2, 31);
  }

  lemma NoWindowExample(now: int)
    ensures ExtractDate(Some("2024.03.15"), now) == Ok((now, false))
  {
    NoDateDegrades(Some("2024.03.15"), now);
  }
}
