/** `swap_dt`: reading and printing the layout `%Y-%m-%dT%H:%M`, with the
    reading rules of CPython's `strptime`, and the minute count a date and
    time stands for (Python's proleptic Gregorian `toordinal`, in minutes). */
module DateTimeText {
  import opened Wrappers

  /** A minute-precision naive date and time. */
  datatype DateTime = DateTime(year: int, month: int, day: int, hour: int, minute: int)

  predicate IsLeapYear(y: int)
  {
    y % 4 == 0 && (y % 100 != 0 || y % 400 == 0)
  }

  function DaysInMonth(y: int, m: int): (n: int)
    requires 1 <= m <= 12
    ensures 28 <= n <= 31
  {
    if m == 2 then (if IsLeapYear(y) then 29 else 28)
    else if m == 4 || m == 6 || m == 9 || m == 11 then 30
    else 31
  }

  /** A value a Python `datetime` can hold (seconds being zero). */
  predicate Valid(dt: DateTime)
  {
    && 1 <= dt.year <= 9999
    && 1 <= dt.month <= 12
    && 1 <= dt.day <= DaysInMonth(dt.year, dt.month)
    && 0 <= dt.hour <= 23
    && 0 <= dt.minute <= 59
  }

  predicate IsDigit(c: char)
  {
    '0' <= c <= '9'
  }

  function DigitValue(c: char): (n: int)
    requires IsDigit(c)
    ensures 0 <= n <= 9
  {
    c as int - '0' as int
  }

  function DigitChar(n: int): (c: char)
    requires 0 <= n <= 9
    ensures IsDigit(c) && DigitValue(c) == n
  {
    ('0' as int + n) as char
  }

  /** Two digits, zero-padded, as `strftime` prints `%m`, `%d`, `%H`, `%M`. */
  function Pad2(n: int): (s: string)
    requires 0 <= n <= 99
    ensures |s| == 2
  {
    [DigitChar(n / 10), DigitChar(n % 10)]
  }

  /** Four digits, zero-padded, as `strftime` prints `%Y`. */
  function Pad4(n: int): (s: string)
    requires 0 <= n <= 9999
    ensures |s| == 4
  {
    Pad2(n / 100) + Pad2(n % 100)
  }

  /** `swap_dt` on a `datetime`: `strftime('%Y-%m-%dT%H:%M')`. */
  function Format(dt: DateTime): (s: string)
    requires Valid(dt)
    ensures |s| == 16
  {
    Pad4(dt.year) + "-" + Pad2(dt.month) + "-" + Pad2(dt.day) + "T" + Pad2(dt.hour) + ":" + Pad2(dt.minute)
  }

  /** Length of the run of digits starting at `i`. */
  function DigitRun(s: string, i: nat): (n: nat)
    requires i <= |s|
    ensures i + n <= |s|
    ensures forall k :: i <= k < i + n ==> IsDigit(s[k])
    ensures i + n == |s| || !IsDigit(s[i + n])
    decreases |s| - i
  {
    if i < |s| && IsDigit(s[i]) then 1 + DigitRun(s, i + 1) else 0
  }

  function Pow10(n: nat): (p: nat)
    ensures p >= 1
  {
    if n == 0 then 1 else 10 * Pow10(n - 1)
  }

  /** The decimal value of the digits `s[i..i+n]`. */
  function NumberAt(s: string, i: nat, n: nat): (v: int)
    requires i + n <= |s|
    requires forall k :: i <= k < i + n ==> IsDigit(s[k])
    ensures 0 <= v < Pow10(n)
  {
    if n == 0 then 0 else 10 * NumberAt(s, i, n - 1) + DigitValue(s[i + n - 1])
  }

  lemma NumberAtTwo(s: string, i: nat)
    requires i + 2 <= |s| && IsDigit(s[i]) && IsDigit(s[i + 1])
    ensures NumberAt(s, i, 2) == 10 * DigitValue(s[i]) + DigitValue(s[i + 1])
  {
    assert NumberAt(s, i, 1) == DigitValue(s[i]);
  }

  lemma NumberAtFour(s: string)
    requires 4 <= |s| && IsDigit(s[0]) && IsDigit(s[1]) && IsDigit(s[2]) && IsDigit(s[3])
    ensures NumberAt(s, 0, 4)
         == 1000 * DigitValue(s[0]) + 100 * DigitValue(s[1]) + 10 * DigitValue(s[2]) + DigitValue(s[3])
  {
    assert NumberAt(s, 0, 1) == DigitValue(s[0]);
    assert NumberAt(s, 0, 2) == 10 * DigitValue(s[0]) + DigitValue(s[1]);
    assert NumberAt(s, 0, 3) == 100 * DigitValue(s[0]) + 10 * DigitValue(s[1]) + DigitValue(s[2]);
  }

  /** One numeric field of `%m`, `%H` or `%M` starting at `i`: one or two
      digits reaching up to the next non-digit, with a value in `lo..hi`.
      Yields the value and the position after the field. */
  function Field(s: string, i: nat, lo: int, hi: int): (r: Option<(int, nat)>)
    requires i <= |s|
    ensures r.Some? ==> lo <= r.value.0 <= hi && i < r.value.1 <= i + 2 && r.value.1 <= |s|
    ensures r.Some? ==> r.value.1 == i + DigitRun(s, i) && r.value.0 == NumberAt(s, i, DigitRun(s, i))
  {
    var n := DigitRun(s, i);
    if 1 <= n <= 2 && lo <= NumberAt(s, i, n) <= hi then Some((NumberAt(s, i, n), i + n)) else None
  }

  /** The `%d` field: as `Field` with range 1..31, or a space followed by one
      digit 1..9. */
  function DayField(s: string, i: nat): (r: Option<(int, nat)>)
    requires i <= |s|
    ensures r.Some? ==> 1 <= r.value.0 <= 31 && i < r.value.1 <= i + 2 && r.value.1 <= |s|
  {
    if i < |s| && s[i] == ' ' then
      if i + 1 < |s| && '1' <= s[i + 1] <= '9' then Some((DigitValue(s[i + 1]), i + 2)) else None
    else Field(s, i, 1, 31)
  }

  /** `swap_dt` on a string: `strptime(s, '%Y-%m-%dT%H:%M')`, `None` where
      Python raises `ValueError`. The year takes exactly four digits, the
      other fields one or two, the `T` matches either case, nothing may
      follow the minutes, and the date must exist. */
  function Parse(s: string): (r: Option<DateTime>)
    ensures r.Some? ==> Valid(r.value)
  {
    if |s| < 5 || !IsDigit(s[0]) || !IsDigit(s[1]) || !IsDigit(s[2]) || !IsDigit(s[3]) || s[4] != '-' then None
    else
      var year := NumberAt(s, 0, 4);
      assert Pow10(4) == 10000;
      match Field(s, 5, 1, 12)
      case None => None
      case Some((month, i)) =>
        if i >= |s| || s[i] != '-' then None
        else
          match DayField(s, i + 1)
          case None => None
          case Some((day, j)) =>
            if j >= |s| || (s[j] != 'T' && s[j] != 't') then None
            else
              match Field(s, j + 1, 0, 23)
              case None => None
              case Some((hour, k)) =>
                if k >= |s| || s[k] != ':' then None
                else
                  match Field(s, k + 1, 0, 59)
                  case None => None
                  case Some((minute, l)) =>
                    if l != |s| || year < 1 || day > DaysInMonth(year, month) then None
                    else Some(DateTime(year, month, day, hour, minute))
  }

  /** The layout exactly as `Format` prints it: every field at full width,
      an upper-case `T` and no space before the day. */
  predicate Canonical(s: string)
  {
    |s| == 16 && s[8] != ' ' && s[10] == 'T'
  }

  lemma DivMod100(n: int, q: int, r: int)
    requires 0 <= r < 100 && n == 100 * q + r
    ensures n / 100 == q && n % 100 == r
  {
  }

  lemma Pad2Digits(s: string, i: nat, n: int)
    requires 0 <= n <= 99
    requires i + 2 <= |s| && s[i..i + 2] == Pad2(n)
    ensures IsDigit(s[i]) && IsDigit(s[i + 1])
    ensures NumberAt(s, i, 2) == n
  {
    assert s[i] == Pad2(n)[0] && s[i + 1] == Pad2(n)[1];
    NumberAtTwo(s, i);
  }

  /** Where `Format` puts each field and separator. */
  lemma FormatLayout(dt: DateTime)
    requires Valid(dt)
    ensures var s := Format(dt);
      && s[..4] == Pad4(dt.year) && s[5..7] == Pad2(dt.month) && s[8..10] == Pad2(dt.day)
      && s[11..13] == Pad2(dt.hour) && s[14..16] == Pad2(dt.minute)
      && s[4] == '-' && s[7] == '-' && s[10] == 'T' && s[13] == ':'
  {
    var s := Format(dt);
    var y, mo, d, h, mi := Pad4(dt.year), Pad2(dt.month), Pad2(dt.day), Pad2(dt.hour), Pad2(dt.minute);
    assert s == y + "-" + mo + "-" + d + "T" + h + ":" + mi;
    assert s[..4] == y;
    assert s[5..7] == mo;
    assert s[8..10] == d;
    assert s[11..13] == h;
    assert s[14..16] == mi;
  }

  /** A full-width string with digits and separators in place reads as the
      date and time its fields spell, when that date exists. */
  lemma ParseFullWidth(s: string)
    requires |s| == 16 && s[4] == '-' && s[7] == '-' && s[10] == 'T' && s[13] == ':'
    requires forall k :: 0 <= k < 16 && k != 4 && k != 7 && k != 10 && k != 13 ==> IsDigit(s[k])
    ensures var dt := DateTime(NumberAt(s, 0, 4), NumberAt(s, 5, 2), NumberAt(s, 8, 2), NumberAt(s, 11, 2), NumberAt(s, 14, 2));
      Parse(s) == if Valid(dt) then Some(dt) else None
  {
    assert DigitRun(s, 7) == 0 && DigitRun(s, 10) == 0 && DigitRun(s, 13) == 0 && DigitRun(s, 16) == 0;
    assert DigitRun(s, 5) == 2 && DigitRun(s, 8) == 2 && DigitRun(s, 11) == 2 && DigitRun(s, 14) == 2;
  }

  lemma YearDigits(s: string, n: int)
    requires 0 <= n <= 9999
    requires 4 <= |s| && s[..4] == Pad4(n)
    ensures IsDigit(s[0]) && IsDigit(s[1]) && IsDigit(s[2]) && IsDigit(s[3])
    ensures NumberAt(s, 0, 4) == n
  {
    var hi, lo := n / 100, n % 100;
    assert s[..2] == Pad2(hi) && s[2..4] == Pad2(lo);
    Pad2Digits(s, 0, hi);
    Pad2Digits(s, 2, lo);
    NumberAtTwo(s, 0);
    NumberAtTwo(s, 2);
    NumberAtFour(s);
  }

  /** Printing then reading gives back the same date and time. */
  lemma {:induction false} ParseFormat(dt: DateTime)
    requires Valid(dt)
    ensures Parse(Format(dt)) == Some(dt)
  {
    var s := Format(dt);
    FormatLayout(dt);
    YearDigits(s, dt.year);
    Pad2Digits(s, 5, dt.month);
    Pad2Digits(s, 8, dt.day);
    Pad2Digits(s, 11, dt.hour);
    Pad2Digits(s, 14, dt.minute);
    assert NumberAt(s, 0, 4) == dt.year;
    ParseFullWidth(s);
  }

  lemma DigitsPad2(s: string, i: nat)
    requires i + 2 <= |s| && IsDigit(s[i]) && IsDigit(s[i + 1])
    ensures NumberAt(s, i, 2) <= 99
    ensures Pad2(NumberAt(s, i, 2)) == s[i..i + 2]
  {
    var n := NumberAt(s, i, 2);
    NumberAtTwo(s, i);
    assert n / 10 == DigitValue(s[i]) && n % 10 == DigitValue(s[i + 1]);
  }

  lemma DigitsPad4(s: string)
    requires 4 <= |s| && IsDigit(s[0]) && IsDigit(s[1]) && IsDigit(s[2]) && IsDigit(s[3])
    ensures NumberAt(s, 0, 4) <= 9999
    ensures Pad4(NumberAt(s, 0, 4)) == s[..4]
  {
    NumberAtFour(s);
    NumberAtTwo(s, 0);
    NumberAtTwo(s, 2);
    var n, hi, lo := NumberAt(s, 0, 4), NumberAt(s, 0, 2), NumberAt(s, 2, 2);
    assert n == 100 * hi + lo;
    DigitsPad2(s, 0);
    DigitsPad2(s, 2);
    DivMod100(n, hi, lo);
    assert s[..4] == s[0..2] + s[2..4];
  }

  /** A canonical string that reads has a two-digit run in every field,
      and reads as the values those runs spell. */
  lemma CanonicalFields(s: string)
    requires Canonical(s) && Parse(s).Some?
    ensures s[4] == '-' && s[7] == '-' && s[13] == ':'
    ensures forall k :: 0 <= k < 16 && k != 4 && k != 7 && k != 10 && k != 13 ==> IsDigit(s[k])
    ensures Parse(s).value
         == DateTime(NumberAt(s, 0, 4), NumberAt(s, 5, 2), NumberAt(s, 8, 2), NumberAt(s, 11, 2), NumberAt(s, 14, 2))
  {
    assert Field(s, 5, 1, 12).value.1 == 7;
    assert Field(s, 8, 1, 31).value.1 == 10;
    assert Field(s, 11, 0, 23).value.1 == 13;
    assert Field(s, 14, 0, 59).value.1 == 16;
  }

  /** Reading then printing gives back a canonical string. */
  lemma {:induction false} FormatParse(s: string)
    requires Canonical(s) && Parse(s).Some?
    ensures Format(Parse(s).value) == s
  {
    CanonicalFields(s);
    DigitsPad4(s);
    DigitsPad2(s, 5);
    DigitsPad2(s, 8);
    DigitsPad2(s, 11);
    DigitsPad2(s, 14);
    assert s == s[..4] + [s[4]] + s[5..7] + [s[7]] + s[8..10] + [s[10]] + s[11..13] + [s[13]] + s[14..16];
  }

  /** Reading succeeds once every field has been read. */
  lemma ParseFromFields(s: string, month: int, i: nat, day: int, j: nat, hour: int, k: nat, minute: int)
    requires |s| >= 5 && IsDigit(s[0]) && IsDigit(s[1]) && IsDigit(s[2]) && IsDigit(s[3]) && s[4] == '-'
    requires Field(s, 5, 1, 12) == Some((month, i)) && i < |s| && s[i] == '-'
    requires DayField(s, i + 1) == Some((day, j)) && j < |s| && (s[j] == 'T' || s[j] == 't')
    requires Field(s, j + 1, 0, 23) == Some((hour, k)) && k < |s| && s[k] == ':'
    requires Field(s, k + 1, 0, 59) == Some((minute, |s|))
    requires NumberAt(s, 0, 4) >= 1 && day <= DaysInMonth(NumberAt(s, 0, 4), month)
    ensures Parse(s) == Some(DateTime(NumberAt(s, 0, 4), month, day, hour, minute))
  {
  }

  /** A lone digit before a non-digit is a one-digit field. */
  lemma OneDigitField(s: string, i: nat, lo: int, hi: int)
    requires i + 1 < |s| && IsDigit(s[i]) && !IsDigit(s[i + 1])
    requires lo <= DigitValue(s[i]) <= hi
    ensures Field(s, i, lo, hi) == Some((DigitValue(s[i]), i + 1))
  {
    assert DigitRun(s, i + 1) == 0;
    assert NumberAt(s, i, 1) == DigitValue(s[i]);
  }

  /** `2021-1-5t3:7`, with one-digit fields and a lower-case `t`, reads as
      2021-01-05 03:07. */
  lemma ParseUnpaddedExample(s: string)
    requires s == "2021-1-5t3:7"
    ensures Parse(s) == Some(DateTime(2021, 1, 5, 3, 7))
  {
    NumberAtFour(s);
    OneDigitField(s, 5, 1, 12);
    OneDigitField(s, 7, 1, 31);
    OneDigitField(s, 9, 0, 23);
    assert DigitRun(s, 11) == 1;
    assert NumberAt(s, 11, 1) == 7;
    ParseFromFields(s, 1, 6, 5, 8, 3, 10, 7);
  }

  /** `2021-01-05T03:07` reads as 2021-01-05 03:07. */
  lemma ParseCanonicalExample(s: string)
    requires s == "2021-01-05T03:07"
    ensures Parse(s) == Some(DateTime(2021, 1, 5, 3, 7))
  {
    NumberAtFour(s);
    NumberAtTwo(s, 5);
    NumberAtTwo(s, 8);
    NumberAtTwo(s, 11);
    NumberAtTwo(s, 14);
    ParseFullWidth(s);
  }

  /** Reading is not one-to-one: an unpadded string with a lower-case `t`
      reads as the same date and time as the canonical string, so only
      canonical strings survive reading then printing. */
  lemma ParseAcceptsUnpadded()
    ensures Parse("2021-1-5t3:7") == Parse("2021-01-05T03:07")
    ensures Parse("2021-1-5t3:7").Some? && !Canonical("2021-1-5t3:7")
  {
    ParseUnpaddedExample("2021-1-5t3:7");
    ParseCanonicalExample("2021-01-05T03:07");
  }

  /** Days in the years before `y`, as Python's `_days_before_year`. */
  function DaysBeforeYear(y: int): int
  {
    var y1 := y - 1;
    y1 * 365 + y1 / 4 - y1 / 100 + y1 / 400
  }

  /** Days in the months of `y` before `m`, as Python's `_days_before_month`. */
  function DaysBeforeMonth(y: int, m: int): int
    requires 1 <= m <= 12
  {
    var base :=
      if m == 1 then 0 else if m == 2 then 31 else if m == 3 then 59 else if m == 4 then 90
      else if m == 5 then 120 else if m == 6 then 151 else if m == 7 then 181 else if m == 8 then 212
      else if m == 9 then 243 else if m == 10 then 273 else if m == 11 then 304 else 334;
    if m > 2 && IsLeapYear(y) then base + 1 else base
  }

  function DaysInYear(y: int): int
  {
    if IsLeapYear(y) then 366 else 365
  }

  /** Python's `toordinal` of the date (0001-01-01 is day 1) in minutes, plus
      the minutes of the day. Differences are what `datetime` subtraction
      yields, in minutes. */
  function EpochMinutes(dt: DateTime): int
    requires Valid(dt)
  {
    (DaysBeforeYear(dt.year) + DaysBeforeMonth(dt.year, dt.month) + dt.day) * 1440 + dt.hour * 60 + dt.minute
  }

  /** The order `datetime` comparison uses: field by field, year first. */
  predicate Before(a: DateTime, b: DateTime)
  {
    || a.year < b.year
    || (a.year == b.year && a.month < b.month)
    || (a.year == b.year && a.month == b.month && a.day < b.day)
    || (a.year == b.year && a.month == b.month && a.day == b.day && a.hour < b.hour)
    || (a.year == b.year && a.month == b.month && a.day == b.day && a.hour == b.hour && a.minute < b.minute)
  }

  lemma DaysBeforeNextYear(y: int)
    requires y >= 1
    ensures DaysBeforeYear(y + 1) == DaysBeforeYear(y) + DaysInYear(y)
  {
    var y1 := y - 1;
    DivMod4(y1);
    DivMod100Step(y1);
    DivMod400Step(y1);
  }

  lemma DivMod4(n: int)
    requires n >= 0
    ensures (n + 1) / 4 == n / 4 + (if (n + 1) % 4 == 0 then 1 else 0)
  {
  }

  lemma DivMod100Step(n: int)
    requires n >= 0
    ensures (n + 1) / 100 == n / 100 + (if (n + 1) % 100 == 0 then 1 else 0)
  {
  }

  lemma DivMod400Step(n: int)
    requires n >= 0
    ensures (n + 1) / 400 == n / 400 + (if (n + 1) % 400 == 0 then 1 else 0)
  {
  }

  /** Every day of year `a` comes before the first day of any later year. */
  lemma {:induction false} DaysBeforeYearGrows(a: int, b: int)
    requires 1 <= a < b
    ensures DaysBeforeYear(a) + DaysInYear(a) <= DaysBeforeYear(b)
    decreases b - a
  {
    DaysBeforeNextYear(a);
    if a + 1 < b {
      DaysBeforeYearGrows(a + 1, b);
    }
  }

  /** Every day of month `a` comes before the first day of a later month. */
  lemma DaysBeforeMonthGrows(y: int, a: int, b: int)
    requires 1 <= a < b <= 12
    ensures DaysBeforeMonth(y, a) + DaysInMonth(y, a) <= DaysBeforeMonth(y, b)
  {
  }

  /** The days of a year fit before the next year starts. */
  lemma DaysOfYearFit(y: int, m: int, d: int)
    requires 1 <= m <= 12 && 1 <= d <= DaysInMonth(y, m)
    ensures DaysBeforeMonth(y, m) + d <= DaysInYear(y)
  {
  }

  /** The minute count keeps the order of date and time, so sorting or
      comparing by it is sorting or comparing by `datetime`. */
  lemma EpochMinutesMonotone(a: DateTime, b: DateTime)
    requires Valid(a) && Valid(b) && Before(a, b)
    ensures EpochMinutes(a) < EpochMinutes(b)
  {
    var da := DaysBeforeYear(a.year) + DaysBeforeMonth(a.year, a.month) + a.day;
    var db := DaysBeforeYear(b.year) + DaysBeforeMonth(b.year, b.month) + b.day;
    if a.year < b.year {
      DaysOfYearFit(a.year, a.month, a.day);
      DaysBeforeYearGrows(a.year, b.year);
      assert da < db;
    } else if a.month < b.month {
      DaysBeforeMonthGrows(a.year, a.month, b.month);
      assert da < db;
    }
  }

  /** Distinct date-times have distinct minute counts. */
  lemma EpochMinutesInjective(a: DateTime, b: DateTime)
    requires Valid(a) && Valid(b) && a != b
    ensures EpochMinutes(a) != EpochMinutes(b)
  {
    if Before(a, b) {
      EpochMinutesMonotone(a, b);
    } else if Before(b, a) {
      EpochMinutesMonotone(b, a);
    }
  }

  /** `swap_dt` on a string, as a minute count. */
  function ParseMinutes(s: string): (r: Option<int>)
    ensures r.Some? <==> Parse(s).Some?
    ensures r.Some? ==> r.value == EpochMinutes(Parse(s).value)
  {
    match Parse(s)
    case None => None
    case Some(dt) => Some(EpochMinutes(dt))
  }
}
