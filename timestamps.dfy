/** The part of Python's `datetime` that the metrics code relies on: the
    proleptic Gregorian calendar over years 1..9999, conversion from a UTC
    epoch count, and the fixed-width text form `%Y-%m-%dT%H:%M:%S.%fZ` that
    `strftime` writes and `fromisoformat` reads back. */
module Timestamps {
  import opened Wrappers

  const MinYear := 1
  const MaxYear := 9999
  /** Days from 0001-01-01 to 1970-01-01 (Python's `date(1970, 1, 1).toordinal() - 1`). */
  const EpochOrdinal := 719162
  const MicrosPerSecond := 1_000_000
  const MicrosPerDay := 86_400_000_000

  // ---------------------------------------------------------------------
  // Calendar

  predicate IsLeapYear(y: int) {
    y % 4 == 0 && (y % 100 != 0 || y % 400 == 0)
  }

  function DaysInYear(y: int): nat {
    if IsLeapYear(y) then 366 else 365
  }

  function DaysInMonth(y: int, m: int): nat
    requires 1 <= m <= 12
  {
    if m == 2 then (if IsLeapYear(y) then 29 else 28)
    else if m == 4 || m == 6 || m == 9 || m == 11 then 30
    else 31
  }

  /** Days of year y that lie before the first of month m. */
  function DaysBeforeMonth(y: int, m: int): nat
    requires 1 <= m <= 12
  {
    (match m
     case 1 => 0 case 2 => 31 case 3 => 59 case 4 => 90
     case 5 => 120 case 6 => 151 case 7 => 181 case 8 => 212
     case 9 => 243 case 10 => 273 case 11 => 304 case _ => 334)
    + (if m > 2 && IsLeapYear(y) then 1 else 0)
  }

  /** Days from 0001-01-01 to 1 January of year y, in the closed form
      Python's `datetime` module uses. */
  function DaysBeforeYear(y: int): int
    requires y >= 1
  {
    var p := y - 1;
    p * 365 + p / 4 - p / 100 + p / 400
  }

  lemma DaysBeforeMonthStep(y: int, m: int)
    requires 1 <= m < 12
    ensures DaysBeforeMonth(y, m + 1) == DaysBeforeMonth(y, m) + DaysInMonth(y, m)
  {
  }

  lemma DaysBeforeMonthLast(y: int)
    ensures DaysBeforeMonth(y, 12) + DaysInMonth(y, 12) == DaysInYear(y)
  {
  }

  /** How many multiples of 4, 100 and 400 the step from y - 1 to y crosses. */
  lemma DivSteps(y: int)
    ensures y / 4 - (y - 1) / 4 == (if y % 4 == 0 then 1 else 0)
    ensures y / 100 - (y - 1) / 100 == (if y % 100 == 0 then 1 else 0)
    ensures y / 400 - (y - 1) / 400 == (if y % 400 == 0 then 1 else 0)
  {
  }

  lemma CenturyLeapFacts(y: int)
    ensures y % 400 == 0 ==> y % 100 == 0
    ensures y % 100 == 0 ==> y % 4 == 0
  {
  }

  /** The closed form counts exactly the days of each earlier year. */
  lemma DaysBeforeYearStep(y: int)
    requires y >= 1
    ensures DaysBeforeYear(y + 1) == DaysBeforeYear(y) + DaysInYear(y)
  {
    DivSteps(y);
    CenturyLeapFacts(y);
  }

  lemma {:induction false} DaysBeforeYearMonotone(x: int, y: int)
    requires 1 <= x <= y
    ensures DaysBeforeYear(x) + 365 * (y - x) <= DaysBeforeYear(y)
    decreases y - x
  {
    if x < y {
      DaysBeforeYearStep(x);
      DaysBeforeYearMonotone(x + 1, y);
    }
  }

  /** Walks forward from 1 January of year y by n days: the year reached
      and the 0-based day within it. */
  function YearOf(y: int, n: nat): (r: (int, nat))
    requires y >= 1
    ensures r.0 >= y && r.1 < DaysInYear(r.0)
    decreases n
  {
    if n < DaysInYear(y) then (y, n) else YearOf(y + 1, n - DaysInYear(y))
  }

  /** Walks forward from the first of month m of year y by n days. */
  function MonthOf(y: int, m: int, n: nat): (r: (int, nat))
    requires 1 <= m <= 12
    requires DaysBeforeMonth(y, m) + n < DaysInYear(y)
    ensures m <= r.0 <= 12 && r.1 < DaysInMonth(y, r.0)
    decreases 12 - m
  {
    DaysBeforeMonthLast(y);
    if n < DaysInMonth(y, m) then (m, n)
    else
      DaysBeforeMonthStep(y, m);
      MonthOf(y, m + 1, n - DaysInMonth(y, m))
  }

  lemma {:induction false} YearOfCounts(y: int, n: nat)
    requires y >= 1
    ensures DaysBeforeYear(YearOf(y, n).0) + YearOf(y, n).1 == DaysBeforeYear(y) + n
    decreases n
  {
    if n >= DaysInYear(y) {
      DaysBeforeYearStep(y);
      YearOfCounts(y + 1, n - DaysInYear(y));
    }
  }

  lemma {:induction false} YearOfFinds(x: int, y: int, k: nat)
    requires 1 <= x <= y && k < DaysInYear(y)
    ensures DaysBeforeYear(y) - DaysBeforeYear(x) + k >= 0
    ensures YearOf(x, DaysBeforeYear(y) - DaysBeforeYear(x) + k) == (y, k)
    decreases y - x
  {
    DaysBeforeYearMonotone(x, y);
    if x < y {
      DaysBeforeYearStep(x);
      DaysBeforeYearMonotone(x + 1, y);
      YearOfFinds(x + 1, y, k);
    }
  }

  lemma {:induction false} MonthOfCounts(y: int, m: int, n: nat)
    requires 1 <= m <= 12
    requires DaysBeforeMonth(y, m) + n < DaysInYear(y)
    ensures DaysBeforeMonth(y, MonthOf(y, m, n).0) + MonthOf(y, m, n).1 == DaysBeforeMonth(y, m) + n
    decreases 12 - m
  {
    DaysBeforeMonthLast(y);
    if n >= DaysInMonth(y, m) {
      DaysBeforeMonthStep(y, m);
      MonthOfCounts(y, m + 1, n - DaysInMonth(y, m));
    }
  }

  lemma {:induction false} MonthOfFinds(y: int, m: int, m': int, k: nat)
    requires 1 <= m <= m' <= 12 && k < DaysInMonth(y, m')
    ensures DaysBeforeMonth(y, m) <= DaysBeforeMonth(y, m')
    ensures DaysBeforeMonth(y, m') + k < DaysInYear(y)
    ensures MonthOf(y, m, DaysBeforeMonth(y, m') - DaysBeforeMonth(y, m) + k) == (m', k)
    decreases m' - m
  {
    DaysBeforeMonthLast(y);
    if m' < 12 {
      DaysBeforeMonthStep(y, m');
    }
    if m < m' {
      DaysBeforeMonthStep(y, m);
      MonthOfFinds(y, m + 1, m', k);
    }
  }

  /** A calendar day (what `.dt.date` keeps of a timestamp). */
  datatype CivilDate = CivilDate(year: int, month: int, day: int) {
    /** A real day in the range of Python's `date` type. */
    predicate Valid() {
      MinYear <= year <= MaxYear && 1 <= month <= 12 && 1 <= day <= DaysInMonth(year, month)
    }
  }

  /** Whether day a falls on or before day b. */
  predicate DateLe(a: CivilDate, b: CivilDate) {
    a.year < b.year
    || (a.year == b.year && (a.month < b.month || (a.month == b.month && a.day <= b.day)))
  }

  /** The day with 0-based ordinal n, counting 0001-01-01 as 0. */
  function DateFromOrdinal(n: nat): (d: CivilDate)
    ensures d.year >= MinYear && 1 <= d.month <= 12 && 1 <= d.day <= DaysInMonth(d.year, d.month)
  {
    var (y, k) := YearOf(MinYear, n);
    var (m, j) := MonthOf(y, 1, k);
    CivilDate(y, m, j + 1)
  }

  /** The 0-based ordinal of a day, counting 0001-01-01 as 0. */
  function Ordinal(d: CivilDate): int
    requires d.year >= MinYear && 1 <= d.month <= 12
  {
    DaysBeforeYear(d.year) + DaysBeforeMonth(d.year, d.month) + d.day - 1
  }

  lemma OrdinalOfDateFromOrdinal(n: nat)
    ensures Ordinal(DateFromOrdinal(n)) == n
  {
    YearOfCounts(MinYear, n);
    var (y, k) := YearOf(MinYear, n);
    MonthOfCounts(y, 1, k);
  }

  lemma DateFromOrdinalOfOrdinal(d: CivilDate)
    requires d.year >= MinYear && 1 <= d.month <= 12 && 1 <= d.day <= DaysInMonth(d.year, d.month)
    ensures Ordinal(d) >= 0
    ensures DateFromOrdinal(Ordinal(d)) == d
  {
    MonthOfFinds(d.year, 1, d.month, d.day - 1);
    YearOfFinds(MinYear, d.year, DaysBeforeMonth(d.year, d.month) + d.day - 1);
  }

  /** The 1970-01-01 origin of epoch counts has the ordinal Python gives it. */
  lemma EpochOrdinalIsUnixEpoch()
    ensures Ordinal(CivilDate(1970, 1, 1)) == EpochOrdinal
    ensures DateFromOrdinal(EpochOrdinal) == CivilDate(1970, 1, 1)
  {
    DateFromOrdinalOfOrdinal(CivilDate(1970, 1, 1));
  }

  // ---------------------------------------------------------------------
  // Timestamps

  /** A UTC timestamp with microsecond resolution. */
  datatype DateTime = DateTime(date: CivilDate, hour: int, minute: int, second: int, microsecond: int) {
    predicate Valid() {
      date.Valid() && 0 <= hour < 24 && 0 <= minute < 60 && 0 <= second < 60
      && 0 <= microsecond < MicrosPerSecond
    }
  }

  /** The timestamps Python's `datetime` can represent. */
  type Instant = t: DateTime | t.Valid() witness DateTime(CivilDate(1970, 1, 1), 0, 0, 0, 0)

  /** Midnight at the start of a day, as `strftime` sees a `date` object. */
  function Midnight(d: CivilDate): (t: Instant)
    requires d.Valid()
    ensures t.date == d
  {
    DateTime(d, 0, 0, 0, 0)
  }

  /** Microseconds since 1970-01-01T00:00:00Z. */
  function EpochMicros(t: Instant): int {
    ((Ordinal(t.date) - EpochOrdinal) * 86400 + t.hour * 3600 + t.minute * 60 + t.second)
      * MicrosPerSecond + t.microsecond
  }

  datatype ConversionError = OutOfRange | Unparseable

  /** `datetime.fromtimestamp(us / 10**6, tz=timezone.utc)` in exact integer
      arithmetic: floor division into days, fails outside years 1..9999. */
  function FromEpochMicros(us: int): Result<Instant, ConversionError> {
    var days := us / MicrosPerDay;
    var rem := us % MicrosPerDay;
    var ord := days + EpochOrdinal;
    if ord < 0 then Failure(OutOfRange)
    else
      var d := DateFromOrdinal(ord);
      if d.year > MaxYear then Failure(OutOfRange)
      else Success(DateTime(d, rem / 3_600_000_000, (rem / 60_000_000) % 60,
                            (rem / MicrosPerSecond) % 60, rem % MicrosPerSecond))
  }

  /** A successful conversion denotes exactly the given instant. */
  lemma EpochMicrosOfFromEpochMicros(us: int)
    requires FromEpochMicros(us).Success?
    ensures EpochMicros(FromEpochMicros(us).value) == us
  {
    var ord := us / MicrosPerDay + EpochOrdinal;
    OrdinalOfDateFromOrdinal(ord);
    var rem := us % MicrosPerDay;
    assert rem == (rem / 3_600_000_000) * 3_600_000_000 + ((rem / 60_000_000) % 60) * 60_000_000
                  + ((rem / MicrosPerSecond) % 60) * MicrosPerSecond + rem % MicrosPerSecond;
  }

  /** Microseconds at 0001-01-01T00:00:00Z and at 10000-01-01T00:00:00Z:
      the epoch counts Python's `datetime` can represent lie between them. */
  const FirstMicros := -62_135_596_800_000_000
  const EndMicros := 253_402_300_800_000_000

  lemma {:induction false} YearOfBelowMax(n: nat)
    ensures YearOf(MinYear, n).0 <= MaxYear <==> n < DaysBeforeYear(MaxYear + 1)
  {
    YearOfCounts(MinYear, n);
    var (y, k) := YearOf(MinYear, n);
    if y <= MaxYear {
      DaysBeforeYearStep(y);
      DaysBeforeYearMonotone(y + 1, MaxYear + 1);
    } else {
      DaysBeforeYearMonotone(MaxYear + 1, y);
    }
  }

  /** Conversion fails exactly outside the years 1..9999. */
  lemma FromEpochMicrosSucceeds(us: int)
    ensures FromEpochMicros(us).Success? <==> FirstMicros <= us < EndMicros
  {
    var ord := us / MicrosPerDay + EpochOrdinal;
    assert ord >= 0 <==> us >= FirstMicros;
    assert DaysBeforeYear(MaxYear + 1) == 3652059;
    assert ord < 3652059 <==> us < EndMicros;
    if ord >= 0 {
      YearOfBelowMax(ord);
    }
  }

  lemma DayDivMod(days: int, tod: int)
    requires 0 <= tod < MicrosPerDay
    ensures (days * MicrosPerDay + tod) / MicrosPerDay == days
    ensures (days * MicrosPerDay + tod) % MicrosPerDay == tod
  {
  }

  lemma TimeOfDayFields(h: int, mi: int, sec: int, us: int)
    requires 0 <= h < 24 && 0 <= mi < 60 && 0 <= sec < 60 && 0 <= us < MicrosPerSecond
    ensures var tod := (h * 3600 + mi * 60 + sec) * MicrosPerSecond + us;
      && 0 <= tod < MicrosPerDay
      && tod / 3_600_000_000 == h && (tod / 60_000_000) % 60 == mi
      && (tod / MicrosPerSecond) % 60 == sec && tod % MicrosPerSecond == us
  {
  }

  /** Every representable instant is reached from its own epoch count. */
  lemma FromEpochMicrosOfEpochMicros(t: Instant)
    ensures FromEpochMicros(EpochMicros(t)) == Success(t)
  {
    var us := EpochMicros(t);
    var days := Ordinal(t.date) - EpochOrdinal;
    var tod := (t.hour * 3600 + t.minute * 60 + t.second) * MicrosPerSecond + t.microsecond;
    assert us == days * MicrosPerDay + tod;
    TimeOfDayFields(t.hour, t.minute, t.second, t.microsecond);
    DayDivMod(days, tod);
    DateFromOrdinalOfOrdinal(t.date);
    assert us / MicrosPerDay + EpochOrdinal == Ordinal(t.date);
    assert us % MicrosPerDay == tod;
  }

  // ---------------------------------------------------------------------
  // Text form

  function Pow10(w: nat): (p: nat)
    ensures p >= 1
  {
    if w == 0 then 1 else 10 * Pow10(w - 1)
  }

  predicate IsDigit(c: char) {
    '0' <= c <= '9'
  }

  function DigitChar(d: int): (c: char)
    requires 0 <= d < 10
    ensures IsDigit(c)
  {
    (('0' as int) + d) as char
  }

  function DigitValue(c: char): int
    requires IsDigit(c)
  {
    c as int - '0' as int
  }

  predicate AllDigits(s: string) {
    forall i :: 0 <= i < |s| ==> IsDigit(s[i])
  }

  /** n as exactly w decimal digits, zero-padded on the left (`%02d`, `%06d`). */
  function Digits(n: nat, w: nat): (s: string)
    ensures |s| == w && AllDigits(s)
  {
    if w == 0 then [] else Digits(n / 10, w - 1) + [DigitChar(n % 10)]
  }

  /** The value of a run of decimal digits. */
  function ParseDigits(s: string): nat
    requires AllDigits(s)
  {
    if s == [] then 0 else 10 * ParseDigits(s[..|s| - 1]) + DigitValue(s[|s| - 1])
  }

  lemma {:induction false} ParseDigitsOfDigits(n: nat, w: nat)
    requires n < Pow10(w)
    ensures ParseDigits(Digits(n, w)) == n
  {
    if w > 0 {
      var s := Digits(n, w);
      assert s[..|s| - 1] == Digits(n / 10, w - 1);
      ParseDigitsOfDigits(n / 10, w - 1);
    }
  }

  /** Whether positions lo..hi-1 of s are all decimal digits. */
  predicate DigitsAt(s: string, lo: nat, hi: nat)
    requires lo <= hi <= |s|
  {
    forall i :: lo <= i < hi ==> IsDigit(s[i])
  }

  /** The shape `YYYY-MM-DDThh:mm:ss.ffffffZ`: 27 characters, digits in every
      field, the fixed separators between them. */
  predicate IsoShape(s: string) {
    |s| == 27
    && DigitsAt(s, 0, 4) && s[4] == '-' && DigitsAt(s, 5, 7) && s[7] == '-' && DigitsAt(s, 8, 10)
    && s[10] == 'T' && DigitsAt(s, 11, 13) && s[13] == ':' && DigitsAt(s, 14, 16)
    && s[16] == ':' && DigitsAt(s, 17, 19) && s[19] == '.' && DigitsAt(s, 20, 26) && s[26] == 'Z'
  }

  function FieldAt(s: string, lo: nat, hi: nat): nat
    requires lo <= hi <= |s| && DigitsAt(s, lo, hi)
  {
    ParseDigits(s[lo..hi])
  }

  /** `t.strftime('%Y-%m-%dT%H:%M:%S.%fZ')`. */
  function Format(t: Instant): (s: string)
    ensures IsoShape(s)
  {
    Digits(t.date.year, 4) + "-" + Digits(t.date.month, 2) + "-" + Digits(t.date.day, 2)
    + "T" + Digits(t.hour, 2) + ":" + Digits(t.minute, 2) + ":" + Digits(t.second, 2)
    + "." + Digits(t.microsecond, 6) + "Z"
  }

  /** `datetime.fromisoformat(s.replace('Z', '+00:00'))` on the fixed-width
      form: None unless s has that shape and names a real instant. */
  function ParseIso(s: string): Option<Instant> {
    if !IsoShape(s) then None
    else
      var t := DateTime(CivilDate(FieldAt(s, 0, 4), FieldAt(s, 5, 7), FieldAt(s, 8, 10)),
                        FieldAt(s, 11, 13), FieldAt(s, 14, 16), FieldAt(s, 17, 19), FieldAt(s, 20, 26));
      if t.Valid() then Some(t) else None
  }

  /** Where each field of `Format(t)` sits in the text. */
  lemma FormatFields(t: Instant)
    ensures Format(t)[0..4] == Digits(t.date.year, 4)
    ensures Format(t)[5..7] == Digits(t.date.month, 2)
    ensures Format(t)[8..10] == Digits(t.date.day, 2)
    ensures Format(t)[11..13] == Digits(t.hour, 2)
    ensures Format(t)[14..16] == Digits(t.minute, 2)
    ensures Format(t)[17..19] == Digits(t.second, 2)
    ensures Format(t)[20..26] == Digits(t.microsecond, 6)
  {
  }

  /** Reading back what `Format` wrote gives the same instant. */
  lemma ParseIsoOfFormat(t: Instant)
    ensures ParseIso(Format(t)) == Some(t)
  {
    FormatFields(t);
    ParseDigitsOfDigits(t.date.year, 4);
    ParseDigitsOfDigits(t.date.month, 2);
    ParseDigitsOfDigits(t.date.day, 2);
    ParseDigitsOfDigits(t.hour, 2);
    ParseDigitsOfDigits(t.minute, 2);
    ParseDigitsOfDigits(t.second, 2);
    ParseDigitsOfDigits(t.microsecond, 6);
  }

  /** Text in the fixed-width form that parses is what `Format` writes for it. */
  lemma FormatOfParseIso(s: string)
    requires ParseIso(s).Some?
    ensures Format(ParseIso(s).value) == s
  {
    var t := ParseIso(s).value;
    var f := Format(t);
    FormatFields(t);
    DigitsOfParseDigits(s[0..4]);
    DigitsOfParseDigits(s[5..7]);
    DigitsOfParseDigits(s[8..10]);
    DigitsOfParseDigits(s[11..13]);
    DigitsOfParseDigits(s[14..16]);
    DigitsOfParseDigits(s[17..19]);
    DigitsOfParseDigits(s[20..26]);
    forall i | 0 <= i < 27 ensures f[i] == s[i] {
      if i < 4 { assert f[i] == f[0..4][i] == s[0..4][i]; }
      else if 4 < i < 7 { assert f[i] == f[5..7][i - 5] == s[5..7][i - 5]; }
      else if 7 < i < 10 { assert f[i] == f[8..10][i - 8] == s[8..10][i - 8]; }
      else if 10 < i < 13 { assert f[i] == f[11..13][i - 11] == s[11..13][i - 11]; }
      else if 13 < i < 16 { assert f[i] == f[14..16][i - 14] == s[14..16][i - 14]; }
      else if 16 < i < 19 { assert f[i] == f[17..19][i - 17] == s[17..19][i - 17]; }
      else if 19 < i < 26 { assert f[i] == f[20..26][i - 20] == s[20..26][i - 20]; }
    }
  }

  lemma {:induction false} ParseDigitsBound(s: string)
    requires AllDigits(s)
    ensures ParseDigits(s) < Pow10(|s|)
  {
    if s != [] {
      ParseDigitsBound(s[..|s| - 1]);
    }
  }

  lemma {:induction false} DigitsOfParseDigits(s: string)
    requires AllDigits(s)
    ensures Digits(ParseDigits(s), |s|) == s
  {
    if s != [] {
      var p := s[..|s| - 1];
      DigitsOfParseDigits(p);
      var n := ParseDigits(s);
      assert n / 10 == ParseDigits(p);
      assert n % 10 == DigitValue(s[|s| - 1]);
      assert s == p + [s[|s| - 1]];
    }
  }
}
