/**
 * Calendar dates as the due-date check sees them: CPython's
 * `datetime.strptime(s, '%Y-%m-%d').date()` and the `<` comparison of `date` values.
 */
module Dates {
  import opened Wrappers

  datatype Date = Date(year: int, month: int, day: int)

  /** Proleptic Gregorian leap years. */
  predicate IsLeapYear(y: int) {
    y % 4 == 0 && (y % 100 != 0 || y % 400 == 0)
  }

  function DaysInMonth(y: int, m: int): int
    requires 1 <= m <= 12
  {
    if m == 2 then (if IsLeapYear(y) then 29 else 28)
    else if m == 4 || m == 6 || m == 9 || m == 11 then 30
    else 31
  }

  /** The range `datetime.date` accepts: years 1..9999 and a day that exists in its month. */
  predicate ValidDate(d: Date) {
    && 1 <= d.year <= 9999
    && 1 <= d.month <= 12
    && 1 <= d.day <= DaysInMonth(d.year, d.month)
  }

  /** `date.__lt__`: lexicographic on (year, month, day). */
  predicate Before(a: Date, b: Date) {
    || a.year < b.year
    || (a.year == b.year && a.month < b.month)
    || (a.year == b.year && a.month == b.month && a.day < b.day)
  }

  predicate IsDigit(c: char) {
    '0' <= c <= '9'
  }

  function DigitValue(c: char): (v: nat)
    requires IsDigit(c)
    ensures v < 10
  {
    (c as int) - ('0' as int)
  }

  /** `%Y`: exactly four ASCII digits. */
  function YearField(t: string): Option<int> {
    if |t| == 4 && IsDigit(t[0]) && IsDigit(t[1]) && IsDigit(t[2]) && IsDigit(t[3]) then
      Some(1000 * DigitValue(t[0]) + 100 * DigitValue(t[1]) + 10 * DigitValue(t[2]) + DigitValue(t[3]))
    else
      None
  }

  /** `%m`: one of `1[0-2]`, `0[1-9]`, `[1-9]`. */
  function MonthField(t: string): Option<int> {
    if |t| == 1 && '1' <= t[0] <= '9' then Some(DigitValue(t[0]))
    else if |t| == 2 && t[0] == '1' && '0' <= t[1] <= '2' then Some(10 + DigitValue(t[1]))
    else if |t| == 2 && t[0] == '0' && '1' <= t[1] <= '9' then Some(DigitValue(t[1]))
    else None
  }

  /**
   * `%d`: one of `3[01]`, `[12]\d`, `0[1-9]`, `[1-9]`, ` [1-9]`. The day is the last
   * field, so the alternative tried first must cover the whole remainder of the string.
   */
  function DayField(t: string): Option<int> {
    if |t| == 1 && '1' <= t[0] <= '9' then Some(DigitValue(t[0]))
    else if |t| == 2 && t[0] == '3' && '0' <= t[1] <= '1' then Some(30 + DigitValue(t[1]))
    else if |t| == 2 && '1' <= t[0] <= '2' && IsDigit(t[1]) then Some(10 * DigitValue(t[0]) + DigitValue(t[1]))
    else if |t| == 2 && (t[0] == '0' || t[0] == ' ') && '1' <= t[1] <= '9' then Some(DigitValue(t[1]))
    else None
  }

  /**
   * `strptime(s, '%Y-%m-%d')`: the year, a dash, the month, a dash and the day; the month
   * is one or two characters, so the second dash sits at offset 6 or 7. A match whose
   * fields do not make a real date (year 0, February 30) raises ValueError like a
   * malformed string, which is `None` here.
   */
  function ParseDate(s: string): (r: Option<Date>)
    ensures r.Some? ==> ValidDate(r.value)
    ensures r.Some? ==> 8 <= |s| <= 10 && s[4] == '-' && YearField(s[..4]) == Some(r.value.year)
  {
    if |s| < 8 || s[4] != '-' then
      None
    else
      var rest := s[5..];
      var monthLength := if rest[1] == '-' then 1 else if rest[2] == '-' then 2 else 0;
      if monthLength == 0 then
        None
      else
        match (YearField(s[..4]), MonthField(rest[..monthLength]), DayField(rest[monthLength + 1..]))
        case (Some(y), Some(m), Some(d)) =>
          if ValidDate(Date(y, m, d)) then Some(Date(y, m, d)) else None
        case _ => None
  }

  function Digit(n: nat): (c: char)
    requires n < 10
    ensures IsDigit(c) && DigitValue(c) == n
  {
    (('0' as int) + n) as char
  }

  /** Zero-padded decimal text of a number below 100. */
  function Pad2(n: nat): string
    requires n < 100
  {
    [Digit(n / 10), Digit(n % 10)]
  }

  /** Zero-padded decimal text of a number below 10000. */
  function Pad4(n: nat): string
    requires n < 10000
  {
    [Digit(n / 1000), Digit(n / 100 % 10), Digit(n / 10 % 10), Digit(n % 10)]
  }

  /** The canonical `YYYY-MM-DD` spelling of a date (`date.isoformat()`). */
  function FormatIso(d: Date): string
    requires ValidDate(d)
  {
    Pad4(d.year) + "-" + Pad2(d.month) + "-" + Pad2(d.day)
  }

  lemma YearFieldOfPad4(y: nat)
    requires y < 10000
    ensures YearField(Pad4(y)) == Some(y)
  {
    var t := Pad4(y);
    assert y / 100 == 10 * (y / 1000) + y / 100 % 10;
    assert y / 10 == 10 * (y / 100) + y / 10 % 10;
    assert y == 10 * (y / 10) + y % 10;
    assert DigitValue(t[0]) == y / 1000;
    assert DigitValue(t[1]) == y / 100 % 10;
    assert DigitValue(t[2]) == y / 10 % 10;
    assert DigitValue(t[3]) == y % 10;
  }

  lemma MonthFieldOfPad2(m: int)
    requires 1 <= m <= 12
    ensures MonthField(Pad2(m)) == Some(m)
  {
  }

  lemma DayFieldOfPad2(d: int)
    requires 1 <= d <= 31
    ensures DayField(Pad2(d)) == Some(d)
  {
  }

  /** Every real date, written as `YYYY-MM-DD`, is accepted and read back unchanged. */
  lemma ParseFormatIso(d: Date)
    requires ValidDate(d)
    ensures ParseDate(FormatIso(d)) == Some(d)
  {
    var s := FormatIso(d);
    var rest := s[5..];
    assert s[..4] == Pad4(d.year);
    assert rest[..2] == Pad2(d.month);
    assert rest[3..] == Pad2(d.day);
    YearFieldOfPad4(d.year);
    MonthFieldOfPad2(d.month);
    DayFieldOfPad2(d.day);
  }

  /** The spellings `%m` accepts for month `m`: two digits, or one when `m` is below 10. */
  function MonthSpellings(m: int): set<string>
    requires 1 <= m <= 12
  {
    {Pad2(m)} + (if m < 10 then {[Digit(m)]} else {})
  }

  /** The spellings `%d` accepts for day `d`: two digits, or one digit or a space and a digit when `d` is below 10. */
  function DaySpellings(d: int): set<string>
    requires 1 <= d <= 31
  {
    {Pad2(d)} + (if d < 10 then {[Digit(d)], [' ', Digit(d)]} else {})
  }

  /** `s` is one of the spellings of `d` that the format `%Y-%m-%d` matches as a whole. */
  ghost predicate Spells(s: string, d: Date)
    requires ValidDate(d)
  {
    exists mt, dt :: mt in MonthSpellings(d.month) && dt in DaySpellings(d.day) && s == Pad4(d.year) + "-" + mt + "-" + dt
  }

  lemma DigitOfValue(c: char)
    requires IsDigit(c)
    ensures Digit(DigitValue(c)) == c
  {
  }

  /** A four-digit year field is the zero-padded spelling of its value. */
  lemma YearFieldIsPad4(t: string)
    requires YearField(t).Some?
    ensures YearField(t).value < 10000 && t == Pad4(YearField(t).value)
  {
    var a, b, c, e := DigitValue(t[0]), DigitValue(t[1]), DigitValue(t[2]), DigitValue(t[3]);
    var y := 1000 * a + 100 * b + 10 * c + e;
    assert y / 10 == 100 * a + 10 * b + c && y % 10 == e;
    assert y / 100 == 10 * a + b && y / 10 % 10 == c;
    assert y / 1000 == a && y / 100 % 10 == b;
    DigitOfValue(t[0]);
    DigitOfValue(t[1]);
    DigitOfValue(t[2]);
    DigitOfValue(t[3]);
    assert Pad4(y) == [t[0], t[1], t[2], t[3]];
  }

  /** `%m` reads exactly the spellings of month `m` as `m`. */
  lemma MonthFieldSpellings(t: string, m: int)
    requires 1 <= m <= 12
    ensures MonthField(t) == Some(m) <==> t in MonthSpellings(m)
  {
    if MonthField(t) == Some(m) {
      DigitOfValue(t[|t| - 1]);
      if |t| == 1 {
        assert t == [Digit(m)];
      } else {
        assert t == Pad2(m);
      }
    }
  }

  /** `%d` reads exactly the spellings of day `d` as `d`. */
  lemma DayFieldSpellings(t: string, d: int)
    requires 1 <= d <= 31
    ensures DayField(t) == Some(d) <==> t in DaySpellings(d)
  {
    if DayField(t) == Some(d) {
      DigitOfValue(t[|t| - 1]);
      if |t| == 1 {
        assert t == [Digit(d)];
      } else if t[0] == ' ' {
        assert t == [' ', Digit(d)];
      } else {
        DigitOfValue(t[0]);
        assert t == Pad2(d);
      }
    }
  }

  /** Every spelling of a real date parses back to that date. */
  lemma SpelledDateParses(d: Date, mt: string, dt: string)
    requires ValidDate(d) && mt in MonthSpellings(d.month) && dt in DaySpellings(d.day)
    ensures ParseDate(Pad4(d.year) + "-" + mt + "-" + dt) == Some(d)
  {
    var s := Pad4(d.year) + "-" + mt + "-" + dt;
    MonthFieldSpellings(mt, d.month);
    DayFieldSpellings(dt, d.day);
    YearFieldOfPad4(d.year);
    var rest := s[5..];
    assert s[..4] == Pad4(d.year);
    assert rest == mt + "-" + dt;
    if |mt| == 1 {
      assert rest[..1] == mt && rest[2..] == dt;
    } else {
      assert rest[1] == mt[1] && rest[..2] == mt && rest[3..] == dt;
    }
  }

  /** Whatever parses is a spelling of the date it parses to. */
  lemma ParsedDateSpells(s: string)
    requires ParseDate(s).Some?
    ensures Spells(s, ParseDate(s).value)
  {
    var d := ParseDate(s).value;
    var rest := s[5..];
    var monthLength := if rest[1] == '-' then 1 else 2;
    var mt, dt := rest[..monthLength], rest[monthLength + 1..];
    YearFieldIsPad4(s[..4]);
    MonthFieldSpellings(mt, d.month);
    DayFieldSpellings(dt, d.day);
    assert s == s[..4] + "-" + mt + "-" + dt;
  }

  /**
   * `strptime(s, '%Y-%m-%d')` succeeds with `d` exactly when `d` is a real date and `s`
   * is one of its spellings, unpadded and space-padded fields included.
   */
  lemma ParseDateSpells(s: string, d: Date)
    ensures ParseDate(s) == Some(d) <==> ValidDate(d) && Spells(s, d)
  {
    if ParseDate(s) == Some(d) {
      ParsedDateSpells(s);
    }
    if ValidDate(d) && Spells(s, d) {
      var mt, dt :| mt in MonthSpellings(d.month) && dt in DaySpellings(d.day) && s == Pad4(d.year) + "-" + mt + "-" + dt;
      SpelledDateParses(d, mt, dt);
    }
  }

  /** `Before` is the strict total order the due-date check relies on. */
  lemma BeforeIsStrictTotalOrder(a: Date, b: Date, c: Date)
    ensures !Before(a, a)
    ensures Before(a, b) && Before(b, c) ==> Before(a, c)
    ensures a != b ==> Before(a, b) || Before(b, a)
    ensures Before(a, b) ==> !Before(b, a)
  {
  }
}
