/** Calendar dates as day numbers, and the date parser the person validators
    share (`parse_date` in warsa/persons.py, `Validator.parse_date` in
    persons.py). A date is represented by its proleptic Gregorian ordinal
    (`date.toordinal()`, 0001-01-01 is day 1), so `timedelta` arithmetic and
    date comparison become integer arithmetic and comparison. */
module Dates {
  import opened Wrappers
  import opened Text

  /** A day number: `date.toordinal()`. */
  type Day = int

  predicate IsLeap(y: int) {
    y % 4 == 0 && (y % 100 != 0 || y % 400 == 0)
  }

  function DaysInMonth(y: int, m: int): int
    requires 1 <= m <= 12
  {
    if m == 2 then (if IsLeap(y) then 29 else 28)
    else if m == 4 || m == 6 || m == 9 || m == 11 then 30
    else 31
  }

  /** The calendar dates `datetime.date` accepts. */
  predicate ValidDate(y: int, m: int, d: int) {
    1 <= y <= 9999 && 1 <= m <= 12 && 1 <= d <= DaysInMonth(y, m)
  }

  function DaysBeforeYear(y: int): int
    requires y >= 1
  {
    var y1 := y - 1;
    y1 * 365 + y1 / 4 - y1 / 100 + y1 / 400
  }

  function DaysBeforeMonth(y: int, m: int): int
    requires 1 <= m <= 13
    decreases m
  {
    if m == 1 then 0 else DaysBeforeMonth(y, m - 1) + DaysInMonth(y, m - 1)
  }

  /** The day number of a date, counting 1 January of year 1 as day 1. */
  function Ordinal(y: int, m: int, d: int): Day
    requires ValidDate(y, m, d)
  {
    DaysBeforeYear(y) + DaysBeforeMonth(y, m) + d
  }

  function YearLength(y: int): int {
    if IsLeap(y) then 366 else 365
  }

  lemma YearOfMonths(y: int)
    ensures DaysBeforeMonth(y, 13) == YearLength(y)
  {
  }

  lemma {:induction false} DaysBeforeYearStep(y: int)
    requires y >= 1
    ensures DaysBeforeYear(y + 1) == DaysBeforeYear(y) + YearLength(y)
  {
    DivStep(y, 4);
    DivStep(y, 100);
    DivStep(y, 400);
    LeapDivisors(y);
    var a := if y % 4 == 0 then 1 else 0;
    var b := if y % 100 == 0 then 1 else 0;
    var c := if y % 400 == 0 then 1 else 0;
    assert YearLength(y) == 365 + a - b + c;
  }

  /** A multiple of 400 is one of 100, and a multiple of 100 one of 4. */
  lemma LeapDivisors(y: int)
    ensures y % 400 == 0 ==> y % 100 == 0
    ensures y % 100 == 0 ==> y % 4 == 0
  {
    if y % 400 == 0 {
      MultipleOf100(y, 4 * (y / 400));
    }
    if y % 100 == 0 {
      MultipleOf4(y, 25 * (y / 100));
    }
  }

  lemma MultipleOf100(y: int, q: int)
    requires y == 100 * q
    ensures y % 100 == 0
  {
  }

  lemma MultipleOf4(y: int, q: int)
    requires y == 4 * q
    ensures y % 4 == 0
  {
  }

  /** Moving from `y - 1` to `y` raises `y / k` by one exactly at the
      multiples of `k`, for the divisors of the leap-year rule. */
  lemma DivStep(y: int, k: int)
    requires k == 4 || k == 100 || k == 400
    ensures y / k == (y - 1) / k + (if y % k == 0 then 1 else 0)
  {
    if k == 4 {
      assert y / 4 == (y - 1) / 4 + (if y % 4 == 0 then 1 else 0);
    } else if k == 100 {
      assert y / 100 == (y - 1) / 100 + (if y % 100 == 0 then 1 else 0);
    } else {
      assert y / 400 == (y - 1) / 400 + (if y % 400 == 0 then 1 else 0);
    }
  }

  lemma {:induction false} MonthsIncrease(y: int, m1: int, m2: int)
    requires 1 <= m1 < m2 <= 13
    ensures DaysBeforeMonth(y, m2) >= DaysBeforeMonth(y, m1) + DaysInMonth(y, m1)
    decreases m2
  {
    if m2 > m1 + 1 {
      MonthsIncrease(y, m1, m2 - 1);
    }
  }

  lemma {:induction false} OrdinalWithinYear(y: int, m: int, d: int)
    requires ValidDate(y, m, d)
    ensures DaysBeforeYear(y) < Ordinal(y, m, d) <= DaysBeforeYear(y + 1)
  {
    YearOfMonths(y);
    DaysBeforeYearStep(y);
    if m < 12 {
      MonthsIncrease(y, m, 13);
    }
  }

  lemma {:induction false} YearsIncrease(y1: int, y2: int)
    requires 1 <= y1 <= y2
    ensures DaysBeforeYear(y1) <= DaysBeforeYear(y2)
    decreases y2 - y1
  {
    if y1 < y2 {
      DaysBeforeYearStep(y1);
      YearsIncrease(y1 + 1, y2);
    }
  }

  /** Day numbers are ordered like the calendar dates they stand for, which is
      what lets the model compare and subtract day numbers where the source
      compares and subtracts `date` objects. */
  lemma {:induction false} OrdinalMonotonic(y1: int, m1: int, d1: int, y2: int, m2: int, d2: int)
    requires ValidDate(y1, m1, d1) && ValidDate(y2, m2, d2)
    requires y1 < y2 || (y1 == y2 && m1 < m2) || (y1 == y2 && m1 == m2 && d1 < d2)
    ensures Ordinal(y1, m1, d1) < Ordinal(y2, m2, d2)
  {
    if y1 < y2 {
      OrdinalWithinYear(y1, m1, d1);
      OrdinalWithinYear(y2, m2, d2);
      YearsIncrease(y1 + 1, y2);
    } else if m1 < m2 {
      MonthsIncrease(y1, m1, m2);
    }
  }

  predicate IsDigit(c: char) {
    '0' <= c <= '9'
  }

  function DigitValue(c: char): int
    requires IsDigit(c)
  {
    c as int - '0' as int
  }

  /** The `%Y` directive of `strptime`: exactly four digits. */
  function YearField(s: String): Option<int> {
    if |s| == 4 && IsDigit(s[0]) && IsDigit(s[1]) && IsDigit(s[2]) && IsDigit(s[3]) then
      Some(1000 * DigitValue(s[0]) + 100 * DigitValue(s[1]) + 10 * DigitValue(s[2]) + DigitValue(s[3]))
    else None
  }

  /** The `%m` directive: `1[0-2]|0[1-9]|[1-9]`. */
  function MonthField(s: String): Option<int> {
    if |s| == 1 && '1' <= s[0] <= '9' then Some(DigitValue(s[0]))
    else if |s| == 2 && s[0] == '0' && '1' <= s[1] <= '9' then Some(DigitValue(s[1]))
    else if |s| == 2 && s[0] == '1' && '0' <= s[1] <= '2' then Some(10 + DigitValue(s[1]))
    else None
  }

  /** The `%d` directive: `3[01]|[12]\d|0[1-9]|[1-9]| [1-9]`. */
  function DayField(s: String): Option<int> {
    if |s| == 1 && '1' <= s[0] <= '9' then Some(DigitValue(s[0]))
    else if |s| == 2 && (s[0] == '0' || s[0] == ' ') && '1' <= s[1] <= '9' then Some(DigitValue(s[1]))
    else if |s| == 2 && (s[0] == '1' || s[0] == '2') && IsDigit(s[1]) then Some(10 * DigitValue(s[0]) + DigitValue(s[1]))
    else if |s| == 2 && s[0] == '3' && (s[1] == '0' || s[1] == '1') then Some(30 + DigitValue(s[1]))
    else None
  }

  /** `datetime.strptime(s, "%Y-%m-%d").date()`: the whole string must be the
      three fields separated by dashes, and the date must exist. */
  function StrptimeYmd(s: String): (r: Option<Day>)
    ensures r.Some? ==> exists y, m, d :: ValidDate(y, m, d) && r.value == Ordinal(y, m, d)
  {
    var parts := Split(s, '-');
    if |parts| != 3 then None
    else
      match (YearField(parts[0]), MonthField(parts[1]), DayField(parts[2]))
      case (Some(y), Some(m), Some(d)) =>
        if ValidDate(y, m, d) then Some(Ordinal(y, m, d)) else None
      case _ => None
  }

  /** `parse_date(d)`: drop every double quote, cut at the first `^` (the
      datatype suffix of a typed literal), keep the first three dash-separated
      fields and parse them as `%Y-%m-%d`. `None` stands for the `ValueError`
      the callers catch. */
  function ParseDate(d: String): (r: Option<Day>)
    ensures r.Some? ==> exists y, m, d :: ValidDate(y, m, d) && r.value == Ordinal(y, m, d)
  {
    var lexical := Split(RemoveAll(d, {'"'}), '^')[0];
    var fields := Split(lexical, '-');
    var kept := if |fields| <= 3 then fields else fields[..3];
    StrptimeYmd(Join(kept, "-"))
  }

  function Digit(n: int): char
    requires 0 <= n <= 9
  {
    ('0' as int + n) as char
  }

  function Pad2(n: int): String
    requires 0 <= n <= 99
  {
    [Digit(n / 10), Digit(n % 10)]
  }

  /** A date written as `YYYY-MM-DD`. */
  function IsoFormat(y: int, m: int, d: int): String
    requires ValidDate(y, m, d)
  {
    Pad2(y / 100) + Pad2(y % 100) + "-" + Pad2(m) + "-" + Pad2(d)
  }

  lemma FieldsOfIsoFormat(y: int, m: int, d: int)
    requires ValidDate(y, m, d)
    ensures YearField(Pad2(y / 100) + Pad2(y % 100)) == Some(y)
    ensures MonthField(Pad2(m)) == Some(m)
    ensures DayField(Pad2(d)) == Some(d)
  {
  }

  lemma {:induction false} SplitAtFirst(a: String, b: String, c: char)
    requires c !in a
    ensures Split(a + [c] + b, c) == [a] + Split(b, c)
    decreases |a|
  {
    if |a| == 0 {
      assert a + [c] + b == [c] + b;
      assert ([c] + b)[1..] == b;
    } else {
      assert (a + [c] + b)[1..] == a[1..] + [c] + b;
      assert c !in a[1..] by { assert forall x :: x in a[1..] ==> x in a; }
      SplitAtFirst(a[1..], b, c);
      assert a == [a[0]] + a[1..];
    }
  }

  lemma IsoFormatSplit(y: int, m: int, d: int)
    requires ValidDate(y, m, d)
    ensures Split(IsoFormat(y, m, d), '-') == [Pad2(y / 100) + Pad2(y % 100), Pad2(m), Pad2(d)]
    ensures Join(Split(IsoFormat(y, m, d), '-'), "-") == IsoFormat(y, m, d)
    ensures '"' !in IsoFormat(y, m, d) && '^' !in IsoFormat(y, m, d)
  {
    var parts := [Pad2(y / 100) + Pad2(y % 100), Pad2(m), Pad2(d)];
    assert Join(parts[2..], "-") == Pad2(d);
    assert Join(parts[1..], "-") == Pad2(m) + "-" + Pad2(d);
    assert Join(parts, "-") == IsoFormat(y, m, d);
    SplitJoin(parts, '-');
    JoinSplit(IsoFormat(y, m, d), '-');
  }

  /** `strptime` reads back what `isoformat` writes. */
  lemma StrptimeIsoFormat(y: int, m: int, d: int)
    requires ValidDate(y, m, d)
    ensures StrptimeYmd(IsoFormat(y, m, d)) == Some(Ordinal(y, m, d))
  {
    IsoFormatSplit(y, m, d);
    FieldsOfIsoFormat(y, m, d);
  }

  /** `parse_date` reads the typed literals the matching service returns,
      e.g. `"1940-02-01"^^xsd:date`, as the date they spell. */
  lemma {:induction false} UnquoteTyped(s: String, suffix: String)
    requires '"' !in s && '"' !in suffix
    ensures RemoveAll("\"" + s + "\"" + suffix, {'"'}) == s + suffix
  {
    assert "\"" + s + "\"" + suffix == "\"" + (s + ("\"" + suffix));
    RemoveAllAppend("\"", s + ("\"" + suffix), {'"'});
    RemoveAllAppend(s, "\"" + suffix, {'"'});
    RemoveAllAppend("\"", suffix, {'"'});
    RemoveAllNoop(s, {'"'});
    RemoveAllNoop(suffix, {'"'});
  }

  lemma ParseTypedLiteral(y: int, m: int, d: int, dt: String)
    requires ValidDate(y, m, d)
    requires '"' !in dt
    ensures ParseDate("\"" + IsoFormat(y, m, d) + "\"^^" + dt) == Some(Ordinal(y, m, d))
  {
    var iso := IsoFormat(y, m, d);
    var suffix := "^^" + dt;
    IsoFormatSplit(y, m, d);
    assert "\"" + iso + "\"^^" + dt == "\"" + iso + "\"" + suffix;
    UnquoteTyped(iso, suffix);
    assert iso + suffix == iso + ['^'] + ("^" + dt);
    SplitAtFirst(iso, "^" + dt, '^');
    StrptimeIsoFormat(y, m, d);
  }

  /** Plain ISO dates parse too, so a missing datatype suffix is harmless. */
  lemma ParsePlainIso(y: int, m: int, d: int)
    requires ValidDate(y, m, d)
    ensures ParseDate(IsoFormat(y, m, d)) == Some(Ordinal(y, m, d))
  {
    var iso := IsoFormat(y, m, d);
    IsoFormatSplit(y, m, d);
    RemoveAllNoop(iso, {'"'});
    CountZero(iso, '^');
    assert Split(iso, '^')[0] == iso by {
      JoinSplit(iso, '^');
    }
    StrptimeIsoFormat(y, m, d);
  }

  /** A quoted literal without a datatype parses like the bare date. */
  lemma ParseQuotedIso(y: int, m: int, d: int)
    requires ValidDate(y, m, d)
    ensures ParseDate("\"" + IsoFormat(y, m, d) + "\"") == Some(Ordinal(y, m, d))
  {
    var iso := IsoFormat(y, m, d);
    IsoFormatSplit(y, m, d);
    UnquoteTyped(iso, []);
    assert "\"" + iso + "\"" + [] == "\"" + iso + "\"";
    assert iso + [] == iso;
    RemoveAllNoop(iso, {'"'});
    ParsePlainIso(y, m, d);
  }

  /** The `NA` placeholder used for unknown promotion dates does not parse,
      however it is quoted. */
  lemma NotAvailableIsUnknown(d: String)
    requires RemoveAll(d, {'"'}) == "NA"
    ensures ParseDate(d) == None
  {
    CountZero("NA", '^');
    JoinSplit("NA", '^');
    CountZero("NA", '-');
    JoinSplit("NA", '-');
  }
}
