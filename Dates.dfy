/**
 * Calendar days. The backend and the frontend exchange dates as `YYYY-MM-DD`
 * strings; the model works on day numbers (Python's proleptic Gregorian
 * ordinal, where day 1 is 0001-01-01) and keeps the year/month/day and string
 * forms as views, with round trips between all three.
 */
module Dates {
  import opened Wrappers

  /** A calendar day as its ordinal: 1 is 0001-01-01, 2 is 0001-01-02, ... */
  type Day = d: int | 1 <= d witness 1

  /** The last day Python's `date` can hold, 9999-12-31. */
  const MaxDay: int := 3652059

  datatype Civil = Civil(year: int, month: int, day: int)

  predicate IsLeapYear(y: int) {
    y % 4 == 0 && (y % 100 != 0 || y % 400 == 0)
  }

  function DaysInYear(y: int): int {
    if IsLeapYear(y) then 366 else 365
  }

  /** Gregorian month length; `m` counts from 1 (January). */
  function DaysInMonth(y: int, m: int): (n: int)
    requires 1 <= m <= 12
    ensures 28 <= n <= 31
    ensures n == 29 <==> m == 2 && IsLeapYear(y)
    ensures n == 28 <==> m == 2 && !IsLeapYear(y)
    ensures n == 30 <==> m == 4 || m == 6 || m == 9 || m == 11
  {
    if m == 2 then (if IsLeapYear(y) then 29 else 28)
    else if m == 4 || m == 6 || m == 9 || m == 11 then 30
    else 31
  }

  predicate ValidCivil(c: Civil) {
    1 <= c.year && 1 <= c.month <= 12 && 1 <= c.day <= DaysInMonth(c.year, c.month)
  }

  /** Number of days in the years 1 .. y-1. */
  function DaysBeforeYear(y: int): (n: int)
    requires 1 <= y
    ensures 0 <= n
  {
    var k := y - 1;
    365 * k + k / 4 - k / 100 + k / 400
  }

  /** Number of days in the months 1 .. m-1 of year y. */
  function DaysBeforeMonth(y: int, m: int): int
    requires 1 <= m <= 12
  {
    var common :=
      if m == 1 then 0 else if m == 2 then 31 else if m == 3 then 59
      else if m == 4 then 90 else if m == 5 then 120 else if m == 6 then 151
      else if m == 7 then 181 else if m == 8 then 212 else if m == 9 then 243
      else if m == 10 then 273 else if m == 11 then 304 else 334;
    common + (if m > 2 && IsLeapYear(y) then 1 else 0)
  }

  function ToOrdinal(c: Civil): Day
    requires ValidCivil(c)
  {
    DaysBeforeYear(c.year) + DaysBeforeMonth(c.year, c.month) + c.day
  }

  lemma DaysBeforeYearStep(y: int)
    requires 1 <= y
    ensures DaysBeforeYear(y + 1) == DaysBeforeYear(y) + DaysInYear(y)
  {
    var k := y - 1;
    DivStep4(k);
    DivStep100(k);
    DivStep400(k);
    LeapDivisibility(y);
  }

  lemma DivStep4(k: int)
    requires 0 <= k
    ensures (k + 1) / 4 == k / 4 + (if (k + 1) % 4 == 0 then 1 else 0)
  {
  }

  lemma DivStep100(k: int)
    requires 0 <= k
    ensures (k + 1) / 100 == k / 100 + (if (k + 1) % 100 == 0 then 1 else 0)
  {
  }

  lemma DivStep400(k: int)
    requires 0 <= k
    ensures (k + 1) / 400 == k / 400 + (if (k + 1) % 400 == 0 then 1 else 0)
  {
  }

  lemma LeapDivisibility(y: int)
    ensures y % 100 == 0 ==> y % 4 == 0
    ensures y % 400 == 0 ==> y % 100 == 0
  {
    if y % 100 == 0 {
      assert y == 4 * (25 * (y / 100));
    }
    if y % 400 == 0 {
      assert y == 100 * (4 * (y / 400));
    }
  }

  lemma {:induction false} DaysBeforeYearMonotone(a: int, b: int)
    requires 1 <= a <= b
    ensures DaysBeforeYear(a) + 365 * (b - a) <= DaysBeforeYear(b)
    decreases b - a
  {
    if a < b {
      DaysBeforeYearStep(a);
      DaysBeforeYearMonotone(a + 1, b);
    }
  }

  lemma DaysBeforeMonthStep(y: int, m: int)
    requires 1 <= m <= 12
    ensures m < 12 ==> DaysBeforeMonth(y, m + 1) == DaysBeforeMonth(y, m) + DaysInMonth(y, m)
    ensures m == 12 ==> DaysBeforeMonth(y, m) + DaysInMonth(y, m) == DaysInYear(y)
  {
  }

  /** Walks year by year from `y` through `r` further days: the year they land in and the days left over. */
  function YearOf(y: int, r: nat): (res: (int, nat))
    requires 1 <= y
    ensures y <= res.0 && res.1 < DaysInYear(res.0)
    ensures DaysBeforeYear(res.0) - DaysBeforeYear(y) + res.1 == r
    decreases r
  {
    if r < DaysInYear(y) then (y, r)
    else
      DaysBeforeYearStep(y);
      YearOf(y + 1, r - DaysInYear(y))
  }

  /** Walks month by month from month `m` of year `y` through `r` further days: the month and the day of month. */
  function MonthOf(y: int, m: int, r: nat): (res: (int, int))
    requires 1 <= m <= 12 && r < DaysInYear(y) - DaysBeforeMonth(y, m)
    ensures m <= res.0 <= 12 && 1 <= res.1 <= DaysInMonth(y, res.0)
    ensures DaysBeforeMonth(y, res.0) - DaysBeforeMonth(y, m) + res.1 - 1 == r
    decreases 12 - m
  {
    DaysBeforeMonthStep(y, m);
    if r < DaysInMonth(y, m) then (m, r + 1)
    else MonthOf(y, m + 1, r - DaysInMonth(y, m))
  }

  /** The year/month/day view of a day number (Python's date.fromordinal). */
  function FromOrdinal(n: Day): (c: Civil)
    ensures ValidCivil(c) && ToOrdinal(c) == n
  {
    var (y, r) := YearOf(1, n - 1);
    var (m, d) := MonthOf(y, 1, r);
    Civil(y, m, d)
  }

  lemma {:induction false} YearOfLands(y0: int, y: int, r: nat)
    requires 1 <= y0 <= y && r < DaysInYear(y)
    ensures DaysBeforeYear(y) - DaysBeforeYear(y0) + r >= 0
    ensures YearOf(y0, DaysBeforeYear(y) - DaysBeforeYear(y0) + r) == (y, r)
    decreases y - y0
  {
    DaysBeforeYearMonotone(y0, y);
    if y0 < y {
      DaysBeforeYearStep(y0);
      DaysBeforeYearMonotone(y0 + 1, y);
      YearOfLands(y0 + 1, y, r);
    }
  }

  lemma {:induction false} MonthOfLands(y: int, m0: int, m: int, d: int)
    requires 1 <= m0 <= m <= 12 && 1 <= d <= DaysInMonth(y, m)
    ensures 0 <= DaysBeforeMonth(y, m) - DaysBeforeMonth(y, m0) + d - 1 < DaysInYear(y) - DaysBeforeMonth(y, m0)
    ensures MonthOf(y, m0, DaysBeforeMonth(y, m) - DaysBeforeMonth(y, m0) + d - 1) == (m, d)
    decreases m - m0
  {
    var r := DaysBeforeMonth(y, m) - DaysBeforeMonth(y, m0) + d - 1;
    if m0 < m {
      DaysBeforeMonthStep(y, m0);
      MonthOfLands(y, m0 + 1, m, d);
      var r' := DaysBeforeMonth(y, m) - DaysBeforeMonth(y, m0 + 1) + d - 1;
      assert r == r' + DaysInMonth(y, m0);
      MonthOfSkips(y, m0, r);
    } else {
      DaysBeforeMonthBound(y, m);
      assert r == d - 1;
    }
  }

  /** A remainder past the end of month m0 moves the walk on to the next month. */
  lemma MonthOfSkips(y: int, m0: int, r: nat)
    requires 1 <= m0 < 12 && DaysInMonth(y, m0) <= r < DaysInYear(y) - DaysBeforeMonth(y, m0)
    ensures DaysBeforeMonth(y, m0 + 1) == DaysBeforeMonth(y, m0) + DaysInMonth(y, m0)
    ensures MonthOf(y, m0, r) == MonthOf(y, m0 + 1, r - DaysInMonth(y, m0))
  {
    DaysBeforeMonthStep(y, m0);
  }

  /** A month ends within its year. */
  lemma DaysBeforeMonthBound(y: int, m: int)
    requires 1 <= m <= 12
    ensures DaysBeforeMonth(y, m) + DaysInMonth(y, m) <= DaysInYear(y)
  {
  }

  /** Day numbers and calendar dates are in one-to-one correspondence. */
  lemma FromOrdinalToOrdinal(c: Civil)
    requires ValidCivil(c)
    ensures FromOrdinal(ToOrdinal(c)) == c
  {
    var r := DaysBeforeMonth(c.year, c.month) + c.day - 1;
    MonthOfLands(c.year, 1, c.month, c.day);
    assert MonthOf(c.year, 1, r) == (c.month, c.day);
    YearOfLands(1, c.year, r);
    assert YearOf(1, ToOrdinal(c) - 1) == (c.year, r);
  }

  lemma ToOrdinalInjective(a: Civil, b: Civil)
    requires ValidCivil(a) && ValidCivil(b) && ToOrdinal(a) == ToOrdinal(b)
    ensures a == b
  {
    FromOrdinalToOrdinal(a);
    FromOrdinalToOrdinal(b);
  }

  /** Every day up to MaxDay has a four-digit year. */
  lemma FromOrdinalYearBound(n: Day)
    requires n <= MaxDay
    ensures FromOrdinal(n).year <= 9999
  {
    var c := FromOrdinal(n);
    if c.year > 9999 {
      DaysBeforeYearMonotone(10000, c.year);
    }
  }

  // ----- The YYYY-MM-DD text form (strftime / strptime with "%Y-%m-%d") -----

  predicate IsDigit(ch: char) {
    '0' <= ch <= '9'
  }

  function DigitChar(v: int): (ch: char)
    requires 0 <= v < 10
    ensures IsDigit(ch)
  {
    ('0' as int + v) as char
  }

  function DigitValue(ch: char): (v: int)
    requires IsDigit(ch)
    ensures 0 <= v < 10 && DigitChar(v) == ch
  {
    ch as int - '0' as int
  }

  function Pow10(w: nat): (p: nat)
    ensures p >= 1
  {
    if w == 0 then 1 else 10 * Pow10(w - 1)
  }

  /** `n` in decimal, zero-padded on the left to exactly `w` digits. */
  function Digits(n: nat, w: nat): (s: string)
    ensures |s| == w
    ensures forall i :: 0 <= i < |s| ==> IsDigit(s[i])
  {
    if w == 0 then "" else Digits(n / 10, w - 1) + [DigitChar(n % 10)]
  }

  /** The number a string of decimal digits denotes. */
  function DigitsValue(s: string): (v: nat)
    requires forall i :: 0 <= i < |s| ==> IsDigit(s[i])
    ensures v < Pow10(|s|)
  {
    if s == [] then 0 else DigitsValue(s[..|s| - 1]) * 10 + DigitValue(s[|s| - 1])
  }

  lemma {:induction false} DigitsValueOfDigits(n: nat, w: nat)
    requires n < Pow10(w)
    ensures DigitsValue(Digits(n, w)) == n
  {
    if w > 0 {
      DigitsValueOfDigits(n / 10, w - 1);
      var s := Digits(n, w);
      assert s[..|s| - 1] == Digits(n / 10, w - 1);
    }
  }

  lemma {:induction false} DigitsOfDigitsValue(s: string)
    requires forall i :: 0 <= i < |s| ==> IsDigit(s[i])
    ensures Digits(DigitsValue(s), |s|) == s
  {
    if s != [] {
      var init := s[..|s| - 1];
      DigitsOfDigitsValue(init);
      var v := DigitsValue(s);
      assert v / 10 == DigitsValue(init) && v % 10 == DigitValue(s[|s| - 1]);
      assert s == init + [s[|s| - 1]];
    }
  }

  /** The `YYYY-MM-DD` text of a date with a four-digit year. */
  function Format(c: Civil): (s: string)
    requires ValidCivil(c) && c.year <= 9999
    ensures |s| == 10 && s[4] == '-' && s[7] == '-'
  {
    Digits(c.year, 4) + "-" + Digits(c.month, 2) + "-" + Digits(c.day, 2)
  }

  predicate DigitsAt(s: string, lo: nat, hi: nat)
    requires lo <= hi <= |s|
  {
    forall i :: lo <= i < hi ==> IsDigit(s[i])
  }

  /** Reads canonical `YYYY-MM-DD` text; anything else, or a day that does not exist, gives None. */
  function Parse(s: string): Option<Civil> {
    if |s| == 10 && s[4] == '-' && s[7] == '-' && DigitsAt(s, 0, 4) && DigitsAt(s, 5, 7) && DigitsAt(s, 8, 10) then
      var c := Civil(DigitsValue(s[..4]), DigitsValue(s[5..7]), DigitsValue(s[8..]));
      if ValidCivil(c) then Some(c) else None
    else None
  }

  lemma ParseFormat(c: Civil)
    requires ValidCivil(c) && c.year <= 9999
    ensures Parse(Format(c)) == Some(c)
  {
    var s := Format(c);
    assert s[..4] == Digits(c.year, 4);
    assert s[5..7] == Digits(c.month, 2);
    assert s[8..] == Digits(c.day, 2);
    DigitsValueOfDigits(c.year, 4);
    DigitsValueOfDigits(c.month, 2);
    DigitsValueOfDigits(c.day, 2);
  }

  lemma FormatParse(s: string)
    requires Parse(s).Some?
    ensures Parse(s).value.year <= 9999 && Format(Parse(s).value) == s
  {
    var c := Parse(s).value;
    DigitsOfDigitsValue(s[..4]);
    DigitsOfDigitsValue(s[5..7]);
    DigitsOfDigitsValue(s[8..]);
    assert s == s[..4] + "-" + s[5..7] + "-" + s[8..];
  }

  /** The text a day number stands for. */
  function DateString(d: Day): (s: string)
    requires d <= MaxDay
    ensures Parse(s) == Some(FromOrdinal(d))
  {
    FromOrdinalYearBound(d);
    ParseFormat(FromOrdinal(d));
    Format(FromOrdinal(d))
  }

  /** Two days are equal exactly when their texts are: comparing day numbers is comparing date strings. */
  lemma DateStringInjective(a: Day, b: Day)
    requires a <= MaxDay && b <= MaxDay
    ensures DateString(a) == DateString(b) <==> a == b
  {
    if DateString(a) == DateString(b) {
      assert FromOrdinal(a) == FromOrdinal(b);
    }
  }

  // ----- Ordering of the text form -----

  /** Python's `<` on strings: the first differing character decides, and a proper prefix comes first. */
  predicate StringLess(a: string, b: string) {
    if a == [] then b != []
    else b != [] && (a[0] < b[0] || (a[0] == b[0] && StringLess(a[1..], b[1..])))
  }

  /** Behind equally long heads, the comparison falls through to the tails only when the heads agree. */
  lemma {:induction false} StringLessAppend(a: string, b: string, x: string, y: string)
    requires |a| == |b|
    ensures StringLess(a + x, b + y) <==> StringLess(a, b) || (a == b && StringLess(x, y))
  {
    if a != [] {
      assert (a + x)[0] == a[0] && (b + y)[0] == b[0];
      assert (a + x)[1..] == a[1..] + x && (b + y)[1..] == b[1..] + y;
      StringLessAppend(a[1..], b[1..], x, y);
      if a[0] == b[0] && a[1..] == b[1..] {
        assert a == [a[0]] + a[1..] && b == [b[0]] + b[1..];
      }
    } else {
      assert a + x == x && b + y == y;
    }
  }

  /** Zero-padded numerals of one width compare as their numbers do. */
  lemma {:induction false} DigitsLess(n: nat, m: nat, w: nat)
    requires n < Pow10(w) && m < Pow10(w)
    ensures StringLess(Digits(n, w), Digits(m, w)) <==> n < m
  {
    if w > 0 {
      var hn, hm := Digits(n / 10, w - 1), Digits(m / 10, w - 1);
      var cn, cm := DigitChar(n % 10), DigitChar(m % 10);
      StringLessAppend(hn, hm, [cn], [cm]);
      DigitsLess(n / 10, m / 10, w - 1);
      DigitsValueOfDigits(n / 10, w - 1);
      DigitsValueOfDigits(m / 10, w - 1);
      assert hn == hm <==> n / 10 == m / 10;
      assert StringLess([cn], [cm]) <==> n % 10 < m % 10 by {
        assert [cn][1..] == [] && [cm][1..] == [];
      }
    }
  }

  /** Dates ordered by year, then month, then day. */
  predicate CivilLess(a: Civil, b: Civil) {
    a.year < b.year || (a.year == b.year && (a.month < b.month || (a.month == b.month && a.day < b.day)))
  }

  /** Comparing `Y-M-D` texts with equally wide fields compares year, then month, then day. */
  lemma FieldsLess(ya: string, ma: string, da: string, yb: string, mb: string, db: string)
    requires |ya| == |yb| && |ma| == |mb|
    ensures StringLess(ya + "-" + ma + "-" + da, yb + "-" + mb + "-" + db)
        <==> StringLess(ya, yb) || (ya == yb && (StringLess(ma, mb) || (ma == mb && StringLess(da, db))))
  {
    assert ya + "-" + ma + "-" + da == ya + ("-" + (ma + ("-" + da)));
    assert yb + "-" + mb + "-" + db == yb + ("-" + (mb + ("-" + db)));
    StringLessAppend(ya, yb, "-" + (ma + ("-" + da)), "-" + (mb + ("-" + db)));
    StringLessAppend("-", "-", ma + ("-" + da), mb + ("-" + db));
    StringLessAppend(ma, mb, "-" + da, "-" + db);
    StringLessAppend("-", "-", da, db);
    assert !StringLess("-", "-");
  }

  /** `YYYY-MM-DD` texts compare as their dates do. */
  lemma FormatOrder(a: Civil, b: Civil)
    requires ValidCivil(a) && a.year <= 9999 && ValidCivil(b) && b.year <= 9999
    ensures StringLess(Format(a), Format(b)) <==> CivilLess(a, b)
  {
    assert Pow10(2) == 100 && Pow10(4) == 10000;
    FieldsLess(Digits(a.year, 4), Digits(a.month, 2), Digits(a.day, 2),
               Digits(b.year, 4), Digits(b.month, 2), Digits(b.day, 2));
    DigitsLess(a.year, b.year, 4);
    DigitsLess(a.month, b.month, 2);
    DigitsLess(a.day, b.day, 2);
    DigitsValueOfDigits(a.year, 4);
    DigitsValueOfDigits(b.year, 4);
    DigitsValueOfDigits(a.month, 2);
    DigitsValueOfDigits(b.month, 2);
  }

  lemma {:induction false} DaysBeforeMonthMonotone(y: int, m1: int, m2: int)
    requires 1 <= m1 < m2 <= 12
    ensures DaysBeforeMonth(y, m1) + DaysInMonth(y, m1) <= DaysBeforeMonth(y, m2)
    decreases m2 - m1
  {
    DaysBeforeMonthStep(y, m1);
    if m1 + 1 < m2 {
      DaysBeforeMonthMonotone(y, m1 + 1, m2);
    }
  }

  /** A date earlier by year, month and day has the smaller day number. */
  lemma CivilLessOrdinal(a: Civil, b: Civil)
    requires ValidCivil(a) && ValidCivil(b) && CivilLess(a, b)
    ensures ToOrdinal(a) < ToOrdinal(b)
  {
    if a.year < b.year {
      DaysBeforeMonthBound(a.year, a.month);
      DaysBeforeYearStep(a.year);
      DaysBeforeYearMonotone(a.year + 1, b.year);
      assert DaysBeforeMonth(b.year, b.month) >= 0;
    } else if a.month < b.month {
      DaysBeforeMonthMonotone(a.year, a.month, b.month);
    }
  }

  /** The texts of two days compare as the days do: sorting the strings sorts the days. */
  lemma DateStringOrder(a: Day, b: Day)
    requires a <= MaxDay && b <= MaxDay
    ensures StringLess(DateString(a), DateString(b)) <==> a < b
  {
    var ca, cb := FromOrdinal(a), FromOrdinal(b);
    FromOrdinalYearBound(a);
    FromOrdinalYearBound(b);
    FormatOrder(ca, cb);
    if CivilLess(ca, cb) {
      CivilLessOrdinal(ca, cb);
    } else if CivilLess(cb, ca) {
      CivilLessOrdinal(cb, ca);
    } else {
      assert ca == cb;
    }
  }
}
