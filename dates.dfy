/**
 * Calendar dates as the application stores them: `YYYY-MM-DD` strings, the
 * value of an HTML date input and of `toISOString().split('T')[0]`.
 * JavaScript parses such a string as midnight UTC of that day, so a date is
 * characterised by a whole day number; the millisecond arithmetic of the
 * expiry computation is modelled on top of it.
 */
module Dates {

  predicate IsDigit(c: char) { '0' <= c <= '9' }

  predicate AllDigits(s: string) { forall i :: 0 <= i < |s| ==> IsDigit(s[i]) }

  function DigitValue(c: char): (d: nat)
    requires IsDigit(c)
    ensures d < 10
  {
    c as int - '0' as int
  }

  function Pow10(n: nat): (p: nat)
    ensures p >= 1
  {
    if n == 0 then 1 else 10 * Pow10(n - 1)
  }

  /** The value of a decimal numeral, most significant digit first. */
  function Numeral(s: string): (v: nat)
    requires AllDigits(s)
    ensures v < Pow10(|s|)
  {
    if s == [] then 0
    else
      var rest := Numeral(s[1..]);
      LeadingDigitBound(DigitValue(s[0]), rest, Pow10(|s| - 1));
      DigitValue(s[0]) * Pow10(|s| - 1) + rest
  }

  lemma LeadingDigitBound(d: nat, rest: nat, p: nat)
    requires d < 10 && rest < p
    ensures d * p + rest < 10 * p
    ensures d * p <= d * p + rest < (d + 1) * p
  {
  }

  /**
   * The lexicographic order of strings. The code never compares date strings
   * directly; this order is what lets the model say that ordering tasks by
   * the instants of their due dates is ordering the date strings themselves.
   */
  predicate LexLess(a: string, b: string)
  {
    if |a| == 0 then |b| > 0
    else |b| > 0 && (a[0] < b[0] || (a[0] == b[0] && LexLess(a[1..], b[1..])))
  }

  /** JavaScript's `s.startsWith(p)`. */
  predicate StartsWith(s: string, p: string)
  {
    |p| <= |s| && s[..|p|] == p
  }

  /** `s.startsWith(p)` holds exactly when `s` is `p` followed by something. */
  lemma StartsWithMeansPrefix(s: string, p: string)
    ensures StartsWith(s, p) <==> exists rest :: s == p + rest
  {
    if StartsWith(s, p) {
      assert s == p + s[|p|..];
    }
    if exists rest :: s == p + rest {
      var rest :| s == p + rest;
      assert s[..|p|] == p;
    }
  }

  // ---------------------------------------------------------------------------
  // The Gregorian calendar (proleptic, as JavaScript's Date uses it)
  // ---------------------------------------------------------------------------

  predicate IsLeapYear(y: nat)
  {
    y % 4 == 0 && (y % 100 != 0 || y % 400 == 0)
  }

  function DaysInYear(y: nat): nat
  {
    if IsLeapYear(y) then 366 else 365
  }

  function DaysInMonth(y: nat, m: nat): (n: nat)
    requires 1 <= m <= 12
    ensures 28 <= n <= 31
  {
    if m == 2 then (if IsLeapYear(y) then 29 else 28)
    else if m == 4 || m == 6 || m == 9 || m == 11 then 30
    else 31
  }

  /** Days of year `y` that lie before the first of month `m` (`m == 13`: the whole year). */
  function DaysBeforeMonth(y: nat, m: nat): (n: nat)
    requires 1 <= m <= 13
  {
    var common :=
      if m == 1 then 0 else if m == 2 then 31 else if m == 3 then 59
      else if m == 4 then 90 else if m == 5 then 120 else if m == 6 then 151
      else if m == 7 then 181 else if m == 8 then 212 else if m == 9 then 243
      else if m == 10 then 273 else if m == 11 then 304 else if m == 12 then 334
      else 365;
    if m > 2 && IsLeapYear(y) then common + 1 else common
  }

  lemma MonthStep(y: nat, m: nat)
    requires 1 <= m <= 12
    ensures DaysBeforeMonth(y, m) + DaysInMonth(y, m) == DaysBeforeMonth(y, m + 1)
    ensures DaysBeforeMonth(y, 13) == DaysInYear(y)
  {
  }

  /** Days from 0000-01-01 to the first of January of year `y`. */
  function DaysBeforeYear(y: nat): nat
  {
    if y == 0 then 0 else DaysBeforeYear(y - 1) + DaysInYear(y - 1)
  }

  /** The day number of a calendar day, counted from 0000-01-01. */
  function DayNumber(y: nat, m: nat, d: nat): int
    requires 1 <= m <= 12
  {
    DaysBeforeYear(y) + DaysBeforeMonth(y, m) + d - 1
  }

  predicate ValidDay(y: nat, m: nat, d: nat)
  {
    1 <= m <= 12 && 1 <= d <= DaysInMonth(y, m)
  }

  /** Lexicographic order on (year, month, day). */
  predicate TripleLess(y: nat, m: nat, d: nat, y': nat, m': nat, d': nat)
  {
    y < y' || (y == y' && (m < m' || (m == m' && d < d')))
  }

  lemma {:induction false} DaysBeforeYearGrows(y: nat, y': nat)
    requires y < y'
    ensures DaysBeforeYear(y) + DaysInYear(y) <= DaysBeforeYear(y')
    decreases y'
  {
    if y' > y + 1 {
      DaysBeforeYearGrows(y, y' - 1);
    }
  }

  lemma {:induction false} DaysBeforeMonthGrows(y: nat, m: nat, m': nat)
    requires 1 <= m < m' <= 13
    ensures DaysBeforeMonth(y, m) + DaysInMonth(y, m) <= DaysBeforeMonth(y, m')
    decreases m'
  {
    MonthStep(y, m);
    if m' > m + 1 {
      DaysBeforeMonthGrows(y, m, m' - 1);
      MonthStep(y, m' - 1);
    }
  }

  /** The day number respects the calendar order of valid days. */
  lemma DayNumberMonotonic(y: nat, m: nat, d: nat, y': nat, m': nat, d': nat)
    requires ValidDay(y, m, d) && ValidDay(y', m', d')
    requires TripleLess(y, m, d, y', m', d')
    ensures DayNumber(y, m, d) < DayNumber(y', m', d')
  {
    if y < y' {
      DaysBeforeMonthGrows(y, m, 13);
      MonthStep(y, 12);
      DaysBeforeYearGrows(y, y');
    } else if m < m' {
      DaysBeforeMonthGrows(y, m, m');
    }
  }

  // ---------------------------------------------------------------------------
  // YYYY-MM-DD strings
  // ---------------------------------------------------------------------------

  predicate HasDateShape(s: string)
  {
    |s| == 10 && AllDigits(s[..4]) && s[4] == '-' && AllDigits(s[5..7]) && s[7] == '-'
    && AllDigits(s[8..])
  }

  function YearOf(s: string): nat requires HasDateShape(s) { Numeral(s[..4]) }
  function MonthOf(s: string): nat requires HasDateShape(s) { Numeral(s[5..7]) }
  function DayOfMonth(s: string): nat requires HasDateShape(s) { Numeral(s[8..]) }

  /** A string that denotes an existing calendar day in `YYYY-MM-DD` form. */
  predicate WellFormedDate(s: string)
  {
    HasDateShape(s) && ValidDay(YearOf(s), MonthOf(s), DayOfMonth(s))
  }

  /** What `new Date(s)` denotes, counted in whole days. */
  function DayOf(s: string): int
    requires WellFormedDate(s)
  {
    DayNumber(YearOf(s), MonthOf(s), DayOfMonth(s))
  }

  // ---------------------------------------------------------------------------
  // Date order agrees with string order
  // ---------------------------------------------------------------------------

  /** Equal-length numerals compare as their strings do, and are equal only when their strings are. */
  lemma {:induction false} NumeralOrder(s: string, t: string)
    requires AllDigits(s) && AllDigits(t) && |s| == |t|
    ensures Numeral(s) < Numeral(t) <==> LexLess(s, t)
    ensures Numeral(s) == Numeral(t) <==> s == t
  {
    if s != [] {
      NumeralOrder(s[1..], t[1..]);
      NumeralHead(s, t);
      assert LexLess(s, t) <==> s[0] < t[0] || (s[0] == t[0] && LexLess(s[1..], t[1..]));
      assert s == [s[0]] + s[1..] && t == [t[0]] + t[1..];
    }
  }

  /** Two numerals of one length compare by their first digits, then by the rest. */
  lemma NumeralHead(s: string, t: string)
    requires AllDigits(s) && AllDigits(t) && |s| == |t| > 0
    ensures Numeral(s) < Numeral(t) <==> s[0] < t[0] || (s[0] == t[0] && Numeral(s[1..]) < Numeral(t[1..]))
    ensures Numeral(s) == Numeral(t) <==> s[0] == t[0] && Numeral(s[1..]) == Numeral(t[1..])
  {
    var p := Pow10(|s| - 1);
    var ds, dt := DigitValue(s[0]), DigitValue(t[0]);
    assert Numeral(s) == ds * p + Numeral(s[1..]) && Numeral(t) == dt * p + Numeral(t[1..]);
    PlaceValueOrder(ds, Numeral(s[1..]), dt, Numeral(t[1..]), p);
  }

  /** Place value: the leading digit decides, and the rest only among equal leading digits. */
  lemma PlaceValueOrder(d: nat, r: nat, d': nat, r': nat, p: nat)
    requires r < p && r' < p
    ensures d * p + r < d' * p + r' <==> d < d' || (d == d' && r < r')
    ensures d * p + r == d' * p + r' <==> d == d' && r == r'
  {
    if d < d' {
      LeadingDigitDominates(d, r, d', r', p);
    } else if d' < d {
      LeadingDigitDominates(d', r', d, r, p);
    }
  }

  /** A smaller leading digit decides the comparison, whatever the digits after it. */
  lemma LeadingDigitDominates(d: nat, r: nat, d': nat, r': nat, p: nat)
    requires d < d' && r < p && r' < p
    ensures d * p + r < d' * p + r'
  {
    ScaleMonotonic(d + 1, d', p);
    assert (d + 1) * p == d * p + p;
  }

  lemma {:induction false} ScaleMonotonic(a: nat, b: nat, p: nat)
    requires a <= b
    ensures a * p <= b * p
  {
    if a < b {
      ScaleMonotonic(a, b - 1, p);
      assert b * p == (b - 1) * p + p;
    }
  }

  /** Comparing a concatenation whose first parts have the same length. */
  lemma {:induction false} LexLessConcat(a: string, b: string, c: string, d: string)
    requires |a| == |c|
    ensures LexLess(a + b, c + d) <==> LexLess(a, c) || (a == c && LexLess(b, d))
  {
    if a != [] {
      LexLessConcat(a[1..], b, c[1..], d);
      assert (a + b)[1..] == a[1..] + b && (c + d)[1..] == c[1..] + d;
      assert a == [a[0]] + a[1..] && c == [c[0]] + c[1..];
    } else {
      assert a + b == b && c + d == d;
    }
  }

  /** Splitting a date string at its separators. */
  lemma DateFields(s: string)
    requires HasDateShape(s)
    ensures s == s[..4] + ['-'] + s[5..7] + ['-'] + s[8..]
  {
  }

  lemma DateStringOrder(s: string, t: string)
    requires HasDateShape(s) && HasDateShape(t)
    ensures LexLess(s, t) <==>
      TripleLess(YearOf(s), MonthOf(s), DayOfMonth(s), YearOf(t), MonthOf(t), DayOfMonth(t))
    ensures s == t <==>
      YearOf(s) == YearOf(t) && MonthOf(s) == MonthOf(t) && DayOfMonth(s) == DayOfMonth(t)
  {
    NumeralOrder(s[..4], t[..4]);
    NumeralOrder(s[5..7], t[5..7]);
    NumeralOrder(s[8..], t[8..]);
    DateFields(s);
    DateFields(t);
    DashJoinedOrder(s[..4], s[5..7], s[8..], t[..4], t[5..7], t[8..]);
  }

  /** Three dash-separated fields of matching widths compare field by field. */
  lemma DashJoinedOrder(a: string, b: string, c: string, a': string, b': string, c': string)
    requires |a| == |a'| && |b| == |b'|
    ensures LexLess(a + ['-'] + b + ['-'] + c, a' + ['-'] + b' + ['-'] + c') <==>
      LexLess(a, a') || (a == a' && (LexLess(b, b') || (b == b' && LexLess(c, c'))))
  {
    var tail, tail' := ['-'] + b + ['-'] + c, ['-'] + b' + ['-'] + c';
    assert a + ['-'] + b + ['-'] + c == a + tail;
    assert a' + ['-'] + b' + ['-'] + c' == a' + tail';
    LexLessConcat(a, tail, a', tail');
    assert tail == (['-'] + b) + (['-'] + c);
    assert tail' == (['-'] + b') + (['-'] + c');
    LexLessConcat(['-'] + b, ['-'] + c, ['-'] + b', ['-'] + c');
    LexLessConcat(['-'], b, ['-'], b');
    LexLessConcat(['-'], c, ['-'], c');
    assert !LexLess(['-'], ['-']);
    assert ['-'] + b == ['-'] + b' <==> b == b' by {
      if ['-'] + b == ['-'] + b' {
        assert b == (['-'] + b)[1..] == (['-'] + b')[1..] == b';
      }
    }
  }

  /**
   * For well-formed dates, ordering by the instant `new Date(s)` denotes
   * (what the sort comparator does) is ordering by the string itself.
   */
  lemma DayOrderIsStringOrder(s: string, t: string)
    requires WellFormedDate(s) && WellFormedDate(t)
    ensures DayOf(s) < DayOf(t) <==> LexLess(s, t)
    ensures DayOf(s) == DayOf(t) <==> s == t
  {
    DateStringOrder(s, t);
    var (y, m, d) := (YearOf(s), MonthOf(s), DayOfMonth(s));
    var (y', m', d') := (YearOf(t), MonthOf(t), DayOfMonth(t));
    if TripleLess(y, m, d, y', m', d') {
      DayNumberMonotonic(y, m, d, y', m', d');
    } else if TripleLess(y', m', d', y, m, d) {
      DayNumberMonotonic(y', m', d', y, m, d);
      DateStringOrder(t, s);
    }
  }

  /** A `YYYY-MM` string, the value of the month filter when it is set. */
  predicate WellFormedMonth(m: string)
  {
    |m| == 7 && AllDigits(m[..4]) && m[4] == '-' && AllDigits(m[5..])
  }

  /**
   * For a well-formed date and month, the prefix test the filter performs is
   * year-and-month equality.
   */
  lemma MonthPrefixIsSameMonth(s: string, m: string)
    requires WellFormedDate(s) && WellFormedMonth(m)
    ensures StartsWith(s, m) <==> YearOf(s) == Numeral(m[..4]) && MonthOf(s) == Numeral(m[5..])
  {
    NumeralOrder(s[..4], m[..4]);
    NumeralOrder(s[5..7], m[5..]);
    assert s[..7] == s[..4] + ['-'] + s[5..7];
    assert m == m[..4] + ['-'] + m[5..];
  }

  // ---------------------------------------------------------------------------
  // The day difference
  // ---------------------------------------------------------------------------

  const MsPerDay: nat := 1000 * 60 * 60 * 24

  /** Milliseconds of the instant `new Date(s)`, counted from 0000-01-01T00:00Z. */
  function InstantMs(s: string): int
    requires WellFormedDate(s)
  {
    DayOf(s) * MsPerDay
  }

  /** `Math.ceil(a / b)` for integers and a positive divisor. */
  function CeilDiv(a: int, b: int): (q: int)
    requires b > 0
    ensures (q - 1) * b < a <= q * b
  {
    -((-a) / b)
  }

  /**
   * `Math.ceil((new Date(due) - new Date(today)) / 86400000)`: both instants
   * are UTC midnights, so the quotient is exact and the result is the signed
   * number of days from `today` to `due`.
   */
  function DiffInDays(due: string, today: string): (n: int)
    requires WellFormedDate(due) && WellFormedDate(today)
    ensures n == DayOf(due) - DayOf(today)
  {
    CeilOfWholeDifference(DayOf(due), DayOf(today), MsPerDay);
    CeilDiv(InstantMs(due) - InstantMs(today), MsPerDay)
  }

  /** A difference of whole multiples of `b`, divided by `b`, needs no rounding. */
  lemma CeilOfWholeDifference(x: int, y: int, b: int)
    requires b > 0
    ensures CeilDiv(x * b - y * b, b) == x - y
  {
    var k := x - y;
    assert x * b - y * b == k * b;
    var q := CeilDiv(k * b, b);
    assert (q - 1 - k) * b == (q - 1) * b - k * b;
    assert (k - q) * b == k * b - q * b;
    ProductSign(q - 1 - k, b);
    ProductSign(k - q, b);
  }

  lemma ProductSign(c: int, b: int)
    requires b > 0
    ensures c * b < 0 <==> c < 0
  {
    if c < 0 {
      assert c * b == -((-c) * b);
    }
  }
}
