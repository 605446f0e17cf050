/**
 * The structured-time conversion of the entry normaliser: Python's
 * `datetime(*t[:6])` constructor, which rejects out-of-range fields, and
 * `datetime.isoformat()` for a value without microseconds or time zone.
 */
module Timestamp {
  import opened Wrappers

  datatype DateTime = DateTime(year: int, month: int, day: int, hour: int, minute: int, second: int)

  /** `datetime.MINYEAR` and `datetime.MAXYEAR`. */
  const MinYear := 1
  const MaxYear := 9999

  /** The proleptic Gregorian leap-year rule. */
  predicate IsLeapYear(y: int)
  {
    y % 4 == 0 && (y % 100 != 0 || y % 400 == 0)
  }

  function DaysInMonth(y: int, m: int): (n: int)
    requires 1 <= m <= 12
    ensures 28 <= n <= 31
    ensures n == 29 <==> m == 2 && IsLeapYear(y)
    ensures n == 28 <==> m == 2 && !IsLeapYear(y)
    ensures n == 30 <==> m == 4 || m == 6 || m == 9 || m == 11
  {
    if m == 2 then (if IsLeapYear(y) then 29 else 28)
    else if m == 4 || m == 6 || m == 9 || m == 11 then 30
    else 31
  }

  /** The range checks the `datetime` constructor performs before it returns. */
  predicate Valid(d: DateTime)
  {
    && MinYear <= d.year <= MaxYear
    && 1 <= d.month <= 12
    && 1 <= d.day <= DaysInMonth(d.year, d.month)
    && 0 <= d.hour <= 23
    && 0 <= d.minute <= 59
    && 0 <= d.second <= 59
  }

  /** The k-th positional argument of `datetime(*t[:6])`, or its default 0 when `t` is shorter. */
  function Arg(t: seq<int>, k: nat): int
  {
    if k < |t| then t[k] else 0
  }

  /**
   * `datetime(*t[:6])`: `None` stands for the exception the call raises. Year,
   * month and day are required positional arguments; hour, minute and second
   * default to 0; components after the sixth are sliced away.
   */
  function FromParsed(t: seq<int>): (r: Option<DateTime>)
    ensures r.Some? <==>
      && |t| >= 3
      && 1 <= t[0] <= 9999 && 1 <= t[1] <= 12 && 1 <= t[2] <= DaysInMonth(t[0], t[1])
      && (|t| > 3 ==> 0 <= t[3] <= 23)
      && (|t| > 4 ==> 0 <= t[4] <= 59)
      && (|t| > 5 ==> 0 <= t[5] <= 59)
    ensures r.Some? ==> Valid(r.value) && r.value.year == t[0] && r.value.month == t[1] && r.value.day == t[2]
    ensures r.Some? ==> r.value.hour == (if |t| > 3 then t[3] else 0)
    ensures r.Some? ==> r.value.minute == (if |t| > 4 then t[4] else 0)
    ensures r.Some? ==> r.value.second == (if |t| > 5 then t[5] else 0)
  {
    if |t| < 3 then None
    else
      var d := DateTime(t[0], t[1], t[2], Arg(t, 3), Arg(t, 4), Arg(t, 5));
      if Valid(d) then Some(d) else None
  }

  predicate IsDigit(c: char)
  {
    '0' <= c <= '9'
  }

  function Digit(n: int): (c: char)
    requires 0 <= n <= 9
    ensures IsDigit(c)
  {
    (48 + n) as char
  }

  /** `'%02d' % n` for 0 <= n <= 99. */
  function Pad2(n: int): (s: string)
    requires 0 <= n <= 99
    ensures |s| == 2 && IsDigit(s[0]) && IsDigit(s[1])
  {
    [Digit(n / 10), Digit(n % 10)]
  }

  /** `'%04d' % n` for 0 <= n <= 9999. */
  function Pad4(n: int): (s: string)
    requires 0 <= n <= 9999
    ensures |s| == 4 && IsDigit(s[0]) && IsDigit(s[1]) && IsDigit(s[2]) && IsDigit(s[3])
  {
    Pad2(n / 100) + Pad2(n % 100)
  }

  /** `datetime.isoformat()` of a value whose microsecond is 0 and that has no time zone. */
  function FormatIso(d: DateTime): (s: string)
    requires Valid(d)
    ensures |s| == 19
    ensures s[4] == '-' && s[7] == '-' && s[10] == 'T' && s[13] == ':' && s[16] == ':'
  {
    Pad4(d.year) + "-" + Pad2(d.month) + "-" + Pad2(d.day) + "T"
      + Pad2(d.hour) + ":" + Pad2(d.minute) + ":" + Pad2(d.second)
  }

  predicate AllDigits(s: string)
  {
    forall k :: 0 <= k < |s| ==> IsDigit(s[k])
  }

  /** The decimal value of a run of digits. */
  function Num(s: string): int
    requires AllDigits(s)
  {
    if s == [] then 0 else Num(s[..|s| - 1]) * 10 + (s[|s| - 1] as int - '0' as int)
  }

  /**
   * The reading of `YYYY-MM-DDTHH:MM:SS` that `datetime.fromisoformat` performs
   * on strings of exactly that shape: the inverse against which `FormatIso` is checked.
   */
  function ParseIso(s: string): Option<DateTime>
  {
    if |s| == 19 && s[4] == '-' && s[7] == '-' && s[10] == 'T' && s[13] == ':' && s[16] == ':'
       && AllDigits(s[0..4]) && AllDigits(s[5..7]) && AllDigits(s[8..10])
       && AllDigits(s[11..13]) && AllDigits(s[14..16]) && AllDigits(s[17..19])
    then
      var d := DateTime(Num(s[0..4]), Num(s[5..7]), Num(s[8..10]), Num(s[11..13]), Num(s[14..16]), Num(s[17..19]));
      if Valid(d) then Some(d) else None
    else None
  }

  lemma Pad2Num(n: int)
    requires 0 <= n <= 99
    ensures Num(Pad2(n)) == n
  {
    var s := Pad2(n);
    assert s[..1] == [Digit(n / 10)];
    assert Num(s[..1]) == n / 10 by {
      assert s[..1][..0] == [];
    }
  }

  lemma Pad4Num(n: int)
    requires 0 <= n <= 9999
    ensures Num(Pad4(n)) == n
  {
    var hi, lo := Pad2(n / 100), Pad2(n % 100);
    var s := hi + lo;
    Pad2Num(n / 100);
    Pad2Num(n % 100);
    assert s[..3] == hi + [lo[0]];
    assert s[..3][..2] == hi;
    assert lo[..1] == [lo[0]];
    assert lo[..1][..0] == [];
    assert Num(lo) == (lo[0] as int - '0' as int) * 10 + (lo[1] as int - '0' as int);
    assert Num(s) == Num(hi) * 100 + Num(lo);
  }

  /** Reading the ISO string back gives the date-time it was formatted from. */
  lemma IsoRoundTrip(d: DateTime)
    requires Valid(d)
    ensures ParseIso(FormatIso(d)) == Some(d)
  {
    var s := FormatIso(d);
    assert s[0..4] == Pad4(d.year);
    assert s[5..7] == Pad2(d.month);
    assert s[8..10] == Pad2(d.day);
    assert s[11..13] == Pad2(d.hour);
    assert s[14..16] == Pad2(d.minute);
    assert s[17..19] == Pad2(d.second);
    Pad4Num(d.year);
    Pad2Num(d.month);
    Pad2Num(d.day);
    Pad2Num(d.hour);
    Pad2Num(d.minute);
    Pad2Num(d.second);
  }

  /** Different valid date-times never render to the same string. */
  lemma FormatIsoInjective(d: DateTime, e: DateTime)
    requires Valid(d) && Valid(e) && FormatIso(d) == FormatIso(e)
    ensures d == e
  {
    IsoRoundTrip(d);
    IsoRoundTrip(e);
  }
}
