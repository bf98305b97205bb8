/**
 Unix seconds to Gregorian date and time, and the Time element of a CRL. The
 reference is the closed-form day count of the Gregorian calendar and a reader
 for the two Time forms of section 5.1.2.4 of RFC 5280.
 */
module Calendar {
  import opened Octets
  import opened Der

  datatype Civil = Civil(year: int, month: int, day: int, hour: int, minute: int, second: int)

  predicate Leap(y: int)
  {
    (y % 4 == 0 && y % 100 != 0) || y % 400 == 0
  }

  function YearDays(y: int): (n: nat)
  {
    if Leap(y) then 366 else 365
  }

  const MONTH_DAYS: seq<nat> := [31, 28, 31, 30, 31, 30, 31, 31, 30, 31, 30, 31]

  /** Length of month `m` (1..12) of year `y`. */
  function MonthDays(y: int, m: int): (n: nat)
    requires 1 <= m <= 12
  {
    MONTH_DAYS[m - 1] + if m == 2 && Leap(y) then 1 else 0
  }

  // -------------------------------------------------- closed-form reference

  /** Leap years in 1..y-1, counted by the Gregorian rule. */
  function LeapsBefore(y: int): (n: int)
  {
    (y - 1) / 4 - (y - 1) / 100 + (y - 1) / 400
  }

  /** Days from 1 January 1970 to 1 January of year `y`. */
  function DaysBeforeYear(y: int): (n: int)
  {
    365 * (y - 1970) + LeapsBefore(y) - LeapsBefore(1970)
  }

  const CUMULATIVE: seq<nat> := [0, 31, 59, 90, 120, 151, 181, 212, 243, 273, 304, 334, 365]

  /** Days from 1 January to the first of month `m` (13 is the next January). */
  function DaysBeforeMonth(y: int, m: int): (n: nat)
    requires 1 <= m <= 13
  {
    CUMULATIVE[m - 1] + if m > 2 && Leap(y) then 1 else 0
  }

  predicate Valid(c: Civil)
  {
    && 1 <= c.month <= 12
    && 1 <= c.day <= MonthDays(c.year, c.month)
    && 0 <= c.hour < 24 && 0 <= c.minute < 60 && 0 <= c.second < 60
  }

  /** Seconds from the start of 1970. */
  function Instant(c: Civil): (s: int)
    requires Valid(c)
  {
    (DaysBeforeYear(c.year) + DaysBeforeMonth(c.year, c.month) + c.day - 1) * 86400
    + c.hour * 3600 + c.minute * 60 + c.second
  }

  lemma YearStep(y: int)
    ensures DaysBeforeYear(y + 1) == DaysBeforeYear(y) + YearDays(y)
  {
    DivStep(y, 4);
    DivStep(y, 100);
    DivStep(y, 400);
    if y % 400 == 0 { Divides(y, 400, 100, 4); }
    if y % 100 == 0 { Divides(y, 100, 4, 25); }
  }

  lemma Divides(y: int, a: int, b: int, k: int)
    requires (a == 400 && b == 100 && k == 4) || (a == 100 && b == 4 && k == 25)
    requires y % a == 0
    ensures y % b == 0
  {
    var q := y / a;
    assert y == a * q == b * (k * q);
  }

  lemma DivStep(y: int, d: int)
    requires d == 4 || d == 100 || d == 400
    ensures y / d == (y - 1) / d + (if y % d == 0 then 1 else 0)
  {
  }

  lemma MonthStep(y: int, m: int)
    requires 1 <= m <= 12
    ensures DaysBeforeMonth(y, m + 1) == DaysBeforeMonth(y, m) + MonthDays(y, m)
  {
  }

  lemma {:induction false} YearsGrow(a: int, b: int)
    requires a < b
    ensures DaysBeforeYear(a) + YearDays(a) <= DaysBeforeYear(b)
    decreases b - a
  {
    YearStep(a);
    if a + 1 < b {
      YearsGrow(a + 1, b);
    }
  }

  lemma {:induction false} MonthsGrow(y: int, a: int, b: int)
    requires 1 <= a < b <= 13
    ensures DaysBeforeMonth(y, a) + MonthDays(y, a) <= DaysBeforeMonth(y, b)
    decreases b - a
  {
    MonthStep(y, a);
    if a + 1 < b {
      MonthsGrow(y, a + 1, b);
    }
  }

  function DayOfYear(c: Civil): (d: int)
    requires Valid(c)
  {
    DaysBeforeMonth(c.year, c.month) + c.day - 1
  }

  lemma DayOfYearBound(c: Civil)
    requires Valid(c)
    ensures 0 <= DayOfYear(c) < YearDays(c.year)
  {
    MonthsGrow(c.year, c.month, 13);
  }

  /** A second names one date and time only. */
  lemma CivilUnique(a: Civil, b: Civil)
    requires Valid(a) && Valid(b) && Instant(a) == Instant(b)
    ensures a == b
  {
    var da := DaysBeforeYear(a.year) + DayOfYear(a);
    var db := DaysBeforeYear(b.year) + DayOfYear(b);
    assert da == db;
    DayOfYearBound(a);
    DayOfYearBound(b);
    if a.year < b.year { YearsGrow(a.year, b.year); }
    if b.year < a.year { YearsGrow(b.year, a.year); }
    assert a.year == b.year;
    if a.month < b.month { MonthsGrow(a.year, a.month, b.month); }
    if b.month < a.month { MonthsGrow(a.year, b.month, a.month); }
  }

  /** A date lies before year `y` exactly when its second is before the first of that year. */
  lemma BeforeYear(c: Civil, y: int)
    requires Valid(c)
    ensures c.year < y <==> Instant(c) < DaysBeforeYear(y) * 86400
  {
    DayOfYearBound(c);
    if c.year < y {
      YearsGrow(c.year, y);
    } else if c.year > y {
      YearsGrow(y, c.year);
    }
  }

  // ----------------------------------------------------------- unix_to_ymdhms

  /** The year is counted in an `int`; this second, the first of the year 2147483648, takes it past its end. */
  const INT_MAX := 2147483647
  const INT_YEARS_END := 67767976233532800

  lemma IntYears(c: Civil)
    requires Valid(c)
    ensures c.year <= INT_MAX <==> Instant(c) < INT_YEARS_END
  {
    assert LeapsBefore(INT_MAX + 1) == 520764784 && LeapsBefore(1970) == 477;
    assert DaysBeforeYear(INT_MAX + 1) * 86400 == INT_YEARS_END;
    BeforeYear(c, INT_MAX + 1);
  }

  lemma TimeOfDay(sod: nat)
    requires sod < 86400
    ensures sod / 3600 * 3600 + sod % 3600 / 60 * 60 + sod % 60 == sod
    ensures sod / 3600 < 24 && sod % 3600 / 60 < 60
  {
    assert sod % 3600 % 60 == sod % 60;
  }

  lemma Epoch()
    ensures DaysBeforeYear(1970) == 0
  {
  }

  /**
   unix_to_ymdhms: the year loop, then the month loop. The model counts on
   where the `int` ends, so from INT_YEARS_END on it no longer speaks of the code.
   */
  method UnixToCivil(secs: nat) returns (c: Civil)
    ensures Valid(c) && Instant(c) == secs && c.year >= 1970
    ensures c.year <= INT_MAX <==> secs < INT_YEARS_END
  {
    hide DaysBeforeYear;
    var days := secs / 86400;
    var sod := secs % 86400;
    var h, mi, s := sod / 3600, sod % 3600 / 60, sod % 60;
    TimeOfDay(sod);

    ghost var all := days;
    Epoch();
    var year := 1970;
    while true
      invariant year >= 1970 && days >= 0 && all == DaysBeforeYear(year) + days
      decreases days
    {
      var yd := if (year % 4 == 0 && year % 100 != 0) || year % 400 == 0 then 366 else 365;
      if days < yd { break; }
      YearStep(year);
      days := days - yd;
      year := year + 1;
    }

    var leap := (year % 4 == 0 && year % 100 != 0) || year % 400 == 0;
    ghost var doy := days;
    var mo := 0;
    while true
      invariant 0 <= mo < 12 && days >= 0 && doy == DaysBeforeMonth(year, mo + 1) + days
      invariant doy < YearDays(year)
      decreases 12 - mo
    {
      var md := MONTH_DAYS[mo] + if mo == 1 && leap then 1 else 0;
      if days < md { break; }
      MonthStep(year, mo + 1);
      days := days - md;
      mo := mo + 1;
    }
    c := Civil(year, mo + 1, days + 1, h, mi, s);
    IntYears(c);
  }

  /** The date and time of a second count; CivilUnique makes it the only one. */
  ghost function CivilOf(secs: nat): (c: Civil)
    ensures Valid(c) && Instant(c) == secs
  {
    CivilExists(secs);
    var c :| Valid(c) && Instant(c) == secs;
    c
  }

  lemma CivilExists(secs: nat)
    ensures exists c :: Valid(c) && Instant(c) == secs && c.year >= 1970
  {
    var y := FindYear(1970, secs / 86400);
    var doy := secs / 86400 - DaysBeforeYear(y);
    var m := FindMonth(y, 1, doy);
    var sod := secs % 86400;
    var c := Civil(y, m, doy - DaysBeforeMonth(y, m) + 1, sod / 3600, sod % 3600 / 60, sod % 60);
    assert sod % 3600 % 60 == sod % 60;
    assert Valid(c) && Instant(c) == secs;
  }

  lemma {:induction false} FindYear(from: int, day: int) returns (y: int)
    requires from >= 1970 && DaysBeforeYear(from) <= day
    ensures y >= from && DaysBeforeYear(y) <= day < DaysBeforeYear(y) + YearDays(y)
    decreases day - DaysBeforeYear(from)
  {
    YearStep(from);
    if day < DaysBeforeYear(from + 1) { y := from; } else { y := FindYear(from + 1, day); }
  }

  lemma {:induction false} FindMonth(y: int, from: int, doy: int) returns (m: int)
    requires 1 <= from <= 12 && DaysBeforeMonth(y, from) <= doy < YearDays(y)
    ensures from <= m <= 12 && DaysBeforeMonth(y, m) <= doy < DaysBeforeMonth(y, m) + MonthDays(y, m)
    decreases 12 - from
  {
    MonthStep(y, from);
    if doy < DaysBeforeMonth(y, from + 1) { m := from; } else { m := FindMonth(y, from + 1, doy); }
  }

  lemma CivilOfYear(secs: nat)
    ensures CivilOf(secs).year >= 1970
  {
    CivilExists(secs);
    var c :| Valid(c) && Instant(c) == secs && c.year >= 1970;
    CivilUnique(c, CivilOf(secs));
  }

  // ------------------------------------------------------------ Time elements

  const Z: byte := 0x5A

  function Digit(n: nat): (d: byte)
    requires n < 10
  {
    0x30 + n
  }

  /** "%02d" of a number below 100. */
  function Two(n: int): (r: bytes)
    requires 0 <= n < 100
    ensures |r| == 2
  {
    [Digit(n / 10), Digit(n % 10)]
  }

  /** Decimal digits without leading zeros. */
  function Decimal(n: nat): (r: bytes)
    ensures |r| >= 1 && forall i :: 0 <= i < |r| ==> 0x30 <= r[i] <= 0x39
  {
    if n < 10 then [Digit(n)] else Decimal(n / 10) + [Digit(n % 10)]
  }

  /** "%04d". */
  function Four(n: nat): (r: bytes)
  {
    if n < 10000 then Two(n / 100) + Two(n % 100) else Decimal(n)
  }

  /** The part of the text behind the year. */
  function Tail(c: Civil): (r: bytes)
    requires Valid(c)
    ensures |r| == 10
  {
    Two(c.month) + Two(c.day) + Two(c.hour) + Two(c.minute) + Two(c.second)
  }

  predicate UtcRange(y: int)
  {
    1950 <= y < 2050
  }

  function TimeTag(c: Civil): (t: byte)
  {
    if UtcRange(c.year) then TAG_UTC_TIME else TAG_GENERALIZED_TIME
  }

  /** The content octets: 13 of UTCTime, or the first 15 of the longer form. */
  function TimeContent(c: Civil): (r: bytes)
    requires Valid(c) && c.year >= 0
    ensures |r| == if UtcRange(c.year) then 13 else 15
  {
    if UtcRange(c.year) then Two(c.year % 100) + Tail(c) + [Z]
    else
      FourLength(c.year);
      (Four(c.year) + Tail(c) + [Z])[..15]
  }

  lemma FourLength(n: nat)
    ensures |Four(n)| >= 4
    ensures n >= 10000 ==> |Four(n)| >= 5
  {
    if n >= 10000 {
      assert |Decimal(n / 1000)| >= 2;
      assert |Decimal(n / 100)| >= 3 by { assert n / 100 / 10 == n / 1000; }
      assert |Decimal(n / 10)| >= 4 by { assert n / 10 / 10 == n / 100; }
    }
  }

  ghost function TimeElement(secs: nat): (r: bytes)
  {
    CivilOfYear(secs);
    var c := CivilOf(secs);
    Tlv(TimeTag(c), TimeContent(c))
  }

  /** write_time. */
  method WriteTime(buf: array<byte>, p: nat, start: nat, secs: nat) returns (ret: int, p': nat)
    requires start <= p <= buf.Length
    modifies buf
    ensures Wrote(old(buf[..]), buf[..], start, p, ret, p', TimeElement(secs))
  {
    ghost var s0 := buf[..];
    var c := UnixToCivil(secs);
    CivilUnique(c, CivilOf(secs));
    var content := TimeContent(c);
    ret, p' := Raw(buf, p, start, content);
    if ret < 0 { return; }
    ret, p' := Wrap(buf, p', start, TimeTag(c), p, s0, content, |content|);
  }

  // ------------------------------------------------------------------- reader

  predicate IsDigit(b: byte)
  {
    0x30 <= b <= 0x39
  }

  function ReadTwo(s: bytes, at: nat): (n: Option<nat>)
    requires at + 2 <= |s|
    ensures n.Some? ==> n.value < 100
  {
    if IsDigit(s[at]) && IsDigit(s[at + 1]) then Some((s[at] - 0x30) as int * 10 + (s[at + 1] - 0x30)) else None
  }

  /** The ten digits behind the year, and the closing Z. */
  function ReadTail(year: int, s: bytes): (r: Option<int>)
    requires |s| == 11
  {
    var mo, d, h, mi, sc := ReadTwo(s, 0), ReadTwo(s, 2), ReadTwo(s, 4), ReadTwo(s, 6), ReadTwo(s, 8);
    if mo.None? || d.None? || h.None? || mi.None? || sc.None? || s[10] != Z then None
    else
      var c := Civil(year, mo.value, d.value, h.value, mi.value, sc.value);
      if Valid(c) then Some(Instant(c)) else None
  }

  /** The instant a Time element names: UTCTime through 2049, GeneralizedTime from 2050 on. */
  function ReadTime(tag: byte, content: bytes): (r: Option<int>)
  {
    if tag == TAG_UTC_TIME && |content| == 13 then
      var yy := ReadTwo(content, 0);
      if yy.None? then None
      else ReadTail(if yy.value >= 50 then 1900 + yy.value else 2000 + yy.value, content[2..])
    else if tag == TAG_GENERALIZED_TIME && |content| == 15 then
      var hi, lo := ReadTwo(content, 0), ReadTwo(content, 2);
      if hi.None? || lo.None? || hi.value * 100 + lo.value < 2050 then None
      else ReadTail(hi.value * 100 + lo.value, content[4..])
    else None
  }

  lemma ReadTwoOf(s: bytes, at: nat, n: nat)
    requires n < 100 && at + 2 <= |s| && s[at..at + 2] == Two(n)
    ensures ReadTwo(s, at) == Some(n)
  {
    assert s[at] == Two(n)[0] && s[at + 1] == Two(n)[1];
  }

  lemma ReadTailOf(c: Civil)
    requires Valid(c)
    ensures ReadTail(c.year, Tail(c) + [Z]) == Some(Instant(c))
  {
    var s := Tail(c) + [Z];
    ReadTwoOf(s, 0, c.month);
    ReadTwoOf(s, 2, c.day);
    ReadTwoOf(s, 4, c.hour);
    ReadTwoOf(s, 6, c.minute);
    ReadTwoOf(s, 8, c.second);
  }

  lemma ReadUtcOf(c: Civil)
    requires Valid(c) && UtcRange(c.year)
    ensures ReadTime(TAG_UTC_TIME, TimeContent(c)) == Some(Instant(c))
  {
    var s := TimeContent(c);
    ReadTwoOf(s, 0, c.year % 100);
    UtcYear(c.year);
    assert s[2..] == Tail(c) + [Z];
    ReadTailOf(c);
  }

  lemma UtcYear(y: int)
    requires UtcRange(y)
    ensures (if y % 100 >= 50 then 1900 + y % 100 else 2000 + y % 100) == y
  {
  }

  lemma ReadGeneralizedOf(c: Civil)
    requires Valid(c) && 2050 <= c.year < 10000
    ensures ReadTime(TAG_GENERALIZED_TIME, TimeContent(c)) == Some(Instant(c))
  {
    var s := TimeContent(c);
    assert s == Two(c.year / 100) + Two(c.year % 100) + (Tail(c) + [Z]);
    ReadTwoOf(s, 0, c.year / 100);
    ReadTwoOf(s, 2, c.year % 100);
    assert s[4..] == Tail(c) + [Z];
    ReadTailOf(c);
  }

  lemma TailDigits(c: Civil)
    requires Valid(c)
    ensures forall i :: 0 <= i < 10 ==> IsDigit(Tail(c)[i])
  {
  }

  lemma ReadTooLate(c: Civil)
    requires Valid(c) && c.year >= 10000
    ensures ReadTime(TAG_GENERALIZED_TIME, TimeContent(c)) == None
  {
    var y := Four(c.year);
    FourLength(c.year);
    TailDigits(c);
    assert IsDigit((y + Tail(c))[14]);
    assert TimeContent(c)[14] == (y + Tail(c))[14];
    assert TimeContent(c)[4..][10] != Z;
  }

  /** The Time element reads back to the very second exactly for the years before 10000, all of which an `int` holds. */
  lemma TimeReadsBack(secs: nat)
    ensures var c := CivilOf(secs);
            c.year >= 1970 && (ReadTime(TimeTag(c), TimeContent(c)) == Some(secs) <==> c.year < 10000)
  {
    CivilOfYear(secs);
    var c := CivilOf(secs);
    if c.year < 2050 {
      ReadUtcOf(c);
    } else if c.year < 10000 {
      ReadGeneralizedOf(c);
    } else {
      ReadTooLate(c);
    }
  }

  /** 253402300800 is the first second of the year 10000; its element does not read back. */
  lemma Year10000Example()
    ensures CivilOf(253402300800).year == 10000
    ensures var c := CivilOf(253402300800); ReadTime(TimeTag(c), TimeContent(c)) == None
  {
    var c := Civil(10000, 1, 1, 0, 0, 0);
    assert LeapsBefore(10000) == 2424 && LeapsBefore(1970) == 477;
    CivilUnique(c, CivilOf(253402300800));
    ReadTooLate(c);
  }

  /** Seconds before the year 10000 are exactly those with a four-digit year. */
  lemma YearBound(secs: nat)
    ensures CivilOf(secs).year < 10000 <==> secs < 253402300800
  {
    assert LeapsBefore(10000) == 2424 && LeapsBefore(1970) == 477;
    BeforeYear(CivilOf(secs), 10000);
  }

  lemma YearsAround()
    ensures DaysBeforeYear(INT_MAX) * 86400 < INT_YEARS_END - 1 && INT_YEARS_END < DaysBeforeYear(INT_MAX + 2) * 86400
  {
    assert LeapsBefore(INT_MAX + 2) == 520764785 && LeapsBefore(INT_MAX) == 520764784 && LeapsBefore(1970) == 477;
  }

  /** The first second whose year the source's `int` does not hold, far below the 64-bit times a host may send. */
  lemma IntYearsExample()
    ensures INT_YEARS_END < 0x1_0000_0000_0000_0000
    ensures CivilOf(INT_YEARS_END).year == INT_MAX + 1 && CivilOf(INT_YEARS_END - 1).year == INT_MAX
  {
    hide Valid, Instant, DaysBeforeYear, CivilOf;
    YearsAround();
    IntYears(CivilOf(INT_YEARS_END));
    IntYears(CivilOf(INT_YEARS_END - 1));
    BeforeYear(CivilOf(INT_YEARS_END), INT_MAX + 2);
    BeforeYear(CivilOf(INT_YEARS_END - 1), INT_MAX);
  }
}
