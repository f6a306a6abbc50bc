/**
 * UTC dates of libcom/src/timeutil.cpp: the epoch computed by adding up years and months,
 * and the two text formats.  Local time and the clock are not part of the model.
 */
module Calendar {

  import opened Options

  /** The broken-down time of a datetime; months count from 1. */
  datatype Stamp = Stamp(
    year: int, month: int, day: int, hour: int, minute: int, second: int, msec: int, wday: int)

  datatype Format = Common | Imf

  predicate Leap(year: int) {
    if year % 4 != 0 then false
    else if year % 100 != 0 then true
    else year % 400 == 0
  }

  const MONTH_DAYS: seq<int> := [31, 28, 31, 30, 31, 30, 31, 31, 30, 31, 30, 31]

  function DaysInMonth(month: int, leap: bool): (n: int)
    requires 1 <= month <= 12
    ensures 28 <= n <= 31
  {
    if month == 2 && leap then 29 else MONTH_DAYS[month - 1]
  }

  function DaysInYear(leap: bool): (n: int) { if leap then 366 else 365 }

  /** A date and time that exists. */
  predicate Valid(s: Stamp) {
    1 <= s.month <= 12 && 1 <= s.day <= DaysInMonth(s.month, Leap(s.year)) &&
    0 <= s.hour < 24 && 0 <= s.minute < 60 && 0 <= s.second < 60 && 0 <= s.msec < 1000 &&
    0 <= s.wday < 7
  }

  // ---- the civil calendar in closed form ----------------------------------------------

  /** Leap years from year 1 to year n, by counting multiples. */
  function LeapsThrough(n: int): (r: int) { n / 4 - n / 100 + n / 400 }

  /** Days from 1 January 1970 to 1 January of the year. */
  function DaysBeforeYear(year: int): (n: int) {
    365 * (year - 1970) + LeapsThrough(year - 1) - LeapsThrough(1969)
  }

  /** Days from 1 January to the first of the month. */
  function DaysBeforeMonth(month: int, leap: bool): (n: int)
    requires 1 <= month <= 13
  {
    (367 * month - 362) / 12 - if month <= 2 then 0 else if leap then 1 else 2
  }

  function CivilDays(s: Stamp): (n: int)
    requires 1 <= s.month <= 12
  {
    DaysBeforeYear(s.year) + DaysBeforeMonth(s.month, Leap(s.year)) + s.day - 1
  }

  function SecondOfDay(s: Stamp): (n: int) { 3600 * s.hour + 60 * s.minute + s.second }

  function CivilSeconds(s: Stamp): (n: int)
    requires 1 <= s.month <= 12
  {
    86400 * CivilDays(s) + SecondOfDay(s)
  }

  lemma MultiplesStep(n: int, k: int)
    requires k == 4 || k == 100 || k == 400
    ensures n / k - (n - 1) / k == if n % k == 0 then 1 else 0
  {
  }

  lemma YearLength(year: int)
    ensures DaysBeforeYear(year + 1) == DaysBeforeYear(year) + DaysInYear(Leap(year))
  {
    MultiplesStep(year, 4);
    MultiplesStep(year, 100);
    MultiplesStep(year, 400);
  }

  lemma MonthLength(month: int, leap: bool)
    requires 1 <= month <= 12
    ensures DaysBeforeMonth(month + 1, leap) == DaysBeforeMonth(month, leap) + DaysInMonth(month, leap)
    ensures DaysBeforeMonth(1, leap) == 0 && DaysBeforeMonth(13, leap) == DaysInYear(leap)
  {
  }

  // ---- recalculate --------------------------------------------------------------------

  /** What recalculate arrives at: years before 1970 add nothing. */
  function Recalculated(s: Stamp): (n: int)
    requires 1 <= s.month <= 12
  {
    if s.year >= 1970 then CivilSeconds(s) else CivilSeconds(s) - 86400 * DaysBeforeYear(s.year)
  }

  class DateTime {
    var tm: Stamp
    var epoch: int
    var recalc: bool

    constructor (now: Stamp, seconds: int)
      ensures tm == now && epoch == seconds && !recalc
    {
      tm, epoch, recalc := now, seconds, false;
    }

    /** Any of the setters. */
    method Set(s: Stamp)
      modifies this
      ensures tm == s && recalc && epoch == old(epoch)
    {
      tm, recalc := s, true;
    }

    method Recalculate()
      requires 1 <= tm.month <= 12
      modifies this`epoch, this`recalc
      ensures !recalc
      ensures epoch == if old(recalc) then Recalculated(tm) else old(epoch)
    {
      if recalc {
        hide DaysBeforeYear, DaysBeforeMonth, Leap, DaysInMonth;
        var s, leap := tm, Leap(tm.year);
        MonthLength(1, leap);
        YearZero();
        var total, y := 0, 1970;
        while y < s.year
          invariant y == 1970 || y <= s.year
          invariant total == 86400 * DaysBeforeYear(y)
        {
          YearLength(y);
          total := total + DaysInYear(Leap(y)) * 86400;
          y := y + 1;
        }
        ghost var years := total;
        var m := 0;
        while m < s.month - 1
          invariant 0 <= m < s.month
          invariant total == years + 86400 * DaysBeforeMonth(m + 1, leap)
        {
          MonthLength(m + 1, leap);
          total := total + DaysInMonth(m + 1, leap) * 86400;
          m := m + 1;
        }
        epoch := total + (s.day - 1) * 86400 + s.hour * 3600 + s.minute * 60 + s.second;
        recalc := false;
      }
    }
  }

  lemma YearZero()
    ensures DaysBeforeYear(1970) == 0
  {
  }

  lemma {:induction false} YearsGrow(a: int, b: int)
    requires a < b
    ensures DaysBeforeYear(a) + DaysInYear(Leap(a)) <= DaysBeforeYear(b)
    decreases b - a
  {
    YearLength(a);
    if a + 1 < b { YearsGrow(a + 1, b); }
  }

  /** The epoch is the civil one exactly for dates from 1970 on. */
  lemma RecalculatedIsCivil(s: Stamp)
    requires Valid(s)
    ensures Recalculated(s) == CivilSeconds(s) <==> s.year >= 1970
  {
    if s.year < 1970 { YearsGrow(s.year, 1970); }
  }

  // ---- order --------------------------------------------------------------------------

  predicate Earlier(a: Stamp, b: Stamp) {
    a.year < b.year ||
    (a.year == b.year && (a.month < b.month ||
     (a.month == b.month && (a.day < b.day ||
      (a.day == b.day && SecondOfDay(a) < SecondOfDay(b))))))
  }

  lemma {:induction false} MonthsGrow(a: int, b: int, leap: bool)
    requires 1 <= a < b <= 13
    ensures DaysBeforeMonth(a, leap) + DaysInMonth(a, leap) <= DaysBeforeMonth(b, leap)
    decreases b - a
  {
    MonthLength(a, leap);
    if a + 1 < b { MonthsGrow(a + 1, b, leap); }
  }

  /** A day lies inside its year. */
  lemma DayInYear(s: Stamp)
    requires Valid(s)
    ensures var d := DaysBeforeMonth(s.month, Leap(s.year)) + s.day - 1; 0 <= d < DaysInYear(Leap(s.year))
  {
    MonthsGrow(s.month, 13, Leap(s.year));
    MonthLength(1, Leap(s.year));
    if s.month > 1 { MonthsGrow(1, s.month, Leap(s.year)); }
  }

  lemma DaysGrow(a: Stamp, b: Stamp)
    requires Valid(a) && Valid(b)
    requires a.year < b.year || (a.year == b.year && (a.month < b.month || (a.month == b.month && a.day < b.day)))
    ensures CivilDays(a) < CivilDays(b)
  {
    if a.year < b.year {
      YearsGrow(a.year, b.year);
      DayInYear(a);
      DayInYear(b);
    } else if a.month < b.month {
      MonthsGrow(a.month, b.month, Leap(a.year));
    }
  }

  /** The epoch grows strictly with the date and time. */
  lemma EpochGrows(a: Stamp, b: Stamp)
    requires Valid(a) && Valid(b) && a.year >= 1970 && b.year >= 1970
    ensures Earlier(a, b) <==> Recalculated(a) < Recalculated(b)
  {
    if (a.year, a.month, a.day) != (b.year, b.month, b.day) {
      if Earlier(a, b) { DaysGrow(a, b); } else { DaysGrow(b, a); }
    }
    SecondsInDay(a);
    SecondsInDay(b);
  }

  lemma SecondsInDay(s: Stamp)
    requires Valid(s)
    ensures 0 <= SecondOfDay(s) < 86400
  {
  }

  // ---- text ---------------------------------------------------------------------------

  function DayNames(): (r: seq<string>)
    ensures |r| == 7
  {
    ["Sun", "Mon", "Tue", "Wed", "Thu", "Fri", "Sat"]
  }

  function MonthNames(): (r: seq<string>)
    ensures |r| == 12
  {
    ["Jan", "Feb", "Mar", "Apr", "May", "Jun", "Jul", "Aug", "Sep", "Oct", "Nov", "Dec"]
  }

  /** The months and days of section 3.3 of RFC 5322, by their numbers. */
  lemma NamesByNumber()
    ensures MonthNames()[0] == "Jan" && MonthNames()[1] == "Feb" && MonthNames()[2] == "Mar"
    ensures MonthNames()[3] == "Apr" && MonthNames()[4] == "May" && MonthNames()[5] == "Jun"
    ensures MonthNames()[6] == "Jul" && MonthNames()[7] == "Aug" && MonthNames()[8] == "Sep"
    ensures MonthNames()[9] == "Oct" && MonthNames()[10] == "Nov" && MonthNames()[11] == "Dec"
    ensures DayNames()[0] == "Sun" && DayNames()[1] == "Mon" && DayNames()[2] == "Tue" && DayNames()[3] == "Wed"
    ensures DayNames()[4] == "Thu" && DayNames()[5] == "Fri" && DayNames()[6] == "Sat"
  {
  }

  const DIGITS := "0123456789"

  function Digit(n: int): (c: char) { DIGITS[n % 10] }

  /** Padded with zeros to a width that the number does not exceed. */
  function Padded(n: int, width: nat): (t: string)
    requires n >= 0
    ensures |t| == width
    decreases width
  {
    if width == 0 then "" else Padded(n / 10, width - 1) + [Digit(n)]
  }

  predicate IsDigit(c: char) { '0' <= c <= '9' }

  function DigitValue(c: char): (n: int)
    requires IsDigit(c)
  {
    c as int - '0' as int
  }

  /** The digits at the front of s, after those worth acc. */
  function Number(s: string, acc: int): (n: int) {
    if s == "" || !IsDigit(s[0]) then acc else Number(s[1..], 10 * acc + DigitValue(s[0]))
  }

  predicate IsSpace(c: char) { c in " \t\n\r" || c == 11 as char || c == 12 as char }

  /** std::stoi: white space, a sign, digits; what follows is ignored. */
  function Stoi(s: string): (r: Option<int>) {
    if s == "" then None
    else if IsSpace(s[0]) then Stoi(s[1..])
    else
      var t := if s[0] == '-' || s[0] == '+' then s[1..] else s;
      if t == "" || !IsDigit(t[0]) then None
      else Some(if s[0] == '-' then -Number(t, 0) else Number(t, 0))
  }

  /** std::string::substr, None for its exception. */
  function Substr(s: string, from: nat, n: nat): (r: Option<string>) {
    if from > |s| then None else Some(s[from..if from + n <= |s| then from + n else |s|])
  }

  function CharAt(s: string, i: nat): (c: char) { if i < |s| then s[i] else '\0' }

  /** A number field: its value if it is in range and followed by the separator. */
  function Field(s: string, from: nat, n: nat, low: int, high: int, sep: char): (r: Option<int>) {
    var t := Substr(s, from, n);
    if t.None? then None
    else
      var v := Stoi(t.value);
      if v.None? || v.value < low || v.value > high || CharAt(s, from + n) != sep then None else v
  }

  /** The position of a name in a table. */
  function IndexOf(names: seq<string>, t: string): (i: nat)
    ensures i <= |names| && (i < |names| ==> names[i] == t)
    ensures forall j :: 0 <= j < i ==> names[j] != t
  {
    if names == [] || names[0] == t then 0 else 1 + IndexOf(names[1..], t)
  }

  function NameField(s: string, from: nat, names: seq<string>, sep: char): (r: Option<nat>) {
    var t := Substr(s, from, 3);
    if t.None? || IndexOf(names, t.value) == |names| || CharAt(s, from + 3) != sep then None
    else Some(IndexOf(names, t.value))
  }

  /** datetime::get, the common format: YYYY/MM/DD hh:mm:ss.mse; None for its exceptions. */
  function ParseCommon(now: Stamp, s: string): (r: Option<Stamp>) {
    var y := Field(s, 0, 4, 0, 9999, '/');
    var mo := Field(s, 5, 2, 1, 12, '/');
    var d := Field(s, 8, 2, 1, 31, ' ');
    var h := Field(s, 11, 2, 0, 23, ':');
    var mi := Field(s, 14, 2, 0, 59, ':');
    var se := Field(s, 17, 2, 0, 59, '.');
    var ms := Field(s, 20, 3, 0, 999, CharAt(s, 23));
    if y.None? || mo.None? || d.None? || h.None? || mi.None? || se.None? || ms.None? then None
    else Some(Stamp(y.value, mo.value, d.value, h.value, mi.value, se.value, ms.value, now.wday))
  }

  /** datetime::get, the Internet message format: Www, DD Mmm YYYY hh:mm:ss GMT. */
  function ParseImf(now: Stamp, s: string): (r: Option<Stamp>) {
    var w := NameField(s, 0, DayNames(), ',');
    var d := Field(s, 5, 2, 1, 31, ' ');
    var mo := NameField(s, 8, MonthNames(), ' ');
    var y := Field(s, 12, 4, 0, 9999, ' ');
    var h := Field(s, 17, 2, 0, 23, ':');
    var mi := Field(s, 20, 2, 0, 59, ':');
    var se := Field(s, 23, 2, 0, 59, ' ');
    if w.None? || CharAt(s, 4) != ' ' || d.None? || mo.None? || y.None? || h.None? || mi.None?
      || se.None? || Substr(s, 26, 3) != Some("GMT") then None
    else Some(Stamp(y.value, mo.value + 1, d.value, h.value, mi.value, se.value, now.msec, w.value))
  }

  function Parse(now: Stamp, s: string, f: Format): (r: Option<Stamp>) {
    if f.Imf? then ParseImf(now, s) else ParseCommon(now, s)
  }

  /** datetime::str. */
  function Text(s: Stamp, f: Format): (t: string)
    requires Valid(s) && 0 <= s.year <= 9999
  {
    if f.Imf? then
      DayNames()[s.wday] + ", " + Padded(s.day, 2) + " " + MonthNames()[s.month - 1] + " "
      + Padded(s.year, 4) + " " + Padded(s.hour, 2) + ":" + Padded(s.minute, 2) + ":"
      + Padded(s.second, 2) + " GMT"
    else
      Padded(s.year, 4) + "/" + Padded(s.month, 2) + "/" + Padded(s.day, 2) + " "
      + Padded(s.hour, 2) + ":" + Padded(s.minute, 2) + ":" + Padded(s.second, 2) + "."
      + Padded(s.msec, 3)
  }

  function Power10(w: nat): (p: nat)
    ensures p >= 1
  {
    if w == 0 then 1 else 10 * Power10(w - 1)
  }

  predicate AllDigits(t: string) { forall i :: 0 <= i < |t| ==> IsDigit(t[i]) }

  lemma {:induction false} NumberAppend(t: string, c: char, acc: int)
    requires AllDigits(t) && IsDigit(c)
    ensures Number(t + [c], acc) == 10 * Number(t, acc) + DigitValue(c)
    decreases |t|
  {
    if t == "" {
      assert (t + [c])[1..] == "";
    } else {
      assert (t + [c])[1..] == t[1..] + [c];
      NumberAppend(t[1..], c, 10 * acc + DigitValue(t[0]));
    }
  }

  lemma {:induction false} PaddedNumber(n: int, width: nat)
    requires 0 <= n < Power10(width)
    ensures AllDigits(Padded(n, width)) && Number(Padded(n, width), 0) == n
    decreases width
  {
    if width > 0 {
      PaddedNumber(n / 10, width - 1);
      DigitIsDigit(n);
      NumberAppend(Padded(n / 10, width - 1), Digit(n), 0);
    }
  }

  lemma DigitIsDigit(n: int)
    ensures IsDigit(Digit(n)) && DigitValue(Digit(n)) == n % 10
  {
  }

  lemma PaddedStoi(n: int, width: nat)
    requires 0 <= n < Power10(width) && width > 0
    ensures Stoi(Padded(n, width)) == Some(n)
  {
    PaddedNumber(n, width);
    var t := Padded(n, width);
    assert IsDigit(t[0]);
  }

  /** A padded field inside a text is read back. */
  lemma FieldRead(s: string, from: nat, n: int, width: nat, low: int, high: int, sep: char)
    requires 0 <= n < Power10(width) && width > 0 && low <= n <= high
    requires from + width <= |s| && s[from..from + width] == Padded(n, width) && CharAt(s, from + width) == sep
    ensures Field(s, from, width, low, high, sep) == Some(n)
  {
    PaddedStoi(n, width);
  }

  // ---- which texts are read -----------------------------------------------------------

  /** The value of digits by their places. */
  function Amount(ds: string): (n: int)
    requires AllDigits(ds)
  {
    if ds == "" then 0 else DigitValue(ds[0]) * Power10(|ds| - 1) + Amount(ds[1..])
  }

  predicate AllSpaces(t: string) { forall i :: 0 <= i < |t| ==> IsSpace(t[i]) }

  predicate NoDigitFirst(t: string) { t == "" || !IsDigit(t[0]) }

  /** Digits worth n; what follows does not count. */
  ghost predicate PlainIs(t: string, n: int) {
    exists ds, rest :: t == ds + rest && AllDigits(ds) && ds != "" && NoDigitFirst(rest) && n == Amount(ds)
  }

  /** The same after an optional sign. */
  ghost predicate SignedIs(t: string, n: int) {
    PlainIs(t, n) || (t != "" && ((t[0] == '+' && PlainIs(t[1..], n)) || (t[0] == '-' && PlainIs(t[1..], -n))))
  }

  ghost predicate StoiIs(t: string, n: int) {
    exists a, u :: t == a + u && AllSpaces(a) && SignedIs(u, n)
  }

  lemma {:induction false} NumberIs(ds: string, rest: string, acc: int)
    requires AllDigits(ds) && NoDigitFirst(rest)
    ensures Number(ds + rest, acc) == acc * Power10(|ds|) + Amount(ds)
    decreases |ds|
  {
    if ds == "" {
      assert ds + rest == rest;
    } else {
      assert (ds + rest)[1..] == ds[1..] + rest && (ds + rest)[0] == ds[0];
      var d := DigitValue(ds[0]);
      NumberIs(ds[1..], rest, 10 * acc + d);
      Spread(acc, d, Power10(|ds| - 1));
    }
  }

  lemma Spread(acc: int, d: int, p: int)
    ensures (10 * acc + d) * p == acc * (10 * p) + d * p
  {
  }

  /** The digits at the front. */
  lemma {:induction false} DigitsFront(t: string) returns (ds: string, rest: string)
    ensures t == ds + rest && AllDigits(ds) && NoDigitFirst(rest) && (ds == "" <==> NoDigitFirst(t))
  {
    if NoDigitFirst(t) {
      ds, rest := "", t;
    } else {
      var es;
      es, rest := DigitsFront(t[1..]);
      ds := [t[0]] + es;
    }
  }

  lemma DigitsOnly(t: string, ds: string, rest: string)
    requires t == ds + rest && AllDigits(ds) && ds != "" && NoDigitFirst(rest)
    ensures t != "" && IsDigit(t[0]) && Number(t, 0) == Amount(ds)
  {
    assert t[0] == ds[0];
    NumberIs(ds, rest, 0);
  }

  lemma PlainExactly(t: string, n: int)
    ensures PlainIs(t, n) <==> t != "" && IsDigit(t[0]) && n == Number(t, 0)
  {
    hide Number, Amount;
    var ds, rest := DigitsFront(t);
    if ds != "" { DigitsOnly(t, ds, rest); }
    if PlainIs(t, n) {
      var es, more :| t == es + more && AllDigits(es) && es != "" && NoDigitFirst(more) && n == Amount(es);
      DigitsOnly(t, es, more);
    }
  }

  /** std::stoi without white space in front. */
  lemma SignedExactly(t: string, n: int)
    requires t != "" && !IsSpace(t[0])
    ensures Stoi(t) == Some(n) <==> SignedIs(t, n)
  {
    hide Number, PlainIs;
    PlainExactly(t, n);
    PlainExactly(t[1..], n);
    PlainExactly(t[1..], -n);
  }

  lemma SignedStarts(t: string, n: int)
    requires SignedIs(t, n)
    ensures t != "" && !IsSpace(t[0])
  {
    hide Number, PlainIs;
    PlainExactly(t, n);
  }

  /** std::stoi: white space, a sign, digits; what follows is ignored. */
  lemma {:induction false} StoiExactly(t: string, n: int)
    ensures Stoi(t) == Some(n) <==> StoiIs(t, n)
  {
    hide SignedIs;
    if t == "" {
      forall a: string, u | t == a + u
        ensures !SignedIs(u, n)
      {
        if SignedIs(u, n) { SignedStarts(u, n); }
      }
    } else if IsSpace(t[0]) {
      StoiExactly(t[1..], n);
      if StoiIs(t[1..], n) {
        var a, u :| t[1..] == a + u && AllSpaces(a) && SignedIs(u, n);
        assert t == ([t[0]] + a) + u;
      }
      if StoiIs(t, n) {
        var a, u :| t == a + u && AllSpaces(a) && SignedIs(u, n);
        SignedStarts(u, n);
        assert a == "" ==> t == u;
        assert t[1..] == a[1..] + u;
      }
    } else {
      SignedExactly(t, n);
      if SignedIs(t, n) { assert t == "" + t; }
      if StoiIs(t, n) {
        var a, u :| t == a + u && AllSpaces(a) && SignedIs(u, n);
        assert t == u;
      }
    }
  }

  /** From a position at most n characters spell a number in range, and a character follows them. */
  ghost predicate NumberAt(s: string, from: nat, n: nat, v: int, low: int, high: int, sep: char) {
    && from <= |s| && low <= v <= high && StoiIs(s[from..if from + n <= |s| then from + n else |s|], v)
    && from + n < |s| && s[from + n] == sep
  }

  lemma FieldExactly(s: string, from: nat, n: nat, v: int, low: int, high: int, sep: char)
    requires sep != '\0'
    ensures Field(s, from, n, low, high, sep) == Some(v) <==> NumberAt(s, from, n, v, low, high, sep)
  {
    hide StoiIs, Stoi;
    if from <= |s| { StoiExactly(s[from..if from + n <= |s| then from + n else |s|], v); }
  }

  /** The texts of the common format, by their positions; what comes after the milliseconds is not read. */
  ghost predicate IsCommon(s: string, t: Stamp) {
    && NumberAt(s, 0, 4, t.year, 0, 9999, '/') && NumberAt(s, 5, 2, t.month, 1, 12, '/')
    && NumberAt(s, 8, 2, t.day, 1, 31, ' ') && NumberAt(s, 11, 2, t.hour, 0, 23, ':')
    && NumberAt(s, 14, 2, t.minute, 0, 59, ':') && NumberAt(s, 17, 2, t.second, 0, 59, '.')
    && 0 <= t.msec <= 999 && StoiIs(s[20..if 23 <= |s| then 23 else |s|], t.msec)
  }

  lemma CommonExactly(now: Stamp, s: string, t: Stamp)
    ensures ParseCommon(now, s) == Some(t) <==> IsCommon(s, t) && t.wday == now.wday
  {
    hide Field, NumberAt, Stoi, StoiIs;
    FieldExactly(s, 0, 4, t.year, 0, 9999, '/');
    FieldExactly(s, 5, 2, t.month, 1, 12, '/');
    FieldExactly(s, 8, 2, t.day, 1, 31, ' ');
    FieldExactly(s, 11, 2, t.hour, 0, 23, ':');
    FieldExactly(s, 14, 2, t.minute, 0, 59, ':');
    FieldExactly(s, 17, 2, t.second, 0, 59, '.');
    NumberLong(s, 17, 2, t.second, 0, 59, '.');
    LastField(s, t.msec);
  }

  lemma NumberLong(s: string, from: nat, n: nat, v: int, low: int, high: int, sep: char)
    ensures NumberAt(s, from, n, v, low, high, sep) ==> |s| > from + n
  {
  }

  lemma LastField(s: string, v: int)
    ensures Field(s, 20, 3, 0, 999, CharAt(s, 23)) == Some(v) <==>
      20 <= |s| && 0 <= v <= 999 && StoiIs(s[20..if 23 <= |s| then 23 else |s|], v)
  {
    hide Stoi, StoiIs;
    if 20 <= |s| { StoiExactly(s[20..if 23 <= |s| then 23 else |s|], v); }
  }

  /** The texts of the Internet message format; what comes after GMT is not read. */
  ghost predicate IsImf(s: string, t: Stamp) {
    && |s| >= 29 && 0 <= t.wday < 7 && s[0..3] == DayNames()[t.wday] && s[3] == ',' && s[4] == ' '
    && NumberAt(s, 5, 2, t.day, 1, 31, ' ')
    && 1 <= t.month <= 12 && s[8..11] == MonthNames()[t.month - 1] && s[11] == ' '
    && NumberAt(s, 12, 4, t.year, 0, 9999, ' ') && NumberAt(s, 17, 2, t.hour, 0, 23, ':')
    && NumberAt(s, 20, 2, t.minute, 0, 59, ':') && NumberAt(s, 23, 2, t.second, 0, 59, ' ')
    && s[26..29] == "GMT"
  }

  lemma NameExactly(s: string, from: nat, names: seq<string>, i: nat, sep: char)
    requires sep != '\0' && forall j :: 0 <= j < |names| ==> |names[j]| == 3
    requires forall j, k :: 0 <= j < k < |names| ==> names[j] != names[k]
    ensures NameField(s, from, names, sep) == Some(i) <==>
      i < |names| && from + 3 < |s| && s[from..from + 3] == names[i] && s[from + 3] == sep
  {
    var t := Substr(s, from, 3);
    if t.Some? { var k := IndexOf(names, t.value); }
  }

  lemma ImfExactly(now: Stamp, s: string, t: Stamp)
    ensures ParseImf(now, s) == Some(t) <==> IsImf(s, t) && t.msec == now.msec
  {
    hide Field, NumberAt, NameField, DayNames, MonthNames;
    NamesDiffer();
    if t.wday >= 0 { NameExactly(s, 0, DayNames(), t.wday, ','); }
    if t.month >= 1 { NameExactly(s, 8, MonthNames(), t.month - 1, ' '); }
    FieldExactly(s, 5, 2, t.day, 1, 31, ' ');
    FieldExactly(s, 12, 4, t.year, 0, 9999, ' ');
    FieldExactly(s, 17, 2, t.hour, 0, 23, ':');
    FieldExactly(s, 20, 2, t.minute, 0, 59, ':');
    FieldExactly(s, 23, 2, t.second, 0, 59, ' ');
    Ending(s);
  }

  lemma Ending(s: string)
    ensures Substr(s, 26, 3) == Some("GMT") <==> |s| >= 29 && s[26..29] == "GMT"
  {
  }

  lemma CommonText(s: Stamp)
    requires Valid(s) && 0 <= s.year <= 9999
    ensures var t := Text(s, Common);
      |t| == 23 && t[0..4] == Padded(s.year, 4) && t[4] == '/' && t[5..7] == Padded(s.month, 2) &&
      t[7] == '/' && t[8..10] == Padded(s.day, 2) && t[10] == ' ' && t[11..13] == Padded(s.hour, 2) &&
      t[13] == ':' && t[14..16] == Padded(s.minute, 2) && t[16] == ':' &&
      t[17..19] == Padded(s.second, 2) && t[19] == '.' && t[20..23] == Padded(s.msec, 3)
  {
    hide Padded;
    Widths(s);
    var t := Text(s, Common);
    Slice2(t, 5, Padded(s.month, 2));
    Slice2(t, 8, Padded(s.day, 2));
    Slice2(t, 11, Padded(s.hour, 2));
    Slice2(t, 14, Padded(s.minute, 2));
    Slice2(t, 17, Padded(s.second, 2));
  }

  lemma Slice2(t: string, i: nat, p: string)
    requires |p| == 2 && i + 2 <= |t| && t[i] == p[0] && t[i + 1] == p[1]
    ensures t[i..i + 2] == p
  {
  }

  lemma ImfText(s: Stamp)
    requires Valid(s) && 0 <= s.year <= 9999
    ensures var t := Text(s, Imf);
      |t| == 29 && t[0..3] == DayNames()[s.wday] && t[3] == ',' && t[4] == ' ' &&
      t[5..7] == Padded(s.day, 2) && t[7] == ' ' && t[8..11] == MonthNames()[s.month - 1] && t[11] == ' ' &&
      t[12..16] == Padded(s.year, 4) && t[16] == ' ' && t[17..19] == Padded(s.hour, 2) && t[19] == ':' &&
      t[20..22] == Padded(s.minute, 2) && t[22] == ':' && t[23..25] == Padded(s.second, 2) &&
      t[25] == ' ' && t[26..29] == "GMT"
  {
    hide Padded, DayNames, MonthNames;
    Widths(s);
    NamesDiffer();
    var t, d, m := Text(s, Imf), DayNames()[s.wday], MonthNames()[s.month - 1];
    Slice2(t, 5, Padded(s.day, 2));
    Slice2(t, 17, Padded(s.hour, 2));
    Slice2(t, 20, Padded(s.minute, 2));
    Slice2(t, 23, Padded(s.second, 2));
    assert t[8..11] == [t[8], t[9], t[10]] && m == [m[0], m[1], m[2]];
    assert t[26..29] == [t[26], t[27], t[28]];
    var y := Padded(s.year, 4);
    assert t[12..16] == [t[12], t[13], t[14], t[15]] && y == [y[0], y[1], y[2], y[3]];
  }

  lemma NameRead(s: string, from: nat, names: seq<string>, i: nat, sep: char)
    requires i < |names| && |names[i]| == 3 && forall j :: 0 <= j < i ==> names[j] != names[i]
    requires from + 3 <= |s| && s[from..from + 3] == names[i] && CharAt(s, from + 3) == sep
    ensures NameField(s, from, names, sep) == Some(i)
  {
    var k := IndexOf(names, names[i]);
  }

  lemma NamesDiffer()
    ensures forall i, j :: 0 <= j < i < 7 ==> DayNames()[j] != DayNames()[i]
    ensures forall i, j :: 0 <= j < i < 12 ==> MonthNames()[j] != MonthNames()[i]
    ensures forall i :: 0 <= i < 7 ==> |DayNames()[i]| == 3
    ensures forall i :: 0 <= i < 12 ==> |MonthNames()[i]| == 3
  {
  }

  lemma ImfRoundTrip(now: Stamp, s: Stamp)
    requires Valid(s) && 0 <= s.year <= 9999
    ensures ParseImf(now, Text(s, Imf)) == Some(s.(msec := now.msec))
  {
    hide Text, Padded, Field, NameField, Power10, DayNames, MonthNames;
    ImfText(s);
    Powers();
    NamesDiffer();
    var t := Text(s, Imf);
    NameRead(t, 0, DayNames(), s.wday, ',');
    FieldRead(t, 5, s.day, 2, 1, 31, ' ');
    NameRead(t, 8, MonthNames(), s.month - 1, ' ');
    FieldRead(t, 12, s.year, 4, 0, 9999, ' ');
    FieldRead(t, 17, s.hour, 2, 0, 23, ':');
    FieldRead(t, 20, s.minute, 2, 0, 59, ':');
    FieldRead(t, 23, s.second, 2, 0, 59, ' ');
  }

  lemma Widths(s: Stamp)
    requires Valid(s) && 0 <= s.year
    ensures |Padded(s.year, 4)| == 4 && |Padded(s.msec, 3)| == 3
    ensures |Padded(s.month, 2)| == 2 && |Padded(s.day, 2)| == 2 && |Padded(s.hour, 2)| == 2
    ensures |Padded(s.minute, 2)| == 2 && |Padded(s.second, 2)| == 2
  {
  }

  lemma Powers()
    ensures Power10(2) == 100 && Power10(3) == 1000 && Power10(4) == 10000
  {
  }

  /** Printing a date of a four-digit year and reading it back restores it. */
  lemma CommonRoundTrip(now: Stamp, s: Stamp)
    requires Valid(s) && 0 <= s.year <= 9999
    ensures ParseCommon(now, Text(s, Common)) == Some(s.(wday := now.wday))
  {
    CommonText(s);
    Powers();
    var t := Text(s, Common);
    hide Text, Padded, Field, Power10;
    FieldRead(t, 0, s.year, 4, 0, 9999, '/');
    FieldRead(t, 5, s.month, 2, 1, 12, '/');
    FieldRead(t, 8, s.day, 2, 1, 31, ' ');
    FieldRead(t, 11, s.hour, 2, 0, 23, ':');
    FieldRead(t, 14, s.minute, 2, 0, 59, ':');
    FieldRead(t, 17, s.second, 2, 0, 59, '.');
    FieldRead(t, 20, s.msec, 3, 0, 999, CharAt(t, 23));
  }

  /**
   * In both formats reading back what was printed gives the same epoch, from 1970 on the
   * civil one, whatever the clock showed meanwhile.
   */
  lemma EpochRoundTrip(now: Stamp, s: Stamp, f: Format)
    requires Valid(s) && 0 <= s.year <= 9999
    ensures var r := Parse(now, Text(s, f), f);
      r.Some? && 1 <= r.value.month <= 12 && Recalculated(r.value) == Recalculated(s) &&
      (s.year >= 1970 ==> Recalculated(r.value) == CivilSeconds(s))
  {
    hide Text, ParseImf, ParseCommon, Recalculated, CivilSeconds;
    if f.Imf? { ImfRoundTrip(now, s); } else { CommonRoundTrip(now, s); }
    SameEpoch(s, now);
    RecalculatedIsCivil(s);
  }

  /** The example of section 5.6.7 of RFC 9110, in both formats and as seconds since 1970. */
  lemma ExampleDate()
    ensures var s := Stamp(1994, 11, 6, 8, 49, 37, 0, 0);
      && Text(s, Imf) == "Sun, 06 Nov 1994 08:49:37 GMT"
      && Text(s, Common) == "1994/11/06 08:49:37.000"
      && Recalculated(s) == 784111777
  {
    var s := Stamp(1994, 11, 6, 8, 49, 37, 0, 0);
    NamesByNumber();
    ExampleNumbers();
    hide Padded, MonthNames, DayNames;
    assert Text(s, Imf)
      == "Sun" + ", " + "06" + " " + "Nov" + " " + "1994" + " " + "08" + ":" + "49" + ":" + "37" + " GMT";
    ExampleImf();
    assert Text(s, Common) == "1994" + "/" + "11" + "/" + "06" + " " + "08" + ":" + "49" + ":" + "37" + "." + "000";
    ExampleCommon();
  }

  lemma ExampleNumbers()
    ensures Padded(6, 2) == "06" && Padded(8, 2) == "08" && Padded(49, 2) == "49" && Padded(37, 2) == "37"
    ensures Padded(11, 2) == "11" && Padded(1994, 4) == "1994" && Padded(0, 3) == "000"
  {
    hide Padded;
    PaddedPair(8);
    PaddedPair(49);
    PaddedPair(37);
    PaddedPair(6);
    PaddedPair(11);
    ExampleYear();
    ExampleZero();
  }

  lemma ExampleZero()
    ensures Padded(0, 3) == "000"
  {
    PaddedPair(0);
    assert Padded(0, 3) == Padded(0, 2) + [Digit(0)];
    hide Padded;
  }

  lemma ExampleYear()
    ensures Padded(1994, 4) == "1994"
  {
    PaddedPair(19);
    assert Padded(199, 3) == Padded(19, 2) + [Digit(199)];
    assert Padded(1994, 4) == Padded(199, 3) + [Digit(1994)];
    hide Padded;
  }

  lemma ExampleImf()
    ensures "Sun" + ", " + "06" + " " + "Nov" + " " + "1994" + " " + "08" + ":" + "49" + ":" + "37" + " GMT"
      == "Sun, 06 Nov 1994 08:49:37 GMT"
  {
    assert "Sun" + ", " + "06" + " " + "Nov" + " " == "Sun, 06 Nov ";
    assert "Sun, 06 Nov " + "1994" + " " + "08" + ":" == "Sun, 06 Nov 1994 08:";
    assert "Sun, 06 Nov 1994 08:" + "49" + ":" + "37" + " GMT" == "Sun, 06 Nov 1994 08:49:37 GMT";
  }

  lemma ExampleCommon()
    ensures "1994" + "/" + "11" + "/" + "06" + " " + "08" + ":" + "49" + ":" + "37" + "." + "000"
      == "1994/11/06 08:49:37.000"
  {
    assert "1994" + "/" + "11" + "/" + "06" + " " == "1994/11/06 ";
    assert "1994/11/06 " + "08" + ":" + "49" + ":" == "1994/11/06 08:49:";
  }

  lemma PaddedPair(n: nat)
    ensures Padded(n, 2) == [Digit(n / 10), Digit(n)]
  {
    assert Padded(n / 10, 1) == Padded(n / 10 / 10, 0) + [Digit(n / 10)];
  }

  lemma SameEpoch(s: Stamp, now: Stamp)
    requires Valid(s)
    ensures Recalculated(s.(msec := now.msec)) == Recalculated(s) == Recalculated(s.(wday := now.wday))
  {
  }

  lemma ParsedMonth(now: Stamp, s: string, f: Format)
    ensures var r := Parse(now, s, f); r.Some? ==> 1 <= r.value.month <= 12
  {
  }

  /** datetime::get in UTC. */
  method Get(now: Stamp, seconds: int, s: string, f: Format) returns (t: Option<DateTime>)
    ensures t.Some? <==> Parse(now, s, f).Some?
    ensures t.Some? ==> fresh(t.value) && t.value.tm == Parse(now, s, f).value
    ensures t.Some? ==> 1 <= t.value.tm.month <= 12 && t.value.epoch == Recalculated(t.value.tm)
  {
    var d := new DateTime(now, seconds);
    var r := Parse(now, s, f);
    ParsedMonth(now, s, f);
    if r.None? { return None; }
    d.Set(r.value);
    d.Recalculate();
    return Some(d);
  }
}
