/** The calendar arithmetic of mjd.c. Years count from 1900, as in struct tm; months from 1. */
module Mjd {
  import opened Bytes

  // ---- The formulas of mjd.c

  /** A C conversion to int: towards zero. */
  function Trunc(r: real): int {
    if r >= 0.0 then r.Floor else -((-r).Floor)
  }

  /** The day number time_to_tfdt computes, before it is stored in 16 bits. */
  function Encode(y: int, m: int, d: int): int {
    var k := if m == 1 || m == 2 then 1 else 0;
    14956 + d + Trunc((y - k) as real * 365.25) + Trunc((m + 1 + k * 12) as real * 30.6001)
  }

  datatype Date = Date(y: int, m: int, d: int)

  /** The date tfdt_to_time computes from a day number. */
  function Decode(mjd: int): Date {
    var y := Trunc((mjd as real - 15078.2) / 365.25);
    var m := Trunc((mjd as real - 14956.1 - (Trunc(y as real * 365.25) as real)) / 30.6001);
    var d := mjd - 14956 - Trunc(y as real * 365.25) - Trunc(m as real * 30.6001);
    var k := if m == 14 || m == 15 then 1 else 0;
    Date(y + k, m - 1 - k * 12, d)
  }

  // ---- The formulas over whole numbers

  lemma YearDays(y: int)
    requires y >= 0
    ensures Trunc(y as real * 365.25) == 1461 * y / 4
  {
  }

  lemma MonthDays(m: int)
    requires m >= 0
    ensures Trunc(m as real * 30.6001) == 306001 * m / 10000
  {
  }

  lemma YearQuotient(mjd: int)
    requires mjd >= 15079
    ensures Trunc((mjd as real - 15078.2) / 365.25) == (20 * mjd - 301564) / 7305
  {
  }

  lemma MonthQuotient(n: int)
    requires n >= 14957
    ensures Trunc((n as real - 14956.1) / 30.6001) == (10000 * n - 149561000) / 306001
  {
  }

  // ---- An independent calendar

  /** Gregorian leap years, or plainly every fourth year. */
  predicate Leap(gregorian: bool, y: int) {
    var year := 1900 + y;
    year % 4 == 0 && (gregorian ==> year % 100 != 0 || year % 400 == 0)
  }

  function MonthLength(gregorian: bool, y: int, m: int): int {
    if m == 2 then (if Leap(gregorian, y) then 29 else 28)
    else if m == 4 || m == 6 || m == 9 || m == 11 then 30
    else 31
  }

  predicate Valid(gregorian: bool, t: Date) {
    t.y >= 0 && 1 <= t.m <= 12 && 1 <= t.d <= MonthLength(gregorian, t.y, t.m)
  }

  /** Days of the years before y, from 1900 on. */
  function YearStart(gregorian: bool, y: int): int
    requires y >= 0
    decreases y
  {
    if y == 0 then 0 else YearStart(gregorian, y - 1) + if Leap(gregorian, y - 1) then 366 else 365
  }

  /** Days of the months of y before m. */
  function MonthStart(gregorian: bool, y: int, m: int): int
    requires 1 <= m <= 12
    decreases m
  {
    if m == 1 then 0 else MonthStart(gregorian, y, m - 1) + MonthLength(gregorian, y, m - 1)
  }

  /** The modified Julian day: 1 January 1900 is day 15020. Under the every-fourth-year rule 1900
      has a 29 February, so for the same days from March on the count starts a day earlier. */
  function DayCount(gregorian: bool, t: Date): int
    requires Valid(gregorian, t)
  {
    (if gregorian then 15020 else 15019) + YearStart(gregorian, t.y) + MonthStart(gregorian, t.y, t.m) + t.d - 1
  }

  function NextDay(gregorian: bool, t: Date): Date {
    if t.d < MonthLength(gregorian, t.y, t.m) then Date(t.y, t.m, t.d + 1)
    else if t.m < 12 then Date(t.y, t.m + 1, 1)
    else Date(t.y + 1, 1, 1)
  }

  /** Days before a month in a year without a leap day. */
  function PlainMonthStart(m: int): int {
    match m
    case 1 => 0 case 2 => 31 case 3 => 59 case 4 => 90 case 5 => 120 case 6 => 151
    case 7 => 181 case 8 => 212 case 9 => 243 case 10 => 273 case 11 => 304 case _ => 334
  }

  lemma {:induction false} MonthStarts(gregorian: bool, y: int, m: int)
    requires 1 <= m <= 12
    ensures MonthStart(gregorian, y, m) == PlainMonthStart(m) + if m > 2 && Leap(gregorian, y) then 1 else 0
    decreases m
  {
    if m > 1 {
      MonthStarts(gregorian, y, m - 1);
    }
  }

  /** DayCount counts days: it starts right and each next day adds one. */
  lemma DayCountCounts(gregorian: bool, t: Date)
    requires Valid(gregorian, t)
    ensures Valid(gregorian, NextDay(gregorian, t))
    ensures DayCount(gregorian, NextDay(gregorian, t)) == DayCount(gregorian, t) + 1
    ensures DayCount(gregorian, Date(0, 3, 1)) == 15079
  {
    MonthStarts(gregorian, 0, 3);
    MonthStarts(gregorian, t.y, 12);
  }

  predicate FromMarch1900(t: Date) {
    t.y > 0 || (t.y == 0 && t.m >= 3)
  }

  // ---- Encoding

  lemma YearStartEveryFourth(y: int)
    requires y >= 0
    ensures YearStart(false, y) == 365 * y + (y + 3) / 4
    decreases y
  {
    if y > 0 {
      YearStartEveryFourth(y - 1);
    }
  }

  /** Years that begin in March: the year, and the day in it from 0. */
  function MarchYear(t: Date): int {
    if t.m <= 2 then t.y - 1 else t.y
  }

  function MarchDay(t: Date): int {
    var m := if t.m <= 2 then t.m + 12 else t.m;
    306001 * (m + 1) / 10000 - 122 + t.d - 1
  }

  lemma MarchMonths(m: int)
    requires 3 <= m <= 14
    ensures 306001 * (m + 1) / 10000 - 122 == if m > 12 then PlainMonthStart(m - 12) + 306 else PlainMonthStart(m) - 59
  {
  }

  lemma MarchDayBounds(t: Date)
    requires Valid(false, t) && FromMarch1900(t)
    ensures MarchYear(t) >= 0
    ensures 0 <= MarchDay(t) < if MarchYear(t) % 4 == 3 then 366 else 365
  {
    MarchMonths(if t.m <= 2 then t.m + 12 else t.m);
  }

  lemma EncodeMarch(t: Date)
    requires Valid(false, t) && FromMarch1900(t)
    ensures Encode(t.y, t.m, t.d) == 15079 + 1461 * MarchYear(t) / 4 + MarchDay(t)
    ensures MarchYear(t) >= 0
    ensures 0 <= MarchDay(t) < if MarchYear(t) % 4 == 3 then 366 else 365
  {
    var k := if t.m <= 2 then 1 else 0;
    YearDays(t.y - k);
    MonthDays(t.m + 1 + k * 12);
    MarchDayBounds(t);
  }

  /** The closed form is the day count, for every date from 1 March 1900 with a leap day every
      fourth year. */
  lemma EncodeIsDayCount(t: Date)
    requires Valid(false, t) && FromMarch1900(t)
    ensures Encode(t.y, t.m, t.d) == DayCount(false, t)
  {
    EncodeMarch(t);
    YearStartEveryFourth(t.y);
    var y := MarchYear(t);
    assert 1461 * y / 4 == 365 * y + y / 4;
    MonthStarts(false, t.y, t.m);
    MarchMonths(if t.m <= 2 then t.m + 12 else t.m);
  }

  lemma LeapRules(y: int)
    requires y >= 0
    ensures Leap(true, y) ==> Leap(false, y)
    ensures 0 < y < 200 ==> Leap(true, y) == Leap(false, y)
    ensures y == 0 || y == 200 ==> Leap(false, y) && !Leap(true, y)
  {
    var century := (1900 + y) / 100;
    assert y < 100 ==> century == 19;
    assert 100 <= y < 200 ==> century == 20;
    assert y == 100 || century * 100 != 1900 + y || y == 0 || y >= 200;
  }

  /** The leap days the Gregorian calendar has dropped before the year y. */
  lemma YearStartDropped(y: int)
    requires y >= 0
    ensures y == 0 ==> YearStart(false, y) == YearStart(true, y)
    ensures 1 <= y <= 200 ==> YearStart(false, y) == YearStart(true, y) + 1
    ensures y > 200 ==> YearStart(false, y) >= YearStart(true, y) + 2
    decreases y
  {
    if y > 0 {
      LeapRules(y - 1);
      YearStartDropped(y - 1);
    }
  }

  /** On or before 28 February 2100. */
  predicate UpToFebruary2100(t: Date) {
    t.y < 200 || (t.y == 200 && t.m <= 2)
  }

  /** January and February 1900 come out right because the negative year product is cut towards zero. */
  lemma EncodeEarly1900(t: Date)
    requires Valid(true, t) && !FromMarch1900(t)
    ensures Encode(t.y, t.m, t.d) == DayCount(true, t)
  {
    MonthDays(t.m + 13);
    MonthStarts(true, t.y, t.m);
    assert Trunc((t.y - 1) as real * 365.25) == -365;
  }

  /** Against the true calendar: right for exactly the dates from 1900 to 28 February 2100. */
  lemma EncodeIsGregorian(t: Date)
    requires Valid(true, t)
    ensures Encode(t.y, t.m, t.d) == DayCount(true, t) <==> UpToFebruary2100(t)
  {
    if FromMarch1900(t) {
      EncodeIsDayCount(t);
      LeapRules(t.y);
      YearStartDropped(t.y);
      MonthStarts(true, t.y, t.m);
      MonthStarts(false, t.y, t.m);
    } else {
      EncodeEarly1900(t);
    }
  }

  // ---- Decoding

  /** What decoding does to a day number written as a March year and a day in it. */
  lemma DecodeMarch(y: int, day: int)
    requires y >= 0 && 0 <= day < if y % 4 == 3 then 366 else 365
    ensures var n := 15079 + 1461 * y / 4 + day;
      && Trunc((n as real - 15078.2) / 365.25) == y
      && Trunc(y as real * 365.25) == 1461 * y / 4
      && Trunc((n as real - 14956.1 - (1461 * y / 4) as real) / 30.6001) == (10000 * day + 1229000) / 306001
  {
    var n := 15079 + 1461 * y / 4 + day;
    YearQuotient(n);
    YearDays(y);
    MonthQuotient(n - 1461 * y / 4);
    var q, r := y / 4, y % 4;
    assert y == 4 * q + r && 1461 * y / 4 == 1461 * q + 365 * r;
    assert (20 * n - 301564) / 7305 == y;
  }

  /** The months from March (4) to the next February (15): which days they take up. */
  function MonthBegin(m: int): int {
    306001 * m / 10000 - 122
  }

  lemma MonthOfDay(m: int, day: int)
    requires 4 <= m <= 15 && MonthBegin(m) <= day < MonthBegin(m + 1)
    ensures (10000 * day + 1229000) / 306001 == m
  {
  }

  lemma DayOfMonth(day: int)
    requires 0 <= day < 366
    ensures var m := (10000 * day + 1229000) / 306001;
      4 <= m <= 15 && MonthBegin(m) <= day && (m < 15 ==> day < MonthBegin(m + 1))
  {
  }

  lemma MonthBeginLength(y: int, m: int)
    requires 1 <= m <= 12 && m != 2
    ensures var k := if m == 1 then 14 else m + 1; MonthBegin(k + 1) - MonthBegin(k) == MonthLength(false, y, m)
  {
  }

  /** The date of a day in a March year. */
  lemma DecodeParts(y: int, day: int)
    requires y >= 0 && 0 <= day < if y % 4 == 3 then 366 else 365
    ensures var m := (10000 * day + 1229000) / 306001;
      Decode(15079 + 1461 * y / 4 + day) ==
      if m >= 14 then Date(y + 1, m - 13, day - MonthBegin(m) + 1) else Date(y, m - 1, day - MonthBegin(m) + 1)
  {
    DecodeMarch(y, day);
    DayOfMonth(day);
    MonthDays((10000 * day + 1229000) / 306001);
  }

  lemma MarchDayInMonth(t: Date)
    requires Valid(false, t) && FromMarch1900(t)
    ensures var m := if t.m <= 2 then t.m + 13 else t.m + 1;
      && MarchDay(t) == MonthBegin(m) + t.d - 1
      && (10000 * MarchDay(t) + 1229000) / 306001 == m
  {
    var m := if t.m <= 2 then t.m + 13 else t.m + 1;
    if t.m != 2 {
      MonthBeginLength(t.y, t.m);
    }
    MonthOfDay(m, MarchDay(t));
  }

  lemma DecodeOfMarch(t: Date, n: int)
    requires Valid(false, t) && FromMarch1900(t)
    requires n == 15079 + 1461 * MarchYear(t) / 4 + MarchDay(t)
    requires MarchYear(t) >= 0 && 0 <= MarchDay(t) < if MarchYear(t) % 4 == 3 then 366 else 365
    ensures Decode(n) == t
  {
    MarchDayInMonth(t);
    DecodeParts(MarchYear(t), MarchDay(t));
  }

  /** Decoding undoes encoding, for every date from 1 March 1900. */
  lemma DecodeEncode(t: Date)
    requires Valid(false, t) && FromMarch1900(t)
    ensures Decode(Encode(t.y, t.m, t.d)) == t
  {
    EncodeMarch(t);
    DecodeOfMarch(t, Encode(t.y, t.m, t.d));
  }

  /** Every day number from 1 March 1900 on is a day of some March year. */
  lemma MarchSplit(n: int) returns (y: int, day: int)
    requires n >= 15079
    ensures y >= 0 && n == 15079 + 1461 * y / 4 + day
    ensures 0 <= day < if y % 4 == 3 then 366 else 365
  {
    var q, r := (n - 15079) / 1461, (n - 15079) % 1461;
    var i := if r < 365 then 0 else if r < 730 then 1 else if r < 1095 then 2 else 3;
    y := 4 * q + i;
    day := r - 365 * i;
  }

  lemma DayInMonthValid(y: int, day: int)
    requires y >= 0 && 0 <= day < if y % 4 == 3 then 366 else 365
    ensures var m := (10000 * day + 1229000) / 306001;
      var t := if m >= 14 then Date(y + 1, m - 13, day - MonthBegin(m) + 1) else Date(y, m - 1, day - MonthBegin(m) + 1);
      Valid(false, t) && FromMarch1900(t) && MarchYear(t) == y && MarchDay(t) == day
  {
    DayOfMonth(day);
    var m := (10000 * day + 1229000) / 306001;
    if m < 15 {
      MonthBeginLength(y, if m == 14 then 1 else m - 1);
    }
  }

  /** Encoding undoes decoding, for every day number from 1 March 1900 on, and what is decoded is
      a date. */
  lemma EncodeDecode(n: int)
    requires n >= 15079
    ensures var t := Decode(n); Valid(false, t) && FromMarch1900(t) && Encode(t.y, t.m, t.d) == n
  {
    var y, day := MarchSplit(n);
    DecodeParts(y, day);
    DayInMonthValid(y, day);
    EncodeMarch(Decode(n));
  }

  lemma DecodeEarly1900(t: Date)
    requires Valid(true, t) && !FromMarch1900(t)
    ensures Decode(Encode(t.y, t.m, t.d)) != t
  {
    EncodeEarly1900(t);
    MonthStarts(true, t.y, t.m);
    var n := DayCount(true, t);
    assert n == (if t.m == 1 then 15019 else 15050) + t.d;
    assert Trunc((n as real - 15078.2) / 365.25) == 0 && Trunc(0 as real * 365.25) == 0;
    MonthQuotient(n);
    var m := (10000 * n - 149561000) / 306001;
    assert m == 2 || m == 3;
    MonthDays(m);
  }

  /** Among all Gregorian dates from 1900 on that are dates under both rules, exactly those from
      1 March 1900 come back. */
  lemma ComesBack(t: Date)
    requires Valid(true, t)
    ensures Decode(Encode(t.y, t.m, t.d)) == t <==> FromMarch1900(t)
  {
    if FromMarch1900(t) {
      LeapRules(t.y);
      DecodeEncode(t);
    } else {
      DecodeEarly1900(t);
    }
  }

  predicate Before(s: Date, t: Date) {
    s.y < t.y || (s.y == t.y && (s.m < t.m || (s.m == t.m && s.d < t.d)))
  }

  lemma MonthBeginMonotone(k: int, l: int)
    requires 4 <= k < l <= 15
    ensures MonthBegin(k + 1) <= MonthBegin(l)
  {
  }

  lemma MarchDayMonotone(s: Date, t: Date)
    requires Valid(false, s) && FromMarch1900(s) && Valid(false, t) && FromMarch1900(t)
    requires Before(s, t) && MarchYear(s) == MarchYear(t)
    ensures MarchDay(s) < MarchDay(t)
  {
    MarchDayInMonth(s);
    MarchDayInMonth(t);
    EncodeMarch(s);
    var k, l := if s.m <= 2 then s.m + 13 else s.m + 1, if t.m <= 2 then t.m + 13 else t.m + 1;
    if k < l {
      MonthBeginMonotone(k, l);
      DayOfMonth(MarchDay(s));
    }
  }

  /** A later date has a larger day number. */
  lemma EncodeMonotone(s: Date, t: Date)
    requires Valid(false, s) && FromMarch1900(s) && Valid(false, t) && FromMarch1900(t)
    requires Before(s, t)
    ensures Encode(s.y, s.m, s.d) < Encode(t.y, t.m, t.d)
  {
    EncodeMarch(s);
    EncodeMarch(t);
    if MarchYear(s) == MarchYear(t) {
      MarchDayMonotone(s, t);
    } else {
      YearsAdvance(MarchYear(s), MarchYear(t));
    }
  }

  lemma YearsAdvance(p: int, q: int)
    requires 0 <= p < q
    ensures 1461 * p / 4 + (if p % 4 == 3 then 366 else 365) <= 1461 * q / 4
  {
    assert 1461 * q / 4 >= 1461 * (p + 1) / 4;
  }

  // ---- Rounding

  /** The distance of a quotient a / b from the whole numbers, in units of 1 / b. */
  predicate Margin(a: int, b: int, margin: int)
    requires b > 0
  {
    margin <= a % b <= b - margin
  }

  lemma MonthRemainder(m: int, day: int)
    requires 4 <= m <= 15 && MonthBegin(m) <= day < 366 && (m < 15 ==> day < MonthBegin(m + 1))
    ensures 306001 * m + 987 <= 10000 * day + 1229000 <= 306001 * (m + 1) - 987
  {
    match m
    case 4 => case 5 => case 6 => case 7 => case 8 => case 9 => case 10 => case 11 => case 12 => case 13 => case 14 =>
    case _ => assert m == 15;
  }

  lemma MonthMargin(day: int)
    requires 0 <= day < 366
    ensures Margin(10000 * day + 1229000, 306001, 987)
  {
    DayOfMonth(day);
    MonthRemainder((10000 * day + 1229000) / 306001, day);
  }

  lemma YearMargin(n: int)
    ensures Margin(20 * n - 301564, 7305, 1)
  {
    var a := 20 * n - 301564;
    var r := a % 7305;
    assert a == 5 * (1461 * (a / 7305)) + r;
    assert r != 0;
  }

  /** Neither quotient of the decoder ever comes close to a whole number, so the rounding of
      floating-point division cannot change what is cut off. */
  lemma QuotientMargins(n: int)
    requires n >= 15079
    ensures Margin(20 * n - 301564, 7305, 1)
    ensures var y := (20 * n - 301564) / 7305;
      Margin(10000 * (n - 1461 * y / 4) - 149561000, 306001, 987)
  {
    var y, day := MarchSplit(n);
    DecodeMarch(y, day);
    YearQuotient(n);
    YearMargin(n);
    MonthMargin(day);
  }

  lemma MonthProduct(m: int)
    requires 4 <= m <= 15
    ensures 5 <= 306001 * m % 10000 <= 10000 - 5
  {
    match m
    case 4 => case 5 => case 6 => case 7 => case 8 => case 9 => case 10 => case 11 => case 12 => case 13 => case 14 =>
    case _ => assert m == 15;
  }

  /** The products that are cut off: a month number from 4 to 15 times 30.6001 is never nearer to a
      whole number than 5 / 10000, and four times a year number times 365.25 is whole, so that in
      binary nothing is rounded. */
  lemma ProductMargins(m: int, y: int)
    requires 4 <= m <= 15
    ensures m as real * 30.6001 == (306001 * m) as real / 10000.0 && Margin(306001 * m, 10000, 5)
    ensures 4.0 * (y as real * 365.25) == (1461 * y) as real
  {
    MonthProduct(m);
  }

  /** Those are the month numbers that occur, when encoding and when decoding. */
  lemma MonthNumbers(t: Date)
    requires Valid(false, t) && FromMarch1900(t)
    ensures 4 <= t.m + 1 + (if t.m <= 2 then 12 else 0) <= 15
    ensures 4 <= (10000 * MarchDay(t) + 1229000) / 306001 <= 15
  {
    EncodeMarch(t);
    DayOfMonth(MarchDay(t));
  }

  // ---- The stored date

  datatype Tm = Tm(sec: int, min: int, hour: int, mday: int, mon: int, year: int)

  datatype Moment = NoDate | At(tm: Tm)

  /** What a stored date and time stand for. */
  function Stamp(mjd: u16, hour: byte, minute: byte, second: byte): Moment {
    if mjd == 0xFFFF && hour == 0xFF && minute == 0xFF && second == 0xFF then NoDate
    else
      var t := Decode(mjd);
      At(Tm(second as int, minute as int, hour as int, t.d, t.m - 1, t.y))
  }

  /** All ones is the only stamp that is no date. Every other one is the time it stores, on a date
      which, from 1 March 1900 on, is the one whose day number is stored. */
  lemma StampIsDate(mjd: u16, hour: byte, minute: byte, second: byte)
    ensures Stamp(mjd, hour, minute, second) == NoDate <==> mjd == 0xFFFF && hour == minute == second == 0xFF
    ensures Stamp(mjd, hour, minute, second).At? ==>
      var tm := Stamp(mjd, hour, minute, second).tm;
      && tm.hour == hour as int && tm.min == minute as int && tm.sec == second as int
      && (mjd >= 15079 ==>
           Valid(false, Date(tm.year, tm.mon + 1, tm.mday)) && Encode(tm.year, tm.mon + 1, tm.mday) == mjd)
  {
    if mjd >= 15079 {
      EncodeDecode(mjd);
    }
  }

  /** struct tf_datetime. */
  class TfDatetime {
    var mjd: u16
    var hour: byte
    var minute: byte
    var second: byte

    constructor ()
    {
      mjd, hour, minute, second := 0, 0, 0, 0;
    }

    /** Stores a local time; the day number is cut to 16 bits. */
    method FromTm(tm: Tm)
      requires 0 <= tm.hour < 256 && 0 <= tm.min < 256 && 0 <= tm.sec < 256
      modifies this
      ensures mjd == Encode(tm.year, tm.mon + 1, tm.mday) % 0x1_0000
      ensures hour as int == tm.hour && minute as int == tm.min && second as int == tm.sec
    {
      var y, m, d := tm.year, tm.mon + 1, tm.mday;
      var k := if m == 1 || m == 2 then 1 else 0;
      var n := 14956 + d + Trunc((y - k) as real * 365.25) + Trunc((m + 1 + k * 12) as real * 30.6001);
      mjd := n % 0x1_0000;
      hour, minute, second := tm.hour as byte, tm.min as byte, tm.sec as byte;
    }

    /** The local time stored, unless all bytes are ones. */
    method ToTm() returns (r: Moment)
      ensures r == Stamp(mjd, hour, minute, second)
    {
      if mjd == 0xFFFF && second == 0xFF && minute == 0xFF && hour == 0xFF {
        return NoDate;
      }
      var y := Trunc((mjd as real - 15078.2) / 365.25);
      var m := Trunc((mjd as real - 14956.1 - (Trunc(y as real * 365.25) as real)) / 30.6001);
      var d := mjd - 14956 - Trunc(y as real * 365.25) - Trunc(m as real * 30.6001);
      var k := if m == 14 || m == 15 then 1 else 0;
      y := y + k;
      m := m - 1 - k * 12;
      r := At(Tm(second as int, minute as int, hour as int, d, m - 1, y));
    }
  }

  /** The last date that fits 16 bits. */
  const LAST_DATE := Date(138, 4, 22)

  lemma LastDay()
    ensures Encode(138, 4, 22) == 0xFFFF
  {
    YearDays(138);
    MonthDays(5);
  }

  lemma NumberFits(t: Date)
    requires Valid(false, t) && FromMarch1900(t)
    ensures Encode(t.y, t.m, t.d) <= 0xFFFF <==> !Before(LAST_DATE, t)
  {
    LastDay();
    if Before(LAST_DATE, t) {
      EncodeMonotone(LAST_DATE, t);
    } else if t != LAST_DATE {
      EncodeMonotone(t, LAST_DATE);
    }
  }

  /** A date from 1 March 1900 on survives storage exactly up to 22 April 2038. */
  lemma StoredDate(t: Date)
    requires Valid(false, t) && FromMarch1900(t)
    ensures Decode(Encode(t.y, t.m, t.d) % 0x1_0000) == t <==> !Before(LAST_DATE, t)
  {
    var n := Encode(t.y, t.m, t.d);
    NumberFits(t);
    EncodeMarch(t);
    if Before(LAST_DATE, t) {
      CutNumber(t, n, n % 0x1_0000);
    } else {
      DecodeEncode(t);
      assert n % 0x1_0000 == n;
    }
  }

  lemma EarlyYear(r: int)
    requires 0 <= r < 15079
    ensures Decode(r).y <= 1
  {
    assert Trunc((r as real - 15078.2) / 365.25) <= 0;
  }

  /** Another number decodes to another date. */
  lemma CutNumber(t: Date, n: int, r: int)
    requires Valid(false, t) && FromMarch1900(t) && Before(LAST_DATE, t)
    requires n == Encode(t.y, t.m, t.d) && 0 <= r < n
    ensures Decode(r) != t
  {
    if r >= 15079 {
      EncodeDecode(r);
    } else {
      EarlyYear(r);
    }
  }
}
