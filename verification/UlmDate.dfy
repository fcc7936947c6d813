/** ULM time stamps (ulm_parse.c): seconds and microseconds since 1970 to a date string and back.

    The way back uses Gauss's formula in unsigned machine arithmetic; the calendar itself is stated
    here by year and month lengths ("Seconds Since the Epoch", section 4.16 of POSIX.1-2017 Base
    Definitions). gmtime_r is taken to follow that calendar. */
module UlmDate {
  import opened CText

  // ---------- The calendar ----------

  predicate IsLeap(y: int) {
    y % 4 == 0 && (y % 100 != 0 || y % 400 == 0)
  }

  function YearDays(y: int): nat {
    if IsLeap(y) then 366 else 365
  }

  function MonthDays(y: int, m: int): nat
    requires 1 <= m <= 12
  {
    if m == 2 then (if IsLeap(y) then 29 else 28)
    else if m == 4 || m == 6 || m == 9 || m == 11 then 30
    else 31
  }

  function DaysBeforeYear(y: int): nat
    requires y >= 1970
    decreases y
  {
    if y == 1970 then 0 else DaysBeforeYear(y - 1) + YearDays(y - 1)
  }

  function DaysBeforeMonth(y: int, m: int): nat
    requires 1 <= m <= 12
    decreases m
  {
    if m == 1 then 0 else DaysBeforeMonth(y, m - 1) + MonthDays(y, m - 1)
  }

  datatype Date = Date(year: int, mon: int, day: int)
  {
    predicate Valid() {
      1970 <= year && 1 <= mon <= 12 && 1 <= day <= MonthDays(year, mon)
    }

    /** Days since 1 January 1970, counted by year and month lengths. */
    function DayNumber(): nat
      requires Valid()
    {
      DaysBeforeYear(year) + DaysBeforeMonth(year, mon) + day - 1
    }

    predicate Before(d: Date) {
      || year < d.year
      || (year == d.year && mon < d.mon)
      || (year == d.year && mon == d.mon && day < d.day)
    }
  }

  // ---------- Gauss's formula ----------

  function U32(x: int): nat {
    x % 0x1_0000_0000
  }

  function U64(x: int): nat {
    x % 0x1_0000_0000_0000_0000
  }

  function ToInt64(x: nat): int {
    if x < 0x8000_0000_0000_0000 then x else x - 0x1_0000_0000_0000_0000
  }

  /** The day count of edg_wll_ULMDateToTimeval on unsigned int fields, as an unsigned long. */
  function GaussDays(year: nat, mon: nat, day: nat): nat {
    var m := U32(mon - 2);
    var shifted := ToInt32(m) <= 0;
    var m' := if shifted then U32(m + 12) else m;
    var y' := if shifted then U32(year - 1) else year;
    MachineSum(y', m', day)
  }

  function MachineSum(y: nat, m: nat, day: nat): nat {
    U64(U32(y / 4 - y / 100 + y / 400 + U32(367 * m) / 12 + day) + U32(y * 365) - 719499)
  }

  /** Leap days up to the end of year `y`. */
  function Leaps(y: int): int {
    y / 4 - y / 100 + y / 400
  }

  // Months counted from March, January and February belonging to the year before
  function FromMarch(mon: int): int {
    if mon <= 2 then mon + 10 else mon - 2
  }

  /** The same formula on unbounded integers. */
  function Gauss(year: int, mon: int, day: int): int {
    var y := if mon <= 2 then year - 1 else year;
    Leaps(y) + 367 * FromMarch(mon) / 12 + day + y * 365 - 719499
  }

  lemma {:induction false} ShiftedMonth(mon: nat)
    requires 1 <= mon <= 12
    ensures var m := U32(mon - 2);
            && (ToInt32(m) <= 0 <==> mon <= 2)
            && FromMarch(mon) == if mon <= 2 then U32(m + 12) else m
  {
    assert mon == 1 ==> U32(mon - 2) == 0xffff_ffff;
  }

  lemma {:induction false} ShiftedDate(year: nat, mon: nat, day: nat)
    requires 1970 <= year <= 9999 && 1 <= mon <= 12
    ensures GaussDays(year, mon, day) == MachineSum(if mon <= 2 then year - 1 else year, FromMarch(mon), day)
  {
    ShiftedMonth(mon);
    assert U32(year - 1) == year - 1;
  }

  lemma {:induction false} SmallLeaps(y: int)
    requires 1969 <= y <= 9999
    ensures 0 <= Leaps(y) <= 2500 && 0 <= y / 4 <= 2499
  {
  }

  lemma {:induction false} GaussFromEpoch(d: Date)
    requires d.Valid()
    ensures Gauss(d.year, d.mon, d.day) == d.DayNumber()
  {
    GaussYear(d.year);
    GaussMonth(d.year, d.mon);
  }

  /** No intermediate result wraps for the dates that four-digit years can express. */
  lemma {:induction false} NoWrap(d: Date)
    requires d.Valid() && d.year <= 9999
    ensures GaussDays(d.year, d.mon, d.day) == Gauss(d.year, d.mon, d.day)
  {
    var m, y := FromMarch(d.mon), if d.mon <= 2 then d.year - 1 else d.year;
    ShiftedDate(d.year, d.mon, d.day);
    GaussFromEpoch(d);
    NoWrapAt(y, m, d.day);
  }

  lemma {:induction false} NoWrapAt(y: int, m: int, day: int)
    requires 1969 <= y <= 9999 && 1 <= m <= 12 && 1 <= day <= 31
    requires y * 365 + Leaps(y) + 367 * m / 12 + day >= 719499
    ensures MachineSum(y, m, day) == Leaps(y) + 367 * m / 12 + day + y * 365 - 719499
  {
    SmallLeaps(y);
    assert U32(367 * m) == 367 * m;
    assert 0 <= 367 * m / 12 <= 367;
    assert U32(Leaps(y) + 367 * m / 12 + day) == Leaps(y) + 367 * m / 12 + day;
    assert U32(y * 365) == y * 365;
  }

  lemma {:induction false} LeapStep(y: int)
    ensures Leaps(y) == Leaps(y - 1) + if IsLeap(y) then 1 else 0
  {
    Quotient4(y);
    Quotient100(y);
    Quotient400(y);
    assert y % 400 == 0 ==> y % 100 == 0;
    assert y % 100 == 0 ==> y % 4 == 0;
  }

  lemma {:induction false} Quotient4(y: int)
    ensures y / 4 == (y - 1) / 4 + if y % 4 == 0 then 1 else 0
  {
  }

  lemma {:induction false} Quotient100(y: int)
    ensures y / 100 == (y - 1) / 100 + if y % 100 == 0 then 1 else 0
  {
  }

  lemma {:induction false} Quotient400(y: int)
    ensures y / 400 == (y - 1) / 400 + if y % 400 == 0 then 1 else 0
  {
  }

  lemma {:induction false} GaussYear(y: int)
    requires y >= 1970
    ensures Gauss(y, 1, 1) == DaysBeforeYear(y)
    decreases y
  {
    if y == 1970 {
      assert Leaps(1969) == 477;
    } else {
      GaussYear(y - 1);
      LeapStep(y - 1);
    }
  }

  lemma {:induction false} GaussMonth(y: int, m: int)
    requires y >= 1970 && 1 <= m <= 12
    ensures Gauss(y, m, 1) - Gauss(y, 1, 1) == DaysBeforeMonth(y, m)
    decreases m
  {
    if m > 1 {
      GaussMonth(y, m - 1);
      GaussMonthStep(y, m - 1);
    }
  }

  lemma {:induction false} GaussMonthStep(y: int, m: int)
    requires y >= 1970 && 1 <= m < 12
    ensures Gauss(y, m + 1, 1) - Gauss(y, m, 1) == MonthDays(y, m)
  {
    LeapStep(y);
    MonthTable(m);
  }

  // How 367 * m / 12 spreads the month lengths, February ending the shifted year
  lemma {:induction false} MonthTable(m: int)
    requires 1 <= m < 12
    ensures var step := 367 * FromMarch(m + 1) / 12 - 367 * FromMarch(m) / 12;
            if m == 2 then step == 30 - 367 else step == if m == 4 || m == 6 || m == 9 || m == 11 then 30 else 31
  {
  }

  /** The formula counts days: for every date from 1970 to 9999 it equals the naive count. */
  lemma {:induction false} GaussCountsDays(d: Date)
    requires d.Valid() && d.year <= 9999
    ensures GaussDays(d.year, d.mon, d.day) == d.DayNumber()
  {
    NoWrap(d);
    GaussFromEpoch(d);
  }

  // ---------- Order ----------

  lemma {:induction false} MonthsFillYear(y: int, m: int)
    requires 1 <= m <= 12
    ensures DaysBeforeMonth(y, m) + MonthDays(y, m) <= YearDays(y)
    ensures m == 12 ==> DaysBeforeMonth(y, m) + MonthDays(y, m) == YearDays(y)
  {
    assert DaysBeforeMonth(y, 4) == MonthDays(y, 1) + MonthDays(y, 2) + MonthDays(y, 3);
    assert DaysBeforeMonth(y, 7) == DaysBeforeMonth(y, 4) + 91;
    assert DaysBeforeMonth(y, 10) == DaysBeforeMonth(y, 7) + 92;
    assert DaysBeforeMonth(y, 12) == DaysBeforeMonth(y, 10) + 61;
    MonthsIncrease(y, m, 12);
  }

  lemma {:induction false} MonthsIncrease(y: int, m: int, m': int)
    requires 1 <= m <= m' <= 12
    ensures m < m' ==> DaysBeforeMonth(y, m) + MonthDays(y, m) <= DaysBeforeMonth(y, m')
    decreases m'
  {
    if m < m' {
      MonthsIncrease(y, m, m' - 1);
    }
  }

  lemma {:induction false} YearsIncrease(y: int, y': int)
    requires 1970 <= y < y'
    ensures DaysBeforeYear(y) + YearDays(y) <= DaysBeforeYear(y')
    decreases y'
  {
    if y < y' - 1 {
      YearsIncrease(y, y' - 1);
    }
  }

  /** Later dates have larger day numbers, so a day number belongs to one date only. */
  lemma {:induction false} DayNumberIncreases(d: Date, d': Date)
    requires d.Valid() && d'.Valid() && d.Before(d')
    ensures d.DayNumber() < d'.DayNumber()
  {
    MonthsFillYear(d.year, d.mon);
    if d.year < d'.year {
      YearsIncrease(d.year, d'.year);
    } else if d.mon < d'.mon {
      MonthsIncrease(d.year, d.mon, d'.mon);
    }
  }

  // ---------- From a day number to its date (gmtime_r) ----------

  // `left` days behind 1 January of year `y`
  function YearOf(y: int, left: nat): (r: (int, nat))
    requires y >= 1970
    ensures r.0 >= y && r.1 < YearDays(r.0)
    ensures DaysBeforeYear(r.0) + r.1 == DaysBeforeYear(y) + left
    decreases left
  {
    if left < YearDays(y) then (y, left) else YearOf(y + 1, left - YearDays(y))
  }

  // `left` days behind the first of month `m`
  function MonthOf(y: int, m: int, left: nat): (r: (int, nat))
    requires 1 <= m <= 12 && DaysBeforeMonth(y, m) + left < YearDays(y)
    ensures 1 <= r.0 <= 12 && r.1 < MonthDays(y, r.0)
    ensures DaysBeforeMonth(y, r.0) + r.1 == DaysBeforeMonth(y, m) + left
    decreases 12 - m
  {
    MonthsFillYear(y, m);
    if left < MonthDays(y, m) then (m, left) else MonthOf(y, m + 1, left - MonthDays(y, m))
  }

  function DateOf(days: nat): (d: Date)
    ensures d.Valid() && d.DayNumber() == days
  {
    var y := YearOf(1970, days);
    var m := MonthOf(y.0, 1, y.1);
    Date(y.0, m.0, m.1 + 1)
  }

  /** The date of a day number is the only one. */
  lemma {:induction false} DateOfDayNumber(d: Date)
    requires d.Valid()
    ensures DateOf(d.DayNumber()) == d
  {
    var d' := DateOf(d.DayNumber());
    if d.Before(d') {
      DayNumberIncreases(d, d');
    } else if d'.Before(d) {
      DayNumberIncreases(d', d);
    }
  }

  datatype Moment = Moment(date: Date, hour: int, min: int, sec: int)
  {
    predicate Valid() {
      date.Valid() && 0 <= hour < 24 && 0 <= min < 60 && 0 <= sec < 60
    }

    function Seconds(): nat
      requires Valid()
    {
      ((date.DayNumber() * 24 + hour) * 60 + min) * 60 + sec
    }
  }

  function Gmtime(sec: nat): (t: Moment)
    ensures t.Valid() && t.Seconds() == sec
  {
    var minutes := sec / 60;
    var hours := minutes / 60;
    Moment(DateOf(hours / 24), hours % 24, minutes % 60, sec % 60)
  }

  lemma {:induction false} Remainder(q: nat, n: nat, r: nat)
    requires n == 60 || n == 24
    requires r < n
    ensures (q * n + r) / n == q && (q * n + r) % n == r
  {
  }

  lemma {:induction false} GmtimeOfSeconds(t: Moment)
    requires t.Valid()
    ensures Gmtime(t.Seconds()) == t
  {
    var days := t.date.DayNumber();
    Remainder(days * 24 + t.hour, 60, t.min);
    Remainder((days * 24 + t.hour) * 60 + t.min, 60, t.sec);
    Remainder(days, 24, t.hour);
    DateOfDayNumber(t.date);
  }

  // ---------- Date strings ----------

  const ULM_DATE_STRING_LENGTH := 21

  /** edg_wll_ULMTimevalToDate: YYYYMMDDHHmmss.uuuuuu, or nothing when it does not fit. */
  function TimevalToDate(sec: int, usec: int): Option<string> {
    if sec < 0 || usec < 0 || usec > 999999 then None
    else
      var text := MomentText(Gmtime(sec));
      if |text| != ULM_DATE_STRING_LENGTH - 7 then None
      else Some(text + "." + ZeroPadded(usec, 6))
  }

  // strftime("%Y%m%d%H%M%S")
  function MomentText(t: Moment): string
    requires t.Valid()
  {
    Decimal(t.date.year) + ZeroPadded(t.date.mon, 2) + ZeroPadded(t.date.day, 2)
    + ZeroPadded(t.hour, 2) + ZeroPadded(t.min, 2) + ZeroPadded(t.sec, 2)
  }

  function Dig2(s: string, i: nat): nat
    requires i + 2 <= |s| && IsDigit(s[i]) && IsDigit(s[i + 1])
  {
    DigitValue(s[i]) * 10 + DigitValue(s[i + 1])
  }

  datatype Timeval = Timeval(sec: int, usec: int)

  /** edg_wll_ULMDateToTimeval with edg_wll_ULMSplitDate, on input in the documented format. */
  function DateToTimeval(s: string): Timeval
    requires |s| >= 14 && AllDigits(s[..14])
  {
    Timeval(DigitSeconds(s[..14]), FractionUsec(s[14..]))
  }

  function DigitSeconds(s: string): int
    requires |s| == 14 && AllDigits(s)
  {
    var days := GaussDays(Dig2(s, 0) * 100 + Dig2(s, 2), Dig2(s, 4), Dig2(s, 6));
    MachineSeconds(days, Dig2(s, 8), Dig2(s, 10), Dig2(s, 12))
  }

  // Hours, minutes and seconds in 64-bit unsigned arithmetic, taken as a signed result
  function MachineSeconds(days: nat, hour: nat, min: nat, sec: nat): int {
    ToInt64(U64(U64(U64(days * 24 + hour) * 60 + min) * 60 + sec))
  }

  function FractionUsec(s: string): int {
    if s != "" && s[0] == '.' then StrToL(s[1..]).value else 0
  }

  // ---------- Round trips ----------

  lemma {:induction false} TwoDigits(n: nat)
    requires n < 100
    ensures ZeroPadded(n, 2) == [DigitChar(n / 10), DigitChar(n % 10)]
  {
    if n < 10 {
      assert Decimal(n) == [DigitChar(n)];
    } else {
      assert Decimal(n) == Decimal(n / 10) + [DigitChar(n % 10)];
      assert Decimal(n / 10) == [DigitChar(n / 10)];
    }
  }

  lemma {:induction false} FourDigits(n: nat)
    requires 1000 <= n
    ensures |Decimal(n)| >= 4 && (|Decimal(n)| == 4 <==> n < 10000)
    ensures n < 10000 ==> Decimal(n) == ZeroPadded(n / 100, 2) + ZeroPadded(n % 100, 2)
  {
    DecimalLength(n, 4);
    DecimalLength(n, 3);
    assert Pow10(2) == 100 && Pow10(3) == 10 * Pow10(2) && Pow10(4) == 10 * Pow10(3);
    if n < 10000 {
      TwoDigits(n / 100);
      TwoDigits(n % 100);
      assert Decimal(n) == Decimal(n / 10) + [DigitChar(n % 10)];
      assert Decimal(n / 10) == Decimal(n / 100) + [DigitChar(n / 10 % 10)];
      assert n % 100 / 10 == n / 10 % 10;
    }
  }

  // The fourteen digits and what SplitDate reads from them
  ghost predicate SplitsInto(s: string, t: Moment) {
    && |s| == 14 && AllDigits(s)
    && Dig2(s, 0) * 100 + Dig2(s, 2) == t.date.year && Dig2(s, 4) == t.date.mon && Dig2(s, 6) == t.date.day
    && Dig2(s, 8) == t.hour && Dig2(s, 10) == t.min && Dig2(s, 12) == t.sec
  }

  lemma {:induction false} AllDigitsJoined(a: string, b: string)
    requires AllDigits(a) && AllDigits(b)
    ensures AllDigits(a + b)
  {
  }

  // Seven numbers of two digits each
  function Pairs(a: nat, b: nat, c: nat, d: nat, e: nat, f: nat, g: nat): string {
    ZeroPadded(a, 2) + ZeroPadded(b, 2) + ZeroPadded(c, 2) + ZeroPadded(d, 2) + ZeroPadded(e, 2)
    + ZeroPadded(f, 2) + ZeroPadded(g, 2)
  }

  ghost predicate ReadsAt(s: string, i: nat, n: nat) {
    i + 2 <= |s| && IsDigit(s[i]) && IsDigit(s[i + 1]) && Dig2(s, i) == n
  }

  lemma {:induction false} PairsDigits(a: nat, b: nat, c: nat, d: nat, e: nat, f: nat, g: nat)
    ensures AllDigits(Pairs(a, b, c, d, e, f, g))
  {
    var x := ZeroPadded(a, 2) + ZeroPadded(b, 2);
    AllDigitsJoined(ZeroPadded(a, 2), ZeroPadded(b, 2));
    AllDigitsJoined(x, ZeroPadded(c, 2));
    var y := x + ZeroPadded(c, 2) + ZeroPadded(d, 2);
    AllDigitsJoined(x + ZeroPadded(c, 2), ZeroPadded(d, 2));
    AllDigitsJoined(y, ZeroPadded(e, 2));
    var z := y + ZeroPadded(e, 2) + ZeroPadded(f, 2);
    AllDigitsJoined(y + ZeroPadded(e, 2), ZeroPadded(f, 2));
    AllDigitsJoined(z, ZeroPadded(g, 2));
  }

  // One more number behind the others
  lemma {:induction false} ReadsLast(x: string, n: nat)
    requires n < 100
    ensures |x + ZeroPadded(n, 2)| == |x| + 2 && ReadsAt(x + ZeroPadded(n, 2), |x|, n)
    ensures forall i: nat, m: nat :: ReadsAt(x, i, m) ==> ReadsAt(x + ZeroPadded(n, 2), i, m)
  {
    var s := x + ZeroPadded(n, 2);
    TwoDigits(n);
    assert s[|x|] == ZeroPadded(n, 2)[0] && s[|x| + 1] == ZeroPadded(n, 2)[1];
    forall i: nat, m: nat | ReadsAt(x, i, m) ensures ReadsAt(s, i, m) {
      assert s[i] == x[i] && s[i + 1] == x[i + 1];
    }
  }

  lemma {:induction false} PairsRead(a: nat, b: nat, c: nat, d: nat, e: nat, f: nat, g: nat)
    requires a < 100 && b < 100 && c < 100 && d < 100 && e < 100 && f < 100 && g < 100
    ensures var s := Pairs(a, b, c, d, e, f, g);
      && |s| == 14 && ReadsAt(s, 0, a) && ReadsAt(s, 2, b) && ReadsAt(s, 4, c) && ReadsAt(s, 6, d)
      && ReadsAt(s, 8, e) && ReadsAt(s, 10, f) && ReadsAt(s, 12, g)
  {
    var s1 := ZeroPadded(a, 2);
    ReadsLast("", a);
    assert "" + s1 == s1;
    var s2 := s1 + ZeroPadded(b, 2);
    ReadsLast(s1, b);
    var s3 := s2 + ZeroPadded(c, 2);
    ReadsLast(s2, c);
    var s4 := s3 + ZeroPadded(d, 2);
    ReadsLast(s3, d);
    var s5 := s4 + ZeroPadded(e, 2);
    ReadsLast(s4, e);
    var s6 := s5 + ZeroPadded(f, 2);
    ReadsLast(s5, f);
    ReadsLast(s6, g);
  }

  lemma {:induction false} MomentDigits(t: Moment)
    requires t.Valid() && t.date.year <= 9999
    ensures SplitsInto(MomentText(t), t)
  {
    var y := t.date.year;
    FourDigits(y);
    PairsDigits(y / 100, y % 100, t.date.mon, t.date.day, t.hour, t.min, t.sec);
    PairsRead(y / 100, y % 100, t.date.mon, t.date.day, t.hour, t.min, t.sec);
    assert MomentText(t) == Pairs(y / 100, y % 100, t.date.mon, t.date.day, t.hour, t.min, t.sec);
  }

  lemma {:induction false} DaysBound(y: int)
    requires y >= 1970
    ensures DaysBeforeYear(y) <= 366 * (y - 1970)
    decreases y
  {
    if y > 1970 {
      DaysBound(y - 1);
    }
  }

  lemma {:induction false} SecondsDoNotWrap(t: Moment)
    requires t.Valid() && t.date.year <= 9999
    ensures MachineSeconds(GaussDays(t.date.year, t.date.mon, t.date.day), t.hour, t.min, t.sec) == t.Seconds()
  {
    GaussCountsDays(t.date);
    DayBound(t.date);
    SmallSeconds(t.date.DayNumber(), t.hour, t.min, t.sec);
  }

  lemma {:induction false} DayBound(d: Date)
    requires d.Valid() && d.year <= 9999
    ensures d.DayNumber() <= 366 * 8030
  {
    DaysBound(d.year);
    MonthsFillYear(d.year, d.mon);
  }

  lemma {:induction false} SmallSeconds(days: nat, h: nat, m: nat, s: nat)
    requires days <= 366 * 8030 && h < 24 && m < 60 && s < 60
    ensures MachineSeconds(days, h, m, s) == ((days * 24 + h) * 60 + m) * 60 + s
  {
    assert U64(days * 24 + h) == days * 24 + h;
    assert U64((days * 24 + h) * 60 + m) == (days * 24 + h) * 60 + m;
    assert U64(((days * 24 + h) * 60 + m) * 60 + s) == ((days * 24 + h) * 60 + m) * 60 + s;
  }

  // What follows the fourteen digits
  function Fraction(usec: nat): string {
    "." + ZeroPadded(usec, 6)
  }

  lemma {:induction false} ReadFraction(usec: nat)
    requires usec <= 999999
    ensures FractionUsec(Fraction(usec)) == usec
  {
    assert Fraction(usec)[1..] == ZeroPadded(usec, 6);
    NumberOfPadded(usec, 6);
    ScanDigits(ZeroPadded(usec, 6));
  }

  lemma {:induction false} ReadDigits(t: Moment, s: string)
    requires t.Valid() && t.date.year <= 9999 && SplitsInto(s, t)
    ensures DigitSeconds(s) == t.Seconds()
  {
    SecondsDoNotWrap(t);
  }

  lemma {:induction false} ReadDate(t: Moment, s: string, usec: nat)
    requires t.Valid() && t.date.year <= 9999 && usec <= 999999 && SplitsInto(s, t)
    ensures var d := s + Fraction(usec);
            d[..14] == s && DateToTimeval(d) == Timeval(t.Seconds(), usec)
  {
    var d := s + Fraction(usec);
    assert d[..14] == s && d[14..] == Fraction(usec);
    ReadDigits(t, s);
    ReadFraction(usec);
  }

  lemma {:induction false} TextLength(t: Moment)
    requires t.Valid()
    ensures |MomentText(t)| == 14 <==> t.date.year <= 9999
  {
    FourDigits(t.date.year);
    TwoDigits(t.date.mon); TwoDigits(t.date.day); TwoDigits(t.hour); TwoDigits(t.min); TwoDigits(t.sec);
  }

  // A moment is before a day exactly when its date is
  lemma {:induction false} BeforeMidnight(t: Moment, d: Date)
    requires t.Valid() && d.Valid()
    ensures t.date.Before(d) <==> t.Seconds() < Moment(d, 0, 0, 0).Seconds()
  {
    if t.date.Before(d) {
      DayNumberIncreases(t.date, d);
    } else if t.date != d {
      DayNumberIncreases(d, t.date);
    }
  }

  /** Exactly the moments up to the end of year 9999 have a date string. */
  lemma {:induction false} WhenPrintable(sec: int, usec: int)
    ensures TimevalToDate(sec, usec).Some? <==>
            0 <= sec < Moment(Date(10000, 1, 1), 0, 0, 0).Seconds() && 0 <= usec <= 999999
  {
    if sec >= 0 {
      var t := Gmtime(sec);
      TextLength(t);
      BeforeMidnight(t, Date(10000, 1, 1));
    }
  }

  /** Converting a moment to a date string and back gives the same moment. */
  lemma {:induction false} TimevalSurvives(sec: int, usec: int)
    requires TimevalToDate(sec, usec).Some?
    ensures var d := TimevalToDate(sec, usec).value;
            |d| == ULM_DATE_STRING_LENGTH && AllDigits(d[..14]) && DateToTimeval(d) == Timeval(sec, usec)
  {
    var t := Gmtime(sec);
    TextLength(t);
    MomentDigits(t);
    ReadDate(t, MomentText(t), usec);
    Assoc(MomentText(t), ".", ZeroPadded(usec, 6));
    SixDigits(usec);
  }

  lemma {:induction false} SixDigits(n: nat)
    requires n <= 999999
    ensures |ZeroPadded(n, 6)| == 6
  {
    DecimalLength(n, 6);
    assert Pow10(3) == 1000 && Pow10(6) == 1000 * Pow10(3);
  }

  /** A date string of a real moment, converted to seconds and back, gives the same string. */
  lemma {:induction false} DateSurvives(t: Moment, usec: nat)
    requires t.Valid() && t.date.year <= 9999 && usec <= 999999
    ensures var d := MomentText(t) + Fraction(usec);
            && |d| >= 14 && AllDigits(d[..14])
            && var tv := DateToTimeval(d); TimevalToDate(tv.sec, tv.usec) == Some(d)
  {
    MomentDigits(t);
    ReadDate(t, MomentText(t), usec);
    GmtimeOfSeconds(t);
    Assoc(MomentText(t), ".", ZeroPadded(usec, 6));
  }

  /** The layout of date strings: four digits of the year, then month, day, hour, minute and second in
      two digits each, and six digits of microseconds behind a point. */
  lemma {:induction false} DateLayout(t: Moment, usec: nat)
    requires t.Valid() && t.date.year <= 9999 && usec <= 999999
    ensures TimevalToDate(t.Seconds(), usec)
         == Some(Decimal(t.date.year) + ZeroPadded(t.date.mon, 2) + ZeroPadded(t.date.day, 2)
                 + ZeroPadded(t.hour, 2) + ZeroPadded(t.min, 2) + ZeroPadded(t.sec, 2)
                 + "." + ZeroPadded(usec, 6))
  {
    GmtimeOfSeconds(t);
    TextLength(t);
  }

  /** A known moment: one thousand million seconds after the epoch. */
  lemma {:induction false} KnownMoment()
    ensures TimevalToDate(1000000000, 7) == Some("2001" + "09" + "09" + "01" + "46" + "40" + "." + "000007")
  {
    KnownSeconds();
    KnownDigits();
    DateLayout(Moment(Date(2001, 9, 9), 1, 46, 40), 7);
  }

  lemma {:induction false} KnownSeconds()
    ensures var t := Moment(Date(2001, 9, 9), 1, 46, 40); t.Valid() && t.Seconds() == 1000000000
  {
    KnownDay();
  }

  lemma {:induction false} KnownDay()
    ensures Date(2001, 9, 9).Valid() && Date(2001, 9, 9).DayNumber() == 11574
  {
    KnownGauss();
    GaussFromEpoch(Date(2001, 9, 9));
  }

  lemma {:induction false} KnownGauss()
    ensures Gauss(2001, 9, 9) == 11574
  {
  }

  lemma {:induction false} KnownDigits()
    ensures Decimal(2001) == "2001" && ZeroPadded(9, 2) == "09" && ZeroPadded(1, 2) == "01"
    ensures ZeroPadded(46, 2) == "46" && ZeroPadded(40, 2) == "40" && ZeroPadded(7, 6) == "000007"
  {
    FourDigits(2001);
    TwoDigits(20); TwoDigits(1); TwoDigits(9); TwoDigits(46); TwoDigits(40);
    assert Decimal(7) == "7";
  }

  /** Without a point behind the digits there are no microseconds. */
  lemma {:induction false} NoFraction(d: string, rest: string)
    requires |d| == 14 && AllDigits(d) && (rest == "" || rest[0] != '.')
    ensures (d + rest)[..14] == d && DateToTimeval(d + rest) == Timeval(DigitSeconds(d), 0)
  {
    assert (d + rest)[..14] == d && (d + rest)[14..] == rest;
  }

  // ---------- Before the epoch ----------

  // A small integer as 64 bits
  function Unsigned(x: int): int {
    if x < 0 then x + 0x1_0000_0000_0000_0000 else x
  }

  predicate Small(x: int) {
    -0x1_0000_0000_0000 < x < 0x1_0000_0000_0000
  }

  lemma {:induction false} SmallWraps(x: int)
    requires Small(x)
    ensures U64(x) == Unsigned(x) && ToInt64(Unsigned(x)) == x
  {
  }

  lemma {:induction false} WrapsOff(x: int, k: nat)
    requires Small(x) && k <= 60
    ensures U64(Unsigned(x) + k * 0x1_0000_0000_0000_0000) == Unsigned(x)
    decreases k
  {
    if k > 0 {
      WrapsOff(x, k - 1);
    }
  }

  lemma {:induction false} HoursWrap(x: int, h: nat)
    requires -0x1_0000_0000 < x < 0x1_0000_0000 && h < 24
    ensures U64(Unsigned(x) * 24 + h) == Unsigned(x * 24 + h)
  {
    WrapsOff(x * 24 + h, if x < 0 then 23 else 0);
  }

  lemma {:induction false} SixtiesWrap(x: int, m: nat)
    requires -0x400_0000_0000 < x < 0x400_0000_0000 && m < 60
    ensures U64(Unsigned(x) * 60 + m) == Unsigned(x * 60 + m)
  {
    WrapsOff(x * 60 + m, if x < 0 then 59 else 0);
  }

  lemma {:induction false} SmallYears(y: int, m: int, day: int)
    requires 0 <= y <= 9999 && 1 <= m <= 12 && 1 <= day <= 31
    ensures 0 <= Leaps(y) <= 2500 && 0 <= 367 * m / 12 <= 367 && 0 <= y * 365 <= 3649635
  {
  }

  lemma {:induction false} SumWraps(y: nat, m: nat, day: nat)
    requires y <= 9999 && 1 <= m <= 12 && 1 <= day <= 31
    ensures MachineSum(y, m, day) == U64(Leaps(y) + 367 * m / 12 + day + y * 365 - 719499)
  {
    SmallYears(y, m, day);
    assert U32(367 * m) == 367 * m;
    assert U32(Leaps(y) + 367 * m / 12 + day) == Leaps(y) + 367 * m / 12 + day;
    assert U32(y * 365) == y * 365;
  }

  // The formula wraps below the epoch, and only at 64 bits
  lemma {:induction false} GaussWraps(year: nat, mon: nat, day: nat)
    requires 1 <= year <= 9999 && 1 <= mon <= 12 && 1 <= day <= 31
    ensures GaussDays(year, mon, day) == U64(Gauss(year, mon, day))
    ensures -719499 <= Gauss(year, mon, day) <= 3650000
  {
    var y := if mon <= 2 then year - 1 else year;
    ShiftedMonth(mon);
    assert U32(year - 1) == year - 1;
    SmallYears(y, FromMarch(mon), day);
    SumWraps(y, FromMarch(mon), day);
  }

  lemma {:induction false} WrappedSeconds(g: int, h: nat, m: nat, s: nat)
    requires -719499 <= g <= 3650000 && h < 24 && m < 60 && s < 60
    ensures Unsigned(g) >= 0 && MachineSeconds(Unsigned(g), h, m, s) == ((g * 24 + h) * 60 + m) * 60 + s
  {
    HoursWrap(g, h);
    SixtiesWrap(g * 24 + h, m);
    SixtiesWrap((g * 24 + h) * 60 + m, s);
    SmallWraps(((g * 24 + h) * 60 + m) * 60 + s);
  }

  /** For all years from 1 on, the machine computes the formula on signed integers: moments before the
      epoch come out negative. */
  lemma {:induction false} SecondsBeforeEpoch(year: nat, mon: nat, day: nat, h: nat, m: nat, s: nat)
    requires 1 <= year <= 9999 && 1 <= mon <= 12 && 1 <= day <= 31 && h < 24 && m < 60 && s < 60
    ensures MachineSeconds(GaussDays(year, mon, day), h, m, s)
         == ((Gauss(year, mon, day) * 24 + h) * 60 + m) * 60 + s
  {
    var g := Gauss(year, mon, day);
    GaussWraps(year, mon, day);
    SmallWraps(g);
    WrappedSeconds(g, h, m, s);
  }

  /** The last second before the epoch. */
  lemma {:induction false} LastSecondBefore()
    ensures MachineSeconds(GaussDays(1969, 12, 31), 23, 59, 59) == -1
  {
    SecondsBeforeEpoch(1969, 12, 31, 23, 59, 59);
    assert Gauss(1969, 12, 31) == -1;
  }
}
