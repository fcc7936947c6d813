/** The text of sequence codes (context-int.h, context.c): labelled counters with zero padding,
    printed by one format, scanned by another, and compared as strings. */
module SeqText {
  import opened CText

  /** unsigned int. */
  type Counter = v: int | 0 <= v < UINT

  /** A label, with its separating colon, and the width of the padded number behind it. */
  datatype Field = Field(tag: string, width: nat)

  predicate ProperField(f: Field) {
    f.tag != "" && !IsDigit(f.tag[0]) && f.width > 0
  }

  predicate Proper(fields: seq<Field>) {
    fields == [] || (ProperField(fields[0]) && Proper(fields[1..]))
  }

  lemma {:induction false} ProperAll(fields: seq<Field>)
    requires forall i :: 0 <= i < |fields| ==> ProperField(fields[i])
    ensures Proper(fields)
  {
    if fields != [] {
      ProperAll(fields[1..]);
    }
  }

  // ---------- printf and sscanf ----------

  /** printf("%0<width>d"); the sign counts towards the width. */
  function PaddedInt(n: int, width: nat): (s: string)
    ensures s != ""
  {
    if n < 0 then "-" + ZeroPadded(-n, if width > 0 then width - 1 else 0) else ZeroPadded(n, width)
  }

  /** An unsigned counter passes to printf as an int. */
  function Padded(v: Counter, width: nat): (s: string)
    ensures s != ""
  {
    PaddedInt(ToInt32(v), width)
  }

  function Print(fields: seq<Field>, values: seq<Counter>): string
    requires |values| == |fields|
  {
    if fields == [] then ""
    else fields[0].tag + (Padded(values[0], fields[0].width) + Print(fields[1..], values[1..]))
  }

  // The code from its k-th field on
  lemma {:induction false} PrintFrom(fields: seq<Field>, values: seq<Counter>, k: nat)
    requires |values| == |fields| && k <= |fields|
    ensures Print(fields[k..], values[k..])
         == if k == |fields| then ""
            else fields[k].tag + (Padded(values[k], fields[k].width) + Print(fields[k + 1..], values[k + 1..]))
  {
    if k < |fields| {
      assert fields[k..][1..] == fields[k + 1..] && values[k..][1..] == values[k + 1..];
    }
  }

  /** What padding looks like: zeros up to the width, behind the sign if there is one. */
  lemma {:induction false} PaddedExamples()
    ensures Padded(5, 6) == "000005" && Padded(UINT - 5, 6) == "-00005" && Padded(1234567, 6) == Decimal(1234567)
  {
    IntOf(5);
    IntOf(UINT - 5);
    IntOf(1234567);
    assert Decimal(5) == "5";
    assert Pow10(3) == 1000 && Pow10(6) == 1000 * Pow10(3);
    DecimalLength(1234567, 6);
  }

  /** The numbers that sscanf assigns before the first mismatch. */
  function Scanned(fields: seq<Field>, s: string): (values: seq<Counter>)
    ensures |values| <= |fields|
  {
    if fields == [] || !(fields[0].tag <= s) then []
    else
      var t := s[|fields[0].tag|..];
      var n := StrToL(t);
      if n.end == 0 then [] else [n.value % UINT] + Scanned(fields[1..], t[n.end..])
  }

  lemma {:induction false} ScanPositive(d: string, t: string)
    requires AllDigits(d) && d != "" && (t != "" ==> !IsDigit(t[0])) && Number(d) <= LONG_MAX
    ensures StrToL(d + t) == Scan(Number(d), |d|)
  {
    assert (d + t)[0..|d|] == d;
    ScanAt(d + t, 0, 0, |d|, Number(d));
  }

  lemma {:induction false} ScanNegative(d: string, t: string)
    requires AllDigits(d) && d != "" && (t != "" ==> !IsDigit(t[0])) && Number(d) <= LONG_MAX
    ensures StrToL("-" + d + t) == Scan(-(Number(d) as int), 1 + |d|)
  {
    var s := "-" + d + t;
    assert s[1..1 + |d|] == d;
    ScanAt(s, 0, 1, 1 + |d|, Number(d));
  }

  lemma {:induction false} Unsigned(v: Counter)
    ensures ToInt32(v) % UINT == v
  {
    IntOf(v);
  }

  // Any int is scanned as printed, also a negative one
  lemma {:induction false} ScanPadded(n: int, width: nat, t: string)
    requires (t != "" ==> !IsDigit(t[0])) && -LONG_MAX <= n <= LONG_MAX
    ensures StrToL(PaddedInt(n, width) + t) == Scan(n, |PaddedInt(n, width)|)
  {
    if n < 0 {
      var w := if width > 0 then width - 1 else 0;
      NumberOfPadded(-n, w);
      ScanNegative(ZeroPadded(-n, w), t);
    } else {
      NumberOfPadded(n, width);
      ScanPositive(ZeroPadded(n, width), t);
    }
  }

  lemma {:induction false} AfterLabel(l: string, p: string, t: string)
    ensures l <= l + (p + t) && (l + (p + t))[|l|..] == p + t && (p + t)[|p|..] == t
  {
  }

  lemma {:induction false} PrintStart(fields: seq<Field>, values: seq<Counter>)
    requires |values| == |fields| && Proper(fields)
    ensures fields == [] <==> Print(fields, values) == ""
    ensures fields != [] ==> !IsDigit(Print(fields, values)[0])
  {
  }

  // One step of sscanf over one printed field
  lemma {:induction false} ScanOne(f: Field, rest: seq<Field>, v: Counter, t: string)
    requires t != "" ==> !IsDigit(t[0])
    ensures Scanned([f] + rest, f.tag + (Padded(v, f.width) + t)) == [v] + Scanned(rest, t)
  {
    AfterLabel(f.tag, Padded(v, f.width), t);
    ScanPadded(ToInt32(v), f.width, t);
    Unsigned(v);
    assert ([f] + rest)[1..] == rest;
  }

  lemma {:induction false} HeadTail<T>(a: seq<T>, b: seq<T>)
    requires a != []
    ensures a + b == [a[0]] + (a[1..] + b) && a == [a[0]] + a[1..]
  {
  }

  lemma {:induction false} NothingScanned(more: seq<Field>)
    requires Proper(more)
    ensures Scanned(more, "") == []
  {
  }

  /** Scanning with at least the printed fields gives exactly the printed numbers. */
  lemma {:induction false} ScanBack(fields: seq<Field>, more: seq<Field>, values: seq<Counter>)
    requires |values| == |fields| && Proper(fields) && Proper(more)
    ensures Scanned(fields + more, Print(fields, values)) == values
  {
    if fields == [] {
      assert fields + more == more;
      NothingScanned(more);
    } else {
      ScanBack(fields[1..], more, values[1..]);
      ScanBackStep(fields, more, values);
      HeadTail(values, []);
    }
  }

  lemma {:induction false} ScanBackStep(fields: seq<Field>, more: seq<Field>, values: seq<Counter>)
    requires |values| == |fields| > 0 && Proper(fields[1..])
    ensures Scanned(fields + more, Print(fields, values))
         == [values[0]] + Scanned(fields[1..] + more, Print(fields[1..], values[1..]))
  {
    var t := Print(fields[1..], values[1..]);
    HeadTail(fields, more);
    PrintStart(fields[1..], values[1..]);
    ScanOne(fields[0], fields[1..] + more, values[0], t);
  }

  // ---------- Order ----------

  /** strcmp(a, b) < 0. */
  predicate Less(a: string, b: string) {
    b != "" && (a == "" || a[0] < b[0] || (a[0] == b[0] && Less(a[1..], b[1..])))
  }

  /** The lexicographic order of counters. */
  predicate TupleLess(a: seq<Counter>, b: seq<Counter>) {
    b != [] && (a == [] || a[0] < b[0] || (a[0] == b[0] && TupleLess(a[1..], b[1..])))
  }

  lemma {:induction false} LessPrefix(p: string, a: string, b: string)
    ensures Less(p + a, p + b) <==> Less(a, b)
  {
    if p == "" {
      assert p + a == a && p + b == b;
    } else {
      assert (p + a)[1..] == p[1..] + a && (p + b)[1..] == p[1..] + b;
      LessPrefix(p[1..], a, b);
    }
  }

  // Texts of equal length decide before what follows them
  lemma {:induction false} LessSameLength(x: string, y: string, a: string, b: string)
    requires |x| == |y| && x != y
    ensures Less(x + a, y + b) <==> Less(x, y)
  {
    assert (x + a)[1..] == x[1..] + a && (y + b)[1..] == y[1..] + b;
    if x[0] == y[0] {
      assert x == [x[0]] + x[1..] && y == [y[0]] + y[1..];
      LessSameLength(x[1..], y[1..], a, b);
    }
  }

  lemma {:induction false} LessIrreflexive(x: string)
    ensures !Less(x, x)
  {
    if x != "" {
      LessIrreflexive(x[1..]);
    }
  }

  /** Digit strings of equal length are ordered as their numbers. */
  lemma {:induction false} LessIsNumeric(x: string, y: string)
    requires AllDigits(x) && AllDigits(y) && |x| == |y|
    ensures Less(x, y) <==> Number(x) < Number(y)
    ensures x == y <==> Number(x) == Number(y)
  {
    if x != "" {
      var n := |x| - 1;
      var x', y' := x[..n], y[..n];
      LessIsNumeric(x', y');
      assert x == x' + [x[n]] && y == y' + [y[n]];
      if x' == y' {
        LessPrefix(x', [x[n]], [y[n]]);
      } else {
        LessSameLength(x', y', [x[n]], [y[n]]);
      }
    }
  }

  /** Every counter prints in exactly its width. */
  predicate Fits(fields: seq<Field>, values: seq<Counter>) {
    |values| == |fields| && forall i :: 0 <= i < |fields| ==> FitsWidth(values[i], fields[i].width)
  }

  predicate FitsWidth(v: Counter, width: nat) {
    v <= INT_MAX && v < Pow10(width)
  }

  lemma {:induction false} FittingPrint(v: Counter, width: nat)
    requires FitsWidth(v, width) && width > 0
    ensures Padded(v, width) == ZeroPadded(v, width) && |Padded(v, width)| == width
    ensures Number(Padded(v, width)) == v
  {
    DecimalLength(v, width);
    NumberOfPadded(v, width);
  }

  /** While counters fit their widths, codes are ordered as strings exactly as their tuples are. */
  lemma {:induction false} StringOrderIsTupleOrder(fields: seq<Field>, a: seq<Counter>, b: seq<Counter>)
    requires Proper(fields) && Fits(fields, a) && Fits(fields, b)
    ensures Less(Print(fields, a), Print(fields, b)) <==> TupleLess(a, b)
  {
    if fields != [] {
      var l, w := fields[0].tag, fields[0].width;
      var x, y := Padded(a[0], w), Padded(b[0], w);
      var s, t := Print(fields[1..], a[1..]), Print(fields[1..], b[1..]);
      FittingPrint(a[0], w);
      FittingPrint(b[0], w);
      LessPrefix(l, x + s, y + t);
      LessIsNumeric(x, y);
      if a[0] == b[0] {
        LessPrefix(x, s, t);
        StringOrderIsTupleOrder(fields[1..], a[1..], b[1..]);
      } else {
        LessSameLength(x, y, s, t);
      }
    }
  }

  // ---------- One more event ----------

  predicate IsPowerOf10(n: nat) {
    n == 1 || (n > 1 && n % 10 == 0 && IsPowerOf10(n / 10))
  }

  /** Counting on does not make the printed number longer than its width by one digit. */
  predicate Grows(v: nat, width: nat) {
    v + 1 < Pow10(width) || !IsPowerOf10(v + 1)
  }

  lemma {:induction false} PowerIsPower(k: nat)
    ensures IsPowerOf10(Pow10(k))
  {
    if k > 0 {
      PowerIsPower(k - 1);
    }
  }

  lemma {:induction false} Exponent(n: nat) returns (k: nat)
    requires IsPowerOf10(n)
    ensures Pow10(k) == n
  {
    if n == 1 {
      k := 0;
    } else {
      k := Exponent(n / 10);
      k := k + 1;
    }
  }

  lemma {:induction false} PowerDigits(k: nat)
    requires k > 0
    ensures Pow10(k) >= 10 && Decimal(Pow10(k))[0] == '1' && Decimal(Pow10(k) - 1)[0] == '9'
    ensures |Decimal(Pow10(k))| == k + 1 && |Decimal(Pow10(k) - 1)| == k
  {
    var p := Pow10(k - 1);
    assert Pow10(k) == 10 * p;
    if k > 1 {
      PowerDigits(k - 1);
      assert (10 * p - 1) / 10 == p - 1;
    } else {
      assert Decimal(10) == Decimal(1) + [DigitChar(0)];
    }
  }

  // A power of ten takes one digit more than its predecessor; other numbers do not
  lemma {:induction false} OneMoreDigit(v: nat)
    requires v > 0
    ensures |Decimal(v)| == |Decimal(v + 1)| || IsPowerOf10(v + 1)
  {
    var k := |Decimal(v)|;
    DecimalLength(v, k);
    DecimalLength(v + 1, k);
    if v + 1 < Pow10(k) {
      if |Decimal(v + 1)| < k {
        DecimalLength(v, |Decimal(v + 1)|);
        DecimalLength(v + 1, |Decimal(v + 1)|);
        assert false;
      }
    } else {
      PowerIsPower(k);
    }
  }

  // The first difference of two texts is where neither has ended
  predicate Apart(x: string, y: string) {
    x != "" && y != "" && (x[0] != y[0] || (|x| == |y| && x != y))
  }

  // What follows such texts does not change their comparison
  lemma {:induction false} DecidedEarly(x: string, y: string, s: string)
    requires Apart(x, y)
    ensures Less(x + s, y + s) <==> Less(x, y)
  {
    if x[0] == y[0] {
      LessSameLength(x, y, s, s);
    } else {
      assert (x + s)[0] == x[0] && (y + s)[0] == y[0];
    }
  }

  lemma {:induction false} DigitsOutgrow(n: nat, width: nat, k: nat)
    requires (n > 0 || width > 0) && Pow10(width) <= n + 1 == Pow10(k)
    ensures ZeroPadded(n, width)[0] == '9' && ZeroPadded(n + 1, width)[0] == '1'
  {
    assert k > 0 by { assert width > 0 ==> Pow10(width) == 10 * Pow10(width - 1); }
    PowerDigits(k);
    if width > 0 {
      DecimalLength(n + 1, width);
    }
  }

  /** The digits of the next number are greater as a string, except where they outgrow the width by
      one; then they are smaller. */
  lemma {:induction false} DigitStep(n: nat, width: nat)
    requires n > 0 || width > 0
    ensures var x, y := ZeroPadded(n, width), ZeroPadded(n + 1, width);
      Apart(x, y) && Apart(y, x) && (Less(x, y) <==> Grows(n, width)) && (Less(y, x) <==> !Grows(n, width))
  {
    var x, y := ZeroPadded(n, width), ZeroPadded(n + 1, width);
    if Grows(n, width) {
      SameWidth(n, width);
      NumberOfPadded(n, width);
      NumberOfPadded(n + 1, width);
      LessIsNumeric(x, y);
      LessIsNumeric(y, x);
    } else {
      var k := Exponent(n + 1);
      DigitsOutgrow(n, width, k);
    }
  }

  lemma {:induction false} SameWidth(v: nat, width: nat)
    requires (v > 0 || width > 0) && Grows(v, width)
    ensures |ZeroPadded(v, width)| == |ZeroPadded(v + 1, width)|
  {
    if v + 1 >= Pow10(width) {
      assert width > 0 ==> Pow10(width) == 10 * Pow10(width - 1);
      OneMoreDigit(v);
    } else {
      DecimalLength(v, width);
      DecimalLength(v + 1, width);
    }
  }

  /** unsigned ++. */
  function Next(v: Counter): Counter {
    if v == UINT - 1 then 0 else v + 1
  }

  /** When the printed counter grows as a string: below INT_MAX unless it outgrows its width; never
      where the int turns negative; while it is negative, towards zero, only where it loses a digit
      beyond its width; and where it becomes zero. */
  predicate PrintGrows(v: Counter, width: nat)
    requires width > 0
  {
    || (v < INT_MAX && Grows(v, width))
    || v == UINT - 1
    || (INT_MAX < v < UINT - 1 && IsPowerOf10(UINT - v) && UINT - v >= Pow10(width - 1))
  }

  lemma {:induction false} IntOf(v: Counter)
    ensures ToInt32(v) == if v <= INT_MAX then v else v - UINT
  {
  }

  /** One more event makes a padded counter greater as a string exactly as PrintGrows says, and what
      follows the counter in the code does not change that. */
  lemma {:induction false} StepOrder(v: Counter, width: nat, s: string)
    requires width > 0
    ensures Less(Padded(v, width), Padded(Next(v), width)) <==> PrintGrows(v, width)
    ensures Less(Padded(v, width) + s, Padded(Next(v), width) + s) <==> PrintGrows(v, width)
  {
    IntOf(v);
    IntOf(Next(v));
    if v < INT_MAX {
      DigitStep(v, width);
      DecidedEarly(ZeroPadded(v, width), ZeroPadded(v + 1, width), s);
    } else if v == INT_MAX || v == UINT - 1 {
      SignChanges(v, width);
      DecidedEarly(Padded(v, width), Padded(Next(v), width), s);
    } else {
      NegativeStep(UINT - v - 1, width, s);
    }
  }

  // From the greatest int to the least, and from -1 to 0
  lemma {:induction false} SignChanges(v: Counter, width: nat)
    requires width > 0 && (v == INT_MAX || v == UINT - 1)
    ensures Apart(Padded(v, width), Padded(Next(v), width))
    ensures Less(Padded(v, width), Padded(Next(v), width)) <==> v == UINT - 1
  {
    IntOf(v);
    IntOf(Next(v));
    var x, y := Padded(v, width), Padded(Next(v), width);
    if v == INT_MAX {
      assert IsDigit(x[0]) && y[0] == '-';
    } else {
      assert x[0] == '-' && IsDigit(y[0]);
    }
  }

  // From -(n + 1) to -n
  lemma {:induction false} NegativeStep(n: int, width: nat, s: string)
    requires width > 0 && n > 0
    ensures var x, y := PaddedInt(-n - 1, width), PaddedInt(-n, width);
      && (Less(x, y) <==> !Grows(n, width - 1))
      && (Less(x + s, y + s) <==> !Grows(n, width - 1))
  {
    var a, b := ZeroPadded(n + 1, width - 1), ZeroPadded(n, width - 1);
    DigitStep(n, width - 1);
    DecidedEarly(a, b, s);
    LessPrefix("-", a, b);
    LessPrefix("-", a + s, b + s);
    Assoc("-", a, s);
    Assoc("-", b, s);
  }

  /** Both kinds of failure, at concrete counters: the width is outgrown, and the int turns negative. */
  lemma {:induction false} StepsDown()
    ensures !Less(Padded(999999, 6), Padded(1000000, 6))
    ensures !Less(Padded(INT_MAX, 6), Padded(INT_MAX + 1, 6))
  {
    StepOrder(999999, 6, "");
    StepOrder(INT_MAX, 6, "");
    assert Pow10(3) == 1000 && Pow10(6) == 1000 * Pow10(3);
    PowerIsPower(6);
  }

  /** One more event makes the whole code greater as a string exactly when its counter does so. */
  lemma {:induction false} CodeStep(fields: seq<Field>, a: seq<Counter>, b: seq<Counter>, i: nat)
    requires |a| == |b| == |fields| && Proper(fields) && i < |fields|
    requires b[i] == Next(a[i]) && a[..i] == b[..i] && a[i + 1..] == b[i + 1..]
    ensures fields[i].width > 0 && (Less(Print(fields, a), Print(fields, b)) <==> PrintGrows(a[i], fields[i].width))
  {
    if i == 0 {
      CodeStepHead(fields, a, b);
    } else {
      assert a[0] == a[..i][0] == b[..i][0] == b[0];
      SameHead(fields, a, b);
      Tails(a, b, i);
      CodeStep(fields[1..], a[1..], b[1..], i - 1);
    }
  }

  lemma {:induction false} Tails(a: seq<Counter>, b: seq<Counter>, i: nat)
    requires 0 < i < |a| == |b| && a[..i] == b[..i] && a[i + 1..] == b[i + 1..]
    ensures a[1..][..i - 1] == b[1..][..i - 1] && a[1..][i..] == b[1..][i..]
  {
    assert a[1..][..i - 1] == a[..i][1..] && b[1..][..i - 1] == b[..i][1..];
    assert a[1..][i..] == a[i + 1..] && b[1..][i..] == b[i + 1..];
  }

  lemma {:induction false} SameHead(fields: seq<Field>, a: seq<Counter>, b: seq<Counter>)
    requires |a| == |b| == |fields| > 0 && a[0] == b[0]
    ensures Less(Print(fields, a), Print(fields, b)) <==> Less(Print(fields[1..], a[1..]), Print(fields[1..], b[1..]))
  {
    var p := Padded(a[0], fields[0].width);
    var s, t := Print(fields[1..], a[1..]), Print(fields[1..], b[1..]);
    LessPrefix(fields[0].tag, p + s, p + t);
    LessPrefix(p, s, t);
  }

  lemma {:induction false} CodeStepHead(fields: seq<Field>, a: seq<Counter>, b: seq<Counter>)
    requires |a| == |b| == |fields| > 0 && fields[0].width > 0
    requires b[0] == Next(a[0]) && a[1..] == b[1..]
    ensures Less(Print(fields, a), Print(fields, b)) <==> PrintGrows(a[0], fields[0].width)
  {
    var w := fields[0].width;
    var s := Print(fields[1..], a[1..]);
    LessPrefix(fields[0].tag, Padded(a[0], w) + s, Padded(b[0], w) + s);
    StepOrder(a[0], w, s);
  }
}
