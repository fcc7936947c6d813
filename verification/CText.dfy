/** C library text conventions shared by the modelled files.

    A byte is a Dafny character and a C buffer is a string or an `array<char>`.
    Character classes are those of the C locale.
  */
module CText {

  datatype Option<+T> = None | Some(value: T)

  const NUL := '\0'
  const CR := '\r'
  const LF := '\n'
  const CRLF: string := "\r\n"

  const INT_MAX := 0x7fff_ffff
  const UINT := 0x1_0000_0000
  const LONG_MAX := 0x7fff_ffff_ffff_ffff

  /** The size of an I/O buffer. */
  const BUFSIZ := 8192

  // Error numbers
  const EAGAIN := 11
  const EINVAL := 22
  const EPIPE := 32
  const ECONNRESET := 104
  const ENOTCONN := 107

  predicate IsDigit(c: char) {
    '0' <= c <= '9'
  }

  predicate IsAlnum(c: char) {
    IsDigit(c) || 'a' <= c <= 'z' || 'A' <= c <= 'Z'
  }

  predicate IsBlank(c: char) {
    c == ' ' || c == '\t'
  }

  // isspace(): blank, line feed, vertical tab, form feed, carriage return
  predicate IsSpace(c: char) {
    IsBlank(c) || c == '\n' || c == '\U{0b}' || c == '\U{0c}' || c == '\r'
  }

  const DIGITS: string := "0123456789"
  const UPPER: string := "ABCDEFGHIJKLM" + "NOPQRSTUVWXYZ"
  const LOWER: string := "abcdefghijklm" + "nopqrstuvwxyz"

  /** The character classes, letter by letter. */
  lemma {:induction false} ClassesAre(c: char)
    ensures IsDigit(c) <==> c in DIGITS
    ensures IsAlnum(c) <==> c in UPPER + LOWER + DIGITS
    ensures IsBlank(c) <==> c in " \t"
    ensures IsSpace(c) <==> c in " \t\n\U{0b}\U{0c}\r"
  {
    UpperAre(c);
    LowerAre(c);
    DigitsAre(c);
  }

  lemma {:induction false} DigitsAre(c: char)
    ensures IsDigit(c) <==> c in DIGITS
  {
    if IsDigit(c) {
      assert c == DIGITS[c as int - '0' as int];
    }
  }

  lemma {:induction false} UpperAre(c: char)
    ensures 'A' <= c <= 'Z' <==> c in UPPER
  {
    if 'A' <= c <= 'M' {
      assert c == "ABCDEFGHIJKLM"[c as int - 'A' as int];
    } else if 'N' <= c <= 'Z' {
      assert c == "NOPQRSTUVWXYZ"[c as int - 'N' as int];
    }
  }

  lemma {:induction false} LowerAre(c: char)
    ensures 'a' <= c <= 'z' <==> c in LOWER
  {
    if 'a' <= c <= 'm' {
      assert c == "abcdefghijklm"[c as int - 'a' as int];
    } else if 'n' <= c <= 'z' {
      assert c == "nopqrstuvwxyz"[c as int - 'n' as int];
    }
  }

  function ToLower(c: char): char {
    if 'A' <= c <= 'Z' then c + 'a' - 'A' else c
  }

  /** Position of the first `c` at or after `from`, or the length when there is none. */
  function IndexFrom(s: string, c: char, from: nat): (k: nat)
    requires from <= |s|
    ensures from <= k <= |s|
    ensures forall i :: from <= i < k ==> s[i] != c
    ensures k < |s| ==> s[k] == c
    decreases |s| - from
  {
    if from == |s| || s[from] == c then from else IndexFrom(s, c, from + 1)
  }

  /** strchr, memchr. */
  function IndexOf(s: string, c: char): (k: nat)
    ensures k <= |s|
    ensures forall i :: 0 <= i < k ==> s[i] != c
    ensures k < |s| ==> s[k] == c
  {
    IndexFrom(s, c, 0)
  }

  /** The first position is the only one with nothing but other characters before it. */
  lemma IndexOfIs(s: string, c: char, k: nat)
    requires k < |s| && s[k] == c
    requires forall i :: 0 <= i < k ==> s[i] != c
    ensures IndexOf(s, c) == k
  {
  }

  /** What a C string function sees of a byte sequence: everything before the first NUL. */
  function CStr(s: string): (r: string)
    ensures NUL !in r
    ensures r <= s
    ensures NUL !in s ==> r == s
  {
    s[..IndexOf(s, NUL)]
  }

  lemma Assoc(a: string, b: string, c: string)
    ensures (a + b) + c == a + (b + c)
  {
  }

  /** Concatenation of a list of pieces. */
  function Flatten(pieces: seq<string>): string {
    if pieces == [] then "" else pieces[0] + Flatten(pieces[1..])
  }

  function Min(a: int, b: int): int {
    if a < b then a else b
  }

  // ---------- Decimal text ----------

  function DigitChar(d: nat): (c: char)
    requires d < 10
    ensures IsDigit(c) && c as int == '0' as int + d
  {
    '0' + d as char
  }

  function DigitValue(c: char): (d: nat)
    requires IsDigit(c)
    ensures d < 10
  {
    c as int - '0' as int
  }

  predicate AllDigits(s: string) {
    forall i :: 0 <= i < |s| ==> IsDigit(s[i])
  }

  /** printf("%d") of a non-negative number. */
  function Decimal(n: nat): (s: string)
    ensures s != "" && AllDigits(s)
    ensures n < 10 <==> |s| == 1
  {
    if n < 10 then [DigitChar(n)] else Decimal(n / 10) + [DigitChar(n % 10)]
  }

  /** printf("%d"). */
  function SignedDecimal(n: int): (s: string)
    ensures s != ""
  {
    if n < 0 then "-" + Decimal(-n) else Decimal(n)
  }

  function Repeat(c: char, n: nat): (s: string)
    ensures |s| == n
    ensures forall i :: 0 <= i < n ==> s[i] == c
  {
    seq(n, _ => c)
  }

  /** printf("%0<width>d") of a non-negative number. */
  function ZeroPadded(n: nat, width: nat): (s: string)
    ensures AllDigits(s) && s != "" && |s| >= width
  {
    var d := Decimal(n);
    if |d| < width then Repeat('0', width - |d|) + d else d
  }

  /** The number a run of decimal digits denotes. */
  function Number(s: string): nat
    requires AllDigits(s)
  {
    if s == "" then 0 else 10 * Number(s[..|s| - 1]) + DigitValue(s[|s| - 1])
  }

  lemma {:induction false} NumberOfDecimal(n: nat)
    ensures Number(Decimal(n)) == n
  {
    var s := Decimal(n);
    if n < 10 {
      assert s[..0] == "";
      assert Number(s) == 10 * Number(s[..0]) + n;
    } else {
      NumberOfDecimal(n / 10);
      assert s[..|s| - 1] == Decimal(n / 10);
    }
  }

  lemma {:induction false} NumberOfZeros(k: nat, s: string)
    requires AllDigits(s)
    ensures AllDigits(Repeat('0', k) + s)
    ensures Number(Repeat('0', k) + s) == Number(s)
    decreases |s|, k
  {
    var z := Repeat('0', k);
    if s == "" {
      assert z + s == z;
      if k > 0 {
        NumberOfZeros(k - 1, "");
        assert z[..k - 1] == Repeat('0', k - 1) + "";
      }
    } else {
      NumberOfZeros(k, s[..|s| - 1]);
      assert (z + s)[..|z + s| - 1] == z + s[..|s| - 1];
    }
  }

  /** Zero padding does not change the number printed. */
  lemma {:induction false} NumberOfPadded(n: nat, width: nat)
    ensures Number(ZeroPadded(n, width)) == n
  {
    NumberOfDecimal(n);
    var d := Decimal(n);
    if |d| < width {
      NumberOfZeros(width - |d|, d);
    }
  }

  /** A number below 10^width prints in exactly `width` padded digits. */
  function Pow10(k: nat): (p: nat)
    ensures p >= 1
  {
    if k == 0 then 1 else 10 * Pow10(k - 1)
  }

  lemma {:induction false} DecimalLength(n: nat, k: nat)
    requires k > 0
    ensures |Decimal(n)| <= k <==> n < Pow10(k)
    decreases k
  {
    if k == 1 {
      assert Pow10(1) == 10 * Pow10(0);
    } else if n >= 10 {
      DecimalLength(n / 10, k - 1);
      assert Pow10(k) == 10 * Pow10(k - 1);
    } else {
      assert Pow10(k) == 10 * Pow10(k - 1);
      assert Pow10(k - 1) >= 1;
    }
  }

  /** An int prints in at most ten digits. */
  lemma {:induction false} IntDigits(n: nat)
    requires n <= INT_MAX
    ensures |Decimal(n)| <= 10
  {
    DecimalLength(n, 10);
    assert Pow10(5) == 100000;
    assert Pow10(10) == 100000 * Pow10(5);
  }

  // ---------- strtol, atoi ----------

  /** The end of the white space that starts at `from`. */
  function SkipSpaces(s: string, from: nat): (k: nat)
    requires from <= |s|
    ensures from <= k <= |s|
    ensures k < |s| ==> !IsSpace(s[k])
    ensures forall i :: from <= i < k ==> IsSpace(s[i])
    decreases |s| - from
  {
    if from == |s| || !IsSpace(s[from]) then from else SkipSpaces(s, from + 1)
  }

  /** The end of the run of digits that starts at `from`. */
  function SkipDigits(s: string, from: nat): (k: nat)
    requires from <= |s|
    ensures from <= k <= |s|
    ensures forall i :: from <= i < k ==> IsDigit(s[i])
    ensures k < |s| ==> !IsDigit(s[k])
    decreases |s| - from
  {
    if from == |s| || !IsDigit(s[from]) then from else SkipDigits(s, from + 1)
  }

  lemma SkipSpacesIs(s: string, from: nat, k: nat)
    requires from <= k <= |s| && (forall i :: from <= i < k ==> IsSpace(s[i]))
    requires k < |s| ==> !IsSpace(s[k])
    ensures SkipSpaces(s, from) == k
  {
  }

  lemma SkipDigitsIs(s: string, from: nat, k: nat)
    requires from <= k <= |s| && (forall i :: from <= i < k ==> IsDigit(s[i]))
    requires k < |s| ==> !IsDigit(s[k])
    ensures SkipDigits(s, from) == k
  {
  }

  function Clamp(x: int, lo: int, hi: int): int
    requires lo <= hi
  {
    if x < lo then lo else if x > hi then hi else x
  }

  // Conversion of a 64-bit value to int: the low 32 bits, read as two's complement
  function ToInt32(x: int): (r: int)
    ensures -INT_MAX - 1 <= r <= INT_MAX && (x - r) % UINT == 0
    ensures -INT_MAX - 1 <= x <= INT_MAX ==> r == x
  {
    (x + 0x8000_0000) % 0x1_0000_0000 - 0x8000_0000
  }

  datatype Scan = Scan(value: int, end: nat)

  /** strtol(s, &end, 10): white space, optional sign, digits; no digits means nothing is consumed.
      Out-of-range values saturate at the limits of a 64-bit long. */
  function StrToL(s: string): (r: Scan)
    ensures r.end <= |s|
  {
    var w := SkipSpaces(s, 0);
    var sign := w < |s| && (s[w] == '-' || s[w] == '+');
    var d := if sign then w + 1 else w;
    var e := SkipDigits(s, d);
    if e == d then Scan(0, 0)
    else
      var n: int := Number(s[d..e]);
      Scan(Clamp(if sign && s[w] == '-' then -n else n, -LONG_MAX - 1, LONG_MAX), e)
  }

  /** atoi(s) of a NUL-free text. */
  function Atoi(s: string): int {
    ToInt32(StrToL(s).value)
  }

  /** What strtol reads when the digits of a number start right after the blanks and the sign. */
  lemma {:induction false} ScanAt(s: string, w: nat, d: nat, e: nat, n: nat)
    requires w <= d < e <= |s| && AllDigits(s[d..e]) && Number(s[d..e]) == n
    requires forall i :: 0 <= i < w ==> IsSpace(s[i])
    requires d == w || (d == w + 1 && (s[w] == '-' || s[w] == '+'))
    requires e < |s| ==> !IsDigit(s[e])
    ensures StrToL(s) == Scan(Clamp(if d > w && s[w] == '-' then -(n as int) else n, -LONG_MAX - 1, LONG_MAX), e)
  {
    forall i | d <= i < e
      ensures IsDigit(s[i])
    {
      assert s[i] == s[d..e][i - d];
    }
    assert IsDigit(s[d]);
    SkipSpacesIs(s, 0, w);
    SkipDigitsIs(s, d, e);
  }

  /** strtol on a text of digits only. */
  lemma {:induction false} ScanDigits(s: string)
    requires s != "" && AllDigits(s) && Number(s) <= LONG_MAX
    ensures StrToL(s) == Scan(Number(s), |s|)
  {
    assert IsDigit(s[0]);
    SkipSpacesIs(s, 0, 0);
    SkipDigitsIs(s, 0, |s|);
    assert s[0..|s|] == s;
  }

  /** Reading back what printf("%d") wrote after some blanks, whatever non-digit follows. */
  lemma {:induction false} ScanPrinted(pad: string, n: int, t: string)
    requires forall i :: 0 <= i < |pad| ==> IsSpace(pad[i])
    requires -LONG_MAX - 1 <= n <= LONG_MAX
    requires t != "" ==> !IsDigit(t[0])
    ensures StrToL(pad + SignedDecimal(n) + t) == Scan(n, |pad| + |SignedDecimal(n)|)
  {
    var p := SignedDecimal(n);
    var s, w, e := pad + p + t, |pad|, |pad| + |p|;
    assert forall i :: 0 <= i < w ==> s[i] == pad[i];
    assert e < |s| ==> s[e] == t[0];
    if n < 0 {
      assert s[w] == '-' && s[w + 1..e] == Decimal(-n);
      NumberOfDecimal(-n);
      ScanAt(s, w, w + 1, e, -n);
    } else {
      assert s[w..e] == Decimal(n);
      NumberOfDecimal(n);
      ScanAt(s, w, w, e, n);
    }
  }

  /** strtol on any text of blanks, a sign and digits: the number, saturated at the limits of a long. */
  lemma {:induction false} ScanSigned(pad: string, sign: string, d: string, t: string)
    requires forall i :: 0 <= i < |pad| ==> IsSpace(pad[i])
    requires sign in {"", "+", "-"} && d != "" && AllDigits(d) && (t != "" ==> !IsDigit(t[0]))
    ensures var n: int := Number(d);
      StrToL(pad + sign + d + t)
      == Scan(Clamp(if sign == "-" then -n else n, -LONG_MAX - 1, LONG_MAX), |pad| + |sign| + |d|)
  {
    var s, w := pad + sign + d + t, |pad|;
    var k := w + |sign|;
    var e := k + |d|;
    assert forall i :: 0 <= i < w ==> s[i] == pad[i];
    assert s[k..e] == d;
    assert e < |s| ==> s[e] == t[0];
    assert sign != "" ==> s[w] == sign[0];
    ScanAt(s, w, k, e, Number(d));
  }

  /** Where no digit follows the blanks and the sign, strtol reads nothing. */
  lemma {:induction false} ScanNothing(pad: string, sign: string, t: string)
    requires forall i :: 0 <= i < |pad| ==> IsSpace(pad[i])
    requires sign in {"", "+", "-"} && (t != "" ==> !IsDigit(t[0]))
    requires sign == "" ==> t == "" || !(IsSpace(t[0]) || t[0] == '+' || t[0] == '-')
    ensures StrToL(pad + sign + t) == Scan(0, 0)
  {
    var s, w := pad + sign + t, |pad|;
    var k := w + |sign|;
    assert forall i :: 0 <= i < w ==> s[i] == pad[i];
    assert k < |s| ==> s[k] == t[0];
    assert sign != "" ==> s[w] == sign[0];
    SkipSpacesIs(s, 0, w);
    SkipDigitsIs(s, k, k);
  }
}
