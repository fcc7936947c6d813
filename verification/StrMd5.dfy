/** Base64 with the URL-safe alphabet (strmd5.c): bytes pass through a 32-bit accumulator six bits
    at a time. The reference is arithmetic: both texts are the same number in different bases. */
module StrMd5 {
  import opened CText

  type Byte = x: int | 0 <= x < 256
  type Sextet = x: int | 0 <= x < 64

  type Base = b: int | b == 64 || b == 256 witness 64

  /** b64, in the order of section 5 of RFC 4648. */
  function Letter(v: Sextet): (c: char)
    ensures InAlphabet(c)
  {
    if v < 26 then 'A' + v as char
    else if v < 52 then 'a' + (v - 26) as char
    else if v < 62 then '0' + (v - 52) as char
    else if v == 62 then '-' else '_'
  }

  /** The letters one by one, as the code lists them. */
  const ALPHABET: string := UPPER + LOWER + DIGITS + "-_"

  lemma {:induction false} LetterIs(v: Sextet)
    ensures |ALPHABET| == 64 && Letter(v) == ALPHABET[v]
  {
    if v < 13 {
      assert ALPHABET[v] == "ABCDEFGHIJKLM"[v];
    } else if v < 26 {
      assert ALPHABET[v] == "NOPQRSTUVWXYZ"[v - 13];
    } else if v < 39 {
      assert ALPHABET[v] == "abcdefghijklm"[v - 26];
    } else if v < 52 {
      assert ALPHABET[v] == "nopqrstuvwxyz"[v - 39];
    } else if v < 62 {
      assert ALPHABET[v] == DIGITS[v - 52];
    } else {
      assert ALPHABET[v] == "-_"[v - 62];
    }
  }

  predicate InAlphabet(c: char) {
    IsAlnum(c) || c == '-' || c == '_'
  }

  /** b64r: the inverse of b64. */
  function LetterValue(c: char): (v: Sextet)
    requires InAlphabet(c)
    ensures Letter(v) == c
  {
    if 'A' <= c <= 'Z' then c as int - 'A' as int
    else if 'a' <= c <= 'z' then c as int - 'a' as int + 26
    else if IsDigit(c) then c as int - '0' as int + 52
    else if c == '-' then 62 else 63
  }

  predicate Base64Text(s: string) {
    forall i :: 0 <= i < |s| ==> InAlphabet(s[i])
  }

  function Letters(v: seq<Sextet>): (s: string)
    ensures |s| == |v| && Base64Text(s)
    ensures forall i :: 0 <= i < |v| ==> s[i] == Letter(v[i])
  {
    if v == [] then "" else Letters(v[..|v| - 1]) + [Letter(v[|v| - 1])]
  }

  function LetterValues(s: string): (v: seq<Sextet>)
    requires Base64Text(s)
    ensures |v| == |s|
  {
    if s == "" then [] else LetterValues(s[..|s| - 1]) + [LetterValue(s[|s| - 1])]
  }

  lemma {:induction false} LettersBack(v: seq<Sextet>)
    ensures LetterValues(Letters(v)) == v
  {
    if v != [] {
      LettersBack(v[..|v| - 1]);
      assert Letters(v)[..|v| - 1] == Letters(v[..|v| - 1]);
    }
  }

  // ---------- Numbers in a base ----------

  /** The number with these digits, the most significant one first. */
  function Value(base: Base, digits: seq<int>): int {
    if digits == [] then 0 else Value(base, digits[..|digits| - 1]) * base + digits[|digits| - 1]
  }

  /** The `k` lowest digits of a number. */
  function Digits(base: Base, k: nat, n: nat): (d: seq<int>)
    ensures |d| == k && forall i :: 0 <= i < k ==> 0 <= d[i] < base
  {
    if k == 0 then [] else Digits(base, k - 1, n / base) + [n % base]
  }

  predicate AreDigits(base: Base, d: seq<int>) {
    forall i :: 0 <= i < |d| ==> 0 <= d[i] < base
  }

  lemma {:induction false} ValueIsNat(base: Base, d: seq<int>)
    requires AreDigits(base, d)
    ensures Value(base, d) >= 0
  {
    if d != [] {
      ValueIsNat(base, d[..|d| - 1]);
    }
  }

  lemma {:induction false} DivMod(base: Base, q: nat, r: nat)
    requires r < base
    ensures (q * base + r) / base == q && (q * base + r) % base == r
  {
    assert if base == 64 then (q * 64 + r) / 64 == q else (q * 256 + r) / 256 == q;
  }

  /** Digits determine and are determined by the number, once their count is fixed. */
  lemma {:induction false} DigitsOfValue(base: Base, d: seq<int>)
    requires AreDigits(base, d)
    ensures Value(base, d) >= 0 && Digits(base, |d|, Value(base, d)) == d
  {
    ValueIsNat(base, d);
    if d != [] {
      var p := d[..|d| - 1];
      DigitsOfValue(base, p);
      DivMod(base, Value(base, p), d[|d| - 1]);
      assert d == p + [d[|d| - 1]];
    }
  }

  lemma {:induction false} ValueAppend(base: Base, d: seq<int>, x: int)
    ensures Value(base, d + [x]) == Value(base, d) * base + x
  {
    assert (d + [x])[..|d|] == d;
  }

  // ---------- What the texts must be ----------

  // Zero bits behind the last byte of n bytes
  function PadBits(n: nat): (p: nat)
    ensures (8 * n + p) % 6 == 0 && p < 6 && p % 2 == 0
  {
    if n % 3 == 0 then 0 else if n % 3 == 1 then 4 else 2
  }

  function PadFactor(n: nat): (f: nat)
    ensures f == 1 || f == 4 || f == 16
  {
    if n % 3 == 0 then 1 else if n % 3 == 1 then 16 else 4
  }

  function SextetCount(n: nat): (k: nat)
    ensures k == (8 * n + PadBits(n)) / 6 && 3 * k - 4 * n in {0, 1, 2}
  {
    (4 * n + 2) / 3
  }

  /** RFC 4648: the bits of the bytes in order, zero bits up to a multiple of six, cut into sextets. */
  function Sextets(x: seq<Byte>): seq<Sextet> {
    ValueIsNat(256, x);
    Digits(64, SextetCount(|x|), Value(256, x) * PadFactor(|x|))
  }

  // Bits left over behind the last whole byte of m sextets
  function Leftover(m: nat): (f: nat)
    ensures f == 1 || f == 4 || f == 16 || f == 64
  {
    if m % 4 == 0 then 1 else if m % 4 == 1 then 64 else if m % 4 == 2 then 16 else 4
  }

  /** The whole bytes in a row of sextets. */
  function Bytes(v: seq<Sextet>): seq<Byte> {
    ValueIsNat(64, v);
    Digits(256, 3 * |v| / 4, Value(64, v) / Leftover(|v|))
  }

  function Power(base: Base, k: nat): (p: nat)
  {
    if k == 0 then 1 else base * Power(base, k - 1)
  }

  lemma {:induction false} ValueOfDigits(base: Base, k: nat, n: nat)
    requires n < Power(base, k)
    ensures Value(base, Digits(base, k, n)) == n
  {
    if k > 0 {
      Below(base, Power(base, k - 1), n);
      ValueOfDigits(base, k - 1, n / base);
      ValueAppend(base, Digits(base, k - 1, n / base), n % base);
    }
  }

  lemma {:induction false} Below(base: Base, p: nat, n: nat)
    requires n < base * p
    ensures n / base < p && n / base * base + n % base == n
  {
    assert if base == 64 then n / 64 < p else n / 256 < p;
  }

  lemma {:induction false} ValueBound(base: Base, d: seq<int>)
    requires AreDigits(base, d)
    ensures 0 <= Value(base, d) < Power(base, |d|)
  {
    if d != [] {
      var p := d[..|d| - 1];
      ValueBound(base, p);
      Scale(base, Value(base, p), Power(base, |p|));
    }
  }

  lemma {:induction false} Scale(base: Base, v: nat, w: nat)
    requires v < w
    ensures 0 <= v * base <= base * w - base
  {
    assert if base == 64 then v * 64 <= 64 * w - 64 else v * 256 <= 256 * w - 256;
  }

  // The padded bytes fill the sextets exactly
  lemma {:induction false} SameBits(n: nat)
    ensures Power(256, n) * PadFactor(n) == Power(64, SextetCount(n))
  {
    if n < 3 {
      assert Power(256, 0) == 1 && Power(256, 1) == 256 && Power(256, 2) == 65536;
      assert Power(64, 0) == 1 && Power(64, 1) == 64 && Power(64, 2) == 4096 && Power(64, 3) == 262144;
    } else {
      SameBits(n - 3);
      assert Power(256, n) == 0x100_0000 * Power(256, n - 3) by {
        assert Power(256, n - 1) == 256 * Power(256, n - 2);
      }
      var k := SextetCount(n);
      assert Power(64, k) == 0x100_0000 * Power(64, k - 4) by {
        assert Power(64, k - 1) == 64 * Power(64, k - 2);
        assert Power(64, k - 3) == 64 * Power(64, k - 4);
      }
    }
  }

  /** The sextets are the bytes' number, shifted left by the padding: nothing is cut off. */
  lemma {:induction false} SextetsValue(x: seq<Byte>)
    ensures Value(64, Sextets(x)) == Value(256, x) * PadFactor(|x|)
  {
    ValueBound(256, x);
    SameBits(|x|);
    ValueOfDigits(64, SextetCount(|x|), Value(256, x) * PadFactor(|x|));
  }

  /** Cutting into sextets and joining them again gives the same bytes. */
  lemma {:induction false} BytesOfSextets(x: seq<Byte>)
    ensures Bytes(Sextets(x)) == x
  {
    SextetsValue(x);
    DigitsOfValue(256, x);
    Unpadded(|x|, Value(256, x));
  }

  lemma {:induction false} Unpadded(n: nat, v: nat)
    ensures 3 * SextetCount(n) / 4 == n && Leftover(SextetCount(n)) == PadFactor(n)
    ensures v * PadFactor(n) / PadFactor(n) == v
  {
    assert v * 4 / 4 == v && v * 16 / 16 == v;
  }

  // ---------- Groups of three bytes ----------

  lemma {:induction false} TimesAssoc(a: int, b: int, c: int)
    ensures a * b * c == a * (c * b)
  {
  }

  lemma {:induction false} ValueJoined(base: Base, a: seq<int>, b: seq<int>)
    ensures Value(base, a + b) == Value(base, a) * Power(base, |b|) + Value(base, b)
  {
    if b == [] {
      assert a + b == a;
    } else {
      var b', x := b[..|b| - 1], b[|b| - 1];
      ValueJoined(base, a, b');
      ValueAppend(base, a + b', x);
      assert a + b == (a + b') + [x];
      TimesAssoc(Value(base, a), Power(base, |b'|), base);
      Distributed(Value(base, a) * Power(base, |b'|), Value(base, b'), base);
    }
  }

  lemma {:induction false} Distributed(a: int, b: int, c: int)
    ensures (a + b) * c == a * c + b * c
  {
  }

  /** The four sextets of three bytes. */
  function Group(a: Byte, b: Byte, c: Byte): seq<Sextet> {
    [a / 4, a % 4 * 16 + b / 16, b % 16 * 4 + c / 64, c % 64]
  }

  lemma {:induction false} OneDigit(base: Base, a: int)
    ensures Value(base, [a]) == a
  {
    ValueAppend(base, [], a);
    assert [] + [a] == [a];
  }

  lemma {:induction false} TwoPlaces(base: Base, a: int, b: int)
    ensures Value(base, [a, b]) == a * base + b
  {
    OneDigit(base, a);
    ValueAppend(base, [a], b);
    assert [a] + [b] == [a, b];
  }

  lemma {:induction false} ThreePlaces(base: Base, a: int, b: int, c: int)
    ensures Value(base, [a, b, c]) == (a * base + b) * base + c
  {
    TwoPlaces(base, a, b);
    ValueAppend(base, [a, b], c);
    assert [a, b] + [c] == [a, b, c];
  }

  lemma {:induction false} FourPlaces(base: Base, a: int, b: int, c: int, d: int)
    ensures Value(base, [a, b, c, d]) == ((a * base + b) * base + c) * base + d
  {
    ThreePlaces(base, a, b, c);
    ValueAppend(base, [a, b, c], d);
    assert [a, b, c] + [d] == [a, b, c, d];
  }

  lemma {:induction false} ThreeBytes(a: Byte, b: Byte, c: Byte)
    ensures Value(256, [a, b, c]) == Value(64, Group(a, b, c))
  {
    ThreePlaces(256, a, b, c);
    FourPlaces(64, a / 4, a % 4 * 16 + b / 16, b % 16 * 4 + c / 64, c % 64);
  }

  // Sextets of the right number with the right value are the right ones
  lemma {:induction false} SextetsAre(x: seq<Byte>, s: seq<Sextet>)
    requires |s| == SextetCount(|x|) && Value(64, s) == Value(256, x) * PadFactor(|x|)
    ensures Sextets(x) == s
  {
    DigitsOfValue(64, s);
  }

  /** The definition of RFC 4648, section 4: every three bytes make four letters, and one or two bytes
      at the end make two or three, with zero bits added. */
  lemma {:induction false} GroupOfThree(a: Byte, b: Byte, c: Byte, rest: seq<Byte>)
    ensures Sextets([a, b, c] + rest) == Group(a, b, c) + Sextets(rest)
  {
    GroupsJoined([a, b, c], Group(a, b, c), rest) by { ThreeBytes(a, b, c); }
  }

  lemma {:induction false} GroupsJoined(h: seq<Byte>, g: seq<Sextet>, rest: seq<Byte>)
    requires |h| == 3 && |g| == 4 && Value(256, h) == Value(64, g)
    ensures Sextets(h + rest) == g + Sextets(rest)
  {
    var s := Sextets(rest);
    assert Value(64, g + s) == Value(256, h + rest) * PadFactor(|rest|) by {
      ValueJoined(256, h, rest);
      ValueJoined(64, g, s);
      SextetsValue(rest);
      SameBits(|rest|);
      GroupValue(Value(256, h), Power(256, |rest|), PadFactor(|rest|), Value(256, rest), Power(64, |s|));
    }
    SextetsAre(h + rest, g + s);
  }

  lemma {:induction false} GroupValue(n: int, p: int, f: int, v: int, q: int)
    requires p * f == q
    ensures (n * p + v) * f == n * q + v * f
  {
    Distributed(n * p, v, f);
    TimesAssoc(n, p, f);
    assert n * p * f == n * (f * p) == n * q by { assert f * p == p * f; }
  }

  lemma {:induction false} ShortGroups(a: Byte, b: Byte)
    ensures Sextets([]) == [] && Sextets([a]) == [a / 4, a % 4 * 16]
    ensures Sextets([a, b]) == [a / 4, a % 4 * 16 + b / 16, b % 16 * 4]
  {
    OneByte(a);
    TwoBytes(a, b);
  }

  lemma {:induction false} OneByte(a: Byte)
    ensures Sextets([a]) == [a / 4, a % 4 * 16]
  {
    OneDigit(256, a);
    TwoPlaces(64, a / 4, a % 4 * 16);
    SextetsAre([a], [a / 4, a % 4 * 16]);
  }

  lemma {:induction false} TwoBytes(a: Byte, b: Byte)
    ensures Sextets([a, b]) == [a / 4, a % 4 * 16 + b / 16, b % 16 * 4]
  {
    TwoPlaces(256, a, b);
    ThreePlaces(64, a / 4, a % 4 * 16 + b / 16, b % 16 * 4);
    SextetsAre([a, b], [a / 4, a % 4 * 16 + b / 16, b % 16 * 4]);
  }

  // ---------- base64_encode ----------

  // 2^shift
  function Pow2(shift: nat): (p: nat)
    ensures p > 0
  {
    if shift == 0 then 1 else 2 * Pow2(shift - 1)
  }

  // The values of Pow2 that occur
  lemma {:induction false} SmallPow2(shift: nat)
    requires shift in {0, 2, 4, 6}
    ensures Pow2(shift) == match shift case 0 => 1 case 2 => 4 case 4 => 16 case _ => 64
  {
    assert Pow2(6) == 8 * Pow2(3);
  }

  lemma {:induction false} TimesStep(m: int, d: int)
    ensures m * d == m * (d - 1) + m && m * d == m * (d + 1) - m
  {
  }

  lemma {:induction false} TimesNat(m: nat, d: nat)
    ensures m * d >= 0
  {
  }

  lemma {:induction false} TimesMinus(m: int, a: int, b: int)
    ensures m * (a - b) == m * a - m * b
  {
  }

  lemma {:induction false} NoMultiple(m: nat, d: int)
    requires -(m as int) < m * d < m
    ensures d == 0
  {
    TimesStep(m, d);
    if d > 0 {
      TimesNat(m, d - 1);
    } else if d < 0 {
      TimesMinus(m, 0, d + 1);
      TimesNat(m, 0 - (d + 1));
    }
  }

  lemma {:induction false} ModIs(m: nat, k: int, r: nat)
    requires r < m
    ensures (m * k + r) % m == r
  {
    var x := m * k + r;
    ModOf(m, k, r, x / m, x % m);
  }

  lemma {:induction false} ModOf(m: nat, k: int, r: nat, q: int, e: nat)
    requires r < m && e < m && m * k + r == m * q + e
    ensures r == e
  {
    TimesMinus(m, k, q);
    NoMultiple(m, k - q);
  }

  lemma {:induction false} Regroup(p: int, u: int, r: int, f: int, w: int, j: int, v: int)
    ensures (p * u + r) * f - w * (p * f) * j + v == p * f * (u - w * j) + (r * f + v)
  {
  }

  // Taking away a multiple of w * m changes nothing modulo m
  lemma {:induction false} DropHigh(p: nat, u: int, r: nat, f: nat, w: int, j: int, v: nat)
    requires r * f + v < p * f
    ensures ((p * u + r) * f - w * (p * f) * j + v) % (p * f) == r * f + v
  {
    Regroup(p, u, r, f, w, j, v);
    ModIs(p * f, u - w * j, r * f + v);
  }

  // Appending bits to an accumulator that wraps at 32 bits keeps its low bits
  lemma {:induction false} WrappedShift(bits: nat, p: nat, f: nat, v: nat)
    requires p in {1, 4, 16, 64} && f in {4, 16, 64, 256} && v < f
    ensures (bits * f % UINT + v) % (p * f) == bits % p * f + v
  {
    Modulus(p, f, bits % p, v);
    WrappedParts(bits, p, f, v, bits % p, bits / p, bits * f / UINT, UINT / (p * f));
  }

  lemma {:induction false} WrappedParts(bits: nat, p: nat, f: nat, v: nat, r: nat, u: nat, j: nat, w: nat)
    requires bits == p * u + r && j == bits * f / UINT && w * (p * f) == UINT && r * f + v < p * f
    ensures (bits * f % UINT + v) % (p * f) == r * f + v
  {
    DropHigh(p, u, r, f, w, j, v);
    assert bits * f % UINT == bits * f - UINT * j;
  }

  lemma {:induction false} Modulus(p: nat, f: nat, r: nat, v: nat)
    requires p in {1, 4, 16, 64} && f in {4, 16, 64, 256} && r < p && v < f
    ensures p * f in {4, 16, 64, 256, 1024, 4096, 16384}
    ensures UINT / (p * f) * (p * f) == UINT && r * f + v < p * f
  {
    assert r * f <= (p - 1) * f by {
      match f
      case 4 => assert r * 4 <= (p - 1) * 4;
      case 16 => assert r * 16 <= (p - 1) * 16;
      case 64 => assert r * 64 <= (p - 1) * 64;
      case _ => assert r * 256 <= (p - 1) * 256;
    }
  }

  lemma {:induction false} UpperBits(bits: nat, p: nat, f: nat)
    requires p in {1, 4, 16, 64} && f in {64, 256} && p * f > 0
    ensures bits % (p * f) == bits / p % f * p + bits % p
  {
    var q := bits / p;
    TwoDigits(bits, p, f, q, bits % p, q / f, q % f);
  }

  lemma {:induction false} TwoDigits(bits: nat, p: nat, f: nat, q: int, r: nat, u: int, c: nat)
    requires p in {1, 4, 16, 64} && f in {64, 256} && p * f > 0
    requires bits == p * q + r && q == f * u + c && c < f && r < p
    ensures bits % (p * f) == c * p + r
  {
    Rejoin(bits, p, f, q, r, u, c);
    Modulus(p, f, 0, 0);
    PairBelow(p, f, c, r);
    ModIs(p * f, u, c * p + r);
  }

  lemma {:induction false} Rejoin(bits: int, p: int, f: int, q: int, r: int, u: int, c: int)
    requires bits == p * q + r && q == f * u + c
    ensures bits == p * f * u + (c * p + r)
  {
  }

  lemma {:induction false} PairBelow(p: nat, f: nat, c: nat, r: nat)
    requires c < f && r < p
    ensures c * p + r < p * f
  {
    TimesNat(p, f - 1 - c);
    TimesMinus(p, f, 1 + c);
    TimesStep(p, 1 + c);
  }

  /** The number read so far is the number written so far, followed by the low bits of `bits`. */
  ghost predicate Held(n: int, written: int, bits: nat, shift: nat) {
    match shift
    case 0 => n == written
    case 2 => n == 4 * written + bits % 4
    case 4 => n == 16 * written + bits % 16
    case 6 => n == 64 * written + bits % 64
    case 8 => n == 256 * written + bits % 256
    case 10 => n == 1024 * written + bits % 1024
    case 12 => n == 4096 * written + bits % 4096
    case _ => false
  }

  lemma {:induction false} ByteIn(n: int, written: int, bits: nat, shift: nat, b: Byte)
    requires shift in {0, 2, 4} && Held(n, written, bits, shift)
    ensures Held(n * 256 + b, written, bits * 256 % UINT + b, shift + 8)
  {
    match shift
    case 0 => WrappedShift(bits, 1, 256, b);
    case 2 => WrappedShift(bits, 4, 256, b);
    case _ => WrappedShift(bits, 16, 256, b);
  }

  lemma {:induction false} SextetIn(n: int, written: int, bits: nat, shift: nat, v: Sextet)
    requires shift in {0, 2, 4, 6} && Held(n, written, bits, shift)
    ensures Held(n * 64 + v, written, bits * 64 % UINT + v, shift + 6)
  {
    match shift
    case 0 => WrappedShift(bits, 1, 64, v);
    case 2 => WrappedShift(bits, 4, 64, v);
    case 4 => WrappedShift(bits, 16, 64, v);
    case _ => WrappedShift(bits, 64, 64, v);
  }

  lemma {:induction false} PadIn(n: int, written: int, bits: nat, shift: nat)
    requires shift in {2, 4} && Held(n, written, bits, shift)
    ensures var f := if shift == 2 then 16 else 4; Held(n * f, written, bits * f % UINT, 6)
  {
    match shift
    case 2 => WrappedShift(bits, 4, 16, 0);
    case _ => WrappedShift(bits, 16, 4, 0);
  }

  lemma {:induction false} SextetOut(n: int, written: int, bits: nat, shift: nat)
    requires shift in {0, 2, 4, 6} && Held(n, written, bits, shift + 6)
    ensures Held(n, written * 64 + bits / Pow2(shift) % 64, bits, shift)
  {
    SmallPow2(shift);
    match shift
    case 0 =>
    case 2 => UpperBits(bits, 4, 64);
    case 4 => UpperBits(bits, 16, 64);
    case _ => UpperBits(bits, 64, 64);
  }

  lemma {:induction false} ByteOut(n: int, written: int, bits: nat, shift: nat)
    requires shift in {0, 2, 4} && Held(n, written, bits, shift + 8)
    ensures Held(n, written * 256 + bits / Pow2(shift) % 256, bits, shift)
  {
    SmallPow2(shift);
    match shift
    case 0 =>
    case 2 => UpperBits(bits, 4, 256);
    case _ => UpperBits(bits, 16, 256);
  }

  /** The inner loop of base64_encode: whole sextets leave the accumulator. */
  method EmitSextets(out: array<char>, at: nat, bits: nat, shift0: nat, ghost n: int, ghost done: seq<Sextet>)
    returns (size: nat, shift: nat, ghost written: seq<Sextet>)
    requires shift0 in {0, 2, 4, 6, 8, 10, 12} && at + shift0 / 6 <= out.Length
    requires at == |done| && out[..at] == Letters(done) && Held(n, Value(64, done), bits, shift0)
    modifies out
    ensures shift in {0, 2, 4} && size == |written| <= out.Length && out[..size] == Letters(written)
    ensures 6 * size + shift == 6 * at + shift0
    ensures Held(n, Value(64, written), bits, shift)
  {
    size, shift, written := at, shift0, done;
    while shift >= 6
      invariant shift in {0, 2, 4, 6, 8, 10, 12} && 6 * size + shift == 6 * at + shift0
      invariant size == |written| && size + shift / 6 <= out.Length && out[..size] == Letters(written)
      invariant Held(n, Value(64, written), bits, shift)
    {
      shift := shift - 6;
      SextetOut(n, Value(64, written), bits, shift);
      var v := bits / Pow2(shift) % 64;
      ValueAppend(64, written, v);
      LettersAppend(written, v);
      out[size] := Letter(v);
      size := size + 1;
      written := written + [v];
    }
  }

  lemma {:induction false} LettersAppend(v: seq<Sextet>, x: Sextet)
    ensures Letters(v + [x]) == Letters(v) + [Letter(x)]
  {
    assert (v + [x])[..|v|] == v;
  }

  /** The length of an encoding, with its terminator. */
  function EncodedLength(n: nat): nat {
    SextetCount(n) + 1
  }

  /** What base64_encode writes: the sextets as letters, and '='. */
  function Encoded(x: seq<Byte>): string {
    Letters(Sextets(x)) + "="
  }

  // How far the encoder is: `i` bytes were read, `n` is the number read, `size` letters were written
  ghost predicate Progress(enc: seq<Byte>, i: nat, n: int, size: nat, shift: nat) {
    && i <= |enc|
    && ((n == Value(256, enc[..i]) && 6 * size + shift == 8 * i)
        || (i == |enc| && n == Value(256, enc) * PadFactor(i) && size == SextetCount(i) && shift == 0))
  }

  // Everything read and nothing left to write
  lemma {:induction false} AllWritten(enc: seq<Byte>, n: int, written: seq<Sextet>, bits: nat)
    requires Progress(enc, |enc|, n, |written|, 0) && Held(n, Value(64, written), bits, 0)
    ensures written == Sextets(enc)
  {
    assert enc[..|enc|] == enc;
    DigitsOfValue(64, written);
  }

  /** The state of the encoder between two rounds of its outer loop. */
  ghost predicate Encoding(enc: seq<Byte>, i: nat, n: int, written: seq<Sextet>, bits: nat, shift: nat) {
    shift in {0, 2, 4} && Progress(enc, i, n, |written|, shift) && Held(n, Value(64, written), bits, shift)
  }

  /** base64_encode. The output may run one byte past `max` before the overflow is noticed. */
  method Base64Encode(enc: seq<Byte>, out: array<char>, max: int) returns (r: int)
    requires max < out.Length
    modifies out
    ensures r == if max >= EncodedLength(|enc|) then EncodedLength(|enc|) else -1
    ensures r > 0 ==> out[..r] == Encoded(enc)
  {
    var i: nat, size: nat, bits: nat, shift: nat := 0, 0, 0, 0;
    ghost var n, written: seq<Sextet> := 0, [];
    while size < max
      invariant Encoding(enc, i, n, written, bits, shift)
      invariant size == |written| <= out.Length && out[..size] == Letters(written)
      decreases |enc| - i, shift
    {
      if i < |enc| {
        size, bits, shift, n, written := TakeByte(enc, i, out, size, bits, shift, n, written);
        i := i + 1;
      } else if shift > 0 {
        size, bits, n, written := Flush(enc, out, size, bits, shift, n, written);
        shift := 0;
      } else {
        AllWritten(enc, n, written, bits);
        out[size] := '=';
        assert out[..size + 1] == out[..size] + "=";
        return size + 1;
      }
    }
    return -1;
  }

  /** A round that shifts in the next byte. */
  method TakeByte(enc: seq<Byte>, i: nat, out: array<char>, at: nat, bits0: nat, shift0: nat,
                  ghost n0: int, ghost done: seq<Sextet>)
    returns (size: nat, bits: nat, shift: nat, ghost n: int, ghost written: seq<Sextet>)
    requires i < |enc| && at + 2 <= out.Length && at == |done| && out[..at] == Letters(done)
    requires Encoding(enc, i, n0, done, bits0, shift0)
    modifies out
    ensures size == |written| <= out.Length && out[..size] == Letters(written)
    ensures Encoding(enc, i + 1, n, written, bits, shift)
  {
    bits := bits0 * 256 % UINT + enc[i];
    n := n0 * 256 + enc[i];
    ByteIn(n0, Value(64, done), bits0, shift0, enc[i]);
    assert enc[..i + 1] == enc[..i] + [enc[i]];
    ValueAppend(256, enc[..i], enc[i]);
    size, shift, written := EmitSextets(out, at, bits, shift0 + 8, n, done);
  }

  /** The round that pads the last bits to six. */
  method Flush(enc: seq<Byte>, out: array<char>, at: nat, bits0: nat, shift0: nat,
               ghost n0: int, ghost done: seq<Sextet>)
    returns (size: nat, bits: nat, ghost n: int, ghost written: seq<Sextet>)
    requires shift0 > 0 && at + 1 <= out.Length && at == |done| && out[..at] == Letters(done)
    requires Encoding(enc, |enc|, n0, done, bits0, shift0)
    modifies out
    ensures size == |written| <= out.Length && out[..size] == Letters(written)
    ensures Encoding(enc, |enc|, n, written, bits, 0)
  {
    var f := Pow2(6 - shift0);
    bits, n := bits0 * f % UINT, n0 * f;
    Padding(|enc|, at, shift0);
    PadIn(n0, Value(64, done), bits0, shift0);
    assert enc[..|enc|] == enc;
    var shift;
    size, shift, written := EmitSextets(out, at, bits, 6, n, done);
    assert shift == 0;
  }

  lemma {:induction false} Padding(n: nat, size: nat, shift: nat)
    requires shift in {2, 4} && 6 * size + shift == 8 * n
    ensures Pow2(6 - shift) == PadFactor(n) == (if shift == 2 then 16 else 4) && size + 1 == SextetCount(n)
  {
    SmallPow2(6 - shift);
  }

  // ---------- base64_decode ----------

  /** The part of a C string that base64_decode reads: up to the end or the first '='. */
  function Payload(s: string): string {
    var t := CStr(s);
    t[..IndexOf(t, '=')]
  }

  // The state of the decoder between two letters
  ghost predicate Decoding(v: seq<Sextet>, written: seq<Byte>, bits: nat, shift: nat) {
    shift in {0, 2, 4, 6} && 6 * |v| == 8 * |written| + shift && Held(Value(64, v), Value(256, written), bits, shift)
  }

  // At the end every whole byte has been written
  lemma {:induction false} AllDecoded(v: seq<Sextet>, written: seq<Byte>, bits: nat, shift: nat)
    requires Decoding(v, written, bits, shift)
    ensures written == Bytes(v)
  {
    DigitsOfValue(256, written);
    ValueIsNat(64, v);
    WholeBytes(|v|, |written|, shift);
    DropHeld(Value(64, v), Value(256, written), bits, shift, Leftover(|v|));
  }

  lemma {:induction false} WholeBytes(m: nat, k: nat, shift: nat)
    requires shift in {0, 2, 4, 6} && 6 * m == 8 * k + shift
    ensures k == 3 * m / 4 && Leftover(m) == match shift case 0 => 1 case 2 => 4 case 4 => 16 case _ => 64
  {
  }

  lemma {:induction false} DropHeld(n: nat, written: nat, bits: nat, shift: nat, f: nat)
    requires shift in {0, 2, 4, 6} && Held(n, written, bits, shift)
    requires f == match shift case 0 => 1 case 2 => 4 case 4 => 16 case _ => 64
    ensures n / f == written
  {
  }

  /** One letter: six bits in, a whole byte out if there is one; false when it does not fit. */
  method TakeLetter(c: char, out: array<Byte>, at: nat, max: int, bits0: nat, shift0: nat,
                    ghost v: seq<Sextet>, ghost done: seq<Byte>)
    returns (ok: bool, size: nat, bits: nat, shift: nat, ghost written: seq<Byte>)
    requires InAlphabet(c) && max <= out.Length && at == |done| <= out.Length && out[..at] == done
    requires Decoding(v, done, bits0, shift0)
    modifies out
    ensures ok <==> shift0 == 0 || at < max
    ensures ok ==> size == |written| <= out.Length && out[..size] == written
    ensures ok ==> size == at || size <= max
    ensures ok ==> Decoding(v + [LetterValue(c)], written, bits, shift)
  {
    ghost var n := Value(64, v) * 64 + LetterValue(c);
    bits := bits0 * 64 % UINT + LetterValue(c);
    SextetIn(Value(64, v), Value(256, done), bits0, shift0, LetterValue(c));
    ValueAppend(64, v, LetterValue(c));
    ok, size, shift, written := EmitBytes(out, at, max, bits, shift0 + 6, n, done);
  }

  /** The inner loop of base64_decode. */
  method EmitBytes(out: array<Byte>, at: nat, max: int, bits: nat, shift0: nat, ghost n: int, ghost done: seq<Byte>)
    returns (ok: bool, size: nat, shift: nat, ghost written: seq<Byte>)
    requires max <= out.Length && at == |done| <= out.Length && out[..at] == done
    requires shift0 in {6, 8, 10, 12} && Held(n, Value(256, done), bits, shift0)
    modifies out
    ensures ok <==> shift0 == 6 || at < max
    ensures ok ==> size == |written| <= out.Length && out[..size] == written
    ensures ok ==> shift in {0, 2, 4, 6} && 8 * size + shift == 8 * at + shift0 && (size == at || size <= max)
    ensures ok ==> Held(n, Value(256, written), bits, shift)
  {
    ok, size, shift, written := true, at, shift0, done;
    while shift >= 8
      invariant shift in {0, 2, 4, 6, 8, 10, 12} && 8 * size + shift == 8 * at + shift0
      invariant size == |written| <= out.Length && out[..size] == written && (size > at ==> size <= max)
      invariant Held(n, Value(256, written), bits, shift)
    {
      if size >= max {
        return false, size, shift, written;
      }
      shift := shift - 8;
      ByteOut(n, Value(256, written), bits, shift);
      var b := bits / Pow2(shift) % 256;
      ValueAppend(256, written, b);
      out[size] := b;
      size := size + 1;
      written := written + [b];
    }
  }

  /** The bytes that a C string of letters stands for. */
  function Decoded(enc: string): (b: seq<Byte>)
    requires Base64Text(Payload(enc))
    ensures |b| == 3 * |Payload(enc)| / 4
  {
    Bytes(LetterValues(Payload(enc)))
  }

  // The first `p` letters have been read
  ghost predicate DecodedTo(s: string, p: nat, written: seq<Byte>, bits: nat, shift: nat)
    requires Base64Text(s)
  {
    p <= |s| && Decoding(LetterValues(s[..p]), written, bits, shift)
  }

  // What has been written fits
  ghost predicate Written(out: array<Byte>, size: nat, max: int, written: seq<Byte>)
    reads out
  {
    size == |written| <= out.Length && out[..size] == written && (size > 0 ==> size <= max)
  }

  // The outer loop's step
  method DecodeNext(enc: string, p: nat, out: array<Byte>, at: nat, max: int, bits0: nat, shift0: nat,
                    ghost done: seq<Byte>)
    returns (ok: bool, size: nat, bits: nat, shift: nat, ghost written: seq<Byte>)
    requires p < |enc| && enc[p] != NUL && enc[p] != '=' && max <= out.Length && Written(out, at, max, done)
    requires Base64Text(Payload(enc)) && DecodedTo(Payload(enc), p, done, bits0, shift0)
    modifies out
    ensures ok ==> Written(out, size, max, written) && DecodedTo(Payload(enc), p + 1, written, bits, shift)
    ensures !ok ==> at >= max && 3 * |Payload(enc)| / 4 > at
  {
    ghost var s := Payload(enc);
    PayloadGoesOn(enc, p);
    LetterValuesNext(s, p);
    NoRoom(p, |s|, at, shift0);
    ok, size, bits, shift, written := TakeLetter(enc[p], out, at, max, bits0, shift0, LetterValues(s[..p]), done);
  }

  /** base64_decode: the number of bytes written, or -1 when they do not fit. */
  method Base64Decode(enc: string, out: array<Byte>, max: int) returns (r: int)
    requires Base64Text(Payload(enc)) && max <= out.Length
    modifies out
    ensures r == if |Decoded(enc)| > 0 && |Decoded(enc)| > max then -1 else |Decoded(enc)|
    ensures r >= 0 ==> r <= out.Length && out[..r] == Decoded(enc)
  {
    var bits: nat, shift: nat, size: nat, p: nat := 0, 0, 0, 0;
    ghost var written: seq<Byte> := [];
    while p < |enc| && enc[p] != NUL && enc[p] != '='
      invariant p <= |enc| && Written(out, size, max, written)
      invariant DecodedTo(Payload(enc), p, written, bits, shift)
    {
      var ok;
      ok, size, bits, shift, written := DecodeNext(enc, p, out, size, max, bits, shift, written);
      p := p + 1;
      if !ok {
        return -1;
      }
    }
    DecodedAll(enc, p, written, bits, shift);
    return size;
  }

  lemma {:induction false} DecodedAll(enc: string, p: nat, written: seq<Byte>, bits: nat, shift: nat)
    requires Base64Text(Payload(enc)) && DecodedTo(Payload(enc), p, written, bits, shift)
    requires p < |enc| ==> enc[p] == NUL || enc[p] == '='
    ensures written == Decoded(enc)
  {
    var s := Payload(enc);
    PayloadStops(enc, p);
    assert s[..p] == s;
    AllDecoded(LetterValues(s), written, bits, shift);
  }

  lemma {:induction false} NoRoom(p: nat, m: nat, size: nat, shift: nat)
    requires p < m && 6 * p == 8 * size + shift
    ensures shift >= 2 ==> 3 * m / 4 > size
  {
  }

  lemma {:induction false} PayloadGoesOn(enc: string, p: nat)
    requires p < |enc| && p <= |Payload(enc)| && enc[p] != NUL && enc[p] != '='
    ensures p < |Payload(enc)| && Payload(enc)[p] == enc[p]
  {
  }

  lemma {:induction false} PayloadStops(enc: string, p: nat)
    requires p <= |Payload(enc)| && (p < |enc| ==> enc[p] == NUL || enc[p] == '=')
    ensures p == |Payload(enc)|
  {
  }

  lemma {:induction false} LetterValuesNext(s: string, p: nat)
    requires p < |s| && Base64Text(s)
    ensures LetterValues(s[..p + 1]) == LetterValues(s[..p]) + [LetterValue(s[p])]
  {
    assert s[..p + 1][..p] == s[..p];
  }

  lemma {:induction false} PayloadIs(l: string, rest: string)
    requires Base64Text(l)
    ensures Payload(l + "=" + rest) == l
  {
    var s := l + "=" + rest;
    var t := CStr(s);
    assert forall i :: 0 <= i < |l| ==> s[i] == l[i] && InAlphabet(l[i]);
    assert s[|l|] == '=';
    assert |t| > |l|;
    IndexOfIs(t, '=', |l|);
    assert t[..|l|] == l;
  }

  /** Without a terminator the whole string is read. */
  lemma {:induction false} PayloadWhole(l: string)
    requires Base64Text(l)
    ensures Payload(l) == l
  {
    assert forall i :: 0 <= i < |l| ==> InAlphabet(l[i]);
    assert NUL !in l && '=' !in l;
    assert l[..|l|] == l;
  }

  /** Decoding what was encoded: the terminator ends the payload, and the bytes come back. */
  lemma {:induction false} DecodeEncoded(x: seq<Byte>, rest: string)
    ensures Base64Text(Payload(Encoded(x) + rest)) && Decoded(Encoded(x) + rest) == x
  {
    PayloadIs(Letters(Sextets(x)), rest);
    LettersBack(Sextets(x));
    BytesOfSextets(x);
  }

  /** Different byte strings have different encodings. */
  lemma {:induction false} EncodingIsInjective(x: seq<Byte>, y: seq<Byte>)
    requires Letters(Sextets(x)) == Letters(Sextets(y))
    ensures x == y
  {
    LettersBack(Sextets(x));
    LettersBack(Sextets(y));
    BytesOfSextets(x);
    BytesOfSextets(y);
  }

  // ---------- str2md5base64 ----------

  /** A digest function to 16 bytes. */
  type Digest = d: seq<Byte> | |d| == 16 witness seq(16, _ => 0)

  /** The text of a digest. */
  function Hashed(md5: string -> Digest, s: string): (h: string)
    ensures |h| == 22 && Base64Text(h) && NUL !in h
  {
    Letters(Sextets(md5(s)))
  }

  /** str2md5base64, whose buffer of 50 bytes is never too small. */
  method Str2Md5Base64(md5: string -> Digest, s: string) returns (h: Option<string>)
    ensures h == Some(Hashed(md5, CStr(s)))
  {
    var buf := new char[50];
    var d := md5(CStr(s));
    var l := Base64Encode(d, buf, buf.Length - 1);
    if l < 1 {
      return None;
    }
    assert buf[..l - 1] == Encoded(d)[..l - 1] == Letters(Sextets(d));
    return Some(buf[..l - 1]);
  }
}
