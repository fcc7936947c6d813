/** Event attributes in ULM lines, end to end: the producer escapes and quotes each text
    (escape.c), the line is parsed, and the reader removes the quotes and the escapes
    (events_parse.c.T). */
module UlmEvents {
  import opened CText
  import opened UlmLine
  import opened UlmFields
  import opened UlmParse

  // ---------- Escaping ----------

  function EscapeChar(c: char): string {
    if c == ULM_BS || c == ULM_QM then [ULM_BS, c]
    else if c == LF then [ULM_BS, 'n']
    else [c]
  }

  function Escape(t: string): string {
    if t == "" then "" else Escape(t[..|t| - 1]) + EscapeChar(t[|t| - 1])
  }

  /** The text that an escaped text stands for; a lone backslash at the end ends the C string. */
  function Unescape(s: string): string {
    if s == "" then ""
    else if s[0] != ULM_BS then [s[0]] + Unescape(s[1..])
    else if |s| == 1 then ""
    else [if s[1] == 'n' then LF else s[1]] + Unescape(s[2..])
  }

  /** Escaped texts have no line feed, so an event stays one line, and what is escaped in them is
      marked by a backslash. */
  lemma {:induction false} EscapedIsOneLine(t: string)
    ensures LF !in Escape(t)
    ensures Escape("\n") == "\\n" && Escape("\"") == "\\\"" && Escape("\\") == "\\\\"
  {
    OneEscaped('\n');
    OneEscaped('"');
    OneEscaped('\\');
    if t != "" {
      EscapedIsOneLine(t[..|t| - 1]);
    }
  }

  lemma {:induction false} OneEscaped(c: char)
    ensures Escape([c]) == EscapeChar(c)
  {
    assert [c][..0] == "";
    assert Escape([c]) == Escape("") + EscapeChar(c);
  }

  lemma {:induction false} EscapeLength(t: string, i: nat)
    requires i <= |t|
    ensures |Escape(t[..i])| <= 2 * i
  {
    if i > 0 {
      EscapeLength(t, i - 1);
      assert t[..i][..i - 1] == t[..i - 1];
    }
  }

  lemma {:induction false} EscapeStep(t: string, i: nat)
    requires i < |t|
    ensures Escape(t[..i + 1]) == Escape(t[..i]) + EscapeChar(t[i])
    ensures |Escape(t[..i])| <= 2 * i
  {
    assert t[..i + 1][..i] == t[..i] && t[..i + 1][i] == t[i];
    EscapeLength(t, i);
  }

  // One character, with a backslash in front if it needs one
  method PutEscaped(buf: array<char>, j: nat, c: char) returns (k: nat)
    requires j + 2 <= buf.Length
    modifies buf
    ensures k == j + |EscapeChar(c)| && buf[..k] == old(buf[..j]) + EscapeChar(c)
  {
    if c != ULM_BS && c != ULM_QM && c != LF {
      buf[j] := c;
      k := j + 1;
    } else {
      buf[j] := ULM_BS;
      if c == LF {
        buf[j + 1] := 'n';
      } else {
        buf[j + 1] := c;
      }
      k := j + 2;
    }
  }

  /** glite_lbu_EscapeULM on a non-NULL string. */
  method EscapeULM(str: string) returns (ret: string)
    requires NUL !in str
    ensures ret == Escape(str)
  {
    var size := |str|;
    if size == 0 {
      return "";
    }
    var buf := new char[1 + 2 * size];
    var j := 0;
    for i := 0 to size
      invariant j == |Escape(str[..i])| <= 2 * i
      invariant buf[..j] == Escape(str[..i])
    {
      EscapeStep(str, i);
      j := PutEscaped(buf, j, str[i]);
    }
    assert str[..size] == str;
    buf[j] := NUL;
    return buf[..j];
  }

  lemma {:induction false} UnescapeOne(c: char, s: string)
    ensures Unescape(EscapeChar(c) + s) == [c] + Unescape(s)
  {
    var e := EscapeChar(c);
    if |e| == 2 {
      assert (e + s)[2..] == s;
    } else {
      assert (e + s)[1..] == s;
    }
  }

  lemma {:induction false} UnescapeAll(t: string, s: string)
    ensures Unescape(Escape(t) + s) == t + Unescape(s)
    decreases |t|
  {
    if t == "" {
      assert Escape(t) + s == s && t + Unescape(s) == Unescape(s);
    } else {
      var n := |t| - 1;
      var e := EscapeChar(t[n]);
      calc {
        Unescape(Escape(t) + s);
        { Assoc(Escape(t[..n]), e, s); }
        Unescape(Escape(t[..n]) + (e + s));
        { UnescapeAll(t[..n], e + s); }
        t[..n] + Unescape(e + s);
        { UnescapeOne(t[n], s); }
        t[..n] + ([t[n]] + Unescape(s));
        { Assoc(t[..n], [t[n]], Unescape(s)); assert t[..n] + [t[n]] == t; }
        t + Unescape(s);
      }
    }
  }

  /** Unescaping undoes escaping, for every text. */
  lemma {:induction false} UnescapeEscape(t: string)
    ensures Unescape(Escape(t)) == t
  {
    UnescapeAll(t, "");
    assert Escape(t) + "" == Escape(t) && t + "" == t;
  }

  // `b` is what has been written when the loop is at position i; behind a lone final backslash it ends
  // with a NUL of its own
  ghost predicate UnescapedTo(str: string, i: nat, b: string) {
    if i <= |str| then b + Unescape(str[i..]) == Unescape(str) && NUL !in b
    else i == |str| + 1 && b != "" && b[|b| - 1] == NUL && b[..|b| - 1] == Unescape(str) && NUL !in b[..|b| - 1]
  }

  // The character written at position i, and the position of the last character read for it
  function ReadOne(str: string, i: nat): (r: (char, nat))
    requires i < |str|
    ensures i <= r.1 <= i + 1
  {
    if str[i] != ULM_BS then (str[i], i)
    else if i + 1 < |str| then (if str[i + 1] == 'n' then LF else str[i + 1], i + 1)
    else (NUL, i + 1)
  }

  lemma {:induction false} ReadOneUnescapes(str: string, i: nat)
    requires i < |str|
    ensures var (c, k) := ReadOne(str, i);
      Unescape(str[i..]) == if k < |str| then [c] + Unescape(str[k + 1..]) else ""
  {
    var rest := str[i..];
    assert rest[1..] == str[i + 1..];
    if i + 1 < |str| {
      assert rest[2..] == str[i + 2..];
    }
  }

  lemma {:induction false} UnescapeNext(str: string, i: nat, b: string)
    requires NUL !in str && i < |str| && UnescapedTo(str, i, b)
    ensures var (c, k) := ReadOne(str, i); UnescapedTo(str, k + 1, b + [c])
  {
    var (c, k) := ReadOne(str, i);
    ReadOneUnescapes(str, i);
    if k < |str| {
      Assoc(b, [c], Unescape(str[k + 1..]));
    } else {
      assert (b + [c])[..|b|] == b && b + "" == b;
    }
  }

  // What the C string function sees at the end
  lemma {:induction false} UnescapedText(str: string, i: nat, b: string)
    requires |str| <= i && UnescapedTo(str, i, b)
    ensures CStr(b) == Unescape(str)
  {
    if i == |str| {
      assert str[i..] == "" && b + "" == b;
    } else {
      IndexOfIs(b, NUL, |b| - 1);
    }
  }

  method ReadEscaped(str: string, i: nat) returns (c: char, k: nat)
    requires i < |str|
    ensures (c, k) == ReadOne(str, i)
  {
    c, k := str[i], i;
    if c == ULM_BS {
      k := k + 1;
      c := if k < |str| then str[k] else NUL;
      c := if c == 'n' then LF else c;
    }
  }

  /** glite_lbu_UnescapeULM on a non-empty string. */
  method UnescapeULM(str: string) returns (ret: string)
    requires str != "" && NUL !in str
    ensures ret == Unescape(str)
  {
    var size := |str|;
    var buf := new char[1 + size];
    var i, j := 0, 0;
    assert str[0..] == str && buf[..0] == "";
    while i < size
      invariant j <= i <= size + 1 && j <= size
      invariant UnescapedTo(str, i, buf[..j])
    {
      UnescapeNext(str, i, buf[..j]);
      var c;
      c, i := ReadEscaped(str, i);
      buf[j] := c;
      assert buf[..j + 1] == buf[..j] + [c];
      i, j := i + 1, j + 1;
    }
    UnescapedText(str, i, buf[..j]);
    ret := CStr(buf[..j]);
  }

  // ---------- Quoted values ----------

  /** A text as it is printed into a log line. */
  function Quoted(t: string): string {
    [ULM_QM] + Escape(t) + [ULM_QM]
  }

  /** my_edg_wll_ULMGetValueAt: surrounding quotes are removed, then escapes. */
  function TextOf(v: string): string {
    var inner := if v != "" && v[0] == ULM_QM && v[|v| - 1] == ULM_QM
                 then (if |v| > 2 then v[1..|v| - 1] else "")
                 else v;
    if |v| > 2 then Unescape(inner) else inner
  }

  /** A value without quotes and backslashes is its own text. */
  lemma {:induction false} TextOfPlain(v: string)
    requires ULM_QM !in v && ULM_BS !in v
    ensures TextOf(v) == v
  {
    PlainUnescaped(v);
  }

  lemma {:induction false} PlainUnescaped(s: string)
    requires ULM_BS !in s
    ensures Unescape(s) == s
  {
    if s != "" {
      PlainUnescaped(s[1..]);
      assert s == [s[0]] + s[1..];
    }
  }

  lemma {:induction false} TextOfQuoted(t: string)
    ensures TextOf(Quoted(t)) == t
  {
    var v := Quoted(t);
    assert v[1..|v| - 1] == Escape(t);
    UnescapeEscape(t);
  }

  // A quote has been opened at the start and is still open
  ghost predicate StillOpen(s: string) {
    && s != "" && s[0] == ULM_QM && NUL !in s && QuoteAt(s, |s|) == Inside
    && forall i :: 0 < i < |s| ==> QuoteAt(s, i) != Outside && (QuoteAt(s, i) == Inside ==> s[i] != ULM_QM)
  }

  lemma {:induction false} OneMoreChar(s: string, t: string, c: char)
    requires StillOpen(s) && c != NUL && t == s + EscapeChar(c)
    ensures StillOpen(t)
  {
    var n := |s|;
    forall i | 0 <= i <= n
      ensures QuoteAt(t, i) == QuoteAt(s, i)
    {
      QuotePrefix(s, t, i);
    }
    assert t[n] == EscapeChar(c)[0];
    assert QuoteAt(t, n + 1) == After(Inside, t[n]);
    if |t| == n + 2 {
      assert QuoteAt(t, n + 2) == After(QuoteAt(t, n + 1), t[n + 1]);
    }
    forall i | 0 < i < |t|
      ensures QuoteAt(t, i) != Outside && (QuoteAt(t, i) == Inside ==> t[i] != ULM_QM)
    {
      if i < n {
        assert t[i] == s[i];
      }
    }
  }

  lemma {:induction false} EscapedStaysOpen(t: string)
    requires NUL !in t
    ensures StillOpen([ULM_QM] + Escape(t))
    decreases |t|
  {
    if t == "" {
      var s := [ULM_QM] + Escape(t);
      assert s == [ULM_QM];
      assert QuoteAt(s, 1) == After(QuoteAt(s, 0), ULM_QM);
    } else {
      var n := |t| - 1;
      EscapedStaysOpen(t[..n]);
      Assoc([ULM_QM], Escape(t[..n]), EscapeChar(t[n]));
      OneMoreChar([ULM_QM] + Escape(t[..n]), [ULM_QM] + Escape(t), t[n]);
    }
  }

  /** Every quoted and escaped text can stand as a value in a log line. */
  lemma {:induction false} QuotedIsValue(t: string)
    requires NUL !in t
    ensures ValueOk(Quoted(t))
  {
    var s := [ULM_QM] + Escape(t);
    var v := Quoted(t);
    var n := |s|;
    EscapedStaysOpen(t);
    assert v == s + [ULM_QM];
    forall i | 0 <= i <= n
      ensures QuoteAt(v, i) == QuoteAt(s, i)
    {
      QuotePrefix(s, v, i);
    }
    assert QuoteAt(v, n + 1) == After(Inside, ULM_QM);
    forall i | 0 <= i < |v|
      ensures LegalAt(v, i) && !CutAt(v, i)
    {
      if 0 < i < n {
        assert v[i] == s[i];
      }
    }
  }

  // ---------- From texts to a line and back ----------

  datatype Attribute = Attribute(name: string, text: string)

  predicate AttributesOk(attrs: seq<Attribute>) {
    forall i :: 0 <= i < |attrs| ==> NameOk(attrs[i].name) && NUL !in attrs[i].text
  }

  function ToFields(attrs: seq<Attribute>): seq<Field> {
    seq(|attrs|, i requires 0 <= i < |attrs| => Field(attrs[i].name, Quoted(attrs[i].text)))
  }

  /** Any texts, printed as quoted attributes, make a legal line whose k-th field reads back as the
      k-th name and text. */
  lemma {:induction false} AttributesSurvive(attrs: seq<Attribute>, k: nat)
    requires AttributesOk(attrs) && k < |attrs|
    ensures var s := Line(ToFields(attrs));
            && Legal(s) && |Equals(s, |s|)| == |attrs|
            && FieldAt(s, k).name == attrs[k].name && TextOf(FieldAt(s, k).value) == attrs[k].text
  {
    var fs := ToFields(attrs);
    forall i | 0 <= i < |fs|
      ensures NameOk(fs[i].name) && ValueOk(fs[i].value)
    {
      QuotedIsValue(attrs[i].text);
    }
    PrintParse(fs);
    TextOfQuoted(attrs[k].text);
  }

  lemma {:induction false} KeepsLeading(s: string)
    requires s == "" || !IsBlank(s[0])
    ensures DropBlanks(s) == s
  {
  }

  // All fields of a parsed line, through the two accessors
  method ReadBack(table: ULMFields, ghost s: string, ghost raw0: seq<char>, ghost fs: seq<Field>)
    returns (back: seq<Field>)
    requires s == CStr(raw0) && |s| < |raw0| && table.Parsed(s, raw0) && HasFields(s, fs)
    ensures back == fs
  {
    FieldCount(table, s, raw0, fs);
    back := [];
    for k := 0 to table.num
      invariant back == fs[..k]
    {
      var f := ReadField(table, k, s, raw0, fs);
      back := back + [f];
    }
  }

  lemma {:induction false} FieldCount(table: ULMFields, s: string, raw0: seq<char>, fs: seq<Field>)
    requires table.Parsed(s, raw0) && HasFields(s, fs)
    ensures table.num == |fs|
  {
  }

  method ReadField(table: ULMFields, k: nat, ghost s: string, ghost raw0: seq<char>, ghost fs: seq<Field>)
    returns (f: Field)
    requires s == CStr(raw0) && |s| < |raw0| && table.Parsed(s, raw0) && HasFields(s, fs) && k < table.num == |fs|
    ensures f == fs[k]
  {
    var name := table.GetNameAt(k, s, raw0);
    var value := table.GetValueAt(k, s, raw0);
    f := Field(name.text, value.text);
    assert f == FieldAt(s, k);
  }

  // A new table for a line without leading blanks, parsed
  method ParseLine(line: string) returns (r: ParseResult, table: ULMFields, ghost raw0: seq<char>)
    requires NUL !in line && (line == "" || !IsBlank(line[0]))
    ensures fresh(table) && line == CStr(raw0) && |line| < |raw0|
    ensures r == PARSE_OK ==> Legal(line) && table.Parsed(line, raw0) && !TooManyFields(line)
    ensures r == PARSE_ERROR ==> !Legal(line)
    ensures r == OVERFLOW ==> TooManyFields(line)
  {
    KeepsLeading(line);
    table := new ULMFields(line);
    raw0 := table.raw[..];
    r := table.ProcessParseTable();
  }

  /** The parser itself, on any printed line: it gives back exactly the fields that were printed if
      they are at most a hundred, and overruns its index arrays if they are more. */
  method ParsePrinted(fs: seq<Field>) returns (r: ParseResult, back: seq<Field>)
    requires FieldsOk(fs) && fs != []
    ensures r == if |fs| <= 100 then PARSE_OK else OVERFLOW
    ensures r == PARSE_OK ==> back == fs
  {
    PrintParse(fs);
    LineStart(fs);
    var table;
    ghost var raw0;
    r, table, raw0 := ParseLine(Line(fs));
    back := [];
    if r == PARSE_OK {
      back := ReadBack(table, Line(fs), raw0, fs);
    }
  }

  /** A legal line on which the arrays overflow: one field too many. */
  method OneFieldTooMany() returns (r: ParseResult)
    ensures r == OVERFLOW
  {
    var f := Field("A", "b");
    var fs := seq(101, _ => f);
    assert ValueOk("b") by {
      assert QuoteAt("b", 0) == Outside && QuoteAt("b", 1) == After(Outside, 'b');
    }
    var back;
    r, back := ParsePrinted(fs);
  }

  /** The parser on lines whose names are made of the listed characters. */
  method ParseListed(fs: seq<Field>) returns (r: ParseResult, back: seq<Field>)
    requires fs != [] && FieldsListed(fs)
    ensures r == if |fs| <= 100 then PARSE_OK else OVERFLOW
    ensures r == PARSE_OK ==> back == fs
  {
    ListedNamesOk(fs);
    r, back := ParsePrinted(fs);
  }

  /** The parser on a line with another name behind some fields. */
  method ParseOther(fs: seq<Field>, x: string, c: char, y: string, t: string) returns (r: ParseResult)
    requires FieldsOk(fs) && fs != [] && OtherName(x, c, y) && NUL !in x + [c] + y + t
    ensures r != PARSE_OK
  {
    OtherNamesRefused(fs, x, c, y, t);
    OtherLineText(fs, x, c, y, t);
    var table;
    ghost var raw0;
    r, table, raw0 := ParseLine(OtherLine(fs, x, c, y, t));
  }

  lemma {:induction false} OtherLineText(fs: seq<Field>, x: string, c: char, y: string, t: string)
    requires FieldsOk(fs) && fs != [] && NUL !in x + [c] + y + t
    ensures var s := OtherLine(fs, x, c, y, t); s != "" && NUL !in s && !IsBlank(s[0])
  {
    PrintParse(fs);
    LineStart(fs);
    NoNulJoined(x, c, y, t);
    assert OtherLine(fs, x, c, y, t)[0] == Line(fs)[0];
  }

  lemma {:induction false} NoNulJoined(x: string, c: char, y: string, t: string)
    requires NUL !in x + [c] + y + t
    ensures NUL !in " " + x + [c] + y + ("=" + t)
  {
    var whole := x + [c] + y + t;
    forall d | d in x || d == c || d in y || d in t ensures d in whole {
    }
  }

  /** A line as the producer writes it. */
  method ParseJobId() returns (r: ParseResult, back: seq<Field>)
    ensures Line(JobIdFields()) == "DATE=1 DG.JOBID=\"x\""
    ensures r == PARSE_OK && back == JobIdFields()
  {
    JobIdLine();
    JobIdListed();
    r, back := ParseListed(JobIdFields());
  }

  function JobIdFields(): seq<Field> {
    [Field("DATE", "1"), Field("DG.JOBID", "\"x\"")]
  }

  lemma {:induction false} JobIdLine()
    ensures Line(JobIdFields()) == "DATE=1 DG.JOBID=\"x\""
  {
    var fs := JobIdFields();
    assert fs[..1] == [fs[0]];
    assert Line(fs) == Line(fs[..1]) + " " + Print(fs[1]);
  }

  lemma {:induction false} JobIdListed()
    ensures FieldsListed(JobIdFields())
  {
    assert ValueOk("1") by {
      assert QuoteAt("1", 0) == Outside && QuoteAt("1", 1) == After(Outside, '1');
    }
    QuotedIsValue("x");
    assert Quoted("x") == "\"x\"" by {
      assert Escape("x") == Escape("") + EscapeChar('x');
    }
    ListedIff("DATE");
    ListedIff("DG.JOBID");
  }
}
