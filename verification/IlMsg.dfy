/** Interlogger messages (il_int.c, il_string.c, il_msg.c): decimal integers and length-prefixed
    octet strings in a body behind a header of 17 bytes. */
module IlMsg {
  import opened CText
  import opened PlainIo

  const MAGIC: string := "michal"
  const HEADER := 17

  // ---------- Texts ----------

  predicate IsInt(d: int) {
    -INT_MAX - 1 <= d <= INT_MAX
  }

  function IntText(d: int): string {
    SignedDecimal(d) + "\n"
  }

  function StringText(s: string): string {
    SignedDecimal(|s|) + " " + s + "\n"
  }

  /** printf("%16d\n") of a positive int. */
  function HeaderText(n: nat): (h: string)
    requires n <= INT_MAX
    ensures |h| == HEADER
  {
    IntDigits(n);
    Repeat(' ', 16 - |Decimal(n)|) + Decimal(n) + "\n"
  }

  function MsgBody(event: string): string {
    StringText(MAGIC) + StringText(event)
  }

  function ReplyBody(major: int, minor: int, text: string): string {
    IntText(major) + IntText(minor) + StringText(text)
  }

  function Framed(body: string): string
    requires |body| <= INT_MAX
  {
    HeaderText(|body|) + body
  }

  // ---------- Writing ----------

  function LenInt(d: int): (n: nat)
    ensures n == |IntText(d)|
  {
    |SignedDecimal(d)| + 1
  }

  function LenString(s: string): (n: nat)
    ensures n == |StringText(s)|
  {
    LenInt(|s|) + |s| + 1
  }

  // Copying a text to a position of a buffer
  method PutText(buf: array<char>, p: nat, text: string) returns (q: nat)
    requires p + |text| <= buf.Length
    modifies buf
    ensures q == p + |text|
    ensures buf[..q] == old(buf[..p]) + text
  {
    forall i | 0 <= i < |text| {
      buf[p + i] := text[i];
    }
    q := p + |text|;
  }

  /** _put_int: the digits only. */
  method PutDigits(buf: array<char>, p: nat, d: int) returns (q: nat)
    requires p + |SignedDecimal(d)| <= buf.Length
    modifies buf
    ensures q == p + |SignedDecimal(d)|
    ensures buf[..q] == old(buf[..p]) + SignedDecimal(d)
  {
    q := PutText(buf, p, SignedDecimal(d));
  }

  method PutInt(buf: array<char>, p: nat, d: int) returns (q: nat)
    requires p + LenInt(d) <= buf.Length
    modifies buf
    ensures q == p + LenInt(d)
    ensures buf[..q] == old(buf[..p]) + IntText(d)
  {
    q := PutDigits(buf, p, d);
    buf[q] := '\n';
    q := q + 1;
    assert buf[..q] == buf[..q - 1] + "\n";
    Assoc(old(buf[..p]), SignedDecimal(d), "\n");
  }

  method PutString(buf: array<char>, p: nat, s: string) returns (q: nat)
    requires p + LenString(s) <= buf.Length
    modifies buf
    ensures q == p + LenString(s)
    ensures buf[..q] == old(buf[..p]) + StringText(s)
  {
    q := PutDigits(buf, p, |s|);
    buf[q] := ' ';
    q := q + 1;
    assert buf[..q] == old(buf[..p]) + SignedDecimal(|s|) + " ";
    q := PutText(buf, q, s);
    buf[q] := '\n';
    q := q + 1;
    assert buf[..q] == buf[..q - 1] + "\n";
    StringTextParts(old(buf[..p]), SignedDecimal(|s|), s);
  }

  lemma {:induction false} StringTextParts(a: string, d: string, s: string)
    ensures a + d + " " + s + "\n" == a + (d + " " + s + "\n")
  {
  }

  /** encode_il_msg: the buffer allocated from the precomputed lengths is filled exactly. */
  method EncodeMsg(event: string) returns (buffer: array<char>, len: nat)
    requires |MsgBody(event)| <= INT_MAX
    ensures fresh(buffer) && len == buffer.Length == HEADER + |MsgBody(event)|
    ensures buffer[..] == Framed(MsgBody(event))
  {
    var size := HEADER + LenString(MAGIC) + LenString(event);
    buffer := new char[size];
    var p := PutText(buffer, 0, HeaderText(size - HEADER));
    assert buffer[..p] == HeaderText(size - HEADER);
    len := PutMsg(buffer, p, event);
    assert buffer[..len] == buffer[..];
  }

  // The body of an event message
  method PutMsg(buf: array<char>, p: nat, event: string) returns (q: nat)
    requires p + LenString(MAGIC) + LenString(event) <= buf.Length
    modifies buf
    ensures q == p + |MsgBody(event)|
    ensures buf[..q] == old(buf[..p]) + MsgBody(event)
  {
    q := PutString(buf, p, MAGIC);
    q := PutString(buf, q, event);
    Assoc(old(buf[..p]), StringText(MAGIC), StringText(event));
  }

  /** encode_il_reply. */
  method EncodeReply(major: int, minor: int, text: string) returns (buffer: array<char>, len: nat)
    requires IsInt(major) && IsInt(minor) && |ReplyBody(major, minor, text)| <= INT_MAX
    ensures fresh(buffer) && len == buffer.Length == HEADER + |ReplyBody(major, minor, text)|
    ensures buffer[..] == Framed(ReplyBody(major, minor, text))
  {
    var size := HEADER + LenInt(major) + LenInt(minor) + LenString(text);
    buffer := new char[size];
    var p := PutText(buffer, 0, HeaderText(size - HEADER));
    assert buffer[..p] == HeaderText(size - HEADER);
    len := PutReply(buffer, p, major, minor, text);
    assert buffer[..len] == buffer[..];
  }

  // The body of a reply
  method PutReply(buf: array<char>, p: nat, major: int, minor: int, text: string) returns (q: nat)
    requires p + LenInt(major) + LenInt(minor) + LenString(text) <= buf.Length
    modifies buf
    ensures q == p + |ReplyBody(major, minor, text)|
    ensures buf[..q] == old(buf[..p]) + ReplyBody(major, minor, text)
  {
    q := PutInt(buf, p, major);
    q := PutInt(buf, q, minor);
    q := PutString(buf, q, text);
    ReplyParts(old(buf[..p]), IntText(major), IntText(minor), StringText(text));
  }

  lemma {:induction false} ReplyParts(h: string, a: string, b: string, c: string)
    ensures h + a + b + c == h + (a + b + c)
  {
  }

  // ---------- Reading ----------

  /** A value read from the front of a text and what follows it. */
  datatype Parsed<T> = Parsed(value: T, rest: string)

  /** get_int: digits and a line feed. */
  function GetInt(s: string): Option<Parsed<int>> {
    var n := StrToL(s);
    if n.end < |s| && s[n.end] == '\n' then Some(Parsed(ToInt32(n.value), s[n.end + 1..])) else None
  }

  // A length, a blank, so many octets and a line feed, all within the text
  function GetOctets(s: string): Option<Parsed<string>> {
    var n := StrToL(s);
    var len := ToInt32(n.value);
    var q := n.end + 1;
    if q <= |s| && s[q - 1] == ' ' && len >= 0 && q + len < |s| && s[q + len] == '\n'
    then Some(Parsed(s[q..q + len], s[q + len + 1..]))
    else None
  }

  /** get_string: the length is used but not stored with the octets, so what a caller gets is a
      C string. */
  function GetString(s: string): Option<Parsed<string>> {
    match GetOctets(s)
    case Some(p) => Some(Parsed(CStr(p.value), p.rest))
    case None => None
  }

  /** decode_il_msg: the magic word, then the event. */
  function DecodeMsg(s: string): Option<Parsed<string>> {
    match GetString(s)
    case Some(magic) => if magic.value == MAGIC then GetString(magic.rest) else None
    case None => None
  }

  datatype Reply = Reply(major: int, minor: int, text: string)

  /** decode_il_reply. */
  function DecodeReply(s: string): Option<Parsed<Reply>> {
    match GetInt(s)
    case None => None
    case Some(a) =>
      match GetInt(a.rest)
      case None => None
      case Some(b) =>
        match GetString(b.rest)
        case None => None
        case Some(c) => Some(Parsed(Reply(a.value, b.value, c.value), c.rest))
  }

  lemma {:induction false} ScanFront(d: int, rest: string)
    requires IsInt(d) && rest != "" && !IsDigit(rest[0])
    ensures StrToL(SignedDecimal(d) + rest) == Scan(d, |SignedDecimal(d)|)
  {
    ScanPrinted("", d, rest);
    assert "" + SignedDecimal(d) + rest == SignedDecimal(d) + rest;
  }

  lemma {:induction false} GetIntBack(d: int, t: string)
    requires IsInt(d)
    ensures GetInt(IntText(d) + t) == Some(Parsed(d, t))
  {
    Assoc(SignedDecimal(d), "\n", t);
    ScanFront(d, "\n" + t);
    assert (IntText(d) + t)[|SignedDecimal(d)| + 1..] == t;
  }

  lemma {:induction false} StringShape(x: string, s: string, t: string)
    ensures var b := x + " " + s + "\n" + t;
            && b == x + (" " + s + "\n" + t)
            && b[|x| + 1..|x| + 1 + |s|] == s && b[|x| + 1 + |s|] == '\n' && b[|x| + 1 + |s| + 1..] == t
  {
  }

  lemma {:induction false} GetOctetsBack(s: string, t: string)
    requires |s| <= INT_MAX
    ensures GetOctets(StringText(s) + t) == Some(Parsed(s, t))
  {
    var x := SignedDecimal(|s|);
    StringShape(x, s, t);
    ScanFront(|s|, " " + s + "\n" + t);
  }

  /** Reading a printed octet string gives it up to its first NUL, and the text behind it. */
  lemma {:induction false} GetStringBack(s: string, t: string)
    requires |s| <= INT_MAX
    ensures GetString(StringText(s) + t) == Some(Parsed(CStr(s), t))
  {
    GetOctetsBack(s, t);
  }

  lemma {:induction false} MagicBack(t: string)
    ensures GetString(StringText(MAGIC) + t) == Some(Parsed(MAGIC, t))
  {
    GetStringBack(MAGIC, t);
    assert NUL !in MAGIC;
  }

  /** Decoding the body of an encoded event gives the event up to its first NUL, whatever follows in
      the buffer. */
  lemma {:induction false} DecodeEncodedMsg(event: string, t: string)
    requires |event| <= INT_MAX
    ensures DecodeMsg(MsgBody(event) + t) == Some(Parsed(CStr(event), t))
  {
    Assoc(StringText(MAGIC), StringText(event), t);
    MagicBack(StringText(event) + t);
    GetStringBack(event, t);
    DecodeTwo(MsgBody(event) + t, StringText(event) + t, Parsed(CStr(event), t));
  }

  /** So exactly the events without a NUL come back. */
  lemma {:induction false} EventSurvivesIff(event: string, t: string)
    requires |event| <= INT_MAX
    ensures DecodeMsg(MsgBody(event) + t) == Some(Parsed(event, t)) <==> NUL !in event
  {
    DecodeEncodedMsg(event, t);
  }

  /** An event with a NUL comes back cut. */
  lemma {:induction false} NulCutsEvent()
    ensures DecodeMsg(MsgBody("a\0b")) == Some(Parsed("a", ""))
  {
    var event := "a\0b";
    CutAtNul("a", "b");
    assert event == "a" + [NUL] + "b";
    DecodeEncodedMsg(event, "");
    assert MsgBody(event) + "" == MsgBody(event);
  }

  lemma {:induction false} CutAtNul(a: string, b: string)
    requires NUL !in a
    ensures CStr(a + [NUL] + b) == a
  {
    var s := a + [NUL] + b;
    assert forall i :: 0 <= i < |a| ==> s[i] == a[i];
    IndexOfIs(s, NUL, |a|);
  }

  lemma {:induction false} DecodeTwo(s: string, rest: string, event: Parsed<string>)
    requires GetString(s) == Some(Parsed(MAGIC, rest)) && GetString(rest) == Some(event)
    ensures DecodeMsg(s) == Some(event)
  {
  }

  /** Decoding the body of an encoded reply gives both codes, negative ones included, and the text. */
  lemma {:induction false} DecodeEncodedReply(major: int, minor: int, text: string, t: string)
    requires IsInt(major) && IsInt(minor) && |text| <= INT_MAX && NUL !in text
    ensures DecodeReply(ReplyBody(major, minor, text) + t) == Some(Parsed(Reply(major, minor, text), t))
  {
    var a, b, c := IntText(major), IntText(minor), StringText(text);
    Assoc(a + b, c, t);
    Assoc(a, b, c + t);
    GetIntBack(major, b + (c + t));
    GetIntBack(minor, c + t);
    GetStringBack(text, t);
  }

  // ---------- The wire format ----------

  /** The bytes of an event and of a reply, spelled out. */
  lemma {:induction false} WireFormat(event: string, major: nat, minor: nat, text: string)
    ensures MsgBody(event) == "6 michal\n" + (Decimal(|event|) + " " + event + "\n")
    ensures ReplyBody(major, minor, text)
         == (Decimal(major) + "\n") + (Decimal(minor) + "\n") + (Decimal(|text|) + " " + text + "\n")
    ensures IntText(-1) == "-1\n"
  {
    assert Decimal(6) == "6" && Decimal(1) == "1";
    assert StringText(MAGIC) == "6" + " " + "michal" + "\n" == "6 michal\n";
  }

  /** The header: a number right-aligned in sixteen columns, and a line feed. */
  lemma {:induction false} HeaderFormat(n: nat)
    requires n <= INT_MAX
    ensures var h, d := HeaderText(n), Decimal(n);
      |h| == 17 && |d| <= 10 && h[16] == '\n' && h[16 - |d|..16] == d && forall i :: 0 <= i < 16 - |d| ==> h[i] == ' '
  {
    IntDigits(n);
    var d := Decimal(n);
    var pad := Repeat(' ', 16 - |d|);
    assert HeaderText(n) == pad + d + "\n";
    assert (pad + d + "\n")[16 - |d|..16] == d;
  }

  // ---------- Receiving ----------

  // The header is blanks, then digits, up to its end
  predicate HeaderOk(h: string) {
    var p := SkipBlanks(h, 0);
    SkipDigits(h, p) == |h|
  }

  function SkipBlanks(s: string, from: nat): (k: nat)
    requires from <= |s|
    ensures from <= k <= |s| && (k < |s| ==> s[k] != ' ')
    ensures forall i :: from <= i < k ==> s[i] == ' '
    decreases |s| - from
  {
    if from == |s| || s[from] != ' ' then from else SkipBlanks(s, from + 1)
  }

  /** The body length that a header announces, or a value that is not positive. */
  function HeaderLength(h: string): int
    requires |h| == HEADER
  {
    var text := CStr(h[..16]);
    if h[16] != '\n' || !HeaderOk(text) then -1 else Atoi(text)
  }

  lemma {:induction false} SkipBlanksIs(s: string, from: nat, k: nat)
    requires from <= k <= |s| && (forall i :: from <= i < k ==> s[i] == ' ') && (k < |s| ==> s[k] != ' ')
    ensures SkipBlanks(s, from) == k
  {
  }

  lemma {:induction false} PaddedHeader(pad: string, n: nat)
    requires n <= INT_MAX && forall i :: 0 <= i < |pad| ==> pad[i] == ' '
    ensures var text := pad + Decimal(n); NUL !in text && HeaderOk(text) && Atoi(text) == n
  {
    var d, k := Decimal(n), |pad|;
    var text := pad + d;
    assert forall i :: 0 <= i < k ==> text[i] == ' ';
    assert forall i :: k <= i < |text| ==> IsDigit(text[i]);
    SkipBlanksIs(text, 0, k);
    SkipDigitsIs(text, k, |text|);
    ScanPrinted(pad, n, "");
    assert pad + SignedDecimal(n) + "" == text;
  }

  lemma {:induction false} HeaderBack(n: nat)
    requires n <= INT_MAX
    ensures HeaderLength(HeaderText(n)) == n
  {
    var h := HeaderText(n);
    IntDigits(n);
    var pad := Repeat(' ', 16 - |Decimal(n)|);
    PaddedHeader(pad, n);
    assert h[..16] == pad + Decimal(n) && h[16] == '\n';
  }

  /** Exactly these headers are taken: sixteen characters, of which those before the first NUL are
      blanks and then digits, and a line feed; they announce the number of the digits. */
  lemma {:induction false} HeaderTaken(h: string, pad: string, d: string)
    requires |h| == HEADER && h[16] == '\n' && CStr(h[..16]) == pad + d && AllDigits(d)
    requires forall i :: 0 <= i < |pad| ==> pad[i] == ' '
    ensures d != "" && Number(d) <= LONG_MAX ==> HeaderLength(h) == ToInt32(Number(d))
    ensures d == "" ==> HeaderLength(h) == 0
  {
    BlanksAndDigits(pad, d);
    if d == "" {
      ScanNothing(pad, "", "");
      assert pad + "" + "" == pad + d;
    } else {
      ScanSigned(pad, "", d, "");
      assert pad + "" + d + "" == pad + d;
    }
  }

  lemma {:induction false} BlanksAndDigits(pad: string, d: string)
    requires AllDigits(d) && forall i :: 0 <= i < |pad| ==> pad[i] == ' '
    ensures HeaderOk(pad + d)
  {
    var text := pad + d;
    assert forall i :: |pad| <= i < |text| ==> text[i] == d[i - |pad|];
    SkipBlanksIs(text, 0, |pad|);
    SkipDigitsIs(text, |pad|, |text|);
  }

  lemma {:induction false} HeaderRefused(h: string, i: nat)
    requires |h| == HEADER
    requires var text := CStr(h[..16]);
      h[16] != '\n'
      || (i < |text| && text[i] != ' ' && !IsDigit(text[i]))
      || (i + 1 < |text| && IsDigit(text[i]) && text[i + 1] == ' ')
    ensures HeaderLength(h) == -1
  {
    NotInOrder(CStr(h[..16]), i);
  }

  lemma {:induction false} NotInOrder(text: string, i: nat)
    ensures HeaderOk(text) ==>
              && (i < |text| ==> text[i] == ' ' || IsDigit(text[i]))
              && (i + 1 < |text| && IsDigit(text[i]) ==> text[i + 1] != ' ')
  {
  }

  // The header: its length, or a value that is not positive after any error
  method ReadHeader(conn: PlainConnection) returns (len: int)
    requires conn.Valid()
    modifies conn, conn.buf
    ensures conn.Valid() && (conn.buf == old(conn.buf) || fresh(conn.buf))
    ensures Faultless(old(conn.sock)) ==> Faultless(conn.sock)
    ensures len > 0 ==> HasHeader(old(conn.Pending()), len) && conn.Pending() == old(conn.Pending())[HEADER..]
    ensures Faultless(old(conn.sock)) ==> (len > 0 <==> HasHeader(old(conn.Pending()), len))
    ensures Faultless(old(conn.sock)) && len <= 0 ==> forall n :: n > 0 ==> !HasHeader(old(conn.Pending()), n)
  {
    var buf := new char[HEADER];
    ghost var all := conn.Pending();
    var r;
    ghost var got;
    r, got := conn.ReadFull(buf, HEADER);
    if r < 0 {
      return -1;
    }
    assert buf[..] == buf[..got] == all[..HEADER];
    len := HeaderLength(buf[..]);
    assert conn.Pending() == all[HEADER..];
  }

  ghost predicate HasHeader(s: string, len: int) {
    |s| >= HEADER && len > 0 && HeaderLength(s[..HEADER]) == len
  }

  // The body of the announced length
  method ReadBody(conn: PlainConnection, len: nat) returns (body: Option<string>)
    requires conn.Valid()
    modifies conn, conn.buf
    ensures conn.Valid() && (conn.buf == old(conn.buf) || fresh(conn.buf))
    ensures Faultless(old(conn.sock)) ==> Faultless(conn.sock)
    ensures body.Some? ==> |body.value| == len && old(conn.Pending()) == body.value + conn.Pending()
    ensures Faultless(old(conn.sock)) ==> (body.Some? <==> |old(conn.Pending())| >= len)
  {
    var buffer := new char[len + 1];
    var r;
    ghost var got;
    r, got := conn.ReadFull(buffer, len);
    if r < 0 {
      return None;
    }
    buffer[len] := NUL;
    return Some(buffer[..len]);
  }

  /** read_il_data through plain_reader: one body, or None after any error. */
  method ReadIlData(conn: PlainConnection) returns (body: Option<string>)
    requires conn.Valid()
    modifies conn, conn.buf
    ensures conn.Valid() && (conn.buf == old(conn.buf) || fresh(conn.buf))
    ensures Faultless(old(conn.sock)) ==> Faultless(conn.sock)
    ensures body.Some? ==> IsFrame(old(conn.Pending()), body.value, conn.Pending())
    ensures Faultless(old(conn.sock)) ==> (body.Some? <==> HasFrame(old(conn.Pending())))
  {
    ghost var all := conn.Pending();
    var len := ReadHeader(conn);
    if len <= 0 {
      assert Faultless(old(conn.sock)) ==> !HasHeader(all, HeaderLengthOf(all));
      return None;
    }
    body := ReadBody(conn, len);
  }

  ghost function HeaderLengthOf(s: string): int {
    if |s| >= HEADER then HeaderLength(s[..HEADER]) else -1
  }

  // A header and the body of the announced length stand in front of `rest`
  ghost predicate IsFrame(s: string, body: string, rest: string) {
    |s| >= HEADER && body != "" && HeaderLength(s[..HEADER]) == |body| && s[HEADER..] == body + rest
  }

  // A valid header with a complete body behind it
  ghost predicate HasFrame(s: string) {
    |s| >= HEADER && 0 < HeaderLength(s[..HEADER]) <= |s| - HEADER
  }

  // ---------- A stream of events ----------

  predicate Encodable(events: seq<string>) {
    forall i :: 0 <= i < |events| ==> |MsgBody(events[i])| <= INT_MAX
  }

  /** The concatenated encodings of the events. */
  function Frames(events: seq<string>): string
    requires Encodable(events)
  {
    if events == [] then "" else Framed(MsgBody(events[0])) + Frames(events[1..])
  }

  // A frame is found in front of any text, and what it holds is determined
  lemma {:induction false} FrameInFront(body: string, rest: string)
    requires 0 < |body| <= INT_MAX
    ensures HasFrame(Framed(body) + rest)
    ensures forall b, r :: IsFrame(Framed(body) + rest, b, r) ==> b == body && r == rest
  {
    var s := Framed(body) + rest;
    HeaderBack(|body|);
    assert s[..HEADER] == HeaderText(|body|);
    assert s[HEADER..] == body + rest;
    forall b, r | IsFrame(s, b, r) ensures b == body && r == rest {
      assert (b + r)[..|b|] == b && (b + r)[|b|..] == r;
      assert (body + rest)[..|b|] == body && (body + rest)[|b|..] == rest;
    }
  }

  /** One read_il_data and one decode_il_msg, as the receiving daemon does for every message. */
  method ReceiveEvent(conn: PlainConnection) returns (event: Option<string>)
    requires conn.Valid()
    modifies conn, conn.buf
    ensures conn.Valid() && (conn.buf == old(conn.buf) || fresh(conn.buf))
    ensures Faultless(old(conn.sock)) ==> Faultless(conn.sock)
    ensures event.Some? ==> exists body ::
      IsFrame(old(conn.Pending()), body, conn.Pending()) && DecodesTo(body, event.value)
    ensures Faultless(old(conn.sock)) && event.None? ==>
      !HasFrame(old(conn.Pending())) || exists body ::
      IsFrame(old(conn.Pending()), body, conn.Pending()) && DecodeMsg(body).None?
  {
    var body := ReadIlData(conn);
    if body.None? {
      return None;
    }
    var m := DecodeMsg(body.value);
    return if m.Some? then Some(m.value.value) else None;
  }

  predicate DecodesTo(body: string, event: string) {
    DecodeMsg(body).Some? && DecodeMsg(body).value.value == event
  }

  // What ReceiveEvent promises pins down the event in front
  lemma {:induction false} EventInFront(event: string, rest: string)
    requires |MsgBody(event)| <= INT_MAX
    ensures var s := Framed(MsgBody(event)) + rest;
      && HasFrame(s)
      && forall b, r :: IsFrame(s, b, r) ==> r == rest && DecodesTo(b, CStr(event))
  {
    FrameInFront(MsgBody(event), rest);
    DecodeEncodedMsg(event, "");
    assert MsgBody(event) + "" == MsgBody(event);
  }

  // The next event of a stream
  method ReceiveNext(conn: PlainConnection, ghost events: seq<string>, ghost rest: string) returns (event: string)
    requires conn.Valid() && Faultless(conn.sock) && events != [] && Encodable(events)
    requires conn.Pending() == Frames(events) + rest
    modifies conn, conn.buf
    ensures conn.Valid() && Faultless(conn.sock) && (conn.buf == old(conn.buf) || fresh(conn.buf))
    ensures event == CStr(events[0]) && conn.Pending() == Frames(events[1..]) + rest
  {
    Assoc(Framed(MsgBody(events[0])), Frames(events[1..]), rest);
    EventInFront(events[0], Frames(events[1..]) + rest);
    var e := ReceiveEvent(conn);
    event := e.value;
  }

  /** What C strings keep of the events. */
  function CStrs(events: seq<string>): (r: seq<string>)
    ensures |r| == |events| && forall i :: 0 <= i < |r| ==> r[i] == CStr(events[i])
  {
    seq(|events|, i requires 0 <= i < |events| => CStr(events[i]))
  }

  /** However the concatenated encodings of any events were cut into pieces, repeated receiving
      returns these events in order, each up to its first NUL, and leaves what follows them. All come
      back whole exactly when none has a NUL. */
  method ReceiveEvents(conn: PlainConnection, n: nat, ghost events: seq<string>, ghost rest: string)
    returns (received: seq<string>)
    requires conn.Valid() && Faultless(conn.sock) && n == |events| && Encodable(events)
    requires conn.Pending() == Frames(events) + rest
    modifies conn, conn.buf
    ensures received == CStrs(events) && conn.Valid() && conn.Pending() == rest
    ensures received == events <==> forall i :: 0 <= i < |events| ==> NUL !in events[i]
  {
    received := ReceiveMany(conn, n, events, rest);
    WholeIff(events);
  }

  method ReceiveMany(conn: PlainConnection, n: nat, ghost events: seq<string>, ghost rest: string)
    returns (received: seq<string>)
    requires conn.Valid() && Faultless(conn.sock) && n == |events| && Encodable(events)
    requires conn.Pending() == Frames(events) + rest
    modifies conn, conn.buf
    ensures received == CStrs(events) && conn.Valid() && conn.Pending() == rest
  {
    received := [];
    ghost var left := events;
    while |received| < n
      invariant conn.Valid() && Faultless(conn.sock) && (conn.buf == old(conn.buf) || fresh(conn.buf))
      invariant Encodable(left) && received + CStrs(left) == CStrs(events)
      invariant conn.Pending() == Frames(left) + rest
    {
      var event := ReceiveNext(conn, left, rest);
      OneMore(received, left);
      received := received + [event];
      left := left[1..];
    }
    assert left == [];
  }

  lemma {:induction false} OneMore(done: seq<string>, left: seq<string>)
    requires left != []
    ensures done + [CStr(left[0])] + CStrs(left[1..]) == done + CStrs(left)
  {
  }

  lemma {:induction false} WholeIff(events: seq<string>)
    ensures CStrs(events) == events <==> forall i :: 0 <= i < |events| ==> NUL !in events[i]
  {
    if CStrs(events) == events {
      forall i | 0 <= i < |events| ensures NUL !in events[i] {
        assert CStrs(events)[i] == CStr(events[i]);
      }
    }
  }
}
