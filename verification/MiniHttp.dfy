/** The HTTP subset spoken between L&B components (mini_http.c): one first line, header lines, and
    a body whose length is announced by Content-Length (sections 3 and 3.3.2 of RFC 7230).

    `Receive` says what one message at the front of a byte stream is, without any notion of reads
    or buffers. `Connection.Recv` is the incremental receiver, proved to compute exactly that.
  */
module MiniHttp {
  import opened CText
  import opened GssStream

  const CONTENT_LENGTH: string := "Content-Length:"

  datatype Message = Message(first: string, head: seq<string>, body: Option<string>)

  datatype ErrorCode = ENOTCONN | ETIMEDOUT | E2BIG | ERROR_GSS | Errno(code: int)

  datatype RecvResult =
    | Received(msg: Message)
    | Error(code: ErrorCode)
    | UndefinedBehaviour  // a negative Content-Length followed by body bytes

  function ReadError(f: Failure): ErrorCode {
    match f
    case EOF => ENOTCONN
    case TIMEOUT => ETIMEDOUT
    case GSS => ERROR_GSS
    case ERRNO(e) => if e == ECONNRESET then ENOTCONN else Errno(e)
  }

  // real_write
  function WriteError(f: Failure): ErrorCode {
    match f
    case EOF => ENOTCONN
    case TIMEOUT => ETIMEDOUT
    case GSS => ERROR_GSS
    case ERRNO(e) => if e == EPIPE then ENOTCONN else Errno(e)
  }

  /** The number that a caller compares. */
  function CodeNumber(e: ErrorCode): int {
    match e
    case ENOTCONN => CText.ENOTCONN
    case ETIMEDOUT => 110
    case E2BIG => 7
    case ERROR_GSS => 1413
    case Errno(n) => n
  }

  // ---------- What the front of a stream means ----------

  datatype Line = Line(text: string, rest: string) | TooLong | Partial

  /** The line at the front of `s`, which ends at the first CR if LF follows it. It has to fit a
      buffer of BUFSIZ bytes including its line end. */
  function TakeLine(s: string): (r: Line)
    ensures r.Line? ==> |r.rest| < |s| && CR !in r.text && |r.text| + 2 <= 8192
                        && s == r.text + CRLF + r.rest
    ensures r.TooLong? ==> |s| >= 8192
    ensures r.Partial? ==> |s| < 8192
  {
    var p := IndexOf(s, CR);
    if p + 2 <= |s| && p + 2 <= BUFSIZ && s[p + 1] == LF then
      assert s == s[..p] + [s[p], s[p + 1]] + s[p + 2..];
      Line(s[..p], s[p + 2..])
    else if |s| >= BUFSIZ then TooLong
    else Partial
  }

  // strncasecmp(h, "Content-Length:", 15) == 0
  predicate IsContentLength(h: string) {
    |CONTENT_LENGTH| <= |h| && forall i :: 0 <= i < |CONTENT_LENGTH| ==> ToLower(h[i]) == ToLower(CONTENT_LENGTH[i])
  }

  /** The announced body length after header `h`, when `clen` was announced before it. */
  function NextLength(clen: int, h: string): int {
    if IsContentLength(h) then Atoi(h[|CONTENT_LENGTH|..]) else clen
  }

  /** The body length that a list of headers announces: the last Content-Length wins. */
  function HeadLength(head: seq<string>): int {
    if head == [] then 0 else NextLength(HeadLength(head[..|head| - 1]), head[|head| - 1])
  }

  /** Exactly the headers that start with the fifteen letters, in either case, announce a length, and it
      is the number behind them. */
  lemma {:induction false} AnnouncesIff(clen: int, h: string)
    ensures var announces := |h| >= 15 && Lowered(h[..15]) == "content-length:";
      && (IsContentLength(h) <==> announces)
      && NextLength(clen, h) == if announces then Atoi(h[15..]) else clen
  {
    var low := "content-length:";
    assert forall i :: 0 <= i < 15 ==> ToLower(CONTENT_LENGTH[i]) == low[i];
    if |h| >= 15 {
      assert forall i :: 0 <= i < 15 ==> Lowered(h[..15])[i] == ToLower(h[i]);
      if IsContentLength(h) {
        assert Lowered(h[..15]) == low;
      }
    }
  }

  /** A later header of another name, Content-Type say, leaves the announced length alone. */
  lemma {:induction false} OthersAnnounceNothing(head: seq<string>, h: string)
    requires |h| < 15 || Lowered(h[..15]) != "content-length:"
    ensures HeadLength(head + [h]) == HeadLength(head)
  {
    HeadGrows(head, h);
    AnnouncesIff(HeadLength(head), h);
  }

  function Lowered(s: string): (t: string)
    ensures |t| == |s| && forall i :: 0 <= i < |s| ==> t[i] == ToLower(s[i])
  {
    seq(|s|, i requires 0 <= i < |s| => ToLower(s[i]))
  }

  datatype Outcome =
    | Complete(msg: Message, rest: string)
    | LineTooLong(rest: string)   // what follows the rejected buffer
    | Incomplete(pending: string) // the unfinished line
    | Undefined

  /** `s` is everything behind the empty line. */
  function ReceiveBody(first: string, head: seq<string>, clen: int, s: string): Outcome
    requires clen != 0
  {
    if clen < 0 then (if s == "" then Incomplete("") else Undefined)
    else if |s| < clen then Incomplete("")
    else Complete(Message(first, head, Some(s[..clen])), s[clen..])
  }

  function ReceiveHead(first: string, head: seq<string>, s: string): Outcome
    decreases |s|, 1
  {
    match TakeLine(s)
    case Partial => Incomplete(s)
    case TooLong => LineTooLong(s[BUFSIZ..])
    case Line(text, rest) => AfterHeadLine(first, head, text, rest)
  }

  /** Behind a head line: the empty line ends the head, any other line is one more header. */
  function AfterHeadLine(first: string, head: seq<string>, text: string, rest: string): Outcome
    decreases |rest|, 2
  {
    if text != "" then ReceiveHead(first, head + [CStr(text)], rest)
    else if HeadLength(head) == 0 then Complete(Message(first, head, None), rest)
    else ReceiveBody(first, head, HeadLength(head), rest)
  }

  /** The message at the front of a stream. */
  function Receive(s: string): Outcome {
    match TakeLine(s)
    case Partial => Incomplete(s)
    case TooLong => LineTooLong(s[BUFSIZ..])
    case Line(t, rest) => ReceiveHead(CStr(t), [], rest)
  }

  // ---------- What the sender writes ----------

  function EncodeHead(head: seq<string>): string {
    if head == [] then "" else head[0] + CRLF + EncodeHead(head[1..])
  }

  function LengthHeader(n: nat): string {
    CONTENT_LENGTH + " " + Decimal(n)
  }

  /** The head as sent: a message with a body gets its Content-Length at the end. */
  function SentHead(m: Message): seq<string> {
    m.head + if m.body.Some? then [LengthHeader(|m.body.value|)] else []
  }

  function Encode(m: Message): string {
    m.first + CRLF + EncodeHead(SentHead(m)) + CRLF + if m.body.Some? then m.body.value else ""
  }

  /** The bytes of a message, spelled out. */
  lemma {:induction false} WireFormat(first: string, h: string, body: string)
    ensures Encode(Message(first, [h], Some(body)))
         == first + "\r\n" + h + "\r\n" + "Content-Length: " + Decimal(|body|) + "\r\n" + "\r\n" + body
    ensures Encode(Message(first, [h], None)) == first + "\r\n" + h + "\r\n" + "\r\n"
  {
    EncodeShape(Message(first, [h], Some(body)));
    EncodeShape(Message(first, [h], None));
    assert EncodeHead([h]) == h + CRLF + EncodeHead([]);
    assert CONTENT_LENGTH + " " == "Content-Length: ";
  }

  lemma {:induction false} EncodeHeadAppend(head: seq<string>, h: string)
    ensures EncodeHead(head + [h]) == EncodeHead(head) + h + CRLF
  {
    if head == [] {
      assert head + [h] == [h];
      assert EncodeHead([h]) == h + CRLF + EncodeHead([]);
    } else {
      EncodeHeadAppend(head[1..], h);
      assert (head + [h])[1..] == head[1..] + [h];
    }
  }

  // What follows the caller's own headers
  function EncodeTail(m: Message): string {
    match m.body
    case Some(b) => LengthHeader(|b|) + CRLF + CRLF + b
    case None => CRLF
  }

  lemma {:induction false} EncodeShape(m: Message)
    ensures Encode(m) == m.first + CRLF + (EncodeHead(m.head) + EncodeTail(m))
  {
    if m.body.Some? {
      EncodeHeadAppend(m.head, LengthHeader(|m.body.value|));
    } else {
      assert SentHead(m) == m.head;
    }
  }

  lemma TailShape(done: string, line: string, body: string)
    ensures done + (line + CRLF + CRLF + body) == done + (line + CRLF) + CRLF + body
  {
  }

  lemma {:induction false} HeadSplit(done: string, head: seq<string>, i: nat, tail: string)
    requires i < |head|
    ensures done + (EncodeHead(head[i..]) + tail) == (done + head[i] + CRLF) + (EncodeHead(head[i + 1..]) + tail)
  {
    assert head[i..][1..] == head[i + 1..];
  }

  lemma {:induction false} SameLength(a: string, b: string, s: string, t: string)
    requires a + s == b + t && |s| == |t|
    ensures a == b && s == t
  {
    assert (a + s)[..|a|] == a && (b + t)[..|b|] == b;
    assert (a + s)[|a|..] == s && (b + t)[|b|..] == t;
  }

  lemma {:induction false} WriteTwice(start: Stream, a: string, b: string)
    requires |a| <= start.room
    ensures start.WriteFull(a).WriteFull(b) == start.WriteFull(a + b)
  {
    var k := Min(|b|, start.room - |a|);
    assert (a + b)[..|a| + k] == a + b[..k];
    assert start.sent + (a + b[..k]) == start.sent + a + b[..k];
  }

  // ---------- One receive call ----------

  /** What a connection holds for the receiver: bytes read but not used, and bytes still to read. */
  datatype Pending = Pending(buffered: string, unread: string)
  {
    function Stream(): string {
      buffered + unread
    }
  }

  /** What is reported and what is left for a given meaning of the stream. */
  ghost predicate Reported(goal: Outcome, failure: Failure, after: Pending, r: RecvResult) {
    match goal
    case Complete(m, rest) => r == Received(m) && after.Stream() == rest
    case LineTooLong(rest) => r == Error(E2BIG) && after == Pending("", rest)
    case Incomplete(pending) => r == Error(ReadError(failure)) && after == Pending(pending, "")
    case Undefined => r == UndefinedBehaviour
  }

  /** The effect of one receive call. It depends on the bytes alone, not on how they arrive,
      except for one thing: the call always reads first, so it fails when nothing is left to read,
      whatever is in the buffer. */
  ghost predicate RecvCall(before: Pending, failure: Failure, after: Pending, r: RecvResult) {
    if before.unread == "" then r == Error(ReadError(failure)) && after == before
    else Reported(Receive(before.Stream()), failure, after, r)
  }

  /** The results of a read that failed. */
  predicate ReadFailed(r: RecvResult) {
    r.Error? && r.code != E2BIG
  }

  // What the code of a failed read says about the failure
  lemma {:induction false} FailureCodes(before: Pending, failure: Failure, after: Pending, r: RecvResult)
    requires RecvCall(before, failure, after, r)
    ensures before.unread == "" ==> ReadFailed(r)
    ensures ReadFailed(r) ==>
              && (r.code == ENOTCONN <==> failure == EOF || failure == ERRNO(ECONNRESET))
              && (r.code == ETIMEDOUT <==> failure == TIMEOUT)
              && (r.code == ERROR_GSS <==> failure == GSS)
              && (forall e :: r.code == Errno(e) <==> failure == ERRNO(e) && e != ECONNRESET)
  {
  }

  datatype State = FIRST | HEAD | BODY | DONE

  function StatesLeft(state: State): nat {
    match state case FIRST => 3 case HEAD => 2 case BODY => 1 case DONE => 0
  }

  /** What the receiver will do with `s` when it is in the given state. */
  ghost function Resume(state: State, first: string, head: seq<string>, clen: int, body: string, s: string): Outcome
    requires state == BODY ==> clen != 0
  {
    match state
    case FIRST => Receive(s)
    case HEAD => ReceiveHead(first, head, s)
    case BODY => ReceiveBody(first, head, clen, body + s)
    case DONE => Complete(Message(first, head, if clen == 0 then None else Some(body)), s)
  }

  // What the receiver's variables hold in each state
  ghost predicate BodyReady(state: State, head: seq<string>, clen: int, blen: nat, room: nat) {
    && blen <= room
    && (state == FIRST ==> head == [])
    && (state == FIRST || state == HEAD ==> blen == 0 && clen == HeadLength(head))
    && (state == BODY ==> clen != 0 && (if clen > 0 then room == clen + 1 && blen < clen else blen == 0))
    && (state == DONE ==> clen >= 0 && blen == clen)
  }

  // The receiver's test on its buffer: the first CR is followed by LF
  predicate LineBuffered(b: string) {
    var p := IndexOf(b, CR);
    p + 2 <= |b| && b[p + 1] == LF
  }

  /** Looking for a line in the buffer is looking for it in the whole stream: a line that is not in
      the buffer yet is rejected exactly when the buffer is full. */
  lemma {:induction false} BufferedLine(b: string, u: string)
    requires |b| <= BUFSIZ
    ensures LineBuffered(b) ==> TakeLine(b + u) == Line(b[..IndexOf(b, CR)], b[IndexOf(b, CR) + 2..] + u)
    ensures !LineBuffered(b) && |b| == BUFSIZ ==> TakeLine(b + u) == TooLong
    ensures !LineBuffered(b) && |b| < BUFSIZ ==> TakeLine(b) == Partial
  {
    var p, s := IndexOf(b, CR), b + u;
    if p < |b| {
      IndexOfIs(s, CR, p);
    }
    if LineBuffered(b) {
      assert s[p + 2..] == b[p + 2..] + u && s[..p] == b[..p];
    } else if |b| == BUFSIZ {
      var q := IndexOf(s, CR);
      assert p < |b| ==> q == p;
      assert p == |b| ==> q >= |b| by {
        assert q < |b| ==> b[q] == CR;
      }
    }
  }

  lemma Regroup(a: string, b: string, c: string, u: string)
    ensures (a + b) + (c + u) == a + ((b + c) + u)
  {
  }

  lemma SplitAt(a: string, b: string)
    ensures (a + b)[..|a|] == a && (a + b)[|a|..] == b
  {
  }

  lemma {:induction false} HeadGrows(head: seq<string>, h: string)
    ensures HeadLength(head + [h]) == NextLength(HeadLength(head), h)
  {
    assert (head + [h])[..|head|] == head;
  }

  /** When the stream ends early, what is left is what the buffer holds. */
  lemma {:induction false} EndOfStream(state: State, first: string, head: seq<string>, clen: int,
                                       body: string, b: string)
    requires state != DONE && |b| < BUFSIZ && (state == BODY ==> b == "")
    requires BodyReady(state, head, clen, |body|, if clen > 0 then clen + 1 else |body|)
    requires state == FIRST || state == HEAD ==> !LineBuffered(b)
    ensures Resume(state, first, head, clen, body, b + "") == Incomplete(b)
  {
    BufferedLine(b, "");
    assert b + "" == b && body + "" == body;
  }

  // The next read takes the whole first piece
  predicate FirstPieceFits(pieces: seq<string>, bufUse: nat) {
    pieces != [] && bufUse + |pieces[0]| <= BUFSIZ
  }

  class Connection {
    var gss: Stream
    var buf: array?<char>
    var bufUse: nat

    ghost predicate Valid()
      reads this
    {
      && gss.Valid()
      && (buf == null ==> bufUse == 0)
      && (buf != null ==> buf.Length == BUFSIZ && bufUse < BUFSIZ)
    }

    ghost function Contents(): Pending
      requires Valid()
      reads this, buf
    {
      Pending(if buf == null then "" else buf[..bufUse], gss.Unread())
    }

    /** What a call with result `r` left of the bytes that it could have read. */
    ghost function Left(r: RecvResult): Pending
      requires Valid()
      reads this, buf
    {
      Pending(if buf == null then "" else buf[..bufUse], if ReadFailed(r) then "" else gss.Unread())
    }

    constructor (gss: Stream)
      requires gss.Valid()
      ensures Valid() && this.gss == gss && buf == null && bufUse == 0
    {
      this.gss := gss;
      this.buf := null;
      this.bufUse := 0;
    }

    /** The bshift macro: drop the first `shift` bytes of the buffer. */
    method Shift(shift: nat)
      requires buf != null && shift <= bufUse <= buf.Length
      modifies `bufUse, buf
      ensures bufUse == old(bufUse) - shift
      ensures buf[..bufUse] == old(buf[shift..bufUse])
    {
      forall i | 0 <= i < bufUse - shift {
        buf[i] := buf[i + shift];
      }
      bufUse := bufUse - shift;
    }

    /** Take the line at the front of the buffer, ask for more, or give up on a full buffer. */
    method NextLine() returns (line: Line)
      requires gss.Valid() && buf != null && bufUse <= buf.Length == BUFSIZ
      modifies `buf, `bufUse, buf
      ensures line.Line? ==> buf == old(buf) && bufUse + |line.text| + 2 == old(bufUse)
      ensures line.Line? ==>
                TakeLine(old(buf[..bufUse]) + gss.Unread()) == Line(line.text, buf[..bufUse] + gss.Unread())
      ensures line.Partial? ==> buf == old(buf) && bufUse == old(bufUse) < BUFSIZ
      ensures line.Partial? ==> buf[..bufUse] == old(buf[..bufUse]) && !LineBuffered(buf[..bufUse])
      ensures line.TooLong? ==> buf == null && bufUse == 0
      ensures line.TooLong? ==> TakeLine(old(buf[..bufUse]) + gss.Unread()) == TooLong
      ensures line.TooLong? ==> (old(buf[..bufUse]) + gss.Unread())[BUFSIZ..] == gss.Unread()
    {
      var b := buf[..bufUse];
      var cr := IndexOf(b, CR);
      BufferedLine(b, gss.Unread());
      if cr + 2 <= bufUse && buf[cr + 1] == LF {
        Shift(cr + 2);
        assert buf[..bufUse] == b[cr + 2..];
        line := Line(b[..cr], "");
      } else if bufUse >= buf.Length {
        buf, bufUse := null, 0;
        line := TooLong;
      } else {
        line := Partial;
      }
    }

    /** The BODY case: move what the buffer holds, but no more than is missing, to the body. */
    method CopyBody(body: array<char>, blen: nat, clen: nat) returns (filled: nat)
      requires buf != null && bufUse <= buf.Length == BUFSIZ && body != buf
      requires blen < clen && body.Length == clen + 1
      modifies `bufUse, buf, body
      ensures filled == Min(blen + old(bufUse), clen)
      ensures bufUse == old(bufUse) - (filled - blen)
      ensures body[..filled] + (buf[..bufUse] + gss.Unread()) == old(body[..blen] + (buf[..bufUse] + gss.Unread()))
    {
      var m := Min(bufUse, clen - blen);
      forall i | 0 <= i < m {
        body[blen + i] := buf[i];
      }
      filled := blen + m;
      assert body[..filled] == old(body[..blen] + buf[..m]);
      Shift(m);
      if filled == clen {
        body[filled] := NUL;
      }
      Regroup(old(body[..blen]), old(buf[..m]), buf[..bufUse], gss.Unread());
      assert body[..filled] == old(body[..blen] + buf[..m]);
      assert old(buf[..bufUse]) == old(buf[..m]) + buf[..bufUse];
    }

    // Within a message `whole`: `done` is written, or a write failed and nothing more fits
    ghost predicate Writing(start: Stream, done: string, whole: string, ok: bool)
      reads `gss
    {
      if ok then gss == start.WriteFull(done) && |done| <= start.room && done <= whole
      else gss == start.WriteFull(whole) && |whole| > start.room
    }

    /** One call of real_write. */
    method Put(x: string, ghost done: string, ghost start: Stream, ghost whole: string) returns (ok: bool)
      requires Writing(start, done, whole, true) && done + x <= whole
      modifies `gss
      ensures Writing(start, done + x, whole, ok)
    {
      ok := |x| <= gss.room;
      gss := gss.WriteFull(x);
      WriteTwice(start, done, x);
      if !ok {
        assert (done + x)[..start.room] == whole[..start.room];
      }
    }

    /** A text and its line end. */
    method PutLine(x: string, ghost done: string, ghost start: Stream, ghost whole: string) returns (ok: bool)
      requires Writing(start, done, whole, true) && done + x + CRLF <= whole
      modifies `gss
      ensures Writing(start, done + x + CRLF, whole, ok)
    {
      ok := Put(x, done, start, whole);
      if ok {
        ok := Put(CRLF, done + x, start, whole);
      }
    }

    /** Everything behind the caller's headers. */
    method PutTail(m: Message, ghost done: string, ghost start: Stream) returns (ok: bool)
      requires Writing(start, done, done + EncodeTail(m), true)
      modifies `gss
      ensures Writing(start, done + EncodeTail(m), done + EncodeTail(m), ok)
    {
      ghost var whole := done + EncodeTail(m);
      match m.body
      case None =>
        ok := Put(CRLF, done, start, whole);
      case Some(body) =>
        var line := LengthHeader(|body|) + CRLF;
        TailShape(done, LengthHeader(|body|), body);
        ok := PutLine(line, done, start, whole);
        if ok {
          ok := Put(body, done + line + CRLF, start, whole);
        }
    }

    /** The caller's headers. */
    method PutHead(head: seq<string>, ghost done0: string, ghost start: Stream, ghost whole: string, ghost tail: string)
      returns (ok: bool)
      requires Writing(start, done0, whole, true) && whole == done0 + (EncodeHead(head) + tail)
      modifies `gss
      ensures Writing(start, done0 + EncodeHead(head), whole, ok)
    {
      ok := true;
      ghost var done := done0;
      var i := 0;
      while ok && i < |head|
        invariant i <= |head|
        invariant whole == done + (EncodeHead(head[i..]) + tail)
        invariant Writing(start, done, whole, ok)
      {
        HeadSplit(done, head, i, tail);
        ok := PutLine(head[i], done, start, whole);
        done := done + head[i] + CRLF;
        i := i + 1;
      }
      if ok {
        SameLength(done, done0 + EncodeHead(head), "" + tail, tail);
      }
    }

    /** edg_wll_http_send: write a message piece by piece, stopping at the first failed write. */
    method Send(m: Message) returns (err: Option<ErrorCode>)
      requires m.body.Some? ==> |m.body.value| <= INT_MAX
      modifies `gss
      ensures gss == if old(gss).connected then old(gss).WriteFull(Encode(m)) else old(gss)
      ensures err.None? <==> gss.connected && |Encode(m)| <= old(gss.room)
      ensures !gss.connected ==> err == Some(ENOTCONN)
      ensures gss.connected && err.Some? ==>
                && (err.value == ENOTCONN <==> gss.writeFailure == EOF || gss.writeFailure == ERRNO(EPIPE))
                && (err.value == ETIMEDOUT <==> gss.writeFailure == TIMEOUT)
                && (err.value == ERROR_GSS <==> gss.writeFailure == GSS)
                && (forall e :: err.value == Errno(e) <==> gss.writeFailure == ERRNO(e) && e != EPIPE)
    {
      if !gss.connected {
        return Some(ENOTCONN);
      }
      var ok := PutMessage(m, gss, Encode(m));
      err := if ok then None else Some(WriteError(gss.writeFailure));
    }

    method PutMessage(m: Message, ghost start: Stream, ghost whole: string) returns (ok: bool)
      requires gss == start && whole == Encode(m)
      modifies `gss
      ensures Writing(start, whole, whole, ok)
    {
      ghost var line, head, tail := m.first + CRLF, EncodeHead(m.head), EncodeTail(m);
      EncodeShape(m);
      assert start.WriteFull("") == start;
      assert "" + m.first + CRLF == line;
      ok := PutLine(m.first, "", start, whole);
      if ok {
        ok := PutHead(m.head, line, start, whole, tail);
      }
      if ok {
        Assoc(line, head, tail);
        ok := PutTail(m, line + head, start);
      }
    }

    /** One read, added to the buffer. */
    method Fill() returns (failed: bool)
      requires Valid() && buf != null
      modifies `bufUse, `gss, buf
      ensures gss.Valid() && bufUse <= BUFSIZ
      ensures failed <==> old(gss.Unread()) == ""
      ensures failed ==> bufUse == old(bufUse) && gss == old(gss).Failed() && buf[..bufUse] == old(buf[..bufUse])
      ensures !failed ==> gss == old(gss).(pieces := gss.pieces) && |gss.pieces| <= |old(gss.pieces)|
      ensures !failed ==> |gss.Unread()| < old(|gss.Unread()|)
      ensures FirstPieceFits(old(gss.pieces), old(bufUse)) ==> |gss.pieces| < |old(gss.pieces)|
      ensures !failed ==> buf[..bufUse] + gss.Unread() == old(Contents().Stream())
    {
      failed := gss.pieces == [];
      if failed {
        gss := gss.Failed();
      } else {
        ReadPiece();
      }
    }

    // A read that succeeds
    method ReadPiece()
      requires Valid() && buf != null && gss.pieces != []
      modifies `bufUse, `gss, buf
      ensures gss.Valid() && bufUse <= BUFSIZ
      ensures gss == old(gss).(pieces := gss.pieces) && |gss.pieces| <= |old(gss.pieces)|
      ensures |gss.Unread()| < old(|gss.Unread()|)
      ensures FirstPieceFits(old(gss.pieces), old(bufUse)) ==> |gss.pieces| < |old(gss.pieces)|
      ensures buf[..bufUse] + gss.Unread() == old(buf[..bufUse] + gss.Unread())
    {
      var data := gss.NextRead(buf.Length - bufUse);
      Append(data);
      gss := gss.Advance(|data|);
      Assoc(old(buf[..bufUse]), data, gss.Unread());
    }

    method Append(data: string)
      requires buf != null && bufUse + |data| <= buf.Length
      modifies `bufUse, buf
      ensures bufUse == old(bufUse) + |data| && buf[..bufUse] == old(buf[..bufUse]) + data
    {
      forall i | 0 <= i < |data| {
        buf[bufUse + i] := data[i];
      }
      bufUse := bufUse + |data|;
    }

    /** edg_wll_http_recv: receive one message. After a failed read the bytes behind the failure are
        there for the next call. */
    method Recv() returns (r: RecvResult)
      requires Valid()
      modifies this, buf
      ensures Valid() && (buf == old(buf) || buf == null || fresh(buf))
      ensures if old(gss).connected && ReadFailed(r) then gss == old(gss).Failed()
              else gss == old(gss).(pieces := gss.pieces)
      ensures gss.connected && !ReadFailed(r) && FirstPieceFits(old(gss.pieces), old(bufUse)) ==>
                |gss.pieces| < |old(gss.pieces)|
      ensures if gss.connected then RecvCall(old(Contents()), old(gss.failure), Left(r), r)
              else r == Error(ENOTCONN) && Contents() == old(Contents())
      ensures gss.connected && old(gss.Unread()) == "" ==> ReadFailed(r)
      ensures gss.connected && ReadFailed(r) ==>
                && (r.code == ENOTCONN <==> old(gss.failure) == EOF || old(gss.failure) == ERRNO(ECONNRESET))
                && (r.code == ETIMEDOUT <==> old(gss.failure) == TIMEOUT)
                && (r.code == ERROR_GSS <==> old(gss.failure) == GSS)
                && (forall e :: r.code == Errno(e) <==> old(gss.failure) == ERRNO(e) && e != ECONNRESET)
    {
      if !gss.connected {
        return Error(ENOTCONN);
      }
      if buf == null {
        buf := new char[BUFSIZ];
      }
      assert buf[..bufUse] == old(Contents().buffered);
      var code := ReadError(gss.failure);
      var failed := Fill();
      if failed {
        r := Error(code);
      } else {
        r := Run(Receive(buf[..bufUse] + gss.Unread()));
      }
      FailureCodes(old(Contents()), old(gss.failure), Left(r), r);
    }

    // The call ends with result `r`, having started with the stream `start`
    ghost predicate Ended(goal: Outcome, start: Stream, r: RecvResult)
      reads this, buf
    {
      && Valid()
      && (ReadFailed(r) ==> gss == start.Failed())
      && (!ReadFailed(r) ==> gss == start.(pieces := gss.pieces) && |gss.pieces| <= |start.pieces|)
      && Reported(goal, start.failure, Left(r), r)
    }

    /** The loop of edg_wll_http_recv from its first successful read on. */
    method Run(ghost goal: Outcome) returns (r: RecvResult)
      requires gss.Valid() && buf != null && bufUse <= buf.Length == BUFSIZ
      requires goal == Receive(buf[..bufUse] + gss.Unread())
      modifies this, buf
      ensures Valid() && (buf == old(buf) || buf == null)
      ensures Ended(goal, old(gss), r)
    {
      var blen: nat := 0;
      var body := new char[0];
      var done: Option<RecvResult> := None;
      var state, first, head, clen := FIRST, "", [], 0;
      while done.None?
        invariant fresh(body) && (buf == old(buf) || (done.Some? && buf == null))
        invariant done.None? ==> gss.Valid() && bufUse <= BUFSIZ
        invariant done.None? ==> gss == old(gss).(pieces := gss.pieces) && |gss.pieces| <= |old(gss.pieces)|
        invariant done.None? ==> state != DONE && BodyReady(state, head, clen, blen, body.Length)
        invariant done.None? ==> Resume(state, first, head, clen, body[..blen], buf[..bufUse] + gss.Unread()) == goal
        invariant done.Some? ==> Ended(goal, old(gss), done.value)
        decreases done.None?, |gss.Unread()|
      {
        state, first, head, clen, body, blen, done := Turn(state, first, head, clen, body, blen, goal);
      }
      return done.value;
    }

    /** One turn of that loop: use up the buffer, then read more if the message is not complete. */
    method Turn(state0: State, first0: string, head0: seq<string>, clen0: int, body0: array<char>, blen0: nat,
                ghost goal: Outcome)
      returns (state: State, first: string, head: seq<string>, clen: int, body: array<char>, blen: nat,
               done: Option<RecvResult>)
      requires gss.Valid() && buf != null && bufUse <= buf.Length == BUFSIZ && body0 != buf
      requires state0 != DONE && BodyReady(state0, head0, clen0, blen0, body0.Length)
      requires Resume(state0, first0, head0, clen0, body0[..blen0], buf[..bufUse] + gss.Unread()) == goal
      modifies this, buf, body0
      ensures body == body0 || fresh(body)
      ensures done.None? ==> buf == old(buf) && gss.Valid() && bufUse <= BUFSIZ
      ensures done.None? ==> gss == old(gss).(pieces := gss.pieces) && |gss.pieces| <= |old(gss.pieces)|
      ensures done.None? ==> state != DONE && BodyReady(state, head, clen, blen, body.Length)
      ensures done.None? ==> Resume(state, first, head, clen, body[..blen], buf[..bufUse] + gss.Unread()) == goal
      ensures done.None? ==> |gss.Unread()| < old(|gss.Unread()|)
      ensures buf == old(buf) || (done.Some? && buf == null)
      ensures done.Some? ==> Ended(goal, old(gss), done.value)
    {
      state, first, head, clen, body, blen, done := Consume(state0, first0, head0, clen0, body0, blen0, goal);
      if done.Some? {
        return;
      }
      if state == DONE {
        done := Some(Received(Message(first, head, if clen == 0 then None else Some(body[..blen]))));
        assert goal == Complete(done.value.msg, Contents().Stream());
        assert Left(done.value) == Contents();
        return;
      }
      var code := ReadError(gss.failure);
      var failed := ReadMore(state, first, head, clen, body, blen, goal);
      if failed {
        done := Some(Error(code));
        assert Left(done.value) == Pending(buf[..bufUse], "");
      }
    }

    // A further read in the middle of a message
    method ReadMore(ghost state: State, ghost first: string, ghost head: seq<string>, ghost clen: int,
                    ghost body: array<char>, ghost blen: nat, ghost goal: Outcome)
      returns (failed: bool)
      requires Valid() && buf != null && body != buf && state != DONE && NeedsMore(state)
      requires BodyReady(state, head, clen, blen, body.Length)
      requires Resume(state, first, head, clen, body[..blen], buf[..bufUse] + gss.Unread()) == goal
      modifies `bufUse, `gss, buf
      ensures gss.Valid() && bufUse <= BUFSIZ && (failed ==> bufUse == old(bufUse))
      ensures failed ==> goal == Incomplete(buf[..bufUse]) && gss == old(gss).Failed()
      ensures !failed ==> gss == old(gss).(pieces := gss.pieces) && |gss.pieces| <= |old(gss.pieces)|
      ensures !failed ==> |gss.Unread()| < old(|gss.Unread()|)
      ensures !failed ==> Resume(state, first, head, clen, body[..blen], buf[..bufUse] + gss.Unread()) == goal
    {
      failed := Fill();
      if failed {
        EndOfStream(state, first, head, clen, body[..blen], buf[..bufUse]);
      }
    }

    /** The HEAD case for one line: the empty line ends the head, any other line extends it. */
    method HeadLine(text: string, ghost first: string, head0: seq<string>, clen0: int, body0: array<char>,
                    ghost rest: string)
      returns (state: State, head: seq<string>, clen: int, body: array<char>)
      requires clen0 == HeadLength(head0)
      ensures state != FIRST && (body == body0 || fresh(body))
      ensures BodyReady(state, head, clen, 0, body.Length)
      ensures Resume(state, first, head, clen, body[..0], rest) == AfterHeadLine(first, head0, text, rest)
    {
      state, head, clen, body := HEAD, head0, clen0, body0;
      if text == "" {
        state := if clen != 0 then BODY else DONE;
        if clen > 0 {
          body := new char[clen + 1];
        }
        assert body[..0] + rest == rest;
      } else {
        var h := CStr(text);
        HeadGrows(head, h);
        head := head + [h];
        if IsContentLength(h) {
          clen := Atoi(h[|CONTENT_LENGTH|..]);
        }
      }
    }

    /** One pass of the switch in edg_wll_http_recv. */
    method Step(state0: State, first0: string, head0: seq<string>, clen0: int, body0: array<char>, blen0: nat,
                ghost goal: Outcome)
      returns (state: State, first: string, head: seq<string>, clen: int, body: array<char>, blen: nat,
               rdmore: bool, err: Option<RecvResult>)
      requires gss.Valid() && buf != null && bufUse <= buf.Length == BUFSIZ && body0 != buf
      requires state0 != DONE && BodyReady(state0, head0, clen0, blen0, body0.Length)
      requires Resume(state0, first0, head0, clen0, body0[..blen0], buf[..bufUse] + gss.Unread()) == goal
      modifies `buf, `bufUse, buf, body0
      ensures body == body0 || fresh(body)
      ensures err.None? ==> buf == old(buf) && bufUse <= BUFSIZ && BodyReady(state, head, clen, blen, body.Length)
      ensures err.None? ==> Resume(state, first, head, clen, body[..blen], buf[..bufUse] + gss.Unread()) == goal
      ensures err.None? && (state == DONE || rdmore) ==> NeedsMore(state)
      ensures err.None? ==>
                || StatesLeft(state) < StatesLeft(state0)
                || (state == state0 && bufUse < old(bufUse))
                || (state == state0 && bufUse == old(bufUse) && rdmore)
      ensures buf == old(buf) || buf == null
      ensures err.Some? ==> GivesUp(goal, err.value)
    {
      state, first, head, clen, body, blen := state0, first0, head0, clen0, body0, blen0;
      rdmore, err := false, None;
      match state
      case FIRST =>
        state, first, rdmore, err := FirstStep(goal);
      case HEAD =>
        state, head, clen, body, rdmore, err := HeadStep(first, head, clen, body, goal);
      case BODY =>
        state, blen, rdmore, err := BodyStep(first, head, clen, body, blen, goal);
    }

    /** The FIRST case. */
    method FirstStep(ghost goal: Outcome) returns (state: State, first: string, rdmore: bool, err: Option<RecvResult>)
      requires gss.Valid() && buf != null && bufUse <= buf.Length == BUFSIZ
      requires Receive(buf[..bufUse] + gss.Unread()) == goal
      modifies `buf, `bufUse, buf
      ensures buf == old(buf) || buf == null
      ensures err.None? ==> buf == old(buf) && bufUse <= BUFSIZ && (if rdmore then state == FIRST else state == HEAD)
      ensures err.None? && rdmore ==> NeedsMore(FIRST) && bufUse == old(bufUse) && buf[..bufUse] == old(buf[..bufUse])
      ensures err.None? && !rdmore ==> ReceiveHead(first, [], buf[..bufUse] + gss.Unread()) == goal
      ensures err.Some? ==> GivesUp(goal, err.value)
    {
      state, first, rdmore, err := FIRST, "", false, None;
      var line := NextLine();
      match line {
        case Line(text, _) => first, state := CStr(text), HEAD;
        case Partial => rdmore := true;
        case TooLong => err := Some(Error(E2BIG));
      }
    }

    /** The HEAD case. */
    method HeadStep(ghost first: string, head0: seq<string>, clen0: int, body0: array<char>, ghost goal: Outcome)
      returns (state: State, head: seq<string>, clen: int, body: array<char>, rdmore: bool, err: Option<RecvResult>)
      requires gss.Valid() && buf != null && bufUse <= buf.Length == BUFSIZ && body0 != buf
      requires clen0 == HeadLength(head0) && ReceiveHead(first, head0, buf[..bufUse] + gss.Unread()) == goal
      modifies `buf, `bufUse, buf
      ensures (buf == old(buf) || buf == null) && (body == body0 || fresh(body))
      ensures err.None? ==> buf == old(buf) && bufUse <= BUFSIZ && state != FIRST
      ensures err.None? && rdmore ==> state == HEAD && NeedsMore(HEAD) && bufUse == old(bufUse)
      ensures err.None? && !rdmore ==> bufUse < old(bufUse)
      ensures err.None? ==> BodyReady(state, head, clen, 0, body.Length)
      ensures err.None? ==> Resume(state, first, head, clen, body[..0], buf[..bufUse] + gss.Unread()) == goal
      ensures err.Some? ==> GivesUp(goal, err.value)
    {
      state, head, clen, body, rdmore, err := HEAD, head0, clen0, body0, false, None;
      var line := NextLine();
      match line {
        case Line(text, _) =>
          state, head, clen, body := HeadLine(text, first, head, clen, body, buf[..bufUse] + gss.Unread());
        case Partial => rdmore := true;
        case TooLong => err := Some(Error(E2BIG));
      }
    }

    /** The BODY case: what the buffer has goes to the body. */
    method BodyStep(ghost first: string, ghost head: seq<string>, clen: int, body: array<char>, blen0: nat,
                    ghost goal: Outcome)
      returns (state: State, blen: nat, rdmore: bool, err: Option<RecvResult>)
      requires gss.Valid() && buf != null && bufUse <= buf.Length == BUFSIZ && body != buf
      requires BodyReady(BODY, head, clen, blen0, body.Length)
      requires Resume(BODY, first, head, clen, body[..blen0], buf[..bufUse] + gss.Unread()) == goal
      modifies `bufUse, buf, body
      ensures rdmore || err.Some?
      ensures err.None? ==> (state == BODY || state == DONE) && bufUse <= old(bufUse) && NeedsMore(state)
      ensures err.None? ==> BodyReady(state, head, clen, blen, body.Length)
      ensures err.None? ==> Resume(state, first, head, clen, body[..blen], buf[..bufUse] + gss.Unread()) == goal
      ensures err.Some? ==> GivesUp(goal, err.value)
    {
      state, blen, rdmore, err := BODY, blen0, true, None;
      if bufUse > 0 {
        if clen < 0 {
          bufUse, rdmore, err := 0, false, Some(UndefinedBehaviour);
          return;
        }
        blen := CopyBody(body, blen, clen);
      }
      if blen == clen {
        state := DONE;
        SplitAt(body[..blen], buf[..bufUse] + gss.Unread());
      }
    }

    // Nothing in the buffer can be used before more has been read
    ghost predicate NeedsMore(state: State)
      requires buf != null && bufUse <= buf.Length
      reads this, buf
    {
      && bufUse < BUFSIZ
      && (state == FIRST || state == HEAD ==> !LineBuffered(buf[..bufUse]))
      && (state == BODY ==> bufUse == 0)
    }

    // The two ways in which receiving ends without a message and without a failed read
    ghost predicate GivesUp(goal: Outcome, r: RecvResult)
      reads this
    {
      && bufUse == 0
      && (r == Error(E2BIG) || r == UndefinedBehaviour)
      && (r == Error(E2BIG) ==> buf == null && goal == LineTooLong(gss.Unread()))
      && (r == UndefinedBehaviour ==> goal == Undefined && (buf == null || buf.Length == BUFSIZ))
    }

    /** The inner loop of edg_wll_http_recv: use up the buffer until more has to be read. */
    method Consume(state0: State, first0: string, head0: seq<string>, clen0: int, body0: array<char>, blen0: nat,
                   ghost goal: Outcome)
      returns (state: State, first: string, head: seq<string>, clen: int, body: array<char>, blen: nat,
               err: Option<RecvResult>)
      requires gss.Valid() && buf != null && bufUse <= buf.Length == BUFSIZ && body0 != buf
      requires state0 != DONE && BodyReady(state0, head0, clen0, blen0, body0.Length)
      requires Resume(state0, first0, head0, clen0, body0[..blen0], buf[..bufUse] + gss.Unread()) == goal
      modifies `buf, `bufUse, buf, body0
      ensures body == body0 || fresh(body)
      ensures err.None? ==> buf == old(buf) && bufUse <= BUFSIZ && BodyReady(state, head, clen, blen, body.Length)
      ensures err.None? ==> Resume(state, first, head, clen, body[..blen], buf[..bufUse] + gss.Unread()) == goal
      ensures err.None? ==> NeedsMore(state)
      ensures buf == old(buf) || buf == null
      ensures err.Some? ==> GivesUp(goal, err.value)
    {
      state, first, head, clen, body, blen, err := state0, first0, head0, clen0, body0, blen0, None;
      var rdmore := false;
      while err == None && !rdmore && state != DONE
        invariant body == body0 || fresh(body)
        invariant err.None? ==> buf == old(buf) && bufUse <= BUFSIZ && BodyReady(state, head, clen, blen, body.Length)
        invariant err.None? ==> Resume(state, first, head, clen, body[..blen], buf[..bufUse] + gss.Unread()) == goal
        invariant err.None? && (state == DONE || rdmore) ==> NeedsMore(state)
        invariant buf == old(buf) || buf == null
        invariant err.Some? ==> GivesUp(goal, err.value)
        decreases err.None?, StatesLeft(state), bufUse, !rdmore
      {
        state, first, head, clen, body, blen, rdmore, err := Step(state, first, head, clen, body, blen, goal);
      }
    }
  }
}
