/** What the HTTP sender and receiver promise each other. */
module HttpExchange {
  import opened CText
  import opened GssStream
  import opened MiniHttp

  // A line that the receiver gives back as it was sent
  predicate LineFits(line: string) {
    CR !in line && |line| + 2 <= BUFSIZ
  }

  // C strings hold no NUL, and the sender keeps the body length in an int
  predicate CStrings(m: Message) {
    && NUL !in m.first
    && (forall i :: 0 <= i < |m.head| ==> NUL !in m.head[i])
    && (m.body.Some? ==> NUL !in m.body.value && |m.body.value| <= INT_MAX)
  }

  /** The messages that arrive as they were sent. */
  predicate Sendable(m: Message) {
    && LineFits(m.first)
    && (forall i :: 0 <= i < |m.head| ==> m.head[i] != "" && LineFits(m.head[i]))
    && (match m.body
        case Some(b) => b != ""
        case None => HeadLength(m.head) == 0)
  }

  /** The receiver also reports the generated Content-Length. */
  function Delivered(m: Message): Message {
    m.(head := SentHead(m))
  }

  // ---------- Sending, then receiving ----------

  /** Lines of up to 8190 bytes fit. */
  lemma {:induction false} LineFitsIff(line: string)
    ensures LineFits(line) <==> CR !in line && |line| <= 8190
  {
  }

  lemma {:induction false} TakeSentLine(line: string, rest: string)
    requires LineFits(line)
    ensures TakeLine(line + CRLF + rest) == Line(line, rest)
  {
    var s := line + CRLF + rest;
    IndexOfIs(s, CR, |line|);
    assert s[..|line|] == line && s[|line| + 2..] == rest;
  }

  lemma {:induction false} OneSentHeader(first: string, done: seq<string>, h: string, rest: string)
    requires h != "" && NUL !in h && LineFits(h)
    ensures ReceiveHead(first, done, h + CRLF + rest) == ReceiveHead(first, done + [h], rest)
  {
    TakeSentLine(h, rest);
  }

  lemma {:induction false} HeadEnds(first: string, done: seq<string>, tail: string)
    ensures ReceiveHead(first, done, CRLF + tail) == AfterHeadLine(first, done, "", tail)
  {
    TakeSentLine("", tail);
    assert "" + CRLF + tail == CRLF + tail;
  }

  lemma {:induction false} ReceiveSentHead(first: string, done: seq<string>, head: seq<string>, tail: string)
    requires forall i :: 0 <= i < |head| ==> head[i] != "" && NUL !in head[i] && LineFits(head[i])
    ensures ReceiveHead(first, done, EncodeHead(head) + (CRLF + tail)) == AfterHeadLine(first, done + head, "", tail)
    decreases |head|
  {
    if head == [] {
      HeadEnds(first, done, tail);
      assert done + head == done && "" + (CRLF + tail) == CRLF + tail;
    } else {
      var h, rest := head[0], EncodeHead(head[1..]) + (CRLF + tail);
      Assoc(h + CRLF, EncodeHead(head[1..]), CRLF + tail);
      calc {
        ReceiveHead(first, done, EncodeHead(head) + (CRLF + tail));
        ReceiveHead(first, done, h + CRLF + rest);
        { OneSentHeader(first, done, h, rest); }
        ReceiveHead(first, done + [h], rest);
        { ReceiveSentHead(first, done + [h], head[1..], tail); }
        AfterHeadLine(first, done + [h] + head[1..], "", tail);
        { assert done + [h] + head[1..] == done + head; }
        AfterHeadLine(first, done + head, "", tail);
      }
    }
  }

  lemma {:induction false} LengthHeaderFits(n: nat)
    requires n <= INT_MAX
    ensures var h := LengthHeader(n); h != "" && LineFits(h) && NUL !in h
  {
    var h := LengthHeader(n);
    IntDigits(n);
    forall i | 0 <= i < |h|
      ensures h[i] != CR && h[i] != NUL
    {
      if i >= 16 {
        assert IsDigit(h[i]) by {
          assert h[i] == Decimal(n)[i - 16];
        }
      }
    }
  }

  lemma {:induction false} LengthHeaderValue(n: nat)
    requires n <= INT_MAX
    ensures var h := LengthHeader(n); IsContentLength(h) && Atoi(h[|CONTENT_LENGTH|..]) == n
  {
    var h := LengthHeader(n);
    assert h[|CONTENT_LENGTH|..] == " " + SignedDecimal(n) + "";
    ScanPrinted(" ", n, "");
    assert h[..|CONTENT_LENGTH|] == CONTENT_LENGTH;
  }

  /** The head that a sendable message is sent with. */
  lemma {:induction false} SentHeadFits(m: Message)
    requires CStrings(m) && Sendable(m)
    ensures var head := SentHead(m);
            && (forall i :: 0 <= i < |head| ==> head[i] != "" && NUL !in head[i] && LineFits(head[i]))
            && HeadLength(head) == match m.body case Some(b) => |b| case None => 0
  {
    match m.body
    case Some(b) =>
      LengthHeaderFits(|b|);
      LengthHeaderValue(|b|);
      HeadGrows(m.head, LengthHeader(|b|));
    case None =>
      assert SentHead(m) == m.head;
  }

  /** A sendable message comes out of the stream it was written to, and nothing else is used up. */
  lemma {:induction false} ReceiveSent(m: Message, rest: string)
    requires CStrings(m) && Sendable(m)
    ensures Receive(Encode(m) + rest) == Complete(Delivered(m), rest)
  {
    var body := if m.body.Some? then m.body.value else "";
    var head, tail := SentHead(m), body + rest;
    SentHeadFits(m);
    var lines := EncodeHead(head) + (CRLF + tail);
    assert Encode(m) + rest == m.first + CRLF + lines by {
      SentMessage(m.first + CRLF, EncodeHead(head), CRLF, body, rest);
    }
    TakeSentLine(m.first, lines);
    ReceiveSentHead(m.first, [], head, tail);
    assert [] + head == head && tail[..|body|] == body && tail[|body|..] == rest;
  }

  lemma SentMessage(a: string, b: string, c: string, d: string, e: string)
    ensures (a + b + c + d) + e == a + (b + (c + (d + e)))
  {
  }

  // ---------- What the receiver can deliver at all ----------

  // A received head extends the one so far by lines that fit, and announced the body
  ghost predicate HeadReport(first: string, done: seq<string>, s: string, m: Message, rest: string) {
    && m.first == first && done <= m.head && |rest| < |s|
    && (forall i :: |done| <= i < |m.head| ==> LineFits(m.head[i]))
    && (match m.body
        case None => HeadLength(m.head) == 0
        case Some(b) => |b| == HeadLength(m.head) && b != "")
  }

  lemma {:induction false} OneMoreHeader(first: string, done: seq<string>, h: string, s: string,
                                         later: string, m: Message, rest: string)
    requires HeadReport(first, done + [h], later, m, rest) && |later| < |s| && LineFits(h)
    ensures HeadReport(first, done, s, m, rest)
  {
    assert m.head[|done|] == (done + [h])[|done|] == h;
    assert done <= done + [h] <= m.head;
  }

  lemma {:induction false} ReceivedHead(first: string, done: seq<string>, s: string)
    ensures var o := ReceiveHead(first, done, s);
            o.Complete? ==> HeadReport(first, done, s, o.msg, o.rest)
    decreases |s|
  {
    var line := TakeLine(s);
    if line.Line? && line.text != "" {
      var h := CStr(line.text);
      ReceivedHead(first, done + [h], line.rest);
      var o := ReceiveHead(first, done + [h], line.rest);
      if o.Complete? {
        OneMoreHeader(first, done, h, s, line.rest, o.msg, o.rest);
      }
    }
  }

  // Only a NUL at the start of a line makes a received header empty
  ghost predicate EmptyHeaderNeedsNul(done: seq<string>, s: string, m: Message, rest: string) {
    && |rest| <= |s| && s[|s| - |rest|..] == rest
    && (NUL !in s[..|s| - |rest|] ==> forall i :: |done| <= i < |m.head| ==> m.head[i] != "")
  }

  lemma {:induction false} OneMoreLine(done: seq<string>, text: string, s: string, later: string, m: Message,
                                       rest: string)
    requires EmptyHeaderNeedsNul(done + [CStr(text)], later, m, rest) && s == text + CRLF + later
    requires text != "" && |done| < |m.head| && m.head[|done|] == CStr(text)
    ensures EmptyHeaderNeedsNul(done, s, m, rest)
  {
    assert s[..|s| - |rest|] == text + CRLF + later[..|later| - |rest|];
    assert s[|s| - |rest|..] == later[|later| - |rest|..];
    if NUL !in s[..|s| - |rest|] {
      forall c | c in text || c in later[..|later| - |rest|]
        ensures c in s[..|s| - |rest|]
      {
      }
    }
  }

  lemma {:induction false} ReceivedHeaders(first: string, done: seq<string>, s: string)
    ensures var o := ReceiveHead(first, done, s);
            o.Complete? ==> EmptyHeaderNeedsNul(done, s, o.msg, o.rest)
    decreases |s|
  {
    var line := TakeLine(s);
    if line.Line? {
      if line.text != "" {
        var h := CStr(line.text);
        ReceivedHeaders(first, done + [h], line.rest);
        ReceivedHead(first, done + [h], line.rest);
        var o := ReceiveHead(first, done + [h], line.rest);
        if o.Complete? {
          assert o.msg.head[|done|] == (done + [h])[|done|];
          OneMoreLine(done, line.text, s, line.rest, o.msg, o.rest);
        }
      } else {
        assert s == CRLF + line.rest;
        EmptyLineEnds(first, done, s, line.rest);
      }
    }
  }

  // Behind the empty line no header follows
  lemma {:induction false} EmptyLineEnds(first: string, done: seq<string>, s: string, later: string)
    requires s == CRLF + later
    ensures var o := AfterHeadLine(first, done, "", later);
            o.Complete? ==> EmptyHeaderNeedsNul(done, s, o.msg, o.rest)
  {
    var n := HeadLength(done);
    if 0 < n <= |later| {
      assert s[n + 2..] == later[n..];
    } else {
      assert s[2..] == later;
    }
  }

  /** A message arrives as it was sent exactly when it is sendable: every line free of CR and short
      enough for the buffer, no empty header, a body only if it is not empty, and no header of the
      caller's own announcing a body that is not there. */
  lemma {:induction false} RoundTrip(m: Message, rest: string)
    requires CStrings(m)
    ensures Receive(Encode(m) + rest) == Complete(Delivered(m), rest) <==> Sendable(m)
  {
    if Sendable(m) {
      ReceiveSent(m, rest);
    }
    if Receive(Encode(m) + rest) == Complete(Delivered(m), rest) {
      ReceivedIsSendable(m, rest);
    }
  }

  lemma {:induction false} ReceivedIsSendable(m: Message, rest: string)
    requires CStrings(m)
    requires Receive(Encode(m) + rest) == Complete(Delivered(m), rest)
    ensures Sendable(m)
  {
    var line := TakeLine(Encode(m) + rest);
    ReceivedHead(CStr(line.text), [], line.rest);
    ReceivedHeaders(CStr(line.text), [], line.rest);
    EncodedHasNoNul(m);
    UsedPart(Encode(m), line.text + CRLF, line.rest, rest);
    assert forall i :: 0 <= i < |m.head| ==> SentHead(m)[i] == m.head[i];
    assert m.body.None? ==> SentHead(m) == m.head;
  }

  lemma {:induction false} UsedPart(sent: string, line: string, later: string, rest: string)
    requires sent + rest == line + later && |rest| <= |later| && NUL !in sent
    ensures NUL !in later[..|later| - |rest|]
  {
    var used := later[..|later| - |rest|];
    forall i | 0 <= i < |used|
      ensures used[i] != NUL
    {
      assert used[i] == (sent + rest)[|line| + i] == sent[|line| + i];
    }
  }

  lemma {:induction false} EncodedHasNoNul(m: Message)
    requires CStrings(m)
    ensures NUL !in Encode(m)
  {
    if m.body.Some? {
      LengthHeaderFits(|m.body.value|);
    }
    HeadHasNoNul(SentHead(m));
  }

  lemma HeadHasNoNul(head: seq<string>)
    requires forall i :: 0 <= i < |head| ==> NUL !in head[i]
    ensures NUL !in EncodeHead(head)
  {
  }

  // ---------- Runs of receive calls ----------

  ghost predicate IsSuffix(rest: string, s: string) {
    |rest| <= |s| && s[|s| - |rest|..] == rest
  }

  lemma {:induction false} SuffixOfLater(a: string, s: string, rest: string)
    requires IsSuffix(rest, s)
    ensures IsSuffix(rest, a + s)
  {
    assert (a + s)[|a + s| - |rest|..] == s[|s| - |rest|..];
  }

  ghost predicate LeavesSuffix(o: Outcome, s: string) {
    match o
    case Complete(_, rest) => IsSuffix(rest, s)
    case LineTooLong(rest) => IsSuffix(rest, s)
    case Incomplete(pending) => IsSuffix(pending, s)
    case Undefined => true
  }

  lemma {:induction false} HeadLeavesSuffix(first: string, done: seq<string>, s: string)
    ensures LeavesSuffix(ReceiveHead(first, done, s), s)
    decreases |s|
  {
    var line := TakeLine(s);
    if line.Line? {
      var a, later := line.text + CRLF, line.rest;
      var o := ReceiveHead(first, done, s);
      if line.text != "" {
        HeadLeavesSuffix(first, done + [CStr(line.text)], later);
      }
      assert LeavesSuffix(o, later);
      match o
      case Complete(_, rest) => SuffixOfLater(a, later, rest);
      case LineTooLong(rest) => SuffixOfLater(a, later, rest);
      case Incomplete(rest) => SuffixOfLater(a, later, rest);
      case Undefined =>
    }
  }

  /** Bytes are used strictly in order: whatever a call leaves is the end of what it found. */
  lemma {:induction false} CallsUseAPrefix(before: Pending, failure: Failure, after: Pending, r: RecvResult)
    requires RecvCall(before, failure, after, r) && r != UndefinedBehaviour
    ensures IsSuffix(after.Stream(), before.Stream())
  {
    var s := before.Stream();
    var line := TakeLine(s);
    if line.Line? {
      HeadLeavesSuffix(CStr(line.text), [], line.rest);
      var a, later := line.text + CRLF, line.rest;
      match Receive(s)
      case Complete(_, rest) => SuffixOfLater(a, later, rest);
      case LineTooLong(rest) => SuffixOfLater(a, later, rest);
      case Incomplete(rest) => SuffixOfLater(a, later, rest);
      case Undefined =>
    }
  }

  /** The same outcome, with `t` still behind it. */
  function Followed(o: Outcome, t: string): Outcome
    requires !o.Incomplete?
  {
    match o
    case Complete(m, rest) => Complete(m, rest + t)
    case LineTooLong(rest) => LineTooLong(rest + t)
    case Undefined => Undefined
  }

  lemma {:induction false} LineFollowed(s: string, t: string)
    ensures match TakeLine(s)
            case Line(text, rest) => TakeLine(s + t) == Line(text, rest + t)
            case TooLong => TakeLine(s + t) == TooLong && (s + t)[BUFSIZ..] == s[BUFSIZ..] + t
            case Partial => true
  {
    var p := IndexOf(s, CR);
    if p < |s| {
      IndexOfIs(s + t, CR, p);
      if p + 2 <= |s| {
        assert (s + t)[p + 2..] == s[p + 2..] + t && (s + t)[..p] == s[..p];
      }
    }
  }

  lemma {:induction false} HeadFollowed(first: string, done: seq<string>, s: string, t: string)
    requires !ReceiveHead(first, done, s).Incomplete?
    ensures ReceiveHead(first, done, s + t) == Followed(ReceiveHead(first, done, s), t)
    decreases |s|
  {
    LineFollowed(s, t);
    var line := TakeLine(s);
    if line.Line? {
      if line.text != "" {
        HeadFollowed(first, done + [CStr(line.text)], line.rest, t);
      } else {
        var n := HeadLength(done);
        if 0 < n <= |line.rest| {
          assert (line.rest + t)[..n] == line.rest[..n];
          assert (line.rest + t)[n..] == line.rest[n..] + t;
        }
      }
    }
  }

  /** Once decided, an outcome does not depend on what comes later in the stream. */
  lemma {:induction false} MoreInput(s: string, t: string)
    requires !Receive(s).Incomplete?
    ensures Receive(s + t) == Followed(Receive(s), t)
  {
    LineFollowed(s, t);
    var line := TakeLine(s);
    if line.Line? {
      HeadFollowed(CStr(line.text), [], line.rest, t);
    }
  }

  // Consecutive receive calls on one connection
  ghost predicate Calls(states: seq<Pending>, failure: Failure, results: seq<RecvResult>) {
    && |states| == |results| + 1
    && forall i :: 0 <= i < |results| ==> RecvCall(states[i], failure, states[i + 1], results[i])
  }

  // Each of the first `n` calls finds something to read
  ghost predicate Fed(states: seq<Pending>, n: nat) {
    n <= |states| && forall i :: 0 <= i < n ==> states[i].unread != ""
  }

  /** Two connections given the same bytes report the same messages and errors, call by call, however
      the bytes were split into reads and left in the buffers. */
  lemma {:induction false} SplittingIrrelevant(states: seq<Pending>, states': seq<Pending>, failure: Failure,
                                               results: seq<RecvResult>, results': seq<RecvResult>)
    requires Calls(states, failure, results) && Calls(states', failure, results') && |results| == |results'|
    requires Fed(states, |results|) && Fed(states', |results|)
    requires UndefinedBehaviour !in results
    requires states[0].Stream() == states'[0].Stream()
    ensures results == results' && states[|results|].Stream() == states'[|results|].Stream()
    decreases |results|
  {
    if results != [] {
      var n := |results| - 1;
      SplittingIrrelevant(states[..n + 1], states'[..n + 1], failure, results[..n], results'[..n]);
      SameCall(states[n], states'[n], failure, states[n + 1], states'[n + 1], results[n], results'[n]);
      assert results == results[..n] + [results[n]] && results' == results'[..n] + [results'[n]];
    }
  }

  lemma SameCall(before: Pending, before': Pending, failure: Failure, after: Pending, after': Pending,
                 r: RecvResult, r': RecvResult)
    requires before.Stream() == before'.Stream() && before.unread != "" && before'.unread != ""
    requires RecvCall(before, failure, after, r) && RecvCall(before', failure, after', r') && r != UndefinedBehaviour
    ensures r == r' && after.Stream() == after'.Stream()
  {
  }

  function EncodeAll(msgs: seq<Message>): string {
    if msgs == [] then "" else Encode(msgs[0]) + EncodeAll(msgs[1..])
  }

  ghost predicate AllSendable(msgs: seq<Message>) {
    forall i :: 0 <= i < |msgs| ==> CStrings(msgs[i]) && Sendable(msgs[i])
  }

  lemma {:induction false} ReceiveNext(msgs: seq<Message>, i: nat, tail: string)
    requires AllSendable(msgs) && i < |msgs|
    ensures Receive(EncodeAll(msgs[i..]) + tail) == Complete(Delivered(msgs[i]), EncodeAll(msgs[i + 1..]) + tail)
  {
    assert msgs[i..][1..] == msgs[i + 1..];
    Assoc(Encode(msgs[i]), EncodeAll(msgs[i + 1..]), tail);
    ReceiveSent(msgs[i], EncodeAll(msgs[i + 1..]) + tail);
  }

  lemma {:induction false} StreamBefore(msgs: seq<Message>, tail: string, states: seq<Pending>, failure: Failure,
                                        results: seq<RecvResult>, i: nat)
    requires AllSendable(msgs) && Calls(states, failure, results) && i <= |results| <= |msgs|
    requires states[0].Stream() == EncodeAll(msgs) + tail && Fed(states, i)
    ensures states[i].Stream() == EncodeAll(msgs[i..]) + tail
  {
    if i == 0 {
      assert msgs[0..] == msgs;
    } else {
      StreamBefore(msgs, tail, states, failure, results, i - 1);
      ReceiveNext(msgs, i - 1, tail);
      assert RecvCall(states[i - 1], failure, states[i], results[i - 1]);
    }
  }

  /** Back-to-back messages come out one by one, in order and unchanged, exactly as long as every
      call still finds something to read. */
  lemma {:induction false} BackToBack(msgs: seq<Message>, tail: string, states: seq<Pending>,
                                      failure: Failure, results: seq<RecvResult>)
    requires AllSendable(msgs) && Calls(states, failure, results) && |results| <= |msgs|
    requires states[0].Stream() == EncodeAll(msgs) + tail
    ensures Fed(states, |results|) <==> forall i :: 0 <= i < |results| ==> results[i] == Received(Delivered(msgs[i]))
  {
    if Fed(states, |results|) {
      forall i | 0 <= i < |results|
        ensures results[i] == Received(Delivered(msgs[i]))
      {
        StreamBefore(msgs, tail, states, failure, results, i);
        ReceiveNext(msgs, i, tail);
        assert RecvCall(states[i], failure, states[i + 1], results[i]);
      }
    } else {
      var i :| 0 <= i < |results| && states[i].unread == "";
      assert RecvCall(states[i], failure, states[i + 1], results[i]);
    }
  }

  // A receiver's buffer is never full between calls
  ghost predicate Bounded(states: seq<Pending>) {
    forall i :: 0 <= i < |states| ==> |states[i].buffered| < BUFSIZ
  }

  /** A condition on the start: with a buffer's worth of bytes behind the messages, every call finds
      something to read, and so all messages come out. */
  lemma {:induction false} EnoughBehind(msgs: seq<Message>, tail: string, states: seq<Pending>, failure: Failure,
                                        results: seq<RecvResult>, n: nat)
    requires AllSendable(msgs) && Calls(states, failure, results) && Bounded(states) && n <= |results| <= |msgs|
    requires states[0].Stream() == EncodeAll(msgs) + tail && |tail| >= BUFSIZ
    ensures Fed(states, n)
  {
    if n > 0 {
      EnoughBehind(msgs, tail, states, failure, results, n - 1);
      StreamBefore(msgs, tail, states, failure, results, n - 1);
      assert |states[n - 1].buffered| < BUFSIZ <= |tail| <= |states[n - 1].Stream()|;
    }
  }

  // Calls on a receiver, the first one in state `start`
  ghost predicate Trace(states: seq<Pending>, failure: Failure, results: seq<RecvResult>, start: Pending) {
    Calls(states, failure, results) && Bounded(states) && states[0] == start
  }

  // One more call in such a run
  method RecvNext(c: Connection, ghost states: seq<Pending>, ghost failure: Failure, ghost results: seq<RecvResult>,
                  ghost start: Pending)
    returns (r: RecvResult, ghost after: Pending)
    requires c.Valid() && c.gss.connected && c.gss.failure == failure
    requires Trace(states, failure, results, start) && c.Contents() == states[|results|]
    modifies c, c.buf
    ensures c.Valid() && c.gss.connected && (c.buf == old(c.buf) || c.buf == null || fresh(c.buf))
    ensures Trace(states + [after], failure, results + [r], start)
    ensures !ReadFailed(r) ==> c.gss.failure == failure && c.Contents() == after
  {
    r := c.Recv();
    after := c.Left(r);
    OneMoreCall(states, failure, results, after, r);
  }

  /** Receiving up to `n` messages on one connection, until a read fails. The calls are related as the
      run lemmas demand, so these hold of every connection. */
  method RecvMany(c: Connection, n: nat) returns (results: seq<RecvResult>, ghost states: seq<Pending>)
    requires c.Valid() && c.gss.connected
    modifies c, c.buf
    ensures c.Valid() && |results| <= n
    ensures Trace(states, old(c.gss.failure), results, old(c.Contents()))
    ensures |results| < n ==> results != [] && ReadFailed(results[|results| - 1])
    ensures results == [] || !ReadFailed(results[|results| - 1]) ==> states[|results|] == c.Contents()
  {
    ghost var failure, start := c.gss.failure, c.Contents();
    results, states := [], [start];
    var failed := false;
    while |results| < n && !failed
      invariant c.Valid() && (c.buf == old(c.buf) || c.buf == null || fresh(c.buf)) && |results| <= n
      invariant c.gss.connected && (!failed ==> c.gss.failure == failure)
      invariant Trace(states, failure, results, start)
      invariant failed <==> results != [] && ReadFailed(results[|results| - 1])
      invariant !failed ==> states[|results|] == c.Contents()
      decreases n - |results|
    {
      var r;
      ghost var after;
      r, after := RecvNext(c, states, failure, results, start);
      failed := ReadFailed(r);
      results, states := results + [r], states + [after];
    }
  }

  lemma {:induction false} OneMoreCall(states: seq<Pending>, failure: Failure, results: seq<RecvResult>,
                                       after: Pending, r: RecvResult)
    requires Calls(states, failure, results) && RecvCall(states[|results|], failure, after, r)
    ensures Calls(states + [after], failure, results + [r])
  {
    var states', results' := states + [after], results + [r];
    forall i | 0 <= i < |results'| ensures RecvCall(states'[i], failure, states'[i + 1], results'[i]) {
      if i < |results| {
        assert RecvCall(states[i], failure, states[i + 1], results[i]);
      }
    }
  }

  /** On a connection: messages with a buffer's worth of bytes behind them all come out, in order and
      unchanged, however the bytes are split into reads. */
  method RecvAll(c: Connection, ghost msgs: seq<Message>, n: nat, ghost tail: string) returns (results: seq<RecvResult>)
    requires c.Valid() && c.gss.connected && AllSendable(msgs) && n == |msgs|
    requires c.Contents().Stream() == EncodeAll(msgs) + tail && |tail| >= BUFSIZ
    modifies c, c.buf
    ensures |results| == n && forall i :: 0 <= i < n ==> results[i] == Received(Delivered(msgs[i]))
  {
    ghost var failure := c.gss.failure;
    ghost var states;
    results, states := RecvMany(c, n);
    EnoughBehind(msgs, tail, states, failure, results, |results|);
    BackToBack(msgs, tail, states, failure, results);
  }

  // A call that finds a complete message
  lemma {:induction false} CompleteCall(before: Pending, failure: Failure, after: Pending, r: RecvResult,
                                        m: Message, rest: string)
    requires before.unread != "" && Receive(before.Stream()) == Complete(m, rest)
    requires RecvCall(before, failure, after, r)
    ensures r == Received(m) && after.Stream() == rest
  {
  }

  lemma {:induction false} NothingUnread(p: Pending)
    requires p.unread == ""
    ensures p == Pending(p.Stream(), "")
  {
  }

  lemma {:induction false} FirstOfTwo(m1: Message, m2: Message, failure: Failure, after: Pending, r: RecvResult)
    requires CStrings(m1) && Sendable(m1)
    requires RecvCall(Pending("", Encode(m1) + Encode(m2)), failure, after, r)
    ensures r == Received(Delivered(m1)) && after.Stream() == Encode(m2)
  {
    var before := Pending("", Encode(m1) + Encode(m2));
    ReceiveSent(m1, Encode(m2));
    assert before.Stream() == Encode(m1) + Encode(m2);
    CompleteCall(before, failure, after, r, Delivered(m1), Encode(m2));
  }

  /** The condition matters: two messages that arrive in one piece strand the second one. The first
      call reads both, and the second call fails although its message is complete in the buffer. */
  method TwoInOnePiece(m1: Message, m2: Message, failure: Failure)
    returns (c: Connection, r1: RecvResult, r2: RecvResult)
    requires CStrings(m1) && Sendable(m1) && CStrings(m2) && Sendable(m2)
    requires |Encode(m1)| + |Encode(m2)| <= BUFSIZ
    ensures r1 == Received(Delivered(m1)) && r2 == Error(ReadError(failure))
    ensures c.Valid() && c.Contents() == Pending(Encode(m2), "")
    ensures Receive(Encode(m2)) == Complete(Delivered(m2), "")
  {
    ReceiveSent(m2, "");
    assert Encode(m2) + "" == Encode(m2);
    var both := Encode(m1) + Encode(m2);
    c := new Connection(Stream(true, [both], failure, [], "", 0, EOF));
    assert Flatten([both]) == both + Flatten([]) == both;
    assert c.Contents() == Pending("", both);
    r1 := c.Recv();
    FirstOfTwo(m1, m2, failure, c.Left(r1), r1);
    assert c.gss.pieces == [];
    NothingUnread(c.Left(r1));
    r2 := c.Recv();
  }

  /** The number that makes a caller reconnect and send again stands for a lost connection and nothing
      else: the stream ended, or the system said so. */
  lemma {:induction false} RetriedIff(before: Pending, failure: Failure, after: Pending, r: RecvResult)
    requires RecvCall(before, failure, after, r) && ReadFailed(r)
    ensures CodeNumber(r.code) == 107 <==> failure == EOF || failure == ERRNO(104) || failure == ERRNO(107)
  {
  }
}
