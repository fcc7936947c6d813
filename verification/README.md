# A verified model of the gLite Logging and Bookkeeping client core

The Logging and Bookkeeping (L&B) service tracks grid jobs. Its client libraries log events as ULM
lines, talk HTTP over authenticated connections kept in a shared pool, hand events to the
interlogger in length-prefixed frames, and name jobs by URI-like identifiers. This project models
that core in Dafny and proves what it is for.

- `CText.dfy`: C strings, decimal printing, `strtol` and `atoi`, used by everything below.
- `GssStream.dfy`, `MiniHttp.dfy`, `HttpExchange.dfy`: the incremental HTTP receiver over a fixed
  buffer, the sender, and both together over whole runs of calls.
- `UlmLine.dfy`, `UlmParse.dfy`, `UlmFields.dfy`, `UlmEvents.dfy`: the one-pass ULM scanner that
  writes NULs into its line, what its fields are, printing and escaping.
- `UlmDate.dfy`: Gauss's day formula with its machine arithmetic, and date strings.
- `PoolLocks.dfy`, `PoolRaces.dfy`, `PoolProgress.dfy`, `PoolOpens.dfy`: the locking protocol of the
  connection pool as a state machine for any number of interleaved threads: its safety, its races, its
  progress, and that it opens connections.
- `ConnPool.dfy`, `PoolCalls.dfy`: the pool as an object whose calls run one after the other, whole
  client calls, and histories of calls by many contexts.
- `PlainIo.dfy`, `IlMsg.dfy`: the growing read buffer over a plain socket and the interlogger frames.
- `StrMd5.dfy`, `CJobId.dfy`, `Subjobs.dfy`: base64 through a wrapping accumulator, job identifiers,
  generated subjobs.
- `SeqText.dfy`, `SeqCode.dfy`: sequence codes as text, as counters, and over runs of events.
- `Consumer.dfy`: lowering and routing of queries.

Network pieces, errors, clocks and random values are parameters, so each result holds for all of
them. Results about runs are stated over sequences of states and hold for every run.

Where the code differs from what one would expect, the model follows the code, and the difference is
stated exactly:

- The HTTP receiver reads before it looks at its buffer. A message that is already complete in the
  buffer is not returned when nothing more can be read (`HttpExchange.TwoInOnePiece`); back-to-back
  messages come out exactly as long as each call still finds something to read
  (`HttpExchange.BackToBack`).
- A pool slot is compared with the wanted peer before its lock is taken, and can be closed in between:
  `PoolLocks.StaleMatch` is such a run. It is impossible if and only if no other thread is using the
  slot when it is compared (`PoolRaces.RightPeerIff`).
- The assertion that every slot of a full pool has a peer can fail under threads:
  `PoolLocks.FullPoolEmptied` is such a run. For a slot it cannot fail if and only if the slot has a
  peer and no other thread is using it when the counter is compared (`PoolRaces.AssertionIff`).
- An interlogger string is read without storing its length, so its user sees it up to the first NUL.
  Events come back whole if and only if they have no NUL (`IlMsg.EventSurvivesIff`).
- A connection to the local logger does not remember the certificate file it was opened with
  (`ConnPool.Pool.LogConnect`).
- `edg_wll_ULMGetNameAt` and `edg_wll_ULMGetValueAt` accept an index one behind the last field. The
  model reports this access as out of bounds.
- The parser's index arrays are not checked against their size; the model ends such a scan with the
  outcome OVERFLOW. A legal line overflows if and only if it has more than 100 unquoted '=' or blanks (`UlmParse.ULMFields.ProcessParseTable`, `UlmEvents.OneFieldTooMany`).
- An interrupted read is meant to be repeated, but the `continue` leaves the loop with an error; the
  contract of `PlainIo.PlainConnection.Read` says exactly when the call fails.
- Port numbers above 2^31 - 1 are printed as negative numbers, and are still read back
  (`CJobId.SurvivesIff`).
- Counters are unsigned but printed with `%d`. Sequence codes are greater as strings after one more
  event while the counter is below INT_MAX, except when it outgrows its width by a digit. From
  INT_MAX on the printed number is negative, and codes get smaller, except where a digit beyond the
  width is lost and where the counter wraps to zero (`SeqCode.NextCodeGreater`).
- A context of type DUPLICATE that is set from its own code does not keep its counters: its source is
  marked with the time (`SeqCode.OwnCodeKeeps`).

## Model

| member | source | states |
|---|---|---|
| `MiniHttp.TakeLine` | org.glite.lb.common/src/mini_http.c:90-104 | a line ends at the first CR if LF follows; its text has no CR, fits the buffer with its line end, and text, CRLF and rest make up the input; only inputs that fill the buffer are rejected as too long |
| `MiniHttp.BufferedLine` | org.glite.lb.common/src/mini_http.c:90-104 | the receiver's test on what is buffered decides the same line as the whole stream does, so a line is never cut differently when more bytes arrive |
| `MiniHttp.Connection.NextLine` | org.glite.lb.common/src/mini_http.c:90-133 | the line scan with memmove takes exactly the line of the stream and shifts it out, or leaves everything |
| `MiniHttp.Connection.CopyBody` | org.glite.lb.common/src/mini_http.c:135-147 | body bytes go from the front of the buffer to the end of the body, in order and none lost, never more than announced |
| `MiniHttp.Connection.Fill` | org.glite.lb.common/src/mini_http.c:60-83 | one read of at most the free part of the buffer appends the next bytes of the stream; a read fails exactly when a failure comes next, the buffer then stays, and the bytes behind the failure can be read afterwards |
| `MiniHttp.Connection.Step` | org.glite.lb.common/src/mini_http.c:86-150 | one turn of the inner loop keeps the meaning of what is left (the remaining automaton on body, buffer and unread bytes equals the goal) and makes progress in state, buffer or need to read |
| `MiniHttp.Connection.Recv` | org.glite.lb.common/src/mini_http.c:39-176 | for every stream, with failures anywhere in it, and every splitting into reads, the call reports the message, E2BIG or read error that the bytes up to the next failure determine, and leaves exactly the following bytes for the next call; a failed read is ETIMEDOUT after a timeout, ENOTCONN exactly at the end of the stream or after ECONNRESET, the GSS code for GSS failures, and the errno otherwise |
| `MiniHttp.FailureCodes` | org.glite.lb.common/src/mini_http.c:63-80 | those codes, as a fact about every receive call |
| `MiniHttp.AnnouncesIff` | org.glite.lb.common/src/mini_http.c:122-123 | a header announces a length if and only if it starts with the fifteen letters of Content-Length: in either case, and the length is the number behind them |
| `MiniHttp.OthersAnnounceNothing` | org.glite.lb.common/src/mini_http.c:122-123 | any other header leaves the announced length alone |
| `MiniHttp.Connection.Send` | org.glite.lb.common/src/mini_http.c:288-359 | what reaches the peer is the encoding of the message, or the part of it that still could be written when it fails; the error is ENOTCONN exactly at the end of the stream or after EPIPE, and ETIMEDOUT, the GSS code or the errno otherwise |
| `MiniHttp.WireFormat` | org.glite.lb.common/src/mini_http.c:325-359 | the bytes of a message with and without a body, spelled out |
| `HttpExchange.RoundTrip` | org.glite.lb.common/src/mini_http.c:325-359 | receiving what was sent gives the same first line, the same headers with the generated Content-Length, the same body and the same remaining bytes if and only if the message is sendable (lines without CR that fit, headers not empty, body not empty, no false announcement) |
| `HttpExchange.ReceiveSent` | org.glite.lb.common/src/mini_http.c:86-151 | the forward half with any bytes behind the message |
| `HttpExchange.CallsUseAPrefix` | org.glite.lb.common/src/mini_http.c:59-151 | a call consumes a prefix: what it leaves buffered and unread is the end of what it found |
| `HttpExchange.MoreInput` | org.glite.lb.common/src/mini_http.c:59-151 | a decided outcome does not change when more bytes follow |
| `HttpExchange.SplittingIrrelevant` | org.glite.lb.common/src/mini_http.c:59-151 | over whole runs of calls, two fragmentations of the same bytes give the same results call by call and leave the same stream |
| `HttpExchange.BackToBack` | org.glite.lb.common/src/mini_http.c:59-151 | any number of messages sent back to back come out unchanged and in order if and only if every call still has something to read |
| `HttpExchange.EnoughBehind` | org.glite.lb.common/src/mini_http.c:59-151 | a condition on the start: with at least a buffer's worth of bytes behind the messages, every call has something to read |
| `HttpExchange.RecvMany` | org.glite.lb.common/src/mini_http.c:39-176 | consecutive calls on a connection are related as the results about runs demand, and the buffer is never full between them |
| `HttpExchange.RecvAll` | org.glite.lb.common/src/mini_http.c:39-176 | on a connection, messages with a buffer's worth of bytes behind them all come out in order and unchanged |
| `HttpExchange.TwoInOnePiece` | org.glite.lb.common/src/mini_http.c:59-83 | two messages in one read: the first is returned, the second call fails although its message is complete in the buffer |
| `HttpExchange.RetriedIff` | org.glite.lb.client/src/connection.c:617-622 | the number on which the caller reconnects and sends again is reported if and only if the stream ended or the system said that the connection is lost |
| `HttpExchange.LineFitsIff` | org.glite.lb.common/src/mini_http.c:98-102 | the lines that fit are those without CR of at most 8190 bytes |
| `UlmLine.EqualsExact` | org.glite.lb.common/src/ulm_parse.c:148-216 | the recorded positions of '=' and of blanks are exactly the unquoted ones |
| `UlmLine.EqualsSorted` | org.glite.lb.common/src/ulm_parse.c:148-216 | they are recorded in strictly increasing order |
| `UlmParse.ULMFields.constructor` | org.glite.lb.common/src/ulm_parse.c:55-69 | a new table holds the line without its leading blanks |
| `UlmParse.DroppedAre` | org.glite.lb.common/src/ulm_parse.c:60-61 | exactly the leading blanks and tabs are dropped |
| `UlmParse.ULMFields.ScanChar` | org.glite.lb.common/src/ulm_parse.c:149-215 | for one more character, the counters of quotes and backslashes correspond to the outside, quoted, escaped automaton, and a delimiter is recorded if and only if the automaton is outside |
| `UlmParse.ULMFields.Scan` | org.glite.lb.common/src/ulm_parse.c:148-238 | the pass succeeds with exactly the unquoted delimiters and only if they fit the index arrays, fails only on an illegal line, and overflows only with too many delimiters |
| `UlmParse.ULMFields.FindName` | org.glite.lb.common/src/ulm_parse.c:250-265 | the backward scan stops at the start of the run of name characters and accepts it if and only if a blank stands before it |
| `UlmParse.ULMFields.ProcessParseTable` | org.glite.lb.common/src/ulm_parse.c:118-277 | PARSE_OK means a legal line, not too long for the index arrays, whose fields are indexed and whose delimiters, and nothing else, became NUL; PARSE_ERROR means an illegal line; OVERFLOW means too many delimiters; so a legal line gives PARSE_OK if and only if it has not too many |
| `UlmParse.ULMFields.GetNameAt` | org.glite.lb.common/src/ulm_parse.c:301-306 | the C string at the index is the name of that field of the original line |
| `UlmParse.ULMFields.GetValueAt` | org.glite.lb.common/src/ulm_parse.c:319-324 | the C string at the index is the value of that field of the original line |
| `UlmFields.NameIsRun` | org.glite.lb.common/src/ulm_parse.c:250-265 | each name after the first is the maximal, non-empty run of name characters before its '=', behind an unquoted blank that lies behind the previous '=' |
| `UlmLine.NameCharsAre` | org.glite.lb.common/src/ulm_parse.c:285-288 | the characters of names are exactly the letters, the digits, '.', '-' and '_', listed one by one |
| `UlmLine.NamedIff` | org.glite.lb.common/src/ulm_parse.c:250-265 | an '=' has a name if and only if only listed characters stand between a blank or tab and it |
| `UlmFields.OtherNamesRefused` | org.glite.lb.common/src/ulm_parse.c:250-265 | a later name with a character that is not listed makes any line illegal |
| `UlmFields.ValueEnds` | org.glite.lb.common/src/ulm_parse.c:244-269 | each value runs from its '=' to the next unquoted blank, line feed or end |
| `UlmFields.FieldsApart` | org.glite.lb.common/src/ulm_parse.c:244-269 | no two fields overlap |
| `UlmFields.PrintParse` | org.glite.lb.common/src/ulm_parse.c:118-277 | printing any non-empty list of legal names and values gives a legal line with exactly these fields in order |
| `UlmEvents.EscapeULM` | org.glite.lbjp-common.trio/src/escape.c:49-81 | the counted buffer is filled with the escaped text |
| `UlmEvents.UnescapeULM` | org.glite.lbjp-common.trio/src/escape.c:99-132 | the loop computes the unescaped text |
| `UlmEvents.UnescapeEscape` | org.glite.lbjp-common.trio/src/escape.c:49-132 | unescaping undoes escaping for every text |
| `UlmEvents.EscapedIsOneLine` | org.glite.lbjp-common.trio/src/escape.c:61-76 | escaped texts have no line feed, and what line feed, quote and backslash become |
| `UlmEvents.TextOfPlain` | org.glite.lb.common/src/events_parse.c.T:606-636 | a value without quotes and backslashes is its own text |
| `UlmEvents.QuotedIsValue` | org.glite.lbjp-common.trio/src/escape.c:49-81 | every escaped text between quotes is a legal value: it closes its quotes and has no unquoted delimiter |
| `UlmEvents.AttributesSurvive` | org.glite.lb.common/src/events_parse.c.T:599-635 | end to end: any attributes, escaped, quoted, printed and parsed, come back with their names and exact texts |
| `UlmEvents.ParsePrinted` | org.glite.lb.common/src/ulm_parse.c:118-324 | the parser run on any printed line returns PARSE_OK, with exactly the printed fields from its accessors, if there are at most 100, and OVERFLOW otherwise |
| `UlmEvents.ParseListed` | org.glite.lb.common/src/ulm_parse.c:118-324 | the same for all names over the listed characters |
| `UlmEvents.ParseOther` | org.glite.lb.common/src/ulm_parse.c:118-277 | a line with another name behind some fields is not accepted |
| `UlmEvents.ParseJobId` | org.glite.lb.client/src/producer.c:704-705 | a line with a DG.JOBID field, as the producer writes them, is accepted with its fields |
| `UlmEvents.OneFieldTooMany` | org.glite.lb.common/src/ulm_parse.c:124-125 | a legal line on which the index arrays overflow |
| `UlmDate.GaussFromEpoch` | org.glite.lb.common/src/ulm_parse.c:375-386 | for every Gregorian date from 1970 on, the shifted-month expression equals the naive count of days by year and month lengths with leap years |
| `UlmDate.NoWrap` | org.glite.lb.common/src/ulm_parse.c:375-386 | none of the 32- and 64-bit unsigned operations of the code wraps in a way that changes the result, for four-digit years |
| `UlmDate.GaussCountsDays` | org.glite.lb.common/src/ulm_parse.c:375-386 | hence the machine computation counts days |
| `UlmDate.DayNumberIncreases` | org.glite.lb.common/src/ulm_parse.c:375-386 | the day number is strictly increasing in the date |
| `UlmDate.DateOfDayNumber` | org.glite.lb.common/src/ulm_parse.c:431-457 | calendar conversion and day count are inverse |
| `UlmDate.WhenPrintable` | org.glite.lb.common/src/ulm_parse.c:427-457 | a date string exists if and only if the second lies from 1970 to the end of 9999 and the fraction is below a second |
| `UlmDate.TimevalSurvives` | org.glite.lb.common/src/ulm_parse.c:368-457 | every such second and microsecond comes back from its date string |
| `UlmDate.DateSurvives` | org.glite.lb.common/src/ulm_parse.c:368-457 | every date string of a real moment comes back from its second and microsecond |
| `UlmDate.DateLayout` | org.glite.lb.common/src/ulm_parse.c:445-454 | the order and width of the parts of a date string |
| `UlmDate.KnownMoment` | org.glite.lb.common/src/ulm_parse.c:431-457 | the date string of one thousand million seconds after the epoch |
| `UlmDate.NoFraction` | org.glite.lb.common/src/ulm_parse.c:411-411 | without a point behind the digits there are no microseconds |
| `UlmDate.SecondsBeforeEpoch` | org.glite.lb.common/src/ulm_parse.c:375-386 | for all years from 1 on the wrapping computation equals the formula on signed integers, so that moments before the epoch come out negative |
| `PoolLocks.StepKeepsInv` | org.glite.lb.client/src/connection.c:101-172 | every step of every thread keeps the invariant on locks, selected slots and peers |
| `PoolLocks.OthersUndisturbed` | org.glite.lb.common/src/connpool.c:136-219 | a step of one thread never invalidates what another thread relies on |
| `PoolLocks.RunsAreSafe` | org.glite.lb.client/src/connection.c:287-333 | in every state of every interleaving: no two threads have the same slot or are both inside the pool lock, unlocks are by the holder, the unchecked try-lock of a reused slot succeeds, the evicted slot is nobody's, an idle thread holds no lock, and an open slot has the wanted peer whenever it was not locked when it was compared (exactly when it has it is PoolRaces.RightPeerIff) |
| `PoolLocks.StaleMatch` | org.glite.lb.client/src/connection.c:112-131 | a reachable state in which a thread uses a slot without a peer, because the slot was locked when it was compared and closed before its lock was taken |
| `PoolRaces.RightPeerIff` | org.glite.lb.client/src/connection.c:112-131 | from every reachable state in which a slot compares equal, the thread can come to use it only with the wanted peer if and only if no other thread is using the slot at the comparison |
| `PoolLocks.FullPoolEmptied` | org.glite.lb.client/src/connection.c:208-210 | a concrete interleaving in which the assertion on slots of a full pool fails |
| `PoolRaces.AssertionIff` | org.glite.lb.client/src/connection.c:208-210 | from every reachable state in which the counter is compared, the assertion on slot i holds in all interleavings if and only if the slot has a peer then and no other thread is using it |
| `PoolRaces.KeptAlong` | org.glite.lb.client/src/connection.c:112-131 | along every path in which a thread compares or releases, a slot that no other thread uses keeps its peer |
| `PoolProgress.LockIsBrief` | org.glite.lb.client/src/connection.c:298-333 | in every interleaving a thread makes at most 6 n + 8 steps between taking the pool lock and giving it back, for n slots |
| `PoolProgress.NoDeadlock` | org.glite.lb.common/src/connpool.c:68-219 | in every reachable state a thread without a move waits for the pool lock, and the holder of that lock has a move |
| `PoolProgress.HolderFinishes` | org.glite.lb.client/src/connection.c:298-333 | from every reachable state the holder of the pool lock can give it back by its own moves alone |
| `PoolOpens.OpensAlone` | org.glite.lb.client/src/connection.c:298-333 | from every reachable state with the pool lock free and some slot unlocked, an undisturbed thread comes to use a slot with its peer: the first unlocked one that has it, if any |
| `PoolOpens.EvictOpens` | org.glite.lb.client/src/connection.c:208-229 | a thread that evicts a connection comes to use a slot with its peer |
| `PoolOpens.AllLockedFails` | org.glite.lb.client/src/connection.c:227-227 | if every slot is locked, it gives the pool lock back without a connection and leaves the slots as they are |
| `ConnPool.Pool.ConnectionIndex` | org.glite.lb.client/src/connection.c:101-146 | the first unlocked slot with the name, the port and, if the context has a certificate file of its own, that very file, or -1 if there is none; probing leaves the pool unchanged |
| `ConnPool.Pool.AddConnection` | org.glite.lb.client/src/connection.c:149-172 | the first empty unlocked slot gets name and port, no certificate file and age 0, is locked and counted; nothing else changes |
| `ConnPool.Pool.CloseConnection` | org.glite.lb.client/src/connection.c:45-68 | the slot becomes empty and the counter falls; the assertion on the counter holds |
| `ConnPool.Pool.FindOldest` | org.glite.lb.client/src/connection.c:208-227 | in a full pool the slot found is the least recently used unlocked one, the first of equals; -1 only if all are locked; the assertion on empty slots holds |
| `ConnPool.Pool.ReleaseConnection` | org.glite.lb.client/src/connection.c:195-231 | EAGAIN if and only if every slot is locked, and then nothing changes; otherwise exactly the oldest or the given idle connection is closed |
| `ConnPool.Pool.Select` | org.glite.lb.client/src/connection.c:287-333 | a matching slot is reused, else an empty one is filled, else the oldest idle one is replaced; it fails only if all slots are locked |
| `ConnPool.Pool.Open` | org.glite.lb.client/src/connection.c:287-449 | success adds exactly one lock, on a slot with name, port and own certificate file; a reused slot had them before, and otherwise no unlocked slot had; only that slot changes; failure leaves all locks as they were; the pool lock is free afterwards |
| `ConnPool.Pool.LogConnect` | org.glite.lb.client/src/prod_proto.c:231-371 | the same for the local logger; the slot does not learn the certificate file, so a new one does not serve a context that has its own |
| `ConnPool.Pool.Close` | org.glite.lb.client/src/connection.c:263-274 | the slot is emptied and its lock given back by its holder |
| `ConnPool.FullMeansFull` | org.glite.lb.client/src/connection.c:208-210 | the counter equals the pool size if and only if no slot is empty |
| `ConnPool.RoomMeansFree` | org.glite.lb.client/src/connection.c:153-162 | below the pool size there is an empty slot, and it is unlocked |
| `PoolCalls.HttpSendRecv` | org.glite.lb.client/src/connection.c:590-641 | for every outcome of connect, send, receive and the retries: the error that is answered and how often the request was sent, again only after a lost connection; all locks are as before, and a successful call used and dated a connection that fits its server and certificate file |
| `PoolCalls.DoLogEvent` | org.glite.lb.client/src/producer.c:105-143 | the exact answer; a second attempt if and only if the first got a connection and lost it; no lock is left behind |
| `PoolCalls.CallKeepsValid` | org.glite.lb.client/src/connection.c:45-68 | every atomic call keeps: counter equals occupied slots, and locked slots are occupied |
| `PoolCalls.HistoryKeepsValid` | org.glite.lb.client/src/connection.c:149-231 | so does every history of calls by any contexts |
| `PoolCalls.HistoryIsSound` | org.glite.lb.client/src/connection.c:52-65 | at any point of any history both assertions hold, and a connection to any peer can be opened if and only if some slot is not locked |
| `PoolCalls.RoomIff` | org.glite.lb.client/src/connection.c:304-317 | reuse, a fresh slot or eviction succeeds for a peer if and only if some slot is not locked |
| `PlainIo.PlainConnection.FillBuffer` | org.glite.lb.common/src/lb_plain_io.c:112-144 | reading until a read does not fill the buffer loses nothing, grows the buffer as needed and ends; without faults it fails only at the end of the stream |
| `PlainIo.PlainConnection.Read` | org.glite.lb.common/src/lb_plain_io.c:85-167 | delivered, buffered and unread bytes together are what was sent, also when the call fails; it fails if and only if the buffer is empty and, before a read does not fill the room left, a fault comes, or the end before any byte |
| `PlainIo.PlainConnection.ReadFull` | org.glite.lb.common/src/lb_plain_io.c:170-194 | all requested bytes or an error; nothing is lost or reordered; without faults it succeeds if and only if enough bytes were sent |
| `IlMsg.LenString` | org.glite.lb.common/src/il_string.c:42-51 | the precomputed length is the length of the text written |
| `IlMsg.PutString` | org.glite.lb.common/src/il_string.c:26-39 | the text of the string is appended, exactly, and what stood before it is kept |
| `IlMsg.EncodeMsg` | org.glite.lb.common/src/il_msg.c:31-58 | the allocated buffer is filled exactly: header with the body length, magic word, event |
| `IlMsg.EncodeReply` | org.glite.lb.common/src/il_msg.c:61-83 | the same for a reply with two codes and a text |
| `IlMsg.GetIntBack` | org.glite.lb.common/src/il_int.c:40-74 | reading a printed int, negative ones included, gives the int and the text behind it |
| `IlMsg.GetStringBack` | org.glite.lb.common/src/il_string.c:54-78 | reading a printed octet string gives it up to its first NUL, because its length is not stored, and the text behind it |
| `IlMsg.DecodeEncodedMsg` | org.glite.lb.common/src/il_msg.c:86-112 | decoding the body of any encoded event gives the event up to its first NUL, whatever follows |
| `IlMsg.EventSurvivesIff` | org.glite.lb.common/src/il_msg.c:86-112 | an event comes back whole if and only if it has no NUL |
| `IlMsg.NulCutsEvent` | org.glite.lb.common/src/il_string.c:54-78 | a concrete event that comes back cut |
| `IlMsg.DecodeEncodedReply` | org.glite.lb.common/src/il_msg.c:115-132 | decoding the body of any encoded reply gives both codes and the text |
| `IlMsg.HeaderBack` | org.glite.lb.common/src/il_msg.c:143-168 | the checks of a header accept every printed one and find its length |
| `IlMsg.WireFormat` | org.glite.lb.common/src/il_msg.c:31-83 | the bytes of event and reply bodies, spelled out |
| `IlMsg.HeaderFormat` | org.glite.lb.common/src/il_msg.c:49-51 | the header is the number right-aligned in sixteen columns and a line feed |
| `IlMsg.HeaderTaken` | org.glite.lb.common/src/il_msg.c:149-168 | blanks and then digits are taken, and announce their number |
| `IlMsg.HeaderRefused` | org.glite.lb.common/src/il_msg.c:149-163 | a header without line feed, with another character, or with a blank behind a digit is refused |
| `IlMsg.ReadIlData` | org.glite.lb.common/src/il_msg.c:135-190 | a body is returned only if a valid header announced it, and is then exactly the announced bytes; without faults it is returned if and only if a complete frame stands in front |
| `IlMsg.FrameInFront` | org.glite.lb.common/src/il_msg.c:135-190 | a frame is found in front of any bytes, and its body and rest are determined |
| `IlMsg.ReceiveEvents` | org.glite.lb.client/src/prod_proto.c:139-151 | for every list of events and every fragmentation of their concatenated encodings, repeated reading and decoding returns these events in order, each up to its first NUL, and leaves the bytes behind them; all come back whole if and only if none has a NUL |
| `StrMd5.SextetsValue` | org.glite.jobid.api-c/src/strmd5.c:32-72 | the sextets of RFC 4648 are the bytes' number shifted by the padding: nothing is cut off |
| `StrMd5.BytesOfSextets` | org.glite.jobid.api-c/src/strmd5.c:32-94 | joining the sextets of any bytes gives the bytes |
| `StrMd5.GroupOfThree` | org.glite.jobid.api-c/src/strmd5.c:40-68 | the definition of RFC 4648: three bytes make four sextets, group by group |
| `StrMd5.ShortGroups` | org.glite.jobid.api-c/src/strmd5.c:49-52 | one or two bytes at the end make two or three sextets with zero bits added |
| `StrMd5.LetterIs` | org.glite.jobid.api-c/src/strmd5.c:29-29 | the letters of the 64 sextets, listed one by one |
| `StrMd5.WrappedShift` | org.glite.jobid.api-c/src/strmd5.c:43-44 | wrapping of the accumulator at 32 bits never reaches the bits still needed |
| `StrMd5.Base64Encode` | org.glite.jobid.api-c/src/strmd5.c:32-72 | returns ceil(4n/3) + 1 and the letters of the sextets with '=' if and only if the limit is at least that, else -1; it writes at most one byte past the limit |
| `StrMd5.Base64Decode` | org.glite.jobid.api-c/src/strmd5.c:74-94 | returns the whole bytes of the letters up to '=' or the end, or -1 if and only if they do not fit |
| `StrMd5.DecodeEncoded` | org.glite.jobid.api-c/src/strmd5.c:32-94 | decoding an encoding, with anything behind it, gives the bytes |
| `StrMd5.EncodingIsInjective` | org.glite.jobid.api-c/src/strmd5.c:32-72 | different bytes have different texts |
| `StrMd5.Str2Md5Base64` | org.glite.jobid.api-c/src/strmd5.c:142-158 | never fails, and gives the text of the digest |
| `StrMd5.Hashed` | org.glite.jobid.api-c/src/strmd5.c:142-158 | that text is 22 letters of the alphabet |
| `CJobId.ParseInPlace` | org.glite.jobid.api-c/src/cjobid.c:151-226 | cutting the copied string at up to three places computes the value-level parse, errors included |
| `CJobId.ParseUnparse` | org.glite.jobid.api-c/src/cjobid.c:240-256 | parsing a printed job id gives it back, with the default port for port 0; hosts with brackets and colons included |
| `CJobId.ParsedIsPrintable` | org.glite.jobid.api-c/src/cjobid.c:201-221 | whatever is accepted has no '/' in its host, no '?' in its unique part and no white space in either |
| `CJobId.SurvivesIff` | org.glite.jobid.api-c/src/cjobid.c:151-256 | a job id survives printing and parsing if and only if it is printable and its port is not 0, for all 32-bit ports |
| `CJobId.NormalForm` | org.glite.jobid.api-c/src/cjobid.c:151-256 | printing what was parsed is an idempotent normal form on every accepted string |
| `CJobId.DefaultPort` | org.glite.jobid.api-c/src/cjobid.c:178-190 | a server text without a port, or whose last colon is inside brackets, means the same as with the default port |
| `CJobId.UnparseText` | org.glite.jobid.api-c/src/cjobid.c:240-271 | the text of job ids and servers, for all ports, spelled out |
| `CJobId.NoPortIff` | org.glite.jobid.api-c/src/cjobid.c:178-179 | a server has no port if and only if a closing bracket stands behind each of its colons |
| `CJobId.AllHost` | org.glite.jobid.api-c/src/cjobid.c:178-190 | a server without colon, or ending in a bracket, is all host and has port 9000 |
| `CJobId.HostAndPort` | org.glite.jobid.api-c/src/cjobid.c:181-185 | digits behind the last colon are the port, what stands before it is the host |
| `CJobId.RefusedIff` | org.glite.jobid.api-c/src/cjobid.c:201-221 | behind scheme and slash, exactly white space in host or unique part is refused |
| `CJobId.RefusedWithout` | org.glite.jobid.api-c/src/cjobid.c:164-175 | another scheme or a missing slash is refused |
| `CJobId.RecreateKeepsServer` | org.glite.jobid.api-c/src/cjobid.c:87-107 | with a nonzero port, the server is kept as given if and only if it has no colon |
| `CJobId.RecreatePlain` | org.glite.jobid.api-c/src/cjobid.c:93-107 | a server without colon is the host; the port is the given one or 9000 |
| `CJobId.RecreateWithColon` | org.glite.jobid.api-c/src/cjobid.c:94-105 | behind the last colon stands a port, which counts if none is given |
| `CJobId.RecreateFromServer` | org.glite.jobid.api-c/src/cjobid.c:259-271 | building from the text of getServer gives the same host and port |
| `Subjobs.GenerateSubjobIds` | org.glite.lb.common/src/context.c:587-658 | succeeds if and only if the count is positive and the parent's host is accepted; each subjob depends on parent, seed and its index only, so a longer list extends a shorter one |
| `Subjobs.SubjobText` | org.glite.lb.common/src/context.c:615-629 | the unique part is the hash of parent, seed and index from 0, joined by commas, with the default seed spelled out |
| `Subjobs.HashInputsDiffer` | org.glite.lb.common/src/context.c:615-623 | for different parents whose unique parts have no comma, the hashed texts are equal if and only if parent, seed and index are |
| `Subjobs.HashInputsAgree` | org.glite.lb.common/src/context.c:615-623 | the hashed texts are equal if and only if the indices and the joined texts of unique part and seed are, for all unique parts and seeds |
| `Subjobs.CommasConfuse` | org.glite.lb.common/src/context.c:615-623 | with commas the border between unique part and seed is not determined |
| `Subjobs.OnlyCollisionsCoincide` | org.glite.lb.common/src/context.c:621-642 | two subjobs of a parent coincide if and only if their digests collide, and the hashed texts are equal if and only if the indices are, for every parent |
| `Subjobs.SubjobStays` | org.glite.lb.common/src/context.c:636-642 | a subjob is on its parent's host and port if and only if the host has no colon |
| `Subjobs.SubjobSurvives` | org.glite.lb.common/src/context.c:629-642 | its unique part is 22 letters, and it survives printing and parsing |
| `SeqText.ScanBack` | org.glite.lb.common/interface/context-int.h:51-56 | scanning with at least the printed fields gives exactly the printed counters, for all 32-bit values |
| `SeqText.StringOrderIsTupleOrder` | org.glite.lb.common/interface/context-int.h:51-56 | while counters fit their widths, codes are ordered as strings if and only if their tuples are so ordered |
| `SeqText.CodeStep` | org.glite.lb.common/interface/context-int.h:51-56 | counting one field up makes the text greater if and only if its counter's print grows, for every 32-bit counter |
| `SeqText.StepOrder` | org.glite.lb.common/interface/context-int.h:51-56 | one more event makes a printed counter greater as a string if and only if it stays below INT_MAX without outgrowing its width, or turns from -1 to 0, or is a negative int that loses a digit beyond its width |
| `SeqText.StepsDown` | org.glite.lb.common/interface/context-int.h:51-56 | the two kinds of failure at concrete counters: 999999 in six digits, and INT_MAX |
| `SeqText.PaddedExamples` | org.glite.lb.common/interface/context-int.h:51-51 | zeros up to the width, behind the sign of a negative number |
| `SeqCode.Context.GetSequenceCode` | org.glite.lb.common/src/context.c:416-458 | scanning the printed code gives exactly the counters of the type's sources; only unknown types have no code |
| `SeqCode.CodeIsText` | org.glite.lb.common/src/context.c:421-446 | the code, spelled out: which counter stands behind which label, in what width, for jobs and batch systems |
| `SeqCode.EventChangesOneNumber` | org.glite.lb.common/src/context.c:573-573 | one more event of a source changes exactly the number behind its label |
| `SeqCode.Context.ScanCounters` | org.glite.lb.common/src/context.c:482-492 | the counters of the fields before the first mismatch are stored, in order, and no others |
| `SeqCode.Context.SetSequenceCode` | org.glite.lb.common/src/context.c:460-552 | result and counters for every type and every code, complete, old or malformed, including partial stores on errors and the time stamp of a duplicate |
| `SeqCode.TextIsStored` | org.glite.lb.common/src/context.c:483-492 | a code printed elsewhere is stored source by source, and all other counters stay |
| `SeqCode.SetFailsIff` | org.glite.lb.common/src/context.c:496-537 | for each type, which codes and sources are errors |
| `SeqCode.Context.IncSequenceCode` | org.glite.lb.common/src/context.c:554-580 | the counter of the context's source advances modulo 2^32, and nothing else changes; without a source it is an error |
| `SeqCode.OwnCodeKeeps` | org.glite.lb.common/src/context.c:416-552 | setting a context from its own code keeps all counters if and only if it is not a duplicate with a source whose counter differs from the time |
| `SeqCode.SetFromOwnCode` | org.glite.lb.common/src/context.c:416-552 | the two calls composed on one context: counters kept under exactly that condition, and an error only for a duplicate without a source |
| `SeqCode.DuplicateIsMarked` | org.glite.lb.common/src/context.c:507-515 | the failing side at a concrete context: counter 5, time 7 |
| `SeqCode.CodeTransfers` | org.glite.lb.common/src/context.c:416-552 | a context set from a code prints that code if and only if it is not a duplicate that marks a shown source with a different time, and it keeps its other counters |
| `SeqCode.OldCodeReads` | org.glite.lb.common/src/context.c:496-505 | for every type with nine fields, setting from a code of eight reads as nine with LBS=0, up to the time stamp of a duplicate, and is an error only for a duplicate without a source |
| `SeqCode.LogEvents` | org.glite.lb.client/src/producer.c:526-528 | over a run of events of any context each one carries the code of the counters advanced by the events before it; without a source or counters they stay |
| `SeqCode.CodesIncrease` | org.glite.lb.client/src/producer.c:526-528 | a later event of a shown source has a greater code, as tuple and as string, while counters fit |
| `SeqCode.NextCodeGreater` | org.glite.lb.common/src/context.c:573-573 | the exact condition for one step and every 32-bit counter: the printed code grows if and only if the counter's print does, which is stated by SeqText.StepOrder |
| `Consumer.Wrap` | org.glite.lb.client/src/consumer.c:217-226 | the nested list holds of a job if and only if the flat list does, for every meaning of the conditions, and names the same servers |
| `Consumer.ScanRows` | org.glite.lb.client/src/consumer.c:407-427 | two servers are reported if and only if two job ids anywhere in the nested list differ in host, or in port with 0 read as 9000; none if and only if there is no job id; and otherwise the one host and port of all of them |
| `Consumer.QueryContext.SetServer` | org.glite.lb.client/src/consumer.c:396-457 | two job ids that differ in host or port are an error that changes nothing; if all have host h and port p, 0 read as 9000, the context gets h and p unless overridden; otherwise a known server is kept, or the configured one is taken or reported missing |

## Left out

- GSS, sockets, poll, credentials, signals and clocks: their results are parameters.
- Memory allocation: failures of malloc and the ENOMEM paths do not occur, and freeing is not modelled.
- MD5: any function from strings to 16 bytes.
- b64r.c is not part of this model; the reverse table is the inverse of the alphabet.
- Base64Decode: requires letters of the alphabet up to the terminator, because the reverse table outside the alphabet is not known.
- Negative Content-Length followed by body bytes: the code then has no defined behaviour, and the model reports that and empties the buffer.
- `edg_wll_http_recv_proxy` and `edg_wll_http_send_proxy`: the same machine without the line-length check.
- Scanning after the index arrays of the ULM parser overflow: the model stops with OVERFLOW.
- The name of the first ULM field: the code does not check its characters, and neither does the model's notion of a legal line.
- PoolLocks.RunsAreSafe: says nothing about the counter of open connections, because closing changes it without the pool lock; counter properties are stated for calls that run one after the other.
- Tests in the pool on counter, ages, credentials and network results: in the interleaving model they are left to the scheduler.
- Change of the pool size at run time, the notification pool and `edg_wll_NotifReceive`.
- `edg_wll_DoLogEventServer`, `edg_wll_log_event_write` and the file-based logging.
- Malformed interlogger bodies: the code reads past the end of some of them, where the model returns None.
- ReceiveEvents: for events whose body length fits an int.
- `glite_jobid_recreate` with a generated unique part (host name, process id, random numbers).
- Sequence codes of type Condor that fill their buffer: the code then leaves them unterminated, and the model returns the stored bytes.
- The server side, SQL and XML conversion, command-line tools, C++ and Java wrappers, and the name tables.
