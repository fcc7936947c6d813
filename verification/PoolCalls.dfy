/** Whole client calls on the connection pool: what they do with its locks, whatever the network
    does, and what any sequence of calls by any contexts keeps. */
module PoolCalls {
  import opened CText
  import opened ConnPool

  /** Error codes of the network operations in the order in which they may be reached; 0 is success. */
  datatype HttpScript = HttpScript(open1: int, send1: int, open2: int, send2: int, recv1: int,
                                   open3: int, send3: int, recv2: int)

  // Some slot is not locked
  ghost predicate HasRoom(locks: seq<Option<Ctx>>) {
    exists i :: 0 <= i < |locks| && locks[i].None?
  }

  // edg_wll_close, then edg_wll_open again
  method Reopen(pool: Pool, ctx: Ctx, want: Peer, connToUse: nat, failure: int, ghost locks: seq<Option<Ctx>>)
    returns (err: int, conn: int)
    requires pool.Ready() && pool.poolLock == None && Holding(pool, ctx, want, connToUse, locks)
    modifies pool, pool.conn, pool.locked
    ensures pool.Ready() && pool.poolLock == None
    ensures err == failure && (err == 0 <==> conn >= 0)
    ensures Holding(pool, ctx, want, conn, locks)
  {
    pool.Close(ctx, connToUse);
    assert pool.locked[..] == locks && locks[connToUse].None?;
    ghost var sel;
    err, conn, sel := pool.Open(ctx, want, failure);
  }

  // The context holds the one slot `i` for its peer on top of the locks it found, or nothing if i is -1
  ghost predicate Holding(pool: Pool, ctx: Ctx, want: Peer, i: int, locks: seq<Option<Ctx>>)
    reads pool, pool.conn, pool.locked
  {
    && -1 <= i < pool.conn.Length == pool.locked.Length == |locks|
    && (i < 0 ==> pool.locked[..] == locks)
    && (i >= 0 ==> locks[i].None? && pool.locked[..] == locks[i := Some(ctx)] && Fits(pool.conn[i], want))
  }

  // The request was sent, at once or after one lost connection
  predicate FirstSent(net: HttpScript) {
    net.open1 == 0 && (net.send1 == 0 || (net.send1 == ENOTCONN && net.open2 == 0 && net.send2 == 0))
  }

  /** What the call answers, and how often the request was sent: again only after a lost connection. */
  ghost predicate Answered(net: HttpScript, room: bool, err: int, sends: nat) {
    var again := if net.send1 == ENOTCONN then 1 else 0;
    && (!room ==> err == EAGAIN && sends == 0)
    && (room && net.open1 != 0 ==> err == net.open1 && sends == 0)
    && (room && net.open1 == 0 && net.send1 != 0 && net.send1 != ENOTCONN ==> err == net.send1 && sends == 1)
    && (room && net.open1 == 0 && net.send1 == ENOTCONN && net.open2 != 0 ==> err == net.open2 && sends == 1)
    && (room && net.open1 == 0 && net.send1 == ENOTCONN && net.open2 == 0 && net.send2 != 0 ==>
          err == net.send2 && sends == 2)
    && (room && FirstSent(net) && net.recv1 != ENOTCONN ==> err == net.recv1 && sends == 1 + again)
    && (room && FirstSent(net) && net.recv1 == ENOTCONN && net.open3 != 0 ==> err == net.open3 && sends == 1 + again)
    && (room && FirstSent(net) && net.recv1 == ENOTCONN && net.open3 == 0 && net.send3 != 0 ==>
          err == net.send3 && sends == 2 + again)
    && (room && FirstSent(net) && net.recv1 == ENOTCONN && net.open3 == 0 && net.send3 == 0 ==>
          err == net.recv2 && sends == 2 + again)
  }

  // The first switch: sending, once more if the connection was lost
  method SendPhase(pool: Pool, ctx: Ctx, want: Peer, connToUse: nat, net: HttpScript, ghost locks: seq<Option<Ctx>>)
    returns (err: int, conn: int, sends: nat)
    requires pool.Ready() && pool.poolLock == None && Holding(pool, ctx, want, connToUse, locks) && net.open1 == 0
    modifies pool, pool.conn, pool.locked
    ensures pool.Ready() && pool.poolLock == None && Holding(pool, ctx, want, conn, locks)
    ensures err == 0 ==> conn >= 0
    ensures err == if net.send1 != ENOTCONN then net.send1 else if net.open2 != 0 then net.open2 else net.send2
    ensures sends == if net.send1 == ENOTCONN && net.open2 == 0 then 2 else 1
  {
    err, conn, sends := net.send1, connToUse, 1;
    if err == ENOTCONN {
      err, conn := Reopen(pool, ctx, want, connToUse, net.open2, locks);
      if err == 0 {
        err, sends := net.send2, sends + 1;
      }
    }
  }

  // The second switch: receiving, with everything once more if the connection was lost
  method RecvPhase(pool: Pool, ctx: Ctx, want: Peer, connToUse: nat, net: HttpScript, ghost locks: seq<Option<Ctx>>)
    returns (err: int, conn: int, sends: nat)
    requires pool.Ready() && pool.poolLock == None && Holding(pool, ctx, want, connToUse, locks)
    modifies pool, pool.conn, pool.locked
    ensures pool.Ready() && pool.poolLock == None && Holding(pool, ctx, want, conn, locks)
    ensures err == 0 ==> conn >= 0
    ensures err == if net.recv1 != ENOTCONN then net.recv1 else if net.open3 != 0 then net.open3
                   else if net.send3 != 0 then net.send3 else net.recv2
    ensures sends == if net.recv1 == ENOTCONN && net.open3 == 0 then 1 else 0
  {
    err, conn, sends := net.recv1, connToUse, 0;
    if err == ENOTCONN {
      err, conn := Reopen(pool, ctx, want, connToUse, net.open3, locks);
      if err == 0 {
        err, sends := net.send3, 1;
        if err == 0 {
          err := net.recv2;
        }
      }
    }
  }

  /** edg_wll_http_send_recv: whatever happens on the network, the call gives back every lock it
      took, and a successful one marks the connection it used. */
  method HttpSendRecv(pool: Pool, ctx: Ctx, want: Peer, net: HttpScript, now: int)
    returns (err: int, sends: nat, ghost used: int)
    requires pool.Ready() && pool.poolLock == None
    modifies pool, pool.conn, pool.locked
    ensures pool.Ready() && pool.poolLock == None
    ensures pool.locked[..] == old(pool.locked[..])
    ensures err == 0 ==>
              0 <= used < pool.conn.Length && Fits(pool.conn[used], want) && pool.conn[used].lastUsed == now
    ensures Answered(net, HasRoom(old(pool.locked[..])), err, sends)
    ensures sends >= 2 ==> net.send1 == ENOTCONN || net.recv1 == ENOTCONN
  {
    ghost var locks := pool.locked[..];
    var connToUse;
    ghost var sel;
    used, sends := -1, 0;
    err, connToUse, sel := pool.Open(ctx, want, net.open1);
    RoomOf(old(pool.Contents()), want, sel);
    if err != 0 {
      return;
    }
    var more := 0;
    err, connToUse, sends := SendPhase(pool, ctx, want, connToUse, net, locks);
    if err == 0 {
      err, connToUse, more := RecvPhase(pool, ctx, want, connToUse, net, locks);
    }
    sends := sends + more;
    if err != 0 {
      pool.Close(ctx, connToUse);
      assert pool.locked[..] == locks;
      return;
    }
    used := connToUse;
    Finish(pool, ctx, want, connToUse, now, locks);
  }

  lemma {:induction false} RoomOf(p: State, want: Peer, sel: Selection)
    requires Valid(p) && Selects(p, want, sel)
    ensures HasRoom(p.locked) <==> !sel.NoRoom?
  {
    if !sel.NoRoom? {
      assert p.locked[sel.i].None?;
    }
  }

  // The end of a successful exchange
  method Finish(pool: Pool, ctx: Ctx, want: Peer, connToUse: nat, now: int, ghost locks: seq<Option<Ctx>>)
    requires pool.Ready() && pool.poolLock == None && Holding(pool, ctx, want, connToUse, locks)
    modifies pool.conn, pool.locked
    ensures pool.Ready() && pool.locked[..] == locks
    ensures Fits(pool.conn[connToUse], want) && pool.conn[connToUse].lastUsed == now
  {
    SlotChanged(pool.conn[..], connToUse, pool.conn[connToUse].(lastUsed := now));
    pool.conn[connToUse] := pool.conn[connToUse].(lastUsed := now);
    pool.Unlock(ctx, connToUse);
  }

  /** One attempt to log an event: the connection, sending (with the error it leaves), the answer. */
  datatype LogScript = LogScript(connect: int, sent: bool, sendError: int, read: bool, answer: int)

  // What an attempt that got a connection leaves as the answer
  function FirstAnswer(a: LogScript): int {
    if a.sent then a.answer else a.sendError
  }

  // One attempt
  method LogAttempt(pool: Pool, ctx: Ctx, want: Peer, a: LogScript, answer0: int) returns (answer: int)
    requires pool.Ready() && pool.poolLock == None
    modifies pool, pool.conn, pool.locked
    ensures pool.Ready() && pool.poolLock == None && pool.locked[..] == old(pool.locked[..])
    ensures answer == if !HasRoom(old(pool.locked[..])) || a.connect != 0 then answer0
                      else if a.sent then a.answer else a.sendError
  {
    answer := answer0;
    ghost var sel;
    var conn, ret;
    ret, conn, sel := pool.LogConnect(ctx, want, a.connect);
    RoomOf(old(pool.Contents()), want, sel);
    if ret == 0 {
      if !a.sent {
        ret, answer := -1, a.sendError;
      } else {
        answer := a.answer;
        if !a.read {
          ret := -1;
        }
      }
    }
    if ret == -1 && conn >= 0 {
      pool.Close(ctx, conn);
    } else if conn >= 0 {
      pool.Unlock(ctx, conn);
    }
    assert pool.locked[..] == old(pool.locked[..]);
  }

  /** edg_wll_DoLogEvent: at most two attempts, the second exactly after a lost connection, and no lock
      is left behind after any outcome. */
  method DoLogEvent(pool: Pool, ctx: Ctx, want: Peer, net: seq<LogScript>) returns (answer: int, attempts: nat)
    requires pool.Ready() && pool.poolLock == None && |net| >= 2
    modifies pool, pool.conn, pool.locked
    ensures pool.Ready() && pool.poolLock == None
    ensures pool.locked[..] == old(pool.locked[..])
    ensures var reached := HasRoom(old(pool.locked[..])) && net[0].connect == 0;
      var first := FirstAnswer(net[0]);
      && attempts == (if reached && (first == ENOTCONN || first == EPIPE) then 2 else 1)
      && answer == (if !reached then EAGAIN
                    else if attempts == 2 && net[1].connect == 0 then FirstAnswer(net[1]) else first)
  {
    answer := LogAttempt(pool, ctx, want, net[0], EAGAIN);
    attempts := 1;
    while attempts < 2 && (answer == ENOTCONN || answer == EPIPE)
      invariant pool.Ready() && pool.poolLock == None && pool.locked[..] == old(pool.locked[..])
      invariant 1 <= attempts <= 2
      invariant var reached := HasRoom(old(pool.locked[..])) && net[0].connect == 0;
        var first := if reached then FirstAnswer(net[0]) else EAGAIN;
        && (attempts == 1 ==> answer == first)
        && (attempts == 2 ==> (first == ENOTCONN || first == EPIPE)
                              && answer == if net[1].connect == 0 then FirstAnswer(net[1]) else first)
      decreases 2 - attempts
    {
      answer := LogAttempt(pool, ctx, want, net[attempts], answer);
      attempts := attempts + 1;
    }
  }

  // ---------- Any sequence of calls ----------

  /** One atomic call of some context; `sel` says how opening found its slot. */
  datatype Call =
    | Open(ctx: Ctx, want: Peer, sel: Selection)
    | LogConnect(ctx: Ctx, want: Peer, sel: Selection)
    | OpenFailed(ctx: Ctx, want: Peer, sel: Selection)
    | Close(ctx: Ctx, i: nat)
    | Finish(ctx: Ctx, i: nat, now: int)

  /** What the call does to the pool; closing and finishing are for the holder of the slot. */
  ghost predicate Performs(p: State, call: Call, p': State) {
    && |p.locked| == |p.conn|
    && match call
       case Open(ctx, want, sel) =>
         Selects(p, want, sel) && !sel.NoRoom? && p' == Certified(AfterSelect(p, ctx, want, sel), sel.i, want)
       case LogConnect(ctx, want, sel) => Selects(p, want, sel) && !sel.NoRoom? && p' == AfterSelect(p, ctx, want, sel)
       case OpenFailed(ctx, want, sel) => Selects(p, want, sel) && p' == AfterFailed(p, ctx, want, sel)
       case Close(ctx, i) =>
         i < |p.conn| && p.locked[i] == Some(ctx) && p' == WithLock(Closed(p, i), i, None)
       case Finish(ctx, i, now) =>
         && i < |p.conn| && p.locked[i] == Some(ctx) && p.conn[i].Slot?
         && p' == WithLock(p.(conn := p.conn[i := p.conn[i].(lastUsed := now)]), i, None)
  }

  lemma {:induction false} SelectKeepsValid(p: State, ctx: Ctx, want: Peer, sel: Selection)
    requires Valid(p) && Selects(p, want, sel) && !sel.NoRoom?
    ensures Valid(AfterSelect(p, ctx, want, sel)) && AfterSelect(p, ctx, want, sel).conn[sel.i].Slot?
  {
    match sel
    case Reuse(i) =>
    case Fresh(i) => AddedValid(p, i, ctx, want);
    case Replace(i) =>
      ClosedValid(p, i);
      AddedValid(Closed(p, i), i, ctx, want);
  }

  lemma {:induction false} CallKeepsValid(p: State, call: Call, p': State)
    requires Valid(p) && Performs(p, call, p')
    ensures Valid(p') && |p'.conn| == |p.conn|
  {
    match call
    case Open(ctx, want, sel) =>
      SelectKeepsValid(p, ctx, want, sel);
      var q := AfterSelect(p, ctx, want, sel);
      SlotChanged(q.conn, sel.i, if want.cert.Some? then q.conn[sel.i].(cert := want.cert) else q.conn[sel.i]);
    case LogConnect(ctx, want, sel) => SelectKeepsValid(p, ctx, want, sel);
    case OpenFailed(ctx, want, sel) =>
      if !sel.NoRoom? {
        SelectKeepsValid(p, ctx, want, sel);
        ClosedValid(AfterSelect(p, ctx, want, sel), sel.i);
      }
    case Close(_, i) => ClosedValid(p, i);
    case Finish(_, i, now) => SlotChanged(p.conn, i, p.conn[i].(lastUsed := now));
  }

  ghost predicate IsHistory(states: seq<State>, calls: seq<Call>) {
    && |states| == |calls| + 1 && Valid(states[0])
    && forall k :: 0 <= k < |calls| ==> Performs(states[k], calls[k], states[k + 1])
  }

  /** After any calls by any contexts the counter is the number of slots in use, and every locked
      slot is in use. */
  lemma {:induction false} HistoryKeepsValid(states: seq<State>, calls: seq<Call>, k: nat)
    requires IsHistory(states, calls) && k < |states|
    ensures Valid(states[k]) && |states[k].conn| == |states[0].conn|
  {
    if k > 0 {
      HistoryKeepsValid(states, calls, k - 1);
      assert Performs(states[k - 1], calls[k - 1], states[k]);
      CallKeepsValid(states[k - 1], calls[k - 1], states[k]);
    }
  }

  lemma {:induction false} SomeFirstUsable(p: State, want: Peer) returns (r: int)
    requires |p.locked| == |p.conn|
    ensures FirstUsable(p, want, r)
  {
    r := 0;
    while r < |p.conn| && !Usable(p, r, want)
      invariant 0 <= r <= |p.conn| && forall i :: 0 <= i < r ==> !Usable(p, i, want)
    {
      r := r + 1;
    }
    if r == |p.conn| {
      r := -1;
    }
  }

  lemma {:induction false} SomeFirstFree(p: State) returns (r: int)
    requires |p.locked| == |p.conn|
    ensures FirstFree(p, r)
  {
    r := 0;
    while r < |p.conn| && !Free(p, r)
      invariant 0 <= r <= |p.conn| && forall i :: 0 <= i < r ==> !Free(p, i)
    {
      r := r + 1;
    }
    if r == |p.conn| {
      r := -1;
    }
  }

  lemma {:induction false} SomeOldest(p: State) returns (r: int)
    requires AllTaken(p)
    ensures Oldest(p, r)
  {
    r := -1;
    var k := 0;
    while k < |p.conn|
      invariant -1 <= r < k <= |p.conn|
      invariant r < 0 ==> forall i :: 0 <= i < k ==> p.locked[i].Some?
      invariant r >= 0 ==> p.locked[r].None?
      invariant r >= 0 ==> forall i :: 0 <= i < k && p.locked[i].None? ==>
                  p.conn[r].lastUsed <= p.conn[i].lastUsed && (i < r ==> p.conn[r].lastUsed < p.conn[i].lastUsed)
    {
      if p.locked[k].None? && (r < 0 || p.conn[k].lastUsed < p.conn[r].lastUsed) {
        r := k;
      }
      k := k + 1;
    }
  }

  ghost predicate CanOpen(p: State, want: Peer)
    requires |p.locked| == |p.conn|
  {
    exists sel :: Selects(p, want, sel) && !sel.NoRoom?
  }

  /** There is room for a connection, to whatever peer, exactly when some slot is not locked. */
  lemma {:induction false} RoomIff(p: State, want: Peer)
    requires Valid(p)
    ensures CanOpen(p, want) <==> exists i :: 0 <= i < |p.conn| && p.locked[i].None?
  {
    if CanOpen(p, want) {
      var sel :| Selects(p, want, sel) && !sel.NoRoom?;
      assert p.locked[sel.i].None?;
    }
    if i :| 0 <= i < |p.conn| && p.locked[i].None? {
      var r := SomeFirstUsable(p, want);
      FullMeansFull(p.conn);
      if r >= 0 {
        assert Selects(p, want, Reuse(r));
      } else if p.connOpened < |p.conn| {
        RoomMeansFree(p);
        var f := SomeFirstFree(p);
        assert Selects(p, want, Fresh(f));
      } else {
        var o := SomeOldest(p);
        assert Selects(p, want, Replace(o));
      }
    }
  }

  /** Hence, at any point of any history, the assertions of CloseConnection (a positive counter) and
      of ReleaseConnection (no empty slot in a full pool) hold, and any context can open a connection
      to any peer exactly when some slot is not locked. */
  lemma {:induction false} HistoryIsSound(states: seq<State>, calls: seq<Call>, k: nat, want: Peer)
    requires IsHistory(states, calls) && k < |states|
    ensures var p := states[k];
            && |p.locked| == |p.conn|
            && (forall i :: 0 <= i < |p.conn| && p.conn[i].Slot? ==> p.connOpened > 0)
            && (p.connOpened == |p.conn| <==> forall i :: 0 <= i < |p.conn| ==> p.conn[i].Slot?)
            && (CanOpen(p, want) <==> exists i :: 0 <= i < |p.conn| && p.locked[i].None?)
  {
    HistoryKeepsValid(states, calls, k);
    var p := states[k];
    FullMeansFull(p.conn);
    forall i | 0 <= i < |p.conn| && p.conn[i].Slot?
      ensures p.connOpened > 0
    {
      SomeOccupied(p.conn, i);
    }
    RoomIff(p, want);
  }
}
