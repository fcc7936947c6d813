/** The connection pool of the client library (connection.c, connpool.c) when each call runs to its
    end before the next one starts: what a call does to the slots, their locks and the counter.

    `locked[i]` is the context that holds the mutex of slot i. Whether credentials are found and the
    network connects is a parameter of opening. */
module ConnPool {
  import opened CText

  type Ctx = nat

  datatype Peer = Peer(name: string, port: int, cert: Option<int>)

  datatype Slot = Empty | Slot(name: string, port: int, cert: Option<int>, lastUsed: int)

  datatype State = State(conn: seq<Slot>, locked: seq<Option<Ctx>>, connOpened: int)

  // ---------- Selecting slots ----------

  /** Name and port must be equal; a context with its own certificate file needs that file. */
  predicate Serves(s: Slot, want: Peer) {
    s.Slot? && s.name == want.name && s.port == want.port && (want.cert.None? || s.cert == want.cert)
  }

  /** What a slot must have, field by field, to be used for a peer: the name, the port, and, if the
      context has a certificate file of its own, that very file. Any file will do for others. */
  ghost predicate Fits(s: Slot, want: Peer) {
    match s
    case Empty => false
    case Slot(name, port, cert, _) =>
      && name == want.name
      && port == want.port
      && (match want.cert case Some(file) => cert == Some(file) case None => true)
  }

  predicate Usable(p: State, i: int, want: Peer)
    requires |p.locked| == |p.conn|
  {
    0 <= i < |p.conn| && Serves(p.conn[i], want) && p.locked[i].None?
  }

  lemma {:induction false} FitsIsUsable(p: State, want: Peer)
    requires |p.locked| == |p.conn|
    ensures forall i :: 0 <= i < |p.conn| ==> (Usable(p, i, want) <==> Fits(p.conn[i], want) && p.locked[i].None?)
  {
  }

  /** The first unlocked slot for the peer, or -1. */
  ghost predicate FirstUsable(p: State, want: Peer, r: int)
    requires |p.locked| == |p.conn|
  {
    && -1 <= r < |p.conn|
    && (r >= 0 ==> Usable(p, r, want))
    && forall i :: 0 <= i < (if r >= 0 then r else |p.conn|) ==> !Usable(p, i, want)
  }

  predicate Free(p: State, i: int)
    requires |p.locked| == |p.conn|
  {
    0 <= i < |p.conn| && p.conn[i].Empty? && p.locked[i].None?
  }

  ghost predicate FirstFree(p: State, r: int)
    requires |p.locked| == |p.conn|
  {
    && -1 <= r < |p.conn|
    && (r >= 0 ==> Free(p, r))
    && forall i :: 0 <= i < (if r >= 0 then r else |p.conn|) ==> !Free(p, i)
  }

  /** An unlocked slot that has not been used for the longest time, or -1 when all are locked. */
  ghost predicate Oldest(p: State, r: int)
    requires |p.locked| == |p.conn| && forall i :: 0 <= i < |p.conn| ==> p.conn[i].Slot?
  {
    && -1 <= r < |p.conn|
    && (r >= 0 ==> p.locked[r].None? && forall i :: 0 <= i < |p.conn| && p.locked[i].None? ==>
                     p.conn[r].lastUsed <= p.conn[i].lastUsed && (i < r ==> p.conn[r].lastUsed < p.conn[i].lastUsed))
    && (r < 0 ==> forall i :: 0 <= i < |p.conn| ==> p.locked[i].Some?)
  }

  // ---------- The counter ----------

  function Occupied(conn: seq<Slot>): (n: nat)
    ensures n <= |conn|
  {
    if conn == [] then 0
    else Occupied(conn[..|conn| - 1]) + if conn[|conn| - 1].Slot? then 1 else 0
  }

  ghost predicate Valid(p: State) {
    && |p.locked| == |p.conn|
    && p.connOpened == Occupied(p.conn)
    && forall i :: 0 <= i < |p.conn| && p.locked[i].Some? ==> p.conn[i].Slot?
  }

  lemma {:induction false} OccupiedUpdate(conn: seq<Slot>, i: nat, s: Slot)
    requires i < |conn|
    ensures Occupied(conn[i := s]) ==
            Occupied(conn) - (if conn[i].Slot? then 1 else 0) + if s.Slot? then 1 else 0
  {
    var n := |conn| - 1;
    if i < n {
      OccupiedUpdate(conn[..n], i, s);
      assert conn[i := s][..n] == conn[..n][i := s];
    } else {
      assert conn[i := s][..n] == conn[..n];
    }
  }

  /** A full counter means that no slot is empty. */
  lemma {:induction false} FullMeansFull(conn: seq<Slot>)
    ensures Occupied(conn) == |conn| <==> forall i :: 0 <= i < |conn| ==> conn[i].Slot?
  {
    if conn != [] {
      var n := |conn| - 1;
      FullMeansFull(conn[..n]);
      if forall i :: 0 <= i < |conn| ==> conn[i].Slot? {
        assert forall i :: 0 <= i < n ==> conn[..n][i] == conn[i];
      }
      if Occupied(conn) == |conn| {
        assert forall i :: 0 <= i < n ==> conn[i] == conn[..n][i];
      }
    }
  }

  lemma {:induction false} SomeOccupied(conn: seq<Slot>, i: nat)
    requires i < |conn| && conn[i].Slot?
    ensures Occupied(conn) > 0
  {
    OccupiedUpdate(conn, i, Empty);
  }

  // ---------- Calls ----------

  // CloseConnection: the slot is emptied, its lock is left alone
  function Closed(p: State, i: nat): State
    requires i < |p.conn|
  {
    p.(conn := p.conn[i := Empty], connOpened := p.connOpened - 1)
  }

  function WithLock(p: State, i: nat, o: Option<Ctx>): State
    requires i < |p.locked|
  {
    p.(locked := p.locked[i := o])
  }

  // AddConnection into slot i
  function Added(p: State, i: nat, ctx: Ctx, want: Peer): State
    requires i < |p.conn| == |p.locked|
  {
    WithLock(p.(conn := p.conn[i := Slot(want.name, want.port, None, 0)], connOpened := p.connOpened + 1), i, Some(ctx))
  }

  lemma {:induction false} ClosedValid(p: State, i: nat)
    requires Valid(p) && i < |p.conn| && p.conn[i].Slot?
    ensures p.connOpened > 0
    ensures Closed(p, i).connOpened == Occupied(Closed(p, i).conn)
    ensures p.locked[i].None? ==> Valid(Closed(p, i))
    ensures Valid(WithLock(Closed(p, i), i, None))
  {
    SomeOccupied(p.conn, i);
    OccupiedUpdate(p.conn, i, Empty);
  }

  lemma {:induction false} AddedValid(p: State, i: nat, ctx: Ctx, want: Peer)
    requires Valid(p) && Free(p, i)
    ensures Valid(Added(p, i, ctx, want))
  {
    OccupiedUpdate(p.conn, i, Slot(want.name, want.port, None, 0));
  }

  /** Unless every slot is taken, there is an empty slot, and it is not locked. */
  lemma {:induction false} RoomMeansFree(p: State)
    requires Valid(p) && p.connOpened < |p.conn|
    ensures exists i :: Free(p, i)
  {
    FullMeansFull(p.conn);
    var i :| 0 <= i < |p.conn| && p.conn[i].Empty?;
    assert Free(p, i);
  }

  class Pool {
    const conn: array<Slot>
    const locked: array<Option<Ctx>>
    var connOpened: int
    var poolLock: Option<Ctx>

    ghost predicate Ready()
      reads this, conn, locked
    {
      locked.Length == conn.Length && Valid(Contents())
    }

    ghost function Contents(): State
      reads this, conn, locked
    {
      State(conn[..], locked[..], connOpened)
    }

    constructor (poolSize: nat)
      ensures Ready() && conn.Length == poolSize && fresh(conn) && fresh(locked)
      ensures connOpened == 0 && poolLock == None
      ensures forall i :: 0 <= i < poolSize ==> conn[i].Empty? && locked[i].None?
    {
      conn := new Slot[poolSize](_ => Empty);
      locked := new Option<Ctx>[poolSize](_ => None);
      connOpened, poolLock := 0, None;
      new;
      assert Occupied(conn[..]) == 0 by {
        NoneOccupied(conn[..]);
      }
    }

    // edg_wll_poolLock would wait for another holder
    method PoolLock(ctx: Ctx)
      requires poolLock == None
      modifies `poolLock
      ensures poolLock == Some(ctx)
    {
      poolLock := Some(ctx);
    }

    method PoolUnlock(ctx: Ctx)
      requires poolLock == Some(ctx)
      modifies `poolLock
      ensures poolLock == None
    {
      poolLock := None;
    }

    /** edg_wll_connectionTryLock: 0 on success. */
    method TryLock(ctx: Ctx, i: nat) returns (ok: bool)
      requires i < locked.Length
      modifies locked
      ensures ok <==> old(locked[i]).None?
      ensures locked[..] == if ok then old(locked[..])[i := Some(ctx)] else old(locked[..])
    {
      ok := locked[i].None?;
      if ok {
        locked[i] := Some(ctx);
      }
    }

    /** edg_wll_connectionUnlock: only the holder may unlock a mutex. */
    method Unlock(ctx: Ctx, i: nat)
      requires i < locked.Length && locked[i] == Some(ctx)
      modifies locked
      ensures locked[..] == old(locked[..])[i := None]
    {
      locked[i] := None;
    }

    /** ConnectionIndex: each matching slot is probed by locking and unlocking it. */
    method ConnectionIndex(ctx: Ctx, want: Peer) returns (index: int)
      requires locked.Length == conn.Length
      modifies locked
      ensures Contents() == old(Contents())
      ensures FirstUsable(Contents(), want, index)
      ensures index >= 0 ==> Fits(conn[index], want) && locked[index].None?
      ensures forall i :: 0 <= i < conn.Length && Fits(conn[i], want) && locked[i].None? ==> 0 <= index <= i
    {
      for i := 0 to conn.Length
        invariant Contents() == old(Contents())
        invariant forall j :: 0 <= j < i ==> !Usable(Contents(), j, want)
      {
        if Serves(conn[i], want) {
          var ok := TryLock(ctx, i);
          if ok {
            Unlock(ctx, i);
            assert locked[..] == old(locked[..]);
            FitsIsUsable(Contents(), want);
            return i;
          }
        }
      }
      FitsIsUsable(Contents(), want);
      return -1;
    }

    /** AddConnection: the first empty slot whose lock can be taken. */
    method AddConnection(ctx: Ctx, want: Peer) returns (index: int)
      requires locked.Length == conn.Length
      modifies `connOpened, conn, locked
      ensures FirstFree(old(Contents()), index)
      ensures Contents() == if index < 0 then old(Contents()) else Added(old(Contents()), index, ctx, want)
      ensures index >= 0 ==>
                && conn[..] == old(conn[..])[index := Slot(want.name, want.port, None, 0)]
                && locked[..] == old(locked[..])[index := Some(ctx)] && connOpened == old(connOpened) + 1
    {
      index := -1;
      for i := 0 to conn.Length
        invariant Contents() == old(Contents()) && index == -1
        invariant forall j :: 0 <= j < i ==> !Free(Contents(), j)
      {
        if conn[i].Empty? {
          var ok := TryLock(ctx, i);
          if ok {
            index := i;
            break;
          }
        }
      }
      if index < 0 {
        return;
      }
      conn[index] := Slot(want.name, want.port, None, 0);
      connOpened := connOpened + 1;
    }

    /** CloseConnection: its assertion on the counter holds because the slot is in use. */
    method CloseConnection(i: nat)
      requires Ready() && i < conn.Length && conn[i].Slot?
      modifies `connOpened, conn
      ensures Contents() == Closed(old(Contents()), i)
      ensures conn[..] == old(conn[..])[i := Empty] && connOpened == old(connOpened) - 1
    {
      ClosedValid(Contents(), i);
      assert connOpened != 0;
      conn[i] := Empty;
      connOpened := connOpened - 1;
    }

    /** The search of ReleaseConnection in a full pool; its assertion is that every slot has a peer. */
    method FindOldest(ctx: Ctx) returns (index: int)
      requires Ready() && connOpened == conn.Length
      modifies locked
      ensures Contents() == old(Contents()) && forall i :: 0 <= i < conn.Length ==> conn[i].Slot?
      ensures Oldest(Contents(), index)
    {
      FullMeansFull(conn[..]);
      index := -1;
      var min := 0;
      for i := 0 to conn.Length
        invariant Contents() == old(Contents())
        invariant -1 <= index < i
        invariant index < 0 ==> forall j :: 0 <= j < i ==> locked[j].Some?
        invariant index >= 0 ==> locked[index].None? && min == conn[index].lastUsed
        invariant index >= 0 ==> forall j :: 0 <= j < i && locked[j].None? ==>
                    min <= conn[j].lastUsed && (j < index ==> min < conn[j].lastUsed)
      {
        assert conn[i].Slot?;
        var ok := TryLock(ctx, i);
        if ok {
          Unlock(ctx, i);
          assert locked[..] == old(locked[..]);
          if index < 0 || conn[i].lastUsed < min {
            index, min := i, conn[i].lastUsed;
          }
        }
      }
    }

    /** ReleaseConnection: close the given connection if it is idle, or the oldest idle one. */
    method ReleaseConnection(ctx: Ctx, which: Option<Peer>) returns (err: int)
      requires Ready() && (which.None? ==> connOpened == conn.Length)
      modifies `connOpened, conn, locked
      ensures Ready() && locked[..] == old(locked[..])
      ensures err == 0 || err == EAGAIN
      ensures which.None? ==>
                (err == EAGAIN <==> conn.Length > 0 && forall i :: 0 <= i < conn.Length ==> locked[i].Some?)
      ensures err == EAGAIN ==> Contents() == old(Contents())
      ensures which.None? && err == 0 && conn.Length > 0 ==>
                exists r :: r >= 0 && AllTaken(old(Contents())) && Oldest(old(Contents()), r)
                            && Contents() == Closed(old(Contents()), r)
      ensures which.Some? ==>
                exists r :: FirstUsable(old(Contents()), which.value, r)
                            && Contents() == if r >= 0 then Closed(old(Contents()), r) else old(Contents())
    {
      if connOpened == 0 {
        NothingOpen(conn[..]);
        assert which.Some? ==> FirstUsable(Contents(), which.value, -1);
        return 0;
      }
      if which.Some? {
        var index := ConnectionIndex(ctx, which.value);
        if index >= 0 {
          ClosedValid(Contents(), index);
          CloseConnection(index);
        }
      } else {
        var index := FindOldest(ctx);
        if index < 0 {
          return EAGAIN;
        }
        ClosedValid(Contents(), index);
        CloseConnection(index);
      }
      return 0;
    }

    // Room for a new connection: the oldest idle one is closed if the pool is full
    method MakeRoom(ctx: Ctx) returns (err: int, ghost evicted: int)
      requires Ready()
      modifies `connOpened, conn, locked
      ensures Ready() && locked[..] == old(locked[..])
      ensures err != 0 ==> Contents() == old(Contents()) && forall i :: 0 <= i < conn.Length ==> locked[i].Some?
      ensures err == 0 && evicted < 0 ==> Contents() == old(Contents())
      ensures err == 0 && evicted < 0 && conn.Length > 0 ==> connOpened < conn.Length
      ensures err == 0 && evicted >= 0 ==>
                && AllTaken(old(Contents())) && Oldest(old(Contents()), evicted)
                && Contents() == Closed(old(Contents()), evicted)
    {
      ghost var p := Contents();
      err, evicted := 0, -1;
      FullMeansFull(conn[..]);
      if connOpened == conn.Length {
        err := ReleaseConnection(ctx, None);
        if err == 0 && conn.Length > 0 {
          ghost var r :| r >= 0 && AllTaken(p) && Oldest(p, r) && Contents() == Closed(p, r);
          evicted := r;
        }
      }
    }

    // A slot for a peer that has no unlocked one
    method NewSlot(ctx: Ctx, want: Peer) returns (index: int, ghost sel: Selection)
      requires Ready() && FirstUsable(Contents(), want, -1)
      modifies `connOpened, conn, locked
      ensures Ready() && !sel.Reuse? && Selects(old(Contents()), want, sel)
      ensures Contents() == AfterSelect(old(Contents()), ctx, want, sel)
      ensures index == if sel.NoRoom? then -1 else sel.i
      ensures index >= 0 ==> conn[index].Slot? && locked[index] == Some(ctx)
    {
      ghost var p := Contents();
      var err;
      ghost var evicted;
      err, evicted := MakeRoom(ctx);
      if err != 0 {
        return -1, NoRoom;
      }
      ghost var q := Contents();
      if evicted >= 0 {
        assert Free(q, evicted);
      } else if conn.Length > 0 {
        RoomMeansFree(q);
      }
      index := AddConnection(ctx, want);
      if index < 0 {
        return -1, NoRoom;
      }
      AddedValid(q, index, ctx, want);
      sel := if evicted >= 0 then Replace(evicted) else Fresh(index);
    }

    /** The part of edg_wll_open and edg_wll_log_connect that runs under the pool lock. */
    method Select(ctx: Ctx, want: Peer) returns (index: int, ghost sel: Selection)
      requires Ready() && poolLock == Some(ctx)
      modifies `connOpened, conn, locked
      ensures Ready() && Selects(old(Contents()), want, sel)
      ensures Contents() == AfterSelect(old(Contents()), ctx, want, sel)
      ensures index == if sel.NoRoom? then -1 else sel.i
      ensures index >= 0 ==> conn[index].Slot?
    {
      index := ConnectionIndex(ctx, want);
      if index == -1 {
        index, sel := NewSlot(ctx, want);
        if index < 0 {
          return;
        }
      } else {
        sel := Reuse(index);
      }
      var ok := TryLock(ctx, index);
    }

    // What opening for a server and for the local logger have in common: a slot is selected under the
    // pool lock, and given back if no connection comes about
    method Reserve(ctx: Ctx, want: Peer, failure: int) returns (err: int, connToUse: int, ghost sel: Selection)
      requires Ready() && poolLock == None
      modifies this, conn, locked
      ensures Ready() && poolLock == None
      ensures Selects(old(Contents()), want, sel)
      ensures err == if sel.NoRoom? then EAGAIN else failure
      ensures connToUse == if err == 0 then sel.i else -1
      ensures err == 0 ==> Contents() == AfterSelect(old(Contents()), ctx, want, sel) && conn[connToUse].Slot?
      ensures err != 0 ==> Contents() == AfterFailed(old(Contents()), ctx, want, sel)
    {
      PoolLock(ctx);
      connToUse, sel := Select(ctx, want);
      PoolUnlock(ctx);
      if connToUse < 0 {
        return EAGAIN, -1, sel;
      }
      if failure != 0 {
        ClosedValid(Contents(), connToUse);
        CloseConnection(connToUse);
        Unlock(ctx, connToUse);
        return failure, -1, sel;
      }
      return 0, connToUse, sel;
    }

    /** edg_wll_log_connect. `failure` is the error of finding credentials or connecting to the peer,
        0 if all goes well. The slot does not learn the context's certificate file. */
    method LogConnect(ctx: Ctx, want: Peer, failure: int) returns (err: int, index: int, ghost sel: Selection)
      requires Ready() && poolLock == None
      modifies this, conn, locked
      ensures Ready() && poolLock == None
      ensures Selects(old(Contents()), want, sel)
      ensures err == if sel.NoRoom? then EAGAIN else failure
      ensures index == if err == 0 then sel.i else -1
      ensures err == 0 ==> Connected(old(Contents()), Contents(), ctx, want, index)
      ensures err == 0 ==> Contents() == AfterSelect(old(Contents()), ctx, want, sel)
      ensures err == 0 && sel.Reuse? ==> Fits(old(conn[index]), want) && conn[..] == old(conn[..])
      ensures err == 0 && !sel.Reuse? ==> conn[..] == old(conn[..])[index := Slot(want.name, want.port, None, 0)]
      ensures err == 0 && !sel.Reuse? && want.cert.Some? ==> !Fits(conn[index], want)
      ensures err != 0 ==> Contents() == AfterFailed(old(Contents()), ctx, want, sel)
      ensures err != 0 ==> locked[..] == old(locked[..])
    {
      err, index, sel := Reserve(ctx, want, failure);
      AfterReserve(old(Contents()), ctx, want, sel);
      if index >= 0 {
        ByFields(old(Contents()), ctx, want, sel);
        var ok := TryLock(ctx, index);
      }
    }

    /** edg_wll_open. `failure` is as in LogConnect. */
    method Open(ctx: Ctx, want: Peer, failure: int) returns (err: int, connToUse: int, ghost sel: Selection)
      requires Ready() && poolLock == None
      modifies this, conn, locked
      ensures Ready() && poolLock == None
      ensures Selects(old(Contents()), want, sel)
      ensures err == if sel.NoRoom? then EAGAIN else failure
      ensures connToUse == if err == 0 then sel.i else -1
      ensures err == 0 ==> Opened(old(Contents()), Contents(), ctx, want, connToUse)
      ensures err == 0 ==> Contents() == Certified(AfterSelect(old(Contents()), ctx, want, sel), connToUse, want)
      ensures err == 0 ==> Fits(conn[connToUse], want)
      ensures err == 0 && sel.Reuse? ==> Fits(old(conn[connToUse]), want) && conn[..] == old(conn[..])
      ensures err == 0 && !sel.Reuse? ==>
                && conn[..] == old(conn[..])[connToUse := Slot(want.name, want.port, want.cert, 0)]
                && forall i :: 0 <= i < conn.Length && old(locked[i]).None? ==> !Fits(old(conn[i]), want)
      ensures err != 0 ==> Contents() == AfterFailed(old(Contents()), ctx, want, sel)
      ensures err != 0 ==> locked[..] == old(locked[..])
    {
      err, connToUse, sel := Reserve(ctx, want, failure);
      AfterReserve(old(Contents()), ctx, want, sel);
      if err == 0 {
        ByFields(old(Contents()), ctx, want, sel);
      }
      if err != 0 {
        return;
      }
      if want.cert.Some? {
        SlotChanged(conn[..], connToUse, conn[connToUse].(cert := want.cert));
        conn[connToUse] := conn[connToUse].(cert := want.cert);
      }
      var ok := TryLock(ctx, connToUse);
    }

    /** edg_wll_close and edg_wll_log_close of a connection in use. */
    method Close(ctx: Ctx, connToUse: int)
      requires Ready() && -1 <= connToUse < conn.Length
      requires connToUse >= 0 ==> locked[connToUse] == Some(ctx)
      modifies this, conn, locked
      ensures Ready() && poolLock == old(poolLock)
      ensures Contents() == if connToUse < 0 then old(Contents())
                            else WithLock(Closed(old(Contents()), connToUse), connToUse, None)
    {
      if connToUse == -1 {
        return;
      }
      ClosedValid(Contents(), connToUse);
      CloseConnection(connToUse);
      Unlock(ctx, connToUse);
    }
  }

  // The slot remembers the certificate file that was used
  function Certified(p: State, i: int, want: Peer): State {
    if 0 <= i < |p.conn| && p.conn[i].Slot? && want.cert.Some?
    then p.(conn := p.conn[i := p.conn[i].(cert := want.cert)]) else p
  }

  // A slot was selected, but no connection came about
  ghost function AfterFailed(p: State, ctx: Ctx, want: Peer, sel: Selection): State
    requires |p.locked| == |p.conn| && Selects(p, want, sel)
  {
    if sel.NoRoom? then p else WithLock(Closed(AfterSelect(p, ctx, want, sel), sel.i), sel.i, None)
  }

  // Name and port are right; the certificate file may be another one
  predicate Reaches(s: Slot, want: Peer) {
    s.Slot? && s.name == want.name && s.port == want.port
  }

  // The same for the local logger
  ghost predicate Connected(before: State, after: State, ctx: Ctx, want: Peer, i: int) {
    && 0 <= i < |before.conn| == |before.locked| && |after.conn| == |before.conn|
    && before.locked[i].None? && after.locked == before.locked[i := Some(ctx)]
    && Reaches(after.conn[i], want)
  }

  // The selected slot: unlocked before, locked now, for the peer; a new one has no certificate yet
  lemma {:induction false} AfterReserve(p: State, ctx: Ctx, want: Peer, sel: Selection)
    requires Valid(p) && Selects(p, want, sel)
    ensures !sel.NoRoom? ==>
              var q := AfterSelect(p, ctx, want, sel);
              && Connected(p, q, ctx, want, sel.i)
              && (if sel.Reuse? then Serves(q.conn[sel.i], want) else q.conn[sel.i].cert == None)
    ensures AfterFailed(p, ctx, want, sel).locked == p.locked
  {
  }

  // What selecting a slot does to the slots, field by field
  lemma {:induction false} ByFields(p: State, ctx: Ctx, want: Peer, sel: Selection)
    requires Valid(p) && Selects(p, want, sel) && !sel.NoRoom?
    ensures var q := Certified(AfterSelect(p, ctx, want, sel), sel.i, want);
      && sel.i < |p.conn|
      && (sel.Reuse? ==> Fits(p.conn[sel.i], want) && q.conn == p.conn)
      && (!sel.Reuse? ==> q.conn == p.conn[sel.i := Slot(want.name, want.port, want.cert, 0)])
      && AfterSelect(p, ctx, want, sel).conn
         == (if sel.Reuse? then p.conn else p.conn[sel.i := Slot(want.name, want.port, None, 0)])
      && (!sel.Reuse? ==> forall i :: 0 <= i < |p.conn| && p.locked[i].None? ==> !Fits(p.conn[i], want))
  {
    if !sel.Reuse? {
      forall i | 0 <= i < |p.conn| && p.locked[i].None? ensures !Fits(p.conn[i], want) {
        assert !Usable(p, i, want);
      }
    }
  }

  // Between opening and unlocking: one more lock, on a connection to the right peer
  ghost predicate Opened(before: State, after: State, ctx: Ctx, want: Peer, i: int) {
    && 0 <= i < |before.conn| == |before.locked| && |after.conn| == |before.conn|
    && before.locked[i].None? && after.locked == before.locked[i := Some(ctx)]
    && Serves(after.conn[i], want)
  }

  lemma {:induction false} SlotChanged(conn: seq<Slot>, i: nat, s: Slot)
    requires i < |conn| && conn[i].Slot? && s.Slot?
    ensures Occupied(conn[i := s]) == Occupied(conn)
  {
    OccupiedUpdate(conn, i, s);
  }

  /** How opening finds its slot. */
  datatype Selection = Reuse(i: nat) | Fresh(i: nat) | Replace(i: nat) | NoRoom

  ghost predicate Selects(p: State, want: Peer, sel: Selection)
    requires |p.locked| == |p.conn|
  {
    match sel
    case Reuse(i) => FirstUsable(p, want, i)
    case Fresh(i) => FirstUsable(p, want, -1) && p.connOpened < |p.conn| && FirstFree(p, i)
    case Replace(i) => FirstUsable(p, want, -1) && AllTaken(p) && Oldest(p, i)
    case NoRoom => FirstUsable(p, want, -1) && forall i :: 0 <= i < |p.conn| ==> p.locked[i].Some?
  }

  ghost function AfterSelect(p: State, ctx: Ctx, want: Peer, sel: Selection): State
    requires |p.locked| == |p.conn| && Selects(p, want, sel)
  {
    match sel
    case Reuse(i) => WithLock(p, i, Some(ctx))
    case Fresh(i) => Added(p, i, ctx, want)
    case Replace(i) => Added(Closed(p, i), i, ctx, want)
    case NoRoom => p
  }

  ghost predicate AllTaken(p: State) {
    |p.locked| == |p.conn| && forall i :: 0 <= i < |p.conn| ==> p.conn[i].Slot?
  }

  lemma {:induction false} NothingOpen(conn: seq<Slot>)
    requires Occupied(conn) == 0
    ensures forall i :: 0 <= i < |conn| ==> conn[i].Empty?
  {
    forall i | 0 <= i < |conn|
      ensures conn[i].Empty?
    {
      if conn[i].Slot? {
        SomeOccupied(conn, i);
      }
    }
  }

  lemma {:induction false} NoneOccupied(conn: seq<Slot>)
    requires forall i :: 0 <= i < |conn| ==> conn[i].Empty?
    ensures Occupied(conn) == 0
  {
    if conn != [] {
      NoneOccupied(conn[..|conn| - 1]);
    }
  }
}
