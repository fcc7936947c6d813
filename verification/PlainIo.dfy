/** Buffered reading from a plain socket (lb_plain_io.c). The peer's bytes arrive in pieces and may
    be interrupted by errors; the reader keeps what it has not delivered in a buffer that grows. */
module PlainIo {
  import opened CText

  /** What poll and read will report, in order: some bytes, or an errno (a timeout, an interrupted
      call, a failure). After the last event comes the end of the stream. */
  datatype Event = Chunk(data: string) | Fault(errno: int)

  predicate EventOk(e: Event) {
    match e case Chunk(d) => d != "" case Fault(n) => n > 0
  }

  type Socket = s: seq<Event> | forall i :: 0 <= i < |s| ==> EventOk(s[i])

  /** All bytes still to come. */
  function Unread(s: seq<Event>): string {
    if s == [] then "" else (if s[0].Chunk? then s[0].data else "") + Unread(s[1..])
  }

  predicate Faultless(s: seq<Event>) {
    forall i :: 0 <= i < |s| ==> s[i].Chunk?
  }

  class PlainConnection {
    var sock: Socket
    var buf: array?<char>
    var bufUse: nat

    ghost predicate Valid()
      reads this
    {
      if buf == null then bufUse == 0 else bufUse <= buf.Length && buf.Length > 0
    }

    ghost function Buffered(): string
      requires Valid()
      reads this, buf
    {
      if buf == null then "" else buf[..bufUse]
    }

    /** Everything that has been sent and not delivered. */
    ghost function Pending(): string
      requires Valid()
      reads this, buf
    {
      Buffered() + Unread(sock)
    }

    constructor (sock: Socket)
      ensures Valid() && this.sock == sock && buf == null && bufUse == 0
    {
      this.sock, buf, bufUse := sock, null, 0;
    }

    /** memcpy of the front of the buffer. */
    method CopyOut(out: array<char>, at: nat, len: nat)
      requires Valid() && buf != null && len <= bufUse && out != buf && at + len <= out.Length
      modifies out
      ensures out[..at] == old(out[..at]) && out[at..at + len] == buf[..len]
      ensures buf[..bufUse] == old(buf[..bufUse])
    {
      forall i | 0 <= i < len {
        out[at + i] := buf[i];
      }
      assert out[at..at + len] == buf[..len];
    }

    /** memmove of what is left to the front of the buffer. */
    method ShiftDown(len: nat)
      requires Valid() && buf != null && len <= bufUse
      modifies `bufUse, buf
      ensures Valid() && bufUse == old(bufUse) - len && buf[..bufUse] == old(buf[len..bufUse])
    {
      forall i | 0 <= i < bufUse - len {
        buf[i] := buf[i + len];
      }
      bufUse := bufUse - len;
      assert buf[..bufUse] == old(buf[len..bufUse]);
    }

    /** Copy the front of the buffer to the caller and shift it out. */
    method Deliver(out: array<char>, at: nat, max: nat) returns (len: nat)
      requires Valid() && buf != null && out != buf && at + max <= out.Length
      modifies `bufUse, buf, out
      ensures Valid() && len == Min(old(bufUse), max) && bufUse == old(bufUse) - len
      ensures out[..at] == old(out[..at])
      ensures out[at..at + len] + buf[..bufUse] == old(buf[..bufUse])
    {
      len := Min(bufUse, max);
      ghost var was := buf[..bufUse];
      CopyOut(out, at, len);
      assert was[..len] == buf[..len] && was[len..] == buf[len..bufUse];
      ShiftDown(len);
      assert was == was[..len] + was[len..];
    }

    /** Make room for BUFSIZ more bytes. */
    method Grow()
      requires Valid() && buf != null
      modifies `buf
      ensures Valid() && fresh(buf) && buf != null && buf.Length == old(buf.Length) + BUFSIZ
      ensures buf[..bufUse] == old(buf[..bufUse])
    {
      var old' := buf;
      var n := bufUse;
      var tmp := new char[old'.Length + BUFSIZ];
      forall i | 0 <= i < n {
        tmp[i] := old'[i];
      }
      buf := tmp;
      assert tmp[..n] == old'[..n];
    }

    // What read does to the buffer
    method Append(data: string)
      requires Valid() && buf != null && bufUse + |data| <= buf.Length
      modifies `bufUse, buf
      ensures Valid() && bufUse == old(bufUse) + |data| && buf[..bufUse] == old(buf[..bufUse]) + data
    {
      forall i | 0 <= i < |data| {
        buf[bufUse + i] := data[i];
      }
      bufUse := bufUse + |data|;
    }

    /** One read call into the free part of the buffer: 0 at the end of the stream. */
    method ReadSome() returns (ct: nat)
      requires Valid() && buf != null && bufUse < buf.Length && (sock != [] ==> sock[0].Chunk?)
      modifies `sock, `bufUse, buf
      ensures Valid() && ct <= old(buf.Length - bufUse) && bufUse == old(bufUse) + ct
      ensures Pending() == old(Pending())
      ensures ct == 0 <==> old(sock) == []
      ensures old(sock) == [] ==> sock == []
      ensures old(sock) != [] ==>
                ct == Min(|old(sock)[0].data|, old(buf.Length - bufUse)) && sock == AfterTaking(old(sock), ct)
      ensures |Unread(sock)| == old(|Unread(sock)|) - ct
      ensures Faultless(old(sock)) ==> Faultless(sock)
    {
      if sock == [] {
        return 0;
      }
      var data := sock[0].data;
      ct := Min(|data|, buf.Length - bufUse);
      ghost var was := buf[..bufUse];
      Append(data[..ct]);
      Assoc(was, data[..ct], Unread(AfterTaking(sock, ct)));
      TakeFromSocket(sock, ct);
      sock := AfterTaking(sock, ct);
    }

    // What the next read can take, the buffer growing first if it is full
    ghost function Room(): nat
      requires Valid() && buf != null
      reads this, buf
    {
      if bufUse == buf.Length then 8192 else buf.Length - bufUse
    }

    /** The do-while loop of edg_wll_plain_read: read until a read does not fill the buffer. */
    method FillBuffer() returns (errno: int)
      requires Valid() && buf != null && bufUse == 0
      modifies this, buf
      ensures Valid() && buf != null && (buf == old(buf) || fresh(buf))
      ensures Pending() == old(Pending())
      ensures errno == 0 ==> bufUse > 0
      ensures errno != 0 <==> Fails(old(sock), old(buf.Length), false)
      ensures Faultless(old(sock)) ==> Faultless(sock)
      ensures Faultless(old(sock)) ==> (errno == 0 <==> old(Pending()) != "")
    {
      ghost var fails := Fails(sock, buf.Length, false);
      var more := true;
      errno := 0;
      while errno == 0 && more
        invariant Valid() && buf != null && (buf == old(buf) || fresh(buf))
        invariant Pending() == old(Pending())
        invariant Faultless(old(sock)) ==> Faultless(sock)
        invariant errno == 0 && more ==> Fails(sock, Room(), bufUse > 0) == fails
        invariant errno != 0 || !more ==> (errno != 0 <==> fails)
        invariant errno == 0 && !more ==> bufUse > 0
        invariant Faultless(old(sock)) && errno != 0 ==> old(Pending()) == ""
        decreases errno == 0 && more, |Unread(sock)|
      {
        errno, more := Turn();
      }
    }

    // One round of that loop: poll, then read
    method Turn() returns (errno: int, more: bool)
      requires Valid() && buf != null
      modifies this, buf
      ensures Valid() && buf != null && (buf == old(buf) || fresh(buf)) && Pending() == old(Pending())
      ensures Faultless(old(sock)) ==> Faultless(sock)
      ensures errno != 0 ==> Fails(old(sock), old(Room()), old(bufUse) > 0)
      ensures Faultless(old(sock)) && errno != 0 ==> old(Pending()) == ""
      ensures errno == 0 && more ==> Fails(sock, Room(), bufUse > 0) == Fails(old(sock), old(Room()), old(bufUse) > 0)
      ensures errno == 0 && more ==> |Unread(sock)| < old(|Unread(sock)|)
      ensures errno == 0 && !more ==> bufUse > 0 && !Fails(old(sock), old(Room()), old(bufUse) > 0)
    {
      more := false;
      if sock != [] && sock[0].Fault? {
        errno := sock[0].errno;
        sock := sock[1..];
        return;
      }
      var ct, toread := ReadTurn();
      errno := if ct == 0 && bufUse == 0 then ENOTCONN else 0;
      more := ct == toread;
    }

    // One read, into a buffer that has grown if it was full
    method ReadTurn() returns (ct: nat, toread: nat)
      requires Valid() && buf != null && (sock != [] ==> sock[0].Chunk?)
      modifies this, buf
      ensures Valid() && buf != null && (buf == old(buf) || fresh(buf)) && ct <= toread && toread > 0
      ensures Pending() == old(Pending()) && bufUse == old(bufUse) + ct
      ensures Faultless(old(sock)) ==> Faultless(sock)
      ensures |Unread(sock)| == old(|Unread(sock)|) - ct && (ct == 0 <==> old(sock) == [])
      ensures ct == toread ==> (Fails(old(sock), old(Room()), old(bufUse) > 0) <==> Fails(sock, Room(), true))
      ensures ct < toread ==> (Fails(old(sock), old(Room()), old(bufUse) > 0) <==> ct == 0 && bufUse == 0)
    {
      if bufUse == buf.Length {
        Grow();
      }
      toread := buf.Length - bufUse;
      ct := ReadSome();
    }

    /** edg_wll_plain_read: -1 is an error; the bytes then stay in the buffer. It fails exactly when the
        buffer is empty and reading fails, be it by an interrupted call with more bytes behind it. */
    method Read(out: array<char>, at: nat, max: nat) returns (r: int)
      requires Valid() && out != buf && at + max <= out.Length
      modifies this, buf, out
      ensures Valid() && (buf == old(buf) || fresh(buf)) && -1 <= r <= max
      ensures out[..at] == old(out[..at])
      ensures r < 0 ==> Pending() == old(Pending())
      ensures r >= 0 ==> out[at..at + r] + Pending() == old(Pending())
      ensures r == 0 ==> max == 0
      ensures r < 0 <==>
                old(bufUse) == 0 && Fails(old(sock), if old(buf) == null then 8192 else old(buf.Length), false)
      ensures Faultless(old(sock)) ==> Faultless(sock) && (r >= 0 <==> old(Pending()) != "")
    {
      if buf == null {
        buf, bufUse := new char[BUFSIZ], 0;
      }
      assert Pending() == old(Pending());
      if bufUse == 0 {
        var errno := FillBuffer();
        if errno != 0 {
          return -1;
        }
      }
      r := Hand(out, at, max);
    }

    // Deliver, in terms of everything pending
    method Hand(out: array<char>, at: nat, max: nat) returns (r: nat)
      requires Valid() && buf != null && bufUse > 0 && out != buf && at + max <= out.Length
      modifies `bufUse, buf, out
      ensures Valid() && r <= max && (r == 0 ==> max == 0)
      ensures out[..at] == old(out[..at])
      ensures out[at..at + r] + Pending() == old(Pending())
    {
      r := Deliver(out, at, max);
      Assoc(out[at..at + r], buf[..bufUse], Unread(sock));
    }

    // Read, in terms of everything that has been written to `out`
    method ReadMore(out: array<char>, at: nat, max: nat) returns (r: int)
      requires Valid() && out != buf && at + max <= out.Length
      modifies this, buf, out
      ensures Valid() && (buf == old(buf) || fresh(buf)) && -1 <= r <= max
      ensures r < 0 ==> out[..at] + Pending() == old(out[..at] + Pending())
      ensures r >= 0 ==> out[..at + r] + Pending() == old(out[..at] + Pending())
      ensures r == 0 ==> max == 0
      ensures Faultless(old(sock)) ==> Faultless(sock) && (r >= 0 <==> old(Pending()) != "")
    {
      ghost var before := out[..at];
      r := Read(out, at, max);
      if r >= 0 {
        Assoc(before, out[at..at + r], Pending());
        assert out[..at + r] == before + out[at..at + r];
      }
    }

    /** edg_wll_plain_read_full: all `max` bytes, or an error. `got` is what reached the caller. */
    method ReadFull(out: array<char>, max: nat) returns (r: int, ghost got: nat)
      requires Valid() && out != buf && max <= out.Length
      modifies this, buf, out
      ensures Valid() && (buf == old(buf) || fresh(buf)) && got <= max
      ensures r == max == got || r == -1
      ensures out[..got] + Pending() == old(Pending())
      ensures Faultless(old(sock)) ==> Faultless(sock) && (r == max <==> |old(Pending())| >= max)
    {
      var total := 0;
      got := 0;
      if bufUse > 0 {
        total := Hand(out, 0, max);
        got := total;
        assert out[..got] == out[0..0 + got];
      }
      while total < max
        invariant Valid() && (buf == old(buf) || fresh(buf)) && out != buf
        invariant total == got <= max
        invariant out[..got] + Pending() == old(Pending())
        invariant Faultless(old(sock)) ==> Faultless(sock)
      {
        var ct := ReadMore(out, total, max - total);
        if ct < 0 {
          return -1, got;
        }
        total := total + ct;
        got := total;
      }
      return total, got;
    }
  }

  /** Reading until a read does not fill the `room` left meets a fault, or the end before any byte. */
  ghost predicate Fails(s: Socket, room: nat, some: bool)
    requires room > 0
    decreases |Unread(s)|, |s|
  {
    if s == [] then !some
    else if s[0].Fault? then true
    else if |s[0].data| < room then false
    else
      TakeFromSocket(s, room);
      Fails(AfterTaking(s, room), 8192, true)
  }

  // The socket after `n` bytes of its first chunk
  function AfterTaking(s: Socket, n: nat): Socket
    requires s != [] && s[0].Chunk? && n <= |s[0].data|
  {
    if n == |s[0].data| then s[1..] else [Chunk(s[0].data[n..])] + s[1..]
  }

  lemma {:induction false} TakeFromSocket(s: Socket, n: nat)
    requires s != [] && s[0].Chunk? && n <= |s[0].data|
    ensures s[0].data[..n] + Unread(AfterTaking(s, n)) == Unread(s)
    ensures Faultless(s) ==> Faultless(AfterTaking(s, n))
  {
    var d := s[0].data;
    var s' := AfterTaking(s, n);
    assert d[..n] + d[n..] == d;
    if n < |d| {
      assert s'[1..] == s[1..];
      Assoc(d[..n], d[n..], Unread(s[1..]));
    }
  }
}
