/** The authenticated byte stream below the HTTP and logging code, seen from its caller.

    What the peer sends arrives in pieces that the reader cannot choose. Reads can fail at any point,
    with more to come afterwards (a timeout, an interrupted call); after the last piece every read
    fails. Writing succeeds until `room` bytes are on the wire, and then fails. Certificates, encryption,
    timeouts and system calls are not part of this model.
  */
module GssStream {
  import opened CText

  datatype Failure = EOF | TIMEOUT | GSS | ERRNO(errno: int)

  predicate NonEmpty(pieces: seq<string>) {
    forall i :: 0 <= i < |pieces| ==> pieces[i] != ""
  }

  /** Pieces that arrive without a failure, and the failure behind them. */
  datatype Segment = Segment(pieces: seq<string>, failure: Failure)

  datatype Stream = Stream(connected: bool, pieces: seq<string>, failure: Failure, later: seq<Segment>,
                           sent: string, room: nat, writeFailure: Failure)
  {
    ghost predicate Valid() {
      NonEmpty(pieces) && forall i :: 0 <= i < |later| ==> NonEmpty(later[i].pieces)
    }

    /** Bytes that can be read before the next failure. */
    ghost function Unread(): string {
      Flatten(pieces)
    }

    /** The stream after a read has failed. */
    function Failed(): (next: Stream)
      ensures Valid() ==> next.Valid()
    {
      if later == [] then this.(pieces := [])
      else this.(pieces := later[0].pieces, failure := later[0].failure, later := later[1..])
    }

    /** What one read call of at most `max` bytes delivers: at most one piece. */
    function NextRead(max: nat): (data: string)
      requires Valid() && pieces != [] && max > 0
      ensures 0 < |data| <= max && data <= pieces[0]
    {
      pieces[0][..Min(|pieces[0]|, max)]
    }

    /** The stream after `n` bytes of the first piece have been read. */
    function Advance(n: nat): (next: Stream)
      requires Valid() && pieces != [] && n <= |pieces[0]|
      ensures next.Valid() && next == this.(pieces := next.pieces)
      ensures pieces[0][..n] + next.Unread() == Unread()
    {
      var piece := pieces[0];
      assert piece[..n] + piece[n..] == piece;
      if n == |piece| then this.(pieces := pieces[1..])
      else
        var left := [piece[n..]] + pieces[1..];
        assert Flatten(left) == piece[n..] + Flatten(pieces[1..]);
        this.(pieces := left)
    }

    /** Writing a whole text; on failure only the part that fits is sent. */
    function WriteFull(data: string): (next: Stream)
      ensures next == this.(sent := sent + data[..Min(|data|, room)], room := room - Min(|data|, room))
    {
      var n := Min(|data|, room);
      this.(sent := sent + data[..n], room := room - n)
    }
  }
}
