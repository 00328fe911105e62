/** The raw TCP endpoints underneath the wrapper (Go's net.TCPConn and
    net.TCPListener), reduced to what the wrapper relies on. */
module Sockets {
  import opened Base

  /** A connection request as the kernel delivers it to AcceptTCP: either
      an error, or a peer with the complete byte stream it will send. */
  datatype Arrival = Refused(error: Error) | Dialed(stream: seq<byte>, remote: Addr)

  /** An accepted TCP connection. `stream` is every byte the peer sends over
      the connection's lifetime and `pos` how many of them have been read. */
  class RawConn {
    const stream: seq<byte>
    const remote: Addr
    var pos: nat
    var closed: bool

    ghost predicate Valid()
      reads this
    {
      pos <= |stream|
    }

    /** The bytes the peer has sent that nobody has read yet. */
    ghost function Pending(): seq<byte>
      reads this
      requires Valid()
    {
      stream[pos..]
    }

    constructor (stream: seq<byte>, remote: Addr)
      ensures this.stream == stream && this.remote == remote
      ensures pos == 0 && !closed && Valid()
    {
      this.stream := stream;
      this.remote := remote;
      pos := 0;
      closed := false;
    }

    /** One read(2): it returns at least one and at most `max` of the next
        bytes when any are pending; how many is the kernel's choice. A
        closed socket reports Closed, an exhausted one Eof. */
    method Recv(max: nat) returns (data: seq<byte>, err: Option<Error>)
      requires Valid()
      modifies this
      ensures Valid() && closed == old(closed)
      ensures |data| <= max && old(Pending()) == data + Pending()
      ensures err.None? <==> !closed && (max == 0 || |old(Pending())| > 0)
      ensures err.None? && max > 0 ==> |data| > 0
      ensures err.Some? ==> data == [] && err == Some(if closed then Closed else Eof)
    {
      if closed {
        return [], Some(Closed);
      }
      if max == 0 {
        return [], None;
      }
      if pos == |stream| {
        return [], Some(Eof);
      }
      var k: nat :| 1 <= k <= max && k <= |stream| - pos;
      data := stream[pos..pos + k];
      pos := pos + k;
      err := None;
    }

    /** net.Conn.Read into the first `len` cells of `p`. */
    method Read(p: array<byte>, len: nat) returns (n: nat, err: Option<Error>)
      requires Valid() && len <= p.Length
      modifies this, p
      ensures Valid() && closed == old(closed)
      ensures n <= len && p[n..] == old(p[n..])
      ensures old(Pending()) == p[..n] + Pending()
      ensures err.None? <==> !closed && (len == 0 || |old(Pending())| > 0)
      ensures err.None? && len > 0 ==> n > 0
      ensures err.Some? ==> n == 0 && err == Some(if closed then Closed else Eof)
    {
      var data;
      data, err := Recv(len);
      forall i | 0 <= i < |data| {
        p[i] := data[i];
      }
      n := |data|;
      assert p[..n] == data;
    }

    /** close(2): it fails once the socket is already closed. */
    method Close() returns (err: Option<Error>)
      modifies this
      ensures closed && pos == old(pos)
      ensures err == (if old(closed) then Some(Closed) else None)
    {
      if closed {
        return Some(Closed);
      }
      closed := true;
      err := None;
    }
  }

  /** The listening socket. `closeCalls` counts the close(2) calls it has
      received, so that callers can state how often it was closed. */
  class RawListener {
    var closed: bool
    ghost var closeCalls: nat

    constructor ()
      ensures !closed && closeCalls == 0
    {
      closed := false;
      closeCalls := 0;
    }

    /** accept(2), handed the kernel's next event. */
    method AcceptTCP(next: Arrival) returns (tc: RawConn?, err: Option<Error>)
      ensures err.Some? <==> tc == null
      ensures err == (if closed then Some(Closed) else if next.Refused? then Some(next.error) else None)
      ensures tc != null ==> fresh(tc) && tc.stream == next.stream && tc.remote == next.remote
      ensures tc != null ==> tc.pos == 0 && !tc.closed && tc.Valid()
    {
      if closed {
        return null, Some(Closed);
      }
      match next
      case Refused(e) =>
        tc, err := null, Some(e);
      case Dialed(stream, remote) =>
        tc := new RawConn(stream, remote);
        err := None;
    }

    method Close() returns (err: Option<Error>)
      modifies this
      ensures closed && closeCalls == old(closeCalls) + 1
      ensures err == (if old(closed) then Some(Closed) else None)
    {
      err := if closed then Some(Closed) else None;
      closed := true;
      closeCalls := closeCalls + 1;
    }
  }
}
