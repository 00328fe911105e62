/** The draining listener (listener.go, endlessListener): it accepts raw
    connections, optionally reads a PROXY-protocol header off each through
    a cached buffered reader, wraps each in an EndlessConn and counts it in
    the server's wait group; its Close takes effect once. */
module Listener {
  import opened Base
  import opened Sockets
  import opened Bufio
  import opened ReaderCache
  import opened Server
  import opened Conn

  /** What the PROXY-protocol parser does with the bytes it has pulled
      into the buffer: it consumes the first `used` of them and returns a
      header, an error, or both. */
  datatype ParsedHeader = ParsedHeader(used: nat, head: Option<Header>, err: Option<Error>)

  /** The parser itself (ReadHeader's code is not part of this model): a
      function of the bytes it gets to see. */
  type HeaderParser = seq<byte> -> ParsedHeader

  /** ReadHeader(rd): pull what the socket offers into the reader's
      buffer, let the parser look at it, and drop the bytes it consumed.
      Whatever follows the header stays buffered. */
  method ReadHeader(rd: BufReader, parse: HeaderParser) returns (head: Option<Header>, err: Option<Error>)
    requires rd.Valid() && rd.src != null && rd.buf == []
    modifies rd, rd.src
    ensures rd.Valid() && rd.src == old(rd.src) && rd.src.closed == old(rd.src.closed)
    ensures old(rd.src.pos) <= rd.src.pos
    ensures var seen := rd.src.stream[old(rd.src.pos)..rd.src.pos];
      var used := Min(parse(seen).used, |seen|);
      rd.buf == seen[used..] && head == parse(seen).head && err == parse(seen).err
  {
    var _ := rd.Fill();
    ghost var pos0 := old(rd.src.pos);
    var seen := rd.buf;
    assert seen == rd.src.stream[pos0..rd.src.pos];
    var parsed := parse(seen);
    rd.Skip(Min(parsed.used, |seen|));
    head, err := parsed.head, parsed.err;
  }

  /** The parsing half of Accept: take a reader for `tc` from the cache,
      read the PROXY header through it, and drop any parse error (it is
      only logged). `used` is how many of the bytes pulled in the header
      took; the rest stay buffered in the returned reader. */
  method ReadProxyHeader(pool: ReaderPool, tc: RawConn, parse: HeaderParser)
    returns (rd: BufReader, head: Option<Header>, ghost used: nat)
    requires pool.Valid() && tc.Valid() && tc.pos == 0
    modifies pool, pool.items, tc
    ensures pool.Valid() && rd !in pool.items && rd.src == tc && |rd.buf| <= DefaultBufSize
    ensures tc.Valid() && tc.closed == old(tc.closed)
    ensures var seen := tc.stream[..tc.pos];
      used == Min(parse(seen).used, |seen|) && head == parse(seen).head && rd.buf == seen[used..]
    ensures rd.buf + tc.Pending() == tc.stream[used..]
    ensures fresh(rd) || rd in old(pool.items)
    ensures fresh(rd) ==> pool.items == old(pool.items)
    ensures !fresh(rd) ==>
      exists i :: 0 <= i < |old(pool.items)| && rd == old(pool.items)[i] && pool.items == old(pool.items)[..i] + old(pool.items)[i + 1..]
    ensures forall x :: x in old(pool.items) && x != rd ==> x.src == old(x.src) && x.buf == old(x.buf)
  {
    rd := NewBufioReader(pool, tc);
    var headErr;
    head, headErr := ReadHeader(rd, parse);
    ghost var seen := tc.stream[..tc.pos];
    used := Min(parse(seen).used, |seen|);
    ConcatAssoc(seen[used..], tc.stream[tc.pos..], []);
    assert seen[used..] + tc.Pending() == tc.stream[used..];
  }

  class EndlessListener {
    const inner: RawListener
    const server: EndlessServer
    var stopped: bool
    /** How often the listening socket had been closed before it was
        wrapped. */
    ghost const priorCloses: nat

    /** The listening socket has been closed exactly once through this
        wrapper once it is stopped, and not at all before. */
    ghost predicate Valid()
      reads this, inner
    {
      inner.closeCalls == priorCloses + (if stopped then 1 else 0)
    }

    /** newEndlessListener. */
    constructor (l: RawListener, srv: EndlessServer)
      ensures inner == l && server == srv && !stopped && Valid()
    {
      inner := l;
      server := srv;
      stopped := false;
      priorCloses := l.closeCalls;
    }

    /** endlessListener.Accept, handed the kernel's next event and the
        header parser. A failed accept changes nothing. A successful one
        returns a new connection, reads its header first when parsing is
        on (a parse error is dropped and the reader stays attached either
        way), and adds exactly one to the wait group. */
    method Accept(next: Arrival, parse: HeaderParser, pool: ReaderPool) returns (c: EndlessConn?, err: Option<Error>)
      requires server.wg.Valid() && pool.Valid()
      modifies server.wg, pool, pool.items
      ensures server.wg.Valid() && pool.Valid()
      ensures err == (if inner.closed then Some(Closed) else if next.Refused? then Some(next.error) else None)
      ensures err.Some? ==> c == null && pool.items == old(pool.items)
      ensures err.Some? ==> server.wg.count == old(server.wg.count) && server.wg.live == old(server.wg.live)
      ensures err.None? ==> c != null && fresh(c) && fresh(c.raw) && c.server == server
      ensures err.None? ==> c.Valid() && c.delivered == [] && c.raw.stream == next.stream && c.raw.remote == next.remote
      ensures err.None? ==> server.wg.count == old(server.wg.count) + 1 && server.wg.live == old(server.wg.live) + {c.raw}
      ensures err.None? && !server.parseProxyProtocol ==>
        c.proxyHeader == None && c.rd == null && c.raw.pos == 0 && c.headerLen == 0 && pool.items == old(pool.items)
      ensures err.None? && server.parseProxyProtocol ==>
        c.rd != null && c.rd.src == c.raw && c.rd !in pool.items && (fresh(c.rd) || c.rd in old(pool.items)) &&
        var seen := c.raw.stream[..c.raw.pos];
        c.proxyHeader == parse(seen).head && c.headerLen == Min(parse(seen).used, |seen|) && c.rd.buf == seen[c.headerLen..]
    ensures err.None? && server.parseProxyProtocol && fresh(c.rd) ==> pool.items == old(pool.items)
    ensures err.None? && server.parseProxyProtocol && !fresh(c.rd) ==>
      exists i :: 0 <= i < |old(pool.items)| && c.rd == old(pool.items)[i] && pool.items == old(pool.items)[..i] + old(pool.items)[i + 1..]
    ensures forall x :: x in old(pool.items) && (c == null || x != c.rd) ==> x.src == old(x.src) && x.buf == old(x.buf)
    {
      var tc;
      tc, err := inner.AcceptTCP(next);
      if err.Some? {
        return null, err;
      }
      // The keep-alive settings are not modelled.
      if server.parseProxyProtocol {
        var rd, head, used := ReadProxyHeader(pool, tc, parse);
        c := new EndlessConn(tc, server, head, rd, used);
      } else {
        c := new EndlessConn(tc, server, None, null, 0);
      }
      server.wg.Add(tc);
    }

    /** endlessListener.Close: the first call stops the listener and closes
        the listening socket, returning what that close returned; every
        later call returns Einval and leaves the socket alone. */
    method Close() returns (err: Option<Error>)
      requires Valid()
      modifies this, inner
      ensures Valid() && stopped
      ensures old(stopped) ==> err == Some(Einval) && inner.closed == old(inner.closed) && inner.closeCalls == old(inner.closeCalls)
      ensures !old(stopped) ==> inner.closed && inner.closeCalls == old(inner.closeCalls) + 1
      ensures !old(stopped) ==> err == (if old(inner.closed) then Some(Closed) else None)
    {
      if stopped {
        return Some(Einval);
      }
      stopped := true;
      err := inner.Close();
    }
  }

  /** The supervisor's view of one connection's life: accept it, then close
      it twice. The wait group ends where it started, and the second close
      is refused. */
  method AcceptThenCloseTwice(l: EndlessListener, next: Arrival, parse: HeaderParser, pool: ReaderPool)
    returns (err: Option<Error>, second: Option<Error>)
    requires l.server.wg.Valid() && pool.Valid()
    modifies l.server.wg, pool, pool.items
    ensures l.server.wg.Valid() && pool.Valid() && l.server.wg.count == old(l.server.wg.count)
    ensures err.None? ==> second == Some(Closed)
  {
    second := None;
    var c;
    c, err := l.Accept(next, parse, pool);
    if c != null {
      var first;
      first, second := CloseTwice(c, pool);
    }
  }

  /** Two connections accepted in a row through the same reader cache:
      the cache never hands the first connection's reader to the second,
      so the first stays valid and both are counted in the wait group. */
  method AcceptTwo(l: EndlessListener, first: Arrival, second: Arrival, parse: HeaderParser, pool: ReaderPool)
    returns (c1: EndlessConn?, c2: EndlessConn?)
    requires l.server.wg.Valid() && pool.Valid()
    modifies l.server.wg, pool, pool.items
    ensures l.server.wg.Valid() && pool.Valid()
    ensures c1 != null ==> c1.Valid() && c1.server == l.server && !c1.raw.closed
    ensures c2 != null ==> c2.Valid() && c2.server == l.server && !c2.raw.closed
    ensures c1 != null && c2 != null ==> c1 != c2 && c1.raw != c2.raw && (c1.rd == null || c1.rd != c2.rd)
    ensures l.server.wg.count == old(l.server.wg.count) + (if c1 != null then 1 else 0) + (if c2 != null then 1 else 0)
  {
    var e1, e2;
    c1, e1 := l.Accept(first, parse, pool);
    c2, e2 := l.Accept(second, parse, pool);
  }

  /** Closing two open connections that share no socket and no reader
      keeps both valid throughout and counts each one done exactly once. */
  method CloseBoth(c1: EndlessConn, c2: EndlessConn, pool: ReaderPool)
    requires c1.Valid() && c2.Valid() && c1.server == c2.server && c1.server.wg.Valid() && pool.Valid()
    requires c1 != c2 && c1.raw != c2.raw && (c1.rd == null || c1.rd != c2.rd)
    requires !c1.raw.closed && !c2.raw.closed
    modifies c1, c1.rd, c1.raw, c2, c2.rd, c2.raw, pool, c1.server.wg
    ensures c1.Valid() && c2.Valid() && c1.server.wg.Valid() && pool.Valid()
    ensures c1.server.wg.count == old(c1.server.wg.count) - 2
  {
    var _ := c1.Close(pool);
    var _ := c2.Close(pool);
  }
}
