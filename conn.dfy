/** The spliced connection (conn.go, endlessConn). It hands out the bytes
    left in the buffered reader the header parser used, then reads the
    raw socket directly, and on close recycles that reader and tells the
    server's wait group the connection is gone. The mutex around `rd` is a
    no-op here: the model is sequential. */
module Conn {
  import opened Base
  import opened Sockets
  import opened Bufio
  import opened ReaderCache
  import opened Server
  import Splice

  class EndlessConn {
    const raw: RawConn
    const server: EndlessServer
    const proxyHeader: Option<Header>
    var rd: BufReader?

    /** How many bytes at the front of the raw stream the header parser
        consumed; the application is owed the stream after them. */
    ghost const headerLen: nat
    /** Everything Read has returned so far, in order. */
    ghost var delivered: seq<byte>

    /** The connection's read state in the terms of Splice. */
    ghost function View(): Splice.View
      reads this, rd, raw
      requires raw.Valid()
    {
      Splice.View(if rd == null then Splice.Direct else Splice.Buffered(rd.buf),
                  Splice.Socket(raw.Pending(), raw.closed))
    }

    /** What was delivered, followed by what is still unread, is exactly
        the stream after the header while the socket is open (and a prefix
        of it afterwards); an attached reader reads from this connection's
        socket; the wait group counts this connection while it is open. */
    ghost predicate Valid()
      reads this, rd, raw, server.wg
    {
      raw.Valid() && headerLen <= |raw.stream|
      && (rd != null ==> rd.src == raw && |rd.buf| <= DefaultBufSize)
      && Splice.Aligned(delivered, View(), raw.stream[headerLen..])
      && (raw in server.wg.live <==> !raw.closed)
    }

    constructor (raw: RawConn, server: EndlessServer, proxyHeader: Option<Header>, rd: BufReader?, ghost headerLen: nat)
      ensures this.raw == raw && this.server == server && this.proxyHeader == proxyHeader
      ensures this.rd == rd && this.headerLen == headerLen && delivered == []
    {
      this.raw := raw;
      this.server := server;
      this.proxyHeader := proxyHeader;
      this.rd := rd;
      this.headerLen := headerLen;
      delivered := [];
    }

    /** conn.go RemoteAddr: the header's source address when the PROXY
        header was parsed, otherwise the socket's peer address. */
    function RemoteAddr(): (a: Addr)
      ensures proxyHeader.Some? ==> a == proxyHeader.value.srcAddr
      ensures proxyHeader.None? ==> a == raw.remote
    {
      if proxyHeader.Some? then proxyHeader.value.srcAddr else raw.remote
    }

    /** conn.go Read, as written, into the first `blen` cells of `b` (a Go
        slice of length `blen` and capacity b.Length). Its effect is one
        Splice.ReadStep with the AsWritten branch condition. */
    method Read(b: array<byte>, blen: nat) returns (n: nat, err: Option<Error>)
      requires Valid() && blen <= b.Length
      requires Splice.Admits(Splice.AsWritten, View(), blen, b.Length)
      modifies this`rd, this`delivered, rd, raw, b
      ensures Valid()
      ensures n <= b.Length && b[n..] == old(b[n..])
      ensures Splice.ReadStep(Splice.AsWritten, old(View()), blen, b.Length, n) == Splice.Served(View(), b[..n], err)
      ensures delivered == old(delivered) + b[..n]
      ensures rd == null || rd == old(rd)
    {
      ghost var v0 := View();
      var r := rd;
      if r != null {
        var bn := r.Buffered();
        if bn == 0 {
          rd := null;
          n, err := ReadSocket(raw, b, blen);
          assert Splice.ReadStep(Splice.AsWritten, v0, blen, b.Length, n) == Splice.Served(View(), b[..n], err);
        } else if bn < blen {
          ghost var buf0 := r.buf;
          n, err := r.Read(b, blen);
          Splice.BufferReadMatches(Splice.AsWritten, buf0, v0.sock, blen, b[..n], r.buf);
          assert Splice.ReadStep(Splice.AsWritten, v0, blen, b.Length, n) == Splice.BufferRead(Splice.AsWritten, buf0, v0.sock, blen);
        } else {
          ghost var buf0 := r.buf;
          n, err := r.Read(b, bn);
          Splice.BufferReadMatches(Splice.AsWritten, buf0, v0.sock, blen, b[..n], r.buf);
          assert Splice.ReadStep(Splice.AsWritten, v0, blen, b.Length, n) == Splice.BufferRead(Splice.AsWritten, buf0, v0.sock, blen);
          if err == None {
            rd := null;
          }
        }
      } else {
        n, err := ReadSocket(raw, b, blen);
        assert Splice.ReadStep(Splice.AsWritten, v0, blen, b.Length, n) == Splice.Served(View(), b[..n], err);
      }
      Splice.StepKeepsAligned(delivered, v0, Splice.Served(View(), b[..n], err), raw.stream[headerLen..]);
      delivered := delivered + b[..n];
    }

    /** conn.go Read with its branch condition the right way round
        (`len(b) < bn` hands b to the reader); the version the comment at
        conn.go:37 describes. It never returns more than `blen` bytes. */
    method ReadCorrected(b: array<byte>, blen: nat) returns (n: nat, err: Option<Error>)
      requires Valid() && blen <= b.Length
      modifies this`rd, this`delivered, rd, raw, b
      ensures Valid()
      ensures n <= blen && b[n..] == old(b[n..])
      ensures Splice.ReadStep(Splice.Corrected, old(View()), blen, b.Length, n) == Splice.Served(View(), b[..n], err)
      ensures delivered == old(delivered) + b[..n]
      ensures rd == null || rd == old(rd)
    {
      ghost var v0 := View();
      var r := rd;
      if r != null {
        var bn := r.Buffered();
        if bn == 0 {
          rd := null;
          n, err := ReadSocket(raw, b, blen);
          assert Splice.ReadStep(Splice.Corrected, v0, blen, b.Length, n) == Splice.Served(View(), b[..n], err);
        } else if blen < bn {
          ghost var buf0 := r.buf;
          n, err := r.Read(b, blen);
          Splice.BufferReadMatches(Splice.Corrected, buf0, v0.sock, blen, b[..n], r.buf);
          assert Splice.ReadStep(Splice.Corrected, v0, blen, b.Length, n) == Splice.BufferRead(Splice.Corrected, buf0, v0.sock, blen);
        } else {
          ghost var buf0 := r.buf;
          n, err := r.Read(b, bn);
          Splice.BufferReadMatches(Splice.Corrected, buf0, v0.sock, blen, b[..n], r.buf);
          assert Splice.ReadStep(Splice.Corrected, v0, blen, b.Length, n) == Splice.BufferRead(Splice.Corrected, buf0, v0.sock, blen);
          if err == None {
            rd := null;
          }
        }
      } else {
        n, err := ReadSocket(raw, b, blen);
        assert Splice.ReadStep(Splice.Corrected, v0, blen, b.Length, n) == Splice.Served(View(), b[..n], err);
      }
      Splice.StepKeepsAligned(delivered, v0, Splice.Served(View(), b[..n], err), raw.stream[headerLen..]);
      delivered := delivered + b[..n];
    }

    /** conn.go Close: detach the reader and give it back to the cache,
        close the socket, and count the connection as done only if that
        close succeeded. */
    method Close(pool: ReaderPool) returns (err: Option<Error>)
      requires Valid() && server.wg.Valid() && pool.Valid()
      modifies this, rd, pool, raw, server.wg
      ensures Valid() && server.wg.Valid() && pool.Valid()
      ensures rd == null && raw.closed && delivered == old(delivered)
      ensures old(rd) != null ==> old(rd).src == null && old(rd).buf == [] && pool.items == old(pool.items) + [old(rd)]
      ensures old(rd) == null ==> pool.items == old(pool.items)
      ensures err == (if old(raw.closed) then Some(Closed) else None)
      ensures server.wg.count == old(server.wg.count) - (if err.None? then 1 else 0)
      ensures server.wg.live == old(server.wg.live) - {raw}
    {
      var r := rd;
      rd := null;
      if r != null {
        // Every cached reader is detached, and this one reads `raw`.
        assert r !in pool.items;
        PutBufioReader(pool, r);
      }
      err := raw.Close();
      if err.None? {
        server.wg.Done(raw);
      }
    }
  }

  /** Closing a connection any number of times counts it as done at most
      once: the second close reports Closed and leaves the counter alone. */
  method CloseTwice(c: EndlessConn, pool: ReaderPool) returns (first: Option<Error>, second: Option<Error>)
    requires c.Valid() && c.server.wg.Valid() && pool.Valid()
    modifies c, c.rd, pool, c.raw, c.server.wg
    ensures c.Valid() && c.server.wg.Valid() && pool.Valid()
    ensures second == Some(Closed)
    ensures c.server.wg.count == old(c.server.wg.count) - (if old(c.raw.closed) then 0 else 1)
  {
    first := c.Close(pool);
    second := c.Close(pool);
  }

  /** conn.go's c.Conn.Read as the splice sees it: one socket read is one
      Splice.SocketRead, with the returned count as the socket's choice. */
  method ReadSocket(raw: RawConn, b: array<byte>, blen: nat) returns (n: nat, err: Option<Error>)
    requires raw.Valid() && blen <= b.Length
    modifies raw, b
    ensures raw.Valid() && raw.closed == old(raw.closed)
    ensures n <= blen && b[n..] == old(b[n..])
    ensures Splice.SocketRead(Splice.Socket(old(raw.Pending()), raw.closed), blen, n) ==
      Splice.Served(Splice.View(Splice.Direct, Splice.Socket(raw.Pending(), raw.closed)), b[..n], err)
  {
    ghost var pending0 := raw.Pending();
    n, err := raw.Read(b, blen);
    Splice.SocketReadMatches(Splice.Socket(pending0, raw.closed), blen, b[..n], raw.Pending(), err);
  }
}
