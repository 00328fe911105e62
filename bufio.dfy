/** The part of Go's bufio.Reader the wrapper uses: a buffer of bytes
    already pulled from a source and not yet handed out. */
module Bufio {
  import opened Base
  import opened Sockets

  /** bufio's defaultBufSize: bufio.NewReader never holds more than this. */
  const DefaultBufSize: nat := 4096

  class BufReader {
    var src: RawConn?
    var buf: seq<byte>

    ghost predicate Valid()
      reads this, src
    {
      |buf| <= DefaultBufSize && (src != null ==> src.Valid())
    }

    /** Everything a reader of this buffer would still see, in order: the
        buffered bytes, then what the source has not yet delivered. */
    ghost function Unread(): seq<byte>
      reads this, src
      requires Valid()
    {
      buf + if src == null then [] else src.Pending()
    }

    /** bufio.NewReader(r). */
    constructor (r: RawConn?)
      ensures src == r && buf == []
    {
      src := r;
      buf := [];
    }

    /** bufio.Reader.Buffered: how many bytes a read can take without
        touching the source. */
    function Buffered(): (n: nat)
      reads this, src
      ensures n == 0 <==> buf == []
      ensures Valid() ==> n <= DefaultBufSize
    {
      |buf|
    }

    /** bufio.Reader.Reset: bind to `r` and forget every buffered byte. */
    method Reset(r: RawConn?)
      modifies this
      ensures src == r && buf == []
    {
      src := r;
      buf := [];
    }

    /** bufio.Reader.Read into the first `len` cells of `p`. With bytes
        buffered it copies as many of them as fit and never touches the
        source; with an empty buffer it reads the source once, directly
        into `p` for a large request and through the buffer otherwise. */
    method Read(p: array<byte>, len: nat) returns (n: nat, err: Option<Error>)
      requires Valid() && len <= p.Length
      requires src != null || |buf| > 0 || len == 0
      modifies this, p, src
      ensures Valid() && src == old(src)
      ensures n <= len && p[n..] == old(p[n..])
      ensures old(Unread()) == p[..n] + Unread()
      ensures |old(buf)| > 0 ==> n == Min(len, |old(buf)|) && p[..n] == old(buf)[..n]
      ensures |old(buf)| > 0 ==> buf == old(buf)[n..] && err == None
      ensures |old(buf)| > 0 && src != null ==> unchanged(src)
    {
      if len == 0 {
        return 0, None;
      }
      if |buf| == 0 {
        n, err := ReadSource(p, len);
        return;
      }
      n := CopyOut(p, len);
      err := None;
    }

    /** bufio.Reader.Read with nothing buffered: one read of the source,
        straight into `p` when `len` is at least the buffer size, otherwise
        into the buffer and from there into `p`. The wrapper never takes
        this path (conn.go reads through the reader only while it holds
        bytes); it is here so that Read is the whole of bufio's read. */
    method ReadSource(p: array<byte>, len: nat) returns (n: nat, err: Option<Error>)
      requires Valid() && 0 < len <= p.Length && src != null && buf == []
      modifies this, p, src
      ensures Valid() && src == old(src)
      ensures n <= len && p[n..] == old(p[n..])
      ensures old(Unread()) == p[..n] + Unread()
    {
      if len >= DefaultBufSize {
        n, err := src.Read(p, len);
        return;
      }
      var data, e := src.Recv(DefaultBufSize);
      if |data| == 0 {
        return 0, e;
      }
      buf := data;
      n := CopyOut(p, len);
      err := None;
    }

    /** The last step of bufio.Reader.Read: copy as many buffered bytes as
        fit into the first `len` cells of `p` and drop them from the buffer. */
    method CopyOut(p: array<byte>, len: nat) returns (n: nat)
      requires Valid() && len <= p.Length
      modifies this, p
      ensures Valid() && src == old(src) && n == Min(len, |old(buf)|)
      ensures p[..n] == old(buf)[..n] && p[n..] == old(p[n..]) && buf == old(buf)[n..]
      ensures old(Unread()) == p[..n] + Unread()
    {
      ghost var rest := if src == null then [] else src.Pending();
      n := Min(len, |buf|);
      forall i | 0 <= i < n {
        p[i] := buf[i];
      }
      assert p[..n] == buf[..n];
      buf := buf[n..];
      ConcatAssoc(p[..n], buf, rest);
    }

    /** bufio.Reader's fill, as the header parser triggers it: one read of
        the source into the free part of the buffer. Nothing is consumed. */
    method Fill() returns (err: Option<Error>)
      requires Valid() && src != null && |buf| < DefaultBufSize
      modifies this, src
      ensures Valid() && src == old(src) && src.closed == old(src.closed)
      ensures old(src.pos) <= src.pos
      ensures buf == old(buf) + src.stream[old(src.pos)..src.pos]
      ensures old(Unread()) == Unread()
    {
      var data;
      data, err := src.Recv(DefaultBufSize - |buf|);
      buf := buf + data;
    }

    /** Drop the first `k` buffered bytes (bufio.Reader.Discard within the
        buffer), as the header parser does with the bytes it consumed. */
    method Skip(k: nat)
      requires Valid() && k <= |buf|
      modifies this
      ensures Valid() && src == old(src) && buf == old(buf)[k..]
    {
      buf := buf[k..];
    }
  }
}
