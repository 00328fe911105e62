/** The read path of a spliced connection (conn.go, Read) as values: the
    state a connection reads from, one read as a function of that state,
    and any number of reads in a row. EndlessConn.Read and
    EndlessConn.ReadCorrected are proved against ReadStep. */
module Splice {
  import opened Base

  /** Buffered: a peek buffer is attached and still holds `buf`.
      Direct: reads go straight to the socket. */
  datatype Source = Buffered(buf: seq<byte>) | Direct

  /** The raw socket as a reader sees it: bytes not yet read, and whether
      it has been closed. */
  datatype Socket = Socket(pending: seq<byte>, closed: bool)

  datatype View = View(src: Source, sock: Socket)

  /** What one read leaves behind and hands back. */
  datatype Served = Served(next: View, data: seq<byte>, err: Option<Error>)

  /** The branch condition of conn.go as written, or with the test
      between the caller's length and the buffered count the right way
      round. */
  datatype Variant = AsWritten | Corrected

  /** One call of Read: the caller's slice has length `len` and capacity
      `cap`; `delivery` is how many bytes the socket chooses to return if
      the call reaches it. */
  datatype Call = Call(len: nat, cap: nat, delivery: nat)

  datatype Trace = Trace(final: View, out: seq<byte>)

  /** Every byte the connection has yet to hand to its reader, in order. */
  function Unread(v: View): seq<byte>
  {
    (if v.src.Buffered? then v.src.buf else []) + v.sock.pending
  }

  /** The socket's choice of chunk, kept between 1 and `most`. */
  function Clamp(k: nat, most: nat): nat
    requires 1 <= most
  {
    if k < 1 then 1 else if most < k then most else k
  }

  /** A read of the raw socket into a slice of length `len`. */
  function SocketRead(s: Socket, len: nat, k: nat): (r: Served)
    ensures r.next.src.Direct? && r.next.sock.closed == s.closed
    ensures r.data + r.next.sock.pending == s.pending
    ensures |r.data| <= len
    ensures r.err.None? <==> !s.closed && (len == 0 || |s.pending| > 0)
    ensures r.err.None? && len > 0 ==> |r.data| > 0
    ensures r.err.Some? ==> r.data == [] && r.err == Some(if s.closed then Closed else Eof)
  {
    if s.closed then Served(View(Direct, s), [], Some(Closed))
    else if len == 0 then Served(View(Direct, s), [], None)
    else if |s.pending| == 0 then Served(View(Direct, s), [], Some(Eof))
    else
      var m := Clamp(k, Min(len, |s.pending|));
      Served(View(Direct, Socket(s.pending[m..], false)), s.pending[..m], None)
  }

  /** True when Read takes the branch that reads b[:bn] from the buffer and
      then detaches it; false when it hands the whole of b to the buffer.
      conn.go:39 tests `bn < len(b)` for the latter; the comment above it
      describes `len(b) < bn`. */
  predicate Drains(variant: Variant, bn: nat, len: nat)
  {
    match variant
    case AsWritten => !(bn < len)
    case Corrected => !(len < bn)
  }

  /** A socket that behaves as read(2) does (Sockets.RawConn.Read) is
      described by SocketRead, with its chunk size as the choice. */
  lemma SocketReadMatches(s: Socket, len: nat, data: seq<byte>, rest: seq<byte>, err: Option<Error>)
    requires s.pending == data + rest && |data| <= len
    requires err.None? <==> !s.closed && (len == 0 || |s.pending| > 0)
    requires err.None? && len > 0 ==> |data| > 0
    requires err.Some? ==> data == [] && err == Some(if s.closed then Closed else Eof)
    ensures SocketRead(s, len, |data|) == Served(View(Direct, Socket(rest, s.closed)), data, err)
  {
    if !s.closed && len > 0 && |s.pending| > 0 {
      assert Clamp(|data|, Min(len, |s.pending|)) == |data|;
      assert s.pending[..|data|] == data && s.pending[|data|..] == rest;
    }
  }

  /** The slice b[:bn] of the draining branch exists: bn is within the
      capacity of the caller's slice. */
  predicate Admits(variant: Variant, v: View, len: nat, cap: nat)
  {
    len <= cap &&
    (v.src.Buffered? && 0 < |v.src.buf| && Drains(variant, |v.src.buf|, len) ==> |v.src.buf| <= cap)
  }

  /** A read served from a non-empty attached buffer: rd.Read(b) or
      rd.Read(b[:bn]), which copy as many buffered bytes as the slice
      holds and never fail while bytes are buffered. */
  function BufferRead(variant: Variant, buf: seq<byte>, sock: Socket, len: nat): (r: Served)
    requires |buf| > 0
    ensures r.data + Unread(r.next) == buf + sock.pending
    ensures r.next.sock == sock && r.err.None?
    ensures |r.data| <= (if Drains(variant, |buf|, len) then |buf| else len)
    ensures r.data <= buf
    ensures r.next.src.Direct? <==> Drains(variant, |buf|, len)
    ensures r.next.src.Buffered? ==> r.next.src.buf == buf[|r.data|..]
  {
    var drain := Drains(variant, |buf|, len);
    var n := Min(if drain then |buf| else len, |buf|);
    Served(View(if drain then Direct else Buffered(buf[n..]), sock), buf[..n], None)
  }

  /** A buffered reader that copies the first `n` of its bytes, as
      Bufio.BufReader.Read does, is described by BufferRead. */
  lemma BufferReadMatches(variant: Variant, buf: seq<byte>, sock: Socket, len: nat, data: seq<byte>, rest: seq<byte>)
    requires |buf| > 0
    requires |data| == Min(if Drains(variant, |buf|, len) then |buf| else len, |buf|)
    requires data == buf[..|data|] && rest == buf[|data|..]
    ensures BufferRead(variant, buf, sock, len) ==
      Served(View(if Drains(variant, |buf|, len) then Direct else Buffered(rest), sock), data, None)
  {
  }

  /** One call of Read on a connection in state `v`. */
  function ReadStep(variant: Variant, v: View, len: nat, cap: nat, k: nat): (r: Served)
    requires Admits(variant, v, len, cap)
    ensures r.data + Unread(r.next) == Unread(v)
    ensures v.src.Direct? ==> r.next.src.Direct?
    ensures r.next.src.Buffered? ==> r.next.sock == v.sock
    ensures r.next.sock.closed == v.sock.closed
    ensures v.src.Direct? && v.sock.closed ==> r.data == []
    ensures |r.next.sock.pending| <= |v.sock.pending|
    ensures |r.data| <= cap
  {
    if v.src.Direct? || |v.src.buf| == 0 then SocketRead(v.sock, len, k)
    else BufferRead(variant, v.src.buf, v.sock, len)
  }

  /** The calls in `calls` made in order, up to the first one whose slice
      b[:bn] would be out of range (where the Go code panics); `out` is
      everything they return, concatenated. Nothing is lost or repeated:
      what was returned followed by what is still unread is what was
      unread at the start. */
  function Run(variant: Variant, v: View, calls: seq<Call>): (t: Trace)
    ensures t.out + Unread(t.final) == Unread(v)
    ensures v.src.Direct? ==> t.final.src.Direct?
    ensures t.final.src.Buffered? ==> t.final.sock == v.sock
    ensures |t.final.sock.pending| <= |v.sock.pending|
    decreases |calls|
  {
    if |calls| == 0 || !Admits(variant, v, calls[0].len, calls[0].cap) then Trace(v, [])
    else
      var s := ReadStep(variant, v, calls[0].len, calls[0].cap, calls[0].delivery);
      var t := Run(variant, s.next, calls[1..]);
      ConcatAssoc(s.data, t.out, Unread(t.final));
      Trace(t.final, s.data + t.out)
  }

  /** `delivered` is what a connection in state `v` has handed out of
      `stream`: while the socket is open, it followed by everything still
      unread is exactly `stream`; once closed, it is a prefix of `stream`
      and no buffer is attached. */
  predicate Aligned(delivered: seq<byte>, v: View, stream: seq<byte>)
  {
    (v.sock.closed ==> delivered <= stream && v.src.Direct?) &&
    (!v.sock.closed ==> delivered + Unread(v) == stream)
  }

  /** A read keeps what has been delivered aligned with the stream. */
  lemma StepKeepsAligned(delivered: seq<byte>, v: View, r: Served, stream: seq<byte>)
    requires Aligned(delivered, v, stream)
    requires r.data + Unread(r.next) == Unread(v) && r.next.sock.closed == v.sock.closed
    requires v.src.Direct? ==> r.next.src.Direct?
    requires v.src.Direct? && v.sock.closed ==> r.data == []
    ensures Aligned(delivered + r.data, r.next, stream)
  {
    if !v.sock.closed {
      ConcatAssoc(delivered, r.data, Unread(r.next));
    } else {
      assert delivered + r.data == delivered;
    }
  }

  /** The headline property. Starting with `buf` buffered over a socket
      with `sock.pending` unread, any run of reads returns a prefix of
      `buf` while the buffer is attached, and once it is detached it has
      returned all of `buf` followed by a prefix of the socket's bytes. */
  lemma {:induction false} DeliversBufferThenSocket(variant: Variant, buf: seq<byte>, sock: Socket, calls: seq<Call>)
    ensures var t := Run(variant, View(Buffered(buf), sock), calls);
      (t.final.src.Buffered? ==> t.out + t.final.src.buf == buf && t.final.sock == sock) &&
      (t.final.src.Direct? ==> |buf| <= |t.out| && t.out == buf + sock.pending[..|t.out| - |buf|])
  {
    var t := Run(variant, View(Buffered(buf), sock), calls);
    if t.final.src.Buffered? {
      ConcatAssoc(t.out, t.final.src.buf, sock.pending);
      DropCommonSuffix(t.out + t.final.src.buf, buf, sock.pending);
    } else {
      SplitAfterPrefix(t.out, t.final.sock.pending, buf, sock.pending);
    }
  }

  lemma DropCommonSuffix(a: seq<byte>, b: seq<byte>, c: seq<byte>)
    requires a + c == b + c
    ensures a == b
  {
    assert |a| == |b|;
    forall i | 0 <= i < |a|
      ensures a[i] == b[i]
    {
      assert a[i] == (a + c)[i] && b[i] == (b + c)[i];
    }
  }

  /** If `out` followed by a suffix `rest` of `p` spells `buf + p`, then
      `out` is all of `buf` followed by a prefix of `p`. */
  lemma SplitAfterPrefix(out: seq<byte>, rest: seq<byte>, buf: seq<byte>, p: seq<byte>)
    requires out + rest == buf + p && |rest| <= |p|
    ensures |buf| <= |out| && out == buf + p[..|out| - |buf|]
  {
    var m := |out| - |buf|;
    forall i | 0 <= i < |out|
      ensures out[i] == (buf + p[..m])[i]
    {
      assert out[i] == (out + rest)[i] == (buf + p)[i];
    }
  }

  /** Once reads are direct they stay direct, and each one is a plain
      socket read. */
  lemma DirectReadsOnlySocket(variant: Variant, sock: Socket, len: nat, cap: nat, k: nat)
    requires len <= cap
    ensures ReadStep(variant, View(Direct, sock), len, cap, k) == SocketRead(sock, len, k)
  {
  }

  /** An attached buffer that holds nothing is dropped and the socket read
      instead: the state becomes direct whatever the socket returns. */
  lemma EmptyBufferSwitchesToSocket(variant: Variant, sock: Socket, len: nat, cap: nat, k: nat)
    requires len <= cap
    ensures var r := ReadStep(variant, View(Buffered([]), sock), len, cap, k);
      r == SocketRead(sock, len, k) && r.next.src.Direct?
  {
  }

  /** As written, a non-empty buffer is always handed out whole, without an
      error and without touching the socket. When the caller's length
      exceeds the buffered count the (now empty) buffer stays attached;
      otherwise it is detached. */
  lemma AsWrittenServesWholeBuffer(buf: seq<byte>, sock: Socket, len: nat, cap: nat, k: nat)
    requires |buf| > 0 && Admits(AsWritten, View(Buffered(buf), sock), len, cap)
    ensures var r := ReadStep(AsWritten, View(Buffered(buf), sock), len, cap, k);
      r.data == buf && r.err.None? && r.next.sock == sock &&
      (|buf| < len ==> r.next.src == Buffered([])) &&
      (len <= |buf| ==> r.next.src.Direct?)
  {
  }

  /** As written, a read with a slice shorter than the buffered count
      returns more bytes than the slice's length: with five bytes buffered
      and a slice of length 2 and capacity 8, Read returns 5. */
  lemma AsWrittenOverrunsCallerSlice()
    ensures var r := ReadStep(AsWritten, View(Buffered([1, 2, 3, 4, 5]), Socket([], false)), 2, 8, 0);
      |r.data| == 5 && |r.data| > 2
  {
  }

  /** Corrected, every read returns at most the caller's length, as the
      io.Reader contract demands; from a non-empty buffer it returns as
      much as fits, keeps the rest attached, and detaches only when the
      buffer is used up. */
  lemma CorrectedFitsCallerSlice(v: View, len: nat, cap: nat, k: nat)
    requires len <= cap
    ensures Admits(Corrected, v, len, cap)
    ensures var r := ReadStep(Corrected, v, len, cap, k);
      |r.data| <= len &&
      (v.src.Buffered? && |v.src.buf| > 0 ==>
         r.data == v.src.buf[..Min(len, |v.src.buf|)] && r.next.sock == v.sock &&
         (r.next.src.Direct? <==> |v.src.buf| <= len))
  {
  }
}
