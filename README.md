# endless: accepted connections, the PROXY-header splice and drain counting

`endless` wraps a TCP listener so that a server can be restarted without
dropping connections. This model covers the core of that wrapper:

- **endlessListener** (listener.go) accepts a raw TCP connection. When the
  server parses the PROXY protocol, it first pulls the PROXY header off the
  connection through a buffered reader taken from a process-wide cache. It then
  wraps the connection in an endlessConn and adds one to the server's wait
  group. Its `Close` closes the listening socket once; every later call
  returns `EINVAL`.
- **endlessConn** (conn.go) hands out the bytes the header parser read ahead
  but did not consume, then switches to the raw socket for good. `Close` gives
  the attached reader back to the cache, closes the socket, and marks the
  connection done in the wait group only if that close succeeded.
  `RemoteAddr` reports the PROXY header's source address when there is one.
- **The reader cache** (listener.go, `newBufioReader` / `putBufioReader`)
  recycles `bufio.Reader`s through a `sync.Pool`.

Modules:

| module | file | contents |
|---|---|---|
| Base | base.dfy | bytes, `Option`, error codes, addresses, the PROXY header |
| Sockets | sockets.dfy | the raw connection and the raw listener that the wrapper drives |
| Bufio | bufio.dfy | the part of `bufio.Reader` the wrapper uses |
| ReaderCache | pool.dfy | `bufioReaderCache`, `newBufioReader`, `putBufioReader` |
| Server | server.dfy | the wait group and the `ParseProxyProtocol` flag of endlessServer |
| Splice | splice.dfy | the read path of endlessConn as values: one read (`ReadStep`), a run of reads (`Run`), and the no-loss/no-duplication results |
| Conn | conn.dfy | endlessConn |
| Listener | listener.dfy | endlessListener and the header read it performs |

How the model works:

- A raw connection is a fixed byte `stream` with a read position and a
  `closed` flag. How many bytes one read returns is not up to the caller, so
  `RawConn.Recv` picks a chunk size nondeterministically. `Splice.ReadStep`
  takes that chunk size as a parameter.
- Go's slice `b` is an array of length `cap(b)`, together with `blen`, the
  slice's length. That is what lets the model state the `b[:bn]` re-slice at
  conn.go:45.
- Each connection keeps ghost state for the proof:
  - `delivered`: everything Read has returned so far;
  - `headerLen`: the number of bytes the header parser consumed.
- `EndlessConn.Valid` keeps the no-loss, no-duplication invariant. While the
  socket is open, `delivered` followed by the bytes still unread (the buffered
  bytes, then the socket's) is exactly the stream after the header.
- The reader cache is valid when every cached reader is detached from its
  source and no reader is cached twice. Every operation that touches the cache
  keeps this. Because a connection's reader is attached to its socket, it is
  never in the cache, and the cache never hands one connection's reader to
  another.
- The wait-group counter carries a ghost set of the open connections it counts.
  The count always equals the size of that set, so it never goes negative.

The Go code and the comments beside it disagree in one place, and the model
follows the code: the test at conn.go:39 is the reverse of what the comments
at conn.go:37-38 and conn.go:42-44 describe. See "## Findings".

Three more consequences of the code that the model states:

- Readers reach the cache only through `Close` (conn.go:63-65). A reader
  that Read drops (conn.go:33 and conn.go:48) is never returned to the cache.

- At conn.go:46, `bufio.Reader.Read` never fails while it holds buffered
  bytes. So the branch that keeps the reader attached after an error cannot be
  reached, and `Splice.BufferRead` has no error case.
- Accept attaches the reader even when `ReadHeader` fails, and drops the
  parse error (listener.go:51-54).

## Model

| member | source | states |
|---|---|---|
| Conn.EndlessConn.RemoteAddr | conn.go:17-22 | the PROXY header's source address when a header was parsed, otherwise the socket's peer address; a function, so no state changes |
| Conn.EndlessConn.constructor | listener.go:55-65 | the connection wraps the given socket, server, header and reader and has delivered nothing yet |
| Conn.EndlessConn.Read | conn.go:24-55 | the read as written. Its effect is exactly `Splice.ReadStep(AsWritten, …)` on the connection's old state, with the socket's chunk choice `n`. The bytes returned are appended to `delivered`, the no-loss invariant is kept, a detached reader is never re-attached, and `b` beyond `n` is untouched |
| Conn.EndlessConn.ReadCorrected | conn.go:24-55 | the same read with the branch test of conn.go:39 reversed (`len(b) < bn`). Its effect is `Splice.ReadStep(Corrected, …)`, it needs no capacity precondition, and it returns at most `len(b)` bytes |
| Conn.EndlessConn.Close | conn.go:57-70 | the reader is detached. An attached reader is reset, with no source and no bytes, and appended to the cache exactly once. The socket is closed, and the close error is returned. The wait group drops by one exactly when the socket's close succeeded, and the connection leaves its live set. The cache stays valid |
| Conn.CloseTwice | conn.go:66-70 | two closes in a row: the second reports `Closed`, and the counter drops by at most one in total. It drops by one exactly when the socket was open |
| Splice.SocketRead | conn.go:52-54 | a direct read returns the socket's next bytes, no more than the slice's length, and removes them from what is pending. It fails exactly when the socket is closed (`Closed`) or has nothing left for a non-empty slice (`Eof`), returning nothing in that case, and otherwise makes progress |
| Splice.SocketReadMatches | conn.go:35 | the raw connection's read, `Sockets.RawConn.Read`, is an instance of `SocketRead` |
| Splice.BufferRead | conn.go:37-51 | a read from a non-empty buffer returns a prefix of the buffer, without touching the socket and without error, and loses nothing. It detaches the reader exactly when the variant's drain condition holds; otherwise the reader keeps the rest of the buffer |
| Splice.BufferReadMatches | conn.go:40-45 | what `bufio.Reader.Read` does to the caller's slice and to the buffer is an instance of `BufferRead` |
| Splice.ReadStep | conn.go:28-54 | one read: what it returns, followed by what is still unread afterwards, is what was unread before. Direct stays direct, the socket is untouched while a buffer stays attached, a closed direct connection returns nothing, and at most `cap(b)` bytes are returned |
| Splice.Run | conn.go:24-55 | any sequence of reads, up to the first one that would panic: everything returned, in order, followed by what is still unread, is what was unread at the start. The switch from buffered to direct never reverses |
| Splice.StepKeepsAligned | conn.go:24-55 | a read that loses and repeats nothing keeps the bytes delivered so far aligned with the stream after the header |
| Splice.DeliversBufferThenSocket | conn.go:28-54 | over any run of reads from a buffered start: while buffered, the output is a prefix of the buffer and the socket is untouched. Once direct, the output is the whole buffer followed by a prefix of the socket's bytes |
| Splice.DirectReadsOnlySocket | conn.go:52-54 | with no reader attached, a read is a plain socket read |
| Splice.EmptyBufferSwitchesToSocket | conn.go:29-36 | with a reader attached that holds nothing, the reader is dropped and the socket read instead, whatever the socket returns |
| Splice.AsWrittenServesWholeBuffer | conn.go:39-51 | as written, a non-empty buffer is returned whole, without error or socket access. The reader stays attached, now empty, when `bn < len(b)`, and is detached otherwise |
| Splice.AsWrittenOverrunsCallerSlice | conn.go:39-45 | as written, with 5 bytes buffered and a slice of length 2 and capacity 8, Read returns 5 bytes |
| Splice.CorrectedFitsCallerSlice | conn.go:37-45 | corrected, every read is admissible and returns at most `len(b)` bytes. From a non-empty buffer it returns as much as fits and detaches exactly when the buffer is used up |
| Sockets.RawConn.Recv | conn.go:53 | one read(2) of at most `max` bytes: it returns the socket's next bytes and removes them from what is pending. It fails with `Closed` on a closed socket and with `Eof` when nothing is left, returning nothing, and otherwise returns at least one byte for a non-zero `max`. How many it returns is the socket's choice |
| Sockets.RawConn.Read | conn.go:53 | a socket read delivers the next pending bytes into the slice and leaves the rest of the slice alone. It fails with `Closed` or `Eof` and then delivers nothing |
| Sockets.RawConn.Close | conn.go:66 | the socket is closed afterwards; the call fails with `Closed` exactly when it was already closed |
| Sockets.RawListener.AcceptTCP | listener.go:36 | a closed listener or a refused accept is an error with no connection. Otherwise it returns a fresh, open connection over the arriving stream |
| Sockets.RawListener.Close | listener.go:89 | the listener is closed afterwards and has received one more close call; the call fails exactly when it was already closed |
| Bufio.BufReader.constructor | listener.go:21 | a new reader is bound to its source and holds no bytes |
| Bufio.BufReader.Reset | listener.go:18 | the reader is rebound to the given source, which may be none, and forgets its buffered bytes |
| Bufio.BufReader.Buffered | conn.go:29 | the count is zero exactly when nothing is buffered, and never exceeds the buffer size |
| Bufio.BufReader.CopyOut | conn.go:40-45 | the part of `bufio.Reader.Read` that serves buffered bytes: it copies `min(len, buffered)` of them into the slice, drops them from the buffer, leaves the cells past `n` alone, and loses nothing |
| Bufio.BufReader.ReadSource | conn.go:40-45 | the part of `bufio.Reader.Read` for an empty buffer: one read of the source, with nothing lost and the cells past `n` untouched. The wrapper never takes this path, because conn.go reads through the reader only while it holds bytes |
| Bufio.BufReader.Read | conn.go:39-45 | nothing is lost or repeated. With bytes buffered it copies `min(len, buffered)` of them, drops them from the buffer, touches neither the source nor any cell past `n`, and returns no error |
| Bufio.BufReader.Fill | listener.go:50 | the bytes the source delivers are appended to the buffer, and nothing unread is lost |
| Bufio.BufReader.Skip | listener.go:50 | the first `k` buffered bytes are dropped |
| ReaderCache.ReaderPool.constructor | listener.go:14 | the cache starts empty |
| ReaderCache.ReaderPool.Get | listener.go:17 | the cache hands back nothing and is unchanged, or hands back one cached reader and removes it; that reader is detached and no longer cached. The cache stays valid: its readers are detached and none is cached twice |
| ReaderCache.ReaderPool.Put | listener.go:26 | the reader is appended to the cache |
| ReaderCache.NewBufioReader | listener.go:16-22 | the reader is bound to `r` with nothing buffered. It is either new, leaving the cache unchanged, or one reader taken out of the cache. Either way it is not cached afterwards, the cache stays valid, and every other cached reader keeps its source and bytes |
| ReaderCache.PutBufioReader | listener.go:24-27 | the reader is reset to no source and no bytes, and the cache grows by exactly that reader. A reader that was not cached keeps the cache valid |
| Server.WaitGroup.Add | listener.go:70 | the counter rises by one, and the new connection joins the live set |
| Server.WaitGroup.Done | conn.go:68 | the counter falls by one, and the connection leaves the live set |
| Listener.ReadProxyHeader | listener.go:47-54 | the parsing branch of Accept: the reader comes out of the cache or is new, is bound to the connection, and is no longer cached. The header is the parser's, any parse error is dropped, and the bytes after the header stay buffered with nothing lost. The cache stays valid, and every other cached reader is untouched |
| Conn.ReadSocket | conn.go:35 | the connection's socket read is exactly one `Splice.SocketRead`, with the returned count as the socket's choice |
| Listener.ReadHeader | listener.go:48-54 | the parser sees the bytes one read pulled. The header and error are the parser's own, and the bytes after what it consumed stay buffered |
| Listener.EndlessListener.constructor | listener.go:74-81 | the listener wraps the given socket and server and is not stopped |
| Listener.EndlessListener.Accept | listener.go:35-72 | accept errors are passed through: no connection, and the counter, live set and cache are unchanged. On success the counter rises by exactly one, and the connection is fresh and valid with nothing delivered. Without parsing it has no header and no reader, and the cache is unchanged. With parsing it has the parser's header (any parse error is dropped) and an attached reader holding the bytes after the header. That reader is either fresh, with the cache unchanged, or taken out of the cache, and it is not cached afterwards. The cache stays valid. On every path, the cached readers Accept did not take keep their source and bytes |
| Listener.EndlessListener.Close | listener.go:83-90 | the first call stops the listener, closes the socket once and returns that close's result. Every later call returns `Einval` without touching the socket. The listener stays stopped |
| Listener.AcceptThenCloseTwice | listener.go:35-72 | accepting a connection and then closing it twice leaves the wait-group counter where it started, and the second close is refused |
| Listener.AcceptTwo | listener.go:35-72 | two accepts in a row through one cache: the second never gets the first connection's reader. Both connections stay valid and open, and each adds one to the counter |
| Listener.CloseBoth | conn.go:57-70 | closing two open connections that share no socket and no reader keeps both valid and the cache valid. The counter drops by exactly two |

## Left out

- `endlessListener.File` (listener.go:92-97) is a dup(2) of the file descriptor, with no logic to model.
- The keep-alive settings (listener.go:41-42) and every `log` call are incidental I/O.
- Concurrency is not modelled. The mutex around `rd` is a no-op, `sync.Pool`'s thread safety is not modelled, and the model is sequential.
- The wait group's blocking `Wait` and the endlessServer supervisor are not part of this model. Only the counter is.
- The methods endlessConn inherits from `net.Conn` (Write, deadlines, LocalAddr) pass through to the socket and are not modelled.
- The parsing inside `ReadHeader` (listener.go:50) is not modelled. `Listener.ReadHeader` models its effect on the reader: the parser is a function parameter, `Listener.HeaderParser`, applied to what one read of the socket pulled into the buffer.
- Events and the network are parameters:
  - the kernel's accept result is a parameter of Accept (`Sockets.Arrival`);
  - each socket read picks its chunk size nondeterministically;
  - sync.Pool's choice of reader is nondeterministic.
- The reader cache is passed to the operations that use it, rather than being a global variable.
- `bufio.Reader` is modelled only as far as the wrapper uses it. Its sticky error, its refill loop for short reads and its `Peek` are left out.
- Conn.EndlessConn.Read: requires that `b[:bn]` at conn.go:45 is in range (`bn <= cap(b)` whenever the buffer is drained). Go panics otherwise, and the panic is not modelled.
- Splice.Run: stops at the first call whose `b[:bn]` would panic, instead of modelling the panic.
- Counts and lengths are unbounded integers, so Go's `int` overflow is not modelled; it cannot occur at these sizes. Bytes are a newtype bounded to 0..255.

## Findings

| source | as written | input that shows it | evidently intended | confidence | as-written member | corrected member |
|---|---|---|---|---|---|---|
| conn.go:39 | `if bn < len(b)` sends a read to the reader with the whole slice only when fewer bytes are buffered than requested, and otherwise re-slices to `b[:bn]` (conn.go:45). So a read with a slice shorter than the buffered count returns all `bn` bytes, more than `len(b)`. That breaks io.Reader's `n <= len(p)`, and Go panics when `bn > cap(b)` | 5 bytes buffered; `b` of length 2 and capacity 8: Read returns 5 | `if len(b) < bn`, as the comments at conn.go:37-38 and conn.go:42-44 say: a short read goes through the reader, which stays attached, and the buffer is drained only when it fits in `b` | not executed | Splice.AsWrittenOverrunsCallerSlice | Conn.EndlessConn.ReadCorrected |
