/** Values shared by every part of the model: bytes, optional values,
    the error conditions the wrapper can report, addresses and the
    PROXY-protocol header the parser hands back. */
module Base {

  newtype byte = x: int | 0 <= x < 256

  datatype Option<T> = None | Some(value: T)

  /** Eof is io.EOF, Closed is net.ErrClosed ("use of closed network
      connection"), Einval is syscall.EINVAL; Other stands for any error
      the operating system reports that the wrapper only passes along. */
  datatype Error = Eof | Closed | Einval | Other(code: nat)

  datatype Addr = Addr(host: string, port: nat)

  /** The part of a parsed PROXY-protocol header the wrapper uses. */
  datatype Header = Header(srcAddr: Addr, dstAddr: Addr)

  function Min(a: nat, b: nat): nat
  {
    if a < b then a else b
  }

  lemma ConcatAssoc<T>(a: seq<T>, b: seq<T>, c: seq<T>)
    ensures (a + b) + c == a + (b + c)
  {
  }
}
