/** What the wrapper needs of endlessServer (whose code is not part of this
    model): the wait group counting connections that are still open, and
    the flag that turns PROXY-protocol parsing on. */
module Server {
  import opened Sockets

  /** sync.WaitGroup as a counter. `live` names the raw connections the
      counter stands for; `count` always equals their number, so it can
      never go negative (Go's WaitGroup would panic if it did). */
  class WaitGroup {
    var count: int
    ghost var live: set<RawConn>

    ghost predicate Valid()
      reads this
    {
      count == |live|
    }

    constructor ()
      ensures Valid() && live == {} && count == 0
    {
      count := 0;
      live := {};
    }

    /** wg.Add(1) for a newly accepted connection. */
    method Add(ghost conn: RawConn)
      requires Valid() && conn !in live
      modifies this
      ensures Valid() && live == old(live) + {conn}
      ensures count == old(count) + 1
    {
      count := count + 1;
      live := live + {conn};
    }

    /** wg.Done() for a connection that has been closed. */
    method Done(ghost conn: RawConn)
      requires Valid() && conn in live
      modifies this
      ensures Valid() && live == old(live) - {conn}
      ensures count == old(count) - 1
    {
      count := count - 1;
      live := live - {conn};
    }
  }

  class EndlessServer {
    const wg: WaitGroup
    const parseProxyProtocol: bool

    constructor (parseProxyProtocol: bool)
      ensures fresh(wg) && wg.Valid() && wg.count == 0 && wg.live == {}
      ensures this.parseProxyProtocol == parseProxyProtocol
    {
      wg := new WaitGroup();
      this.parseProxyProtocol := parseProxyProtocol;
    }
  }
}
