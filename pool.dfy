/** The process-wide cache of buffered readers (listener.go,
    bufioReaderCache with newBufioReader and putBufioReader). The cache is
    a sync.Pool: Get may hand back any cached reader, or nothing at all
    even when readers are cached. */
module ReaderCache {
  import opened Base
  import opened Sockets
  import opened Bufio

  class ReaderPool {
    var items: seq<BufReader>

    /** Cached readers are detached from every source, and no reader is
        cached twice. Only putBufioReader fills the cache, and it resets
        the reader first, so a reader still attached to a connection is
        never among them. */
    ghost predicate Valid()
      reads this, items
    {
      (forall i :: 0 <= i < |items| ==> items[i].src == null) &&
      (forall i, j :: 0 <= i < j < |items| ==> items[i] != items[j])
    }

    constructor ()
      ensures Valid() && items == []
    {
      items := [];
    }

    /** sync.Pool.Get: either nothing, or one cached reader, which leaves
        the cache. Which of these happens is not up to the caller. */
    method Get() returns (br: BufReader?)
      requires Valid()
      modifies this
      ensures Valid()
      ensures br == null ==> items == old(items)
      ensures br != null ==>
        exists i :: 0 <= i < |old(items)| && br == old(items)[i] && items == old(items)[..i] + old(items)[i + 1..]
      ensures br != null ==> br.src == null && br !in items
    {
      var i: nat :| i <= |items|;
      if i == |items| {
        return null;
      }
      br := items[i];
      RemoveKeepsDistinct(items, i);
      items := items[..i] + items[i + 1..];
    }

    /** sync.Pool.Put. */
    method Put(br: BufReader)
      requires Valid() && br.src == null && br !in items
      modifies this
      ensures Valid() && items == old(items) + [br]
    {
      items := items + [br];
    }
  }

  /** newBufioReader: a reader bound to `r` that holds no bytes, recycled
      from the cache when the cache hands one back and new otherwise. */
  method NewBufioReader(pool: ReaderPool, r: RawConn) returns (br: BufReader)
    requires pool.Valid()
    modifies pool, pool.items
    ensures pool.Valid() && br !in pool.items
    ensures br.src == r && br.buf == []
    ensures fresh(br) ==> pool.items == old(pool.items)
    ensures !fresh(br) ==>
      exists i :: 0 <= i < |old(pool.items)| && br == old(pool.items)[i] && pool.items == old(pool.items)[..i] + old(pool.items)[i + 1..]
    ensures forall x :: x in old(pool.items) && x != br ==> x.src == old(x.src) && x.buf == old(x.buf)
  {
    var cached := pool.Get();
    if cached != null {
      cached.Reset(r);
      return cached;
    }
    br := new BufReader(r);
  }

  /** putBufioReader: unbind `br` from its source, forget its bytes, and
      cache it; the cache grows by exactly that reader. */
  method PutBufioReader(pool: ReaderPool, br: BufReader)
    requires pool.Valid() && br !in pool.items
    modifies pool, br
    ensures pool.Valid()
    ensures br.src == null && br.buf == []
    ensures pool.items == old(pool.items) + [br]
  {
    br.Reset(null);
    pool.Put(br);
  }

  /** Taking one element out of a sequence without repeats leaves a
      sequence without repeats that no longer holds it. */
  lemma RemoveKeepsDistinct<T>(s: seq<T>, i: nat)
    requires i < |s| && forall a, b :: 0 <= a < b < |s| ==> s[a] != s[b]
    ensures var t := s[..i] + s[i + 1..];
      s[i] !in t && forall a, b :: 0 <= a < b < |t| ==> t[a] != t[b]
  {
    var t := s[..i] + s[i + 1..];
    forall a | 0 <= a < |t|
      ensures t[a] == s[if a < i then a else a + 1]
    {
    }
  }
}
