/** Several connections on one event loop and one buffer pool, and an input that makes a
    read run past its buffer. */
module Conns {
  import opened Words
  import opened Framing
  import opened IoBuf
  import opened BufPool
  import opened ReactorBuf
  import opened EventLoop
  import opened TcpConn

  predicate Differ(a: Buffer?, b: Buffer?) { a == null || a != b }

  /** Two connections of one loop and one pool that share no object of their own. */
  ghost predicate Beside(c: Conn, other: Conn)
    reads c.ibuf, c.obuf, other.ibuf, other.obuf
  {
    && c.loop == other.loop && c.fd != other.fd && c.ibuf.pool == other.ibuf.pool == c.obuf.pool == other.obuf.pool
    && c.ibuf !in {other.ibuf, other.obuf} && c.obuf !in {other.ibuf, other.obuf}
    && Differ(c.ibuf.buf, other.ibuf.buf) && Differ(c.ibuf.buf, other.obuf.buf)
    && Differ(c.obuf.buf, other.ibuf.buf) && Differ(c.obuf.buf, other.obuf.buf)
  }

  /** The objects that are a connection's own. */
  ghost function Own(c: Conn): (os: set<object>)
    reads c.ibuf, c.obuf
  {
    {c, c.ibuf, c.obuf}
    + (if c.ibuf.buf == null then {} else {c.ibuf.buf, c.ibuf.buf.data})
    + (if c.obuf.buf == null then {} else {c.obuf.buf, c.obuf.buf.data})
  }

  /** What an event of one connection may touch is nothing of another's own. */
  lemma OwnApart(c: Conn, other: Conn)
    requires c != other && c.Buffers() && other.Buffers() && Beside(c, other)
    ensures Own(other) !! {c, c.loop} + c.BufRepr()
  {
    hide ConnBuf.Valid, ConnBuf.Footprint, Pool.Ready;
    c.ibuf.Apart(other.ibuf);
    c.ibuf.Apart(other.obuf);
    c.obuf.Apart(other.ibuf);
    c.obuf.Apart(other.obuf);
    NoConn(c.ibuf, other);
    NoConn(c.obuf, other);
  }

  lemma NoConn(b: ConnBuf, c: Conn)
    ensures c !in b.Footprint()
  {}

  /** Nothing of the connection's own changed, its buffers are still held, and it is
      registered as it was. */
  twostate predicate Spared(c: Conn)
    reads c.ibuf, c.obuf, c.loop, c.ibuf.pool, Own(c)
  {
    && unchanged(c, c.ibuf, c.obuf)
    && (c.ibuf.buf != null ==> unchanged(c.ibuf.buf, c.ibuf.buf.data) && c.ibuf.buf in c.ibuf.pool.books.out)
    && (c.obuf.buf != null ==> unchanged(c.obuf.buf, c.obuf.buf.data) && c.obuf.buf in c.ibuf.pool.books.out)
    && (c.fd in c.loop.ioEvs <==> c.fd in old(c.loop.ioEvs))
    && (c.fd in c.loop.ioEvs ==> c.loop.ioEvs[c.fd] == old(c.loop.ioEvs)[c.fd])
  }

  /** Then it is as it was. */
  twostate lemma Untouched(c: Conn)
    requires old(c.Valid()) && c.ibuf.pool.Ready() && c.loop.Synced() && Spared(c)
    ensures c.Valid()
    ensures c.ibuf.Contents() == old(c.ibuf.Contents()) && c.obuf.Contents() == old(c.obuf.Contents())
  {
    hide Pool.Ready, ConnBuf.Valid, ConnBuf.Contents, ConnBuf.Footprint, ConnBuf.Aligned, Loop.Synced, Stream;
    c.ibuf.Undisturbed();
    c.obuf.Undisturbed();
  }

  /** What can happen at a connection. */
  datatype Action = Readable(need: nat, call: ReadCall) | Writable(script: seq<WriteCall>) | Sending(m: Message)

  predicate CanHappen(a: Action) { a.Readable? ==> Possible(a.need, a.call) }

  /** When the process lives through an action. */
  ghost predicate Survives(c: Conn, a: Action)
    requires c.Buffers()
    reads c, c.ibuf, c.obuf, c.ibuf.pool, c.obuf.pool, c.BufRepr()
  {
    match a
    case Readable(need, call) => c.ReadOutcome(need, call).Continues? || c.ReadOutcome(need, call).Ended?
    case Writable(script) => c.obuf.Contents() == [] || c.obuf.Aligned()
    case Sending(m) => c.obuf.Aligned() && !c.SendWouldExit(|m.body|)
  }

  /** What the action does at its connection: messages dispatched, bytes put on the wire, a
      message accepted. */
  twostate predicate Happened(c: Conn, a: Action)
    requires old(c.Buffers())
    reads c, c.ibuf, c.obuf, c.ibuf.pool, c.obuf.pool, c.BufRepr()
  {
    match a
    case Readable(need, call) =>
      old(c.ReadOutcome(need, call)).Continues? ==>
        call.ReadBytes?
        && c.dispatched == ReadChunk(Receiver(old(c.dispatched), old(c.ibuf.Contents()), Waiting), call.bytes).dispatched
    case Writable(script) =>
      c.wire == old(c.wire) + old(c.obuf.Contents())[..Written(|old(c.obuf.Contents())|, script)]
    case Sending(m) =>
      c.accepted == if Send(old(c.obuf.Contents()), m).ok then old(c.accepted) + [m] else old(c.accepted)
  }

  /** Whatever happens at one connection, and exactly as long as the process lives through
      it: it happens, and every other connection on the same loop and pool stays valid,
      with its buffers' contents, its registration and its history as they were, and still
      shares nothing. */
  method Handle(c: Conn, other: Conn, a: Action) returns (alive: bool)
    requires c != other && c.Valid() && c.open && other.Valid() && Beside(c, other) && CanHappen(a)
    modifies c, c.loop, c.BufRepr()
    ensures alive <==> old(Survives(c, a))
    ensures alive ==> c.Valid() && Happened(c, a)
    ensures alive ==> other.Valid() && Beside(c, other) && unchanged(other)
    ensures alive ==> other.ibuf.Contents() == old(other.ibuf.Contents())
                      && other.obuf.Contents() == old(other.obuf.Contents())
  {
    hide ConnBuf.Valid, ConnBuf.Contents, ConnBuf.Footprint, ConnBuf.Aligned, Conn.BufRepr, Pool.Ready, Loop.Synced, Stream;
    hide Survives, Happened;
    OwnApart(c, other);
    Holders(other);
    alive := Act(c, a);
    if alive {
      Holders(c);
      Untouched(other);
    }
  }

  /** One event; `alive` is false exactly when it ends the process. */
  method Act(c: Conn, a: Action) returns (alive: bool)
    requires c.Valid() && c.open && CanHappen(a)
    modifies c, c.loop, c.BufRepr()
    ensures alive <==> old(Survives(c, a))
    ensures alive ==> c.Valid() && c.Holding() && c.OthersWatched() && Happened(c, a)
  {
    hide ConnBuf.Valid, ConnBuf.Contents, ConnBuf.Footprint, ConnBuf.Aligned, Conn.Valid, Conn.BufRepr, Pool.Ready;
    hide Conn.ReadOutcome, Conn.SendWouldExit, ReadChunk, Send;
    c.Begins();
    match a
    case Readable(need, call) =>
      var o := c.DoRead(need, call);
      alive := o.Continues? || o.Ended?;
    case Writable(script) =>
      var o := c.DoWrite(script);
      alive := o.Continues? || o.Ended?;
    case Sending(m) =>
      var o := c.SendMessage(m);
      alive := o.Accepted? || o.Refused?;
  }

  lemma Holders(c: Conn)
    requires c.Buffers()
    ensures c.ibuf.pool.Ready()
    ensures c.ibuf.buf != null ==> c.ibuf.buf in c.ibuf.pool.books.out
    ensures c.obuf.buf != null ==> c.obuf.buf in c.ibuf.pool.books.out
  {
    hide Pool.Ready;
  }

  /** A read that runs past its buffer. On any open connection that holds no input, and
      below the memory limit, fewer bytes than a header arrive and stay behind; then the
      socket reports nothing, and what arrives of the 4096 bytes asked for does not fit. */
  method OverrunReached(c: Conn, first: Bytes, more: Bytes) returns (o1: Outcome, o2: Outcome)
    requires c.Valid() && c.open && c.ibuf.buf == null && c.ibuf.pool.totalMem + M4K / 1024 < MEM_LIMIT
    requires 0 < |first| < HEAD_LEN && |more| <= M4K < |first| + |more|
    modifies c, c.loop, c.BufRepr()
    ensures o1 == Continues && o2 == Overruns
  {
    hide ConnBuf.Valid, ConnBuf.Footprint, ConnBuf.Aligned, Conn.BufRepr, Pool.Ready, Loop.Synced, Stream, Books.Dry;
    DrainStops(first);
    assert [] + first == first;
    o1 := c.DoRead(|first|, ReadBytes(first));
    o2 := c.DoRead(0, ReadBytes(more));
  }
}
