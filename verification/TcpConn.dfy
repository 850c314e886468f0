/** One TCP connection: the framing loop over its input buffer, the output buffer
    that feeds the socket, and the registration of its descriptor. */
module TcpConn {
  import opened Words
  import opened Framing
  import opened IoBuf
  import opened BufPool
  import opened ReactorBuf
  import opened EventLoop

  /** How handling an event ends: the connection goes on, it was closed, or the
      process is gone (a failed assertion, the memory limit, a write past a buffer). */
  datatype Outcome = Continues | Ended | AssertFails | Exits | Overruns

  /** How a send ends. */
  datatype SendOutcome = Accepted | Refused | SendAsserts | SendExits

  /** What one `write` reports: an error, or how many bytes the socket would take. */
  datatype WriteCall = WriteError | WriteTakes(n: nat)

  const READ_CALLBACK: Handler := 0
  const WRITE_CALLBACK: Handler := 1

  /** The bytes the socket takes before a write reports an error or takes none. */
  function Takes(script: seq<WriteCall>): (n: nat) {
    if script == [] || script[0].WriteError? || script[0].n == 0 then 0
    else script[0].n + Takes(script[1..])
  }

  /** The write that reports an error or takes none; a script that ends takes none. */
  function Stop(script: seq<WriteCall>): (c: WriteCall) {
    if script == [] then WriteTakes(0)
    else if script[0].WriteError? || script[0].n == 0 then script[0]
    else Stop(script[1..])
  }

  /** How much of `len` bytes the write loop gets rid of. */
  function Written(len: nat, script: seq<WriteCall>): (k: nat)
    ensures k <= len
  {
    if Takes(script) < len then Takes(script) else len
  }

  /** An error stops the write loop before everything is written. */
  predicate WriteFails(len: nat, script: seq<WriteCall>) {
    Takes(script) < len && Stop(script).WriteError?
  }

  /** Sending a message runs into the memory limit, at the header or at the body. */
  predicate SendSpends(dry: set<nat>, mem: nat, held: nat, length: nat, body: nat) {
    var s := Fit(dry, mem, held, length, HEAD_LEN);
    s.Spent? || (s.Fitted? && Fit(dry, s.mem, s.cap, length + HEAD_LEN, body).Spent?)
  }

  class Conn {
    const fd: int
    const loop: Loop
    const ibuf: ConnBuf
    const obuf: ConnBuf

    /** Observations: what was dispatched, which messages were accepted for sending,
        and what the socket has taken. */
    ghost var open: bool
    ghost var dispatched: seq<Message>
    ghost var accepted: seq<Message>
    ghost var wire: Bytes

    ghost function BufRepr(): (r: set<object>)
      reads ibuf, obuf, ibuf.pool, obuf.pool
    {
      ibuf.Footprint() + obuf.Footprint()
    }

    /** The two buffers belong to one pool and never hold the same pool buffer. */
    ghost predicate Buffers()
      reads ibuf, obuf, ibuf.pool, obuf.pool, BufRepr()
    {
      && ibuf != obuf && ibuf.pool == obuf.pool
      && ibuf.Valid() && obuf.Valid()
      && (ibuf.buf == null || ibuf.buf != obuf.buf)
    }

    /** The descriptor is watched for reading, and each armed bit has its own callback. */
    ghost predicate Watched()
      reads loop
    {
      && fd in loop.ioEvs && In in loop.ioEvs[fd].mask
      && loop.ioEvs[fd].onRead == Handled(READ_CALLBACK)
      && (Out in loop.ioEvs[fd].mask ==> loop.ioEvs[fd].onWrite == Handled(WRITE_CALLBACK))
    }

    /** A readable descriptor of an open connection runs its read handler; a writable one
        with something to write runs its write handler. */
    lemma HandlersRun()
      requires Valid() && open
      ensures fd in loop.ioEvs
      ensures Fires(loop.ioEvs[fd], true, false) == Fires(loop.ioEvs[fd], true, true) == Runs(READ_CALLBACK)
      ensures obuf.Contents() != [] ==> Fires(loop.ioEvs[fd], false, true) == Runs(WRITE_CALLBACK)
    {
      hide Pool.Ready, ConnBuf.Valid, ConnBuf.Contents, ConnBuf.Footprint;
    }

    /** While the connection is open its descriptor is watched for reading, and for
        writing exactly when there is something to write. */
    ghost predicate Armed()
      requires Buffers()
      reads this, loop, ibuf, obuf, ibuf.pool, obuf.pool, BufRepr()
    {
      && loop.Synced()
      && (open ==> Watched())
      && (open ==> (Out in loop.ioEvs[fd].mask <==> obuf.Contents() != []))
      && (!open ==> fd !in loop.ioEvs && ibuf.buf == null && obuf.buf == null)
    }

    /** No accepted byte is lost or reordered: it is on the wire or in the buffer. */
    ghost predicate Conserved()
      requires Buffers()
      reads this, ibuf, obuf, ibuf.pool, obuf.pool, BufRepr()
    {
      open && obuf.Aligned() ==> Stream(accepted) == wire + obuf.Contents()
    }

    ghost predicate Valid()
      reads this, loop, ibuf, obuf, ibuf.pool, obuf.pool, BufRepr()
    {
      && Buffers() && Armed() && Conserved()
      && ibuf.Aligned() && |ibuf.Contents()| <= MAX_LEFT
    }

    /** The connection and its loop are no part of the buffers. */
    lemma Separate()
      ensures this !in ibuf.Footprint() && loop !in ibuf.Footprint()
      ensures this !in obuf.Footprint() && loop !in obuf.Footprint()
    {}

    /** Of the output buffer only its own objects add to what the input buffer may touch. */
    lemma ReprParts()
      requires ibuf.pool == obuf.pool
      ensures BufRepr() == ibuf.Footprint() + {obuf} + (if obuf.buf == null then {} else {obuf.buf, obuf.buf.data})
    {}

    /** Changing the loop or the connection itself does not touch the buffers. */
    twostate lemma BuffersKept()
      requires old(Buffers()) && unchanged(ibuf, obuf, ibuf.pool) && unchanged(ibuf.pool.books.nodes)
      requires ibuf.buf != null ==> unchanged(ibuf.buf) && unchanged(ibuf.buf.data)
      requires obuf.buf != null ==> unchanged(obuf.buf) && unchanged(obuf.buf.data)
      ensures Buffers() && OutputKept()
      ensures ibuf.Contents() == old(ibuf.Contents()) && ibuf.Aligned() == old(ibuf.Aligned())
    {
      hide Pool.Ready, ConnBuf.Contents, ConnBuf.Aligned, ConnBuf.Footprint, BufRepr;
      ibuf.pool.Unaffected();
      ibuf.Undisturbed();
      obuf.Undisturbed();
    }

    /** Two buffers of one pool that hold nothing. */
    lemma BuffersEmpty()
      requires ibuf != obuf && ibuf.pool == obuf.pool && ibuf.pool.Ready() && ibuf.buf == null && obuf.buf == null
      ensures Buffers() && ibuf.Contents() == [] && obuf.Contents() == [] && ibuf.Aligned() && obuf.Aligned()
    {
      hide Pool.Ready;
    }

    /** A connection on a freshly accepted descriptor. */
    constructor (fd: int, loop: Loop, pool: Pool)
      requires pool.Ready() && loop.Synced() && fd !in loop.ioEvs
      modifies loop
      ensures Valid() && open && obuf.Aligned()
      ensures this.fd == fd && this.loop == loop && ibuf.pool == pool
      ensures ibuf.Contents() == [] && obuf.Contents() == [] && ibuf.buf == null && obuf.buf == null
      ensures dispatched == [] && accepted == [] && wire == []
    {
      hide Pool.Ready, ConnBuf.Footprint, ConnBuf.Valid, ConnBuf.Contents, ConnBuf.Aligned, BufRepr, Loop.Synced;
      this.fd, this.loop := fd, loop;
      var input := new ConnBuf(pool);
      var output := new ConnBuf(pool);
      ibuf, obuf := input, output;
      open, dispatched, accepted, wire := true, [], [], [];
      new;
      pool.Unaffected();
      BuffersEmpty();
      label before:
      loop.AddIoEvent(fd, READ_CALLBACK, {In}, true);
      BuffersKept@before();
    }

    /** The output side of the connection is as it was. */
    twostate predicate OutputKept()
      requires old(Buffers()) && Buffers()
      reads ibuf, obuf, ibuf.pool, obuf.pool, BufRepr()
    {
      && obuf.buf == old(obuf.buf)
      && obuf.Contents() == old(obuf.Contents())
      && obuf.Aligned() == old(obuf.Aligned())
    }

    /** What this connection does to the pool: whoever else holds a buffer keeps it, and a
        buffer this connection holds was its own or nobody's. */
    twostate predicate Holding()
      reads ibuf, obuf, ibuf.pool
    {
      var held := old(ibuf.pool.books.out);
      && (forall b | b in held :: b in ibuf.pool.books.out || b == old(ibuf.buf) || b == old(obuf.buf))
      && (ibuf.buf == null || ibuf.buf == old(ibuf.buf) || ibuf.buf == old(obuf.buf) || ibuf.buf !in held)
      && (obuf.buf == null || obuf.buf == old(ibuf.buf) || obuf.buf == old(obuf.buf) || obuf.buf !in held)
    }

    /** Other descriptors stay registered as they were. */
    twostate predicate OthersWatched()
      reads loop
    {
      forall f | f != fd ::
        (f in loop.ioEvs <==> f in old(loop.ioEvs)) && (f in loop.ioEvs ==> loop.ioEvs[f] == old(loop.ioEvs)[f])
    }

    method ReadIn(need: nat, call: ReadCall) returns (r: ReadResult)
      requires Buffers() && ibuf.Aligned() && Possible(need, call)
      modifies ibuf.Footprint()
      ensures Buffers() && ibuf.Aligned() && OutputKept() && Holding()
      ensures r.Filled? ==> call.ReadBytes? && r.n == |call.bytes| && ibuf.Contents() == old(ibuf.Contents()) + call.bytes
      ensures r.Exited? <==> old(ibuf.RoomFor(need)).Spent?
      ensures r.Failed? <==> old(ibuf.RoomFor(need)).Full? || (old(ibuf.RoomFor(need)).Fitted? && call.ReadError?)
      ensures r.Short? <==> old(ibuf.RoomFor(need)).Fitted? && ShortBy(need, call)
      ensures r.Overrun? <==> OverrunBy(need, call, old(ibuf.Held()), old(|ibuf.Contents()|))
      ensures r.Filled? ==> |ibuf.Contents()| <= M8M
      ensures r.Filled? ==> ibuf.buf != null && old(ibuf.RoomFor(need)) == Fitted(ibuf.Held(), ibuf.pool.totalMem)
      ensures fresh(ibuf.Footprint() - old(ibuf.Footprint()))
    {
      hide Pool.Ready, ConnBuf.Valid, ConnBuf.Contents, ConnBuf.Footprint, ConnBuf.Aligned, BufRepr;
      ibuf.Apart(obuf);
      obuf.PoolReady();
      r := ibuf.ReadData(need, call);
      ibuf.PoolReady();
      obuf.Undisturbed();
      ibuf.Bounded();
    }

    method DispatchIn() returns (end: End)
      requires Buffers()
      modifies this`dispatched, ibuf, ibuf.pool, ibuf.buf
      ensures Buffers() && OutputKept() && Holding() && (ibuf.buf == null || ibuf.buf == old(ibuf.buf))
      ensures ibuf.Footprint() <= old(ibuf.Footprint())
      ensures var d := Drain(old(ibuf.Contents()));
              && dispatched == old(dispatched) + d.msgs
              && end == d.end && (end == Waiting ==> ibuf.Contents() == d.rest)
    {
      hide Pool.Ready, ConnBuf.Valid, ConnBuf.Contents, ConnBuf.Footprint, ConnBuf.Aligned, BufRepr, Drain;
      obuf.PoolReady();
      var msgs;
      msgs, end := DispatchAll(ibuf);
      ibuf.PoolReady();
      obuf.Undisturbed();
      label drained:
      dispatched := dispatched + msgs;
      BuffersKept@drained();
    }

    method AdjustIn()
      requires Buffers()
      modifies ibuf.buf, if ibuf.buf == null then {} else {ibuf.buf.data}
      ensures Buffers() && ibuf.Aligned() && ibuf.Contents() == old(ibuf.Contents()) && OutputKept()
      ensures unchanged(ibuf) && ibuf.Footprint() == old(ibuf.Footprint())
    {
      hide Pool.Ready, ConnBuf.Valid, ConnBuf.Contents, ConnBuf.Footprint, ConnBuf.Aligned, BufRepr;
      ibuf.Apart(obuf);
      obuf.PoolReady();
      ibuf.PoolReady();
      ibuf.Adjust();
      ibuf.PoolReady();
      obuf.Undisturbed();
    }

    /** Closes the connection: the descriptor is dropped and both buffers go back. */
    method CleanConn()
      requires Buffers() && loop.Synced()
      modifies this`open, loop, ibuf, obuf, ibuf.pool, ibuf.buf, obuf.buf
      ensures Valid() && !open && Holding() && OthersWatched()
      ensures ibuf.pool.books.out == old(ibuf.pool.books.out) - {old(ibuf.buf)} - {old(obuf.buf)}
    {
      hide Pool.Ready, ConnBuf.Valid, ConnBuf.Contents, ConnBuf.Aligned, ConnBuf.Footprint, BufRepr, Stream;
      hide Buffers, Loop.Synced;
      loop.DelIoEvent(fd);
      open := false;
      BuffersKept();
      ClearBuffers();
      BuffersEmpty();
    }

    method ClearBuffers()
      requires Buffers()
      modifies ibuf, obuf, ibuf.pool, ibuf.buf, obuf.buf
      ensures ibuf != obuf && ibuf.pool == obuf.pool && ibuf.pool.Ready() && ibuf.buf == null && obuf.buf == null
      ensures ibuf.pool.books.out == old(ibuf.pool.books.out) - {old(ibuf.buf)} - {old(obuf.buf)}
    {
      hide Pool.Ready, ConnBuf.Valid, ConnBuf.Contents, ConnBuf.Footprint, BufRepr;
      obuf.PoolReady();
      ibuf.Clear();
      ibuf.PoolReady();
      obuf.Undisturbed();
      obuf.Clear();
      obuf.PoolReady();
    }

    /** What an event may rely on. */
    lemma Begins()
      requires Valid()
      ensures Buffers() && loop.Synced() && ibuf.Aligned()
    {
      hide Pool.Ready, ConnBuf.Valid, ConnBuf.Contents, ConnBuf.Footprint, ConnBuf.Aligned, Stream, Loop.Synced;
    }

    /** What a send may rely on. */
    lemma SendBegins()
      requires Valid()
      ensures Buffers() && loop.Synced()
      ensures open ==> Watched() && (Out in loop.ioEvs[fd].mask <==> obuf.Contents() != [])
      ensures open && obuf.Aligned() ==> Stream(accepted) == wire + obuf.Contents()
    {
      hide Pool.Ready, ConnBuf.Valid, ConnBuf.Contents, ConnBuf.Footprint, ConnBuf.Aligned, Stream, Loop.Synced;
    }

    /** The connection stays valid when only its input changed. */
    twostate lemma ReadKeepsValid()
      requires old(Valid()) && Buffers() && OutputKept() && unchanged(loop)
      requires unchanged(this`open, this`accepted, this`wire) && open
      requires ibuf.Aligned() && |ibuf.Contents()| <= MAX_LEFT
      ensures Valid()
    {
      hide Pool.Ready, ConnBuf.Valid, ConnBuf.Contents, ConnBuf.Footprint, ConnBuf.Aligned, Stream, Loop.Synced, BufRepr;
    }

    /** How a readable event must end: making room fails first, then the read, then the
        bytes decide. */
    ghost function ReadOutcome(need: nat, call: ReadCall): (o: Outcome)
      requires Buffers()
      reads this, ibuf, obuf, ibuf.pool, obuf.pool, BufRepr()
    {
      var room := ibuf.RoomFor(need);
      if room.Spent? then Exits
      else if room.Full? || call.ReadError? then Ended
      else if ShortBy(need, call) then AssertFails
      else if OverrunBy(need, call, ibuf.Held(), |ibuf.Contents()|) then Overruns
      else match ReadChunk(Receiver(dispatched, ibuf.Contents(), Waiting), call.bytes).end
        case Waiting => Continues
        case Closed => Ended
        case Aborted => AssertFails
    }

    /** A readable event. It ends as `ReadOutcome` says; and when the bytes decide, what was
        dispatched, what is left and whether the connection stays open is `ReadChunk`. */
    method DoRead(need: nat, call: ReadCall) returns (o: Outcome)
      requires Valid() && open && Possible(need, call)
      modifies this, loop, BufRepr()
      ensures o == old(ReadOutcome(need, call))
      ensures o.Continues? && ibuf.buf != null ==> old(ibuf.RoomFor(need)).Fitted? && ibuf.Held() == old(ibuf.RoomFor(need)).cap
      ensures call.ReadBytes? && !ShortBy(need, call) && !o.Exits? && !o.Overruns? ==>
                var rx := ReadChunk(Receiver(old(dispatched), old(ibuf.Contents()), Waiting), call.bytes);
                && dispatched == rx.dispatched
                && (o.Continues? <==> rx.end == Waiting)
                && (o.Ended? <==> rx.end == Closed)
                && (o.AssertFails? <==> rx.end == Aborted)
                && (o.Continues? ==> Valid() && open && ibuf.Contents() == rx.left && OutputKept())
      ensures o.Continues? ==> call.ReadBytes? && !ShortBy(need, call)
      ensures o.Ended? ==> Valid() && !open
      ensures o.Continues? || o.Ended? ==> Holding() && OthersWatched()
      ensures o.Continues? ==> fresh(BufRepr() - old(BufRepr()))
      ensures accepted == old(accepted) && wire == old(wire)
    {
      hide Pool.Ready, ConnBuf.Valid, ConnBuf.Contents, ConnBuf.Footprint, ConnBuf.Aligned, Stream, Drain, Loop.Synced;
      hide Valid, ConnBuf.RoomFor, ConnBuf.Held;
      Begins();
      Separate();
      ReprParts();
      ibuf.PoolReady();
      obuf.PoolReady();
      ibuf.FullMeans(need);
      var r := ReadIn(need, call);
      label read:
      ibuf.PoolReady();
      if r.Exited? { return Exits; }
      if r.Short? { return AssertFails; }
      if r.Overrun? { return Overruns; }
      o := HandleInput(r.Failed? || r.n == 0);
      if o.Continues? {
        ibuf.HeldKept@read();
        ReprParts();
        ReadKeepsValid();
      }
    }

    /** The rest of a readable event: close if nothing came, otherwise dispatch, and close,
        abort or move the rest forward. */
    method HandleInput(nothing: bool) returns (o: Outcome)
      requires Buffers() && loop.Synced()
      modifies this`dispatched, this`open, loop, ibuf, obuf, ibuf.pool, ibuf.buf, obuf.buf
      modifies if ibuf.buf == null then {} else {ibuf.buf.data}
      ensures nothing ==> o.Ended? && dispatched == old(dispatched)
      ensures o.Continues? || o.Ended? || o.AssertFails?
      ensures !nothing ==>
              var d := Drain(old(ibuf.Contents()));
              && dispatched == old(dispatched) + d.msgs
              && (o.Continues? <==> d.end == Waiting)
              && (o.Ended? <==> d.end == Closed)
              && (o.AssertFails? <==> d.end == Aborted)
              && (o.Continues? ==> Buffers() && ibuf.Aligned() && ibuf.Contents() == d.rest && |d.rest| <= MAX_LEFT)
      ensures o.Continues? ==> ibuf.buf == null || ibuf.buf == old(ibuf.buf)
      ensures o.Continues? ==> ibuf.Footprint() <= old(ibuf.Footprint())
      ensures o.Continues? ==> OutputKept() && unchanged(loop) && open == old(open)
      ensures o.Ended? ==> Valid() && !open && OthersWatched()
      ensures o.Continues? || o.Ended? ==> Holding()
    {
      hide Pool.Ready, ConnBuf.Valid, ConnBuf.Contents, ConnBuf.Footprint, ConnBuf.Aligned, Stream, Drain, Loop.Synced;
      if nothing {
        CleanConn();
        return Ended;
      }
      ibuf.PoolReady();
      var end := DispatchIn();
      if end == Aborted { return AssertFails; }
      if end == Closed {
        CleanConn();
        return Ended;
      }
      DrainBound(old(ibuf.Contents()));
      AdjustIn();
      return Continues;
    }

    /** The input side of the connection is as it was. */
    twostate predicate InputKept()
      requires old(Buffers()) && Buffers()
      reads ibuf, obuf, ibuf.pool, obuf.pool, BufRepr()
    {
      && ibuf.buf == old(ibuf.buf)
      && ibuf.Contents() == old(ibuf.Contents())
      && ibuf.Aligned() == old(ibuf.Aligned())
    }

    method SendOut(bytes: Bytes) returns (r: Room)
      requires Buffers() && obuf.Aligned()
      modifies obuf.Footprint()
      ensures Buffers() && obuf.Aligned() && InputKept() && Holding()
      ensures obuf.Contents() == if r.Ready? then old(obuf.Contents()) + bytes else old(obuf.Contents())
      ensures if r.Ready? then obuf.buf != null else obuf.buf == old(obuf.buf)
      ensures r.NoBuffer? <==> |old(obuf.Contents())| + |bytes| > M8M
      ensures r.ProcessExit? <==> old(obuf.RoomFor(|bytes|)).Spent?
      ensures r.Ready? ==> Fitted(obuf.Held(), obuf.pool.totalMem) == old(obuf.RoomFor(|bytes|))
      ensures r.Ready? ==> forall c | c > obuf.Held() :: c in obuf.pool.books.Dry() <==> c in old(obuf.pool.books.Dry())
      ensures fresh(obuf.Footprint() - old(obuf.Footprint()))
    {
      hide Pool.Ready, ConnBuf.Valid, ConnBuf.Contents, ConnBuf.Footprint, ConnBuf.Aligned, BufRepr;
      obuf.Apart(ibuf);
      ibuf.PoolReady();
      r := obuf.SendData(bytes);
      obuf.PoolReady();
      ibuf.Undisturbed();
    }

    /** Pops from the front of an aligned output buffer, which is then aligned only if
        nothing is left. */
    method PopOut(len: nat)
      requires Buffers() && obuf.buf != null && obuf.Aligned() && 0 < len <= |obuf.Contents()|
      modifies obuf, obuf.pool, obuf.buf
      ensures Buffers() && InputKept() && Holding()
      ensures obuf.Contents() == old(obuf.Contents())[len..]
      ensures obuf.Aligned() <==> obuf.Contents() == []
    {
      hide Pool.Ready, ConnBuf.Footprint, BufRepr;
      ibuf.PoolReady();
      var ok := obuf.Pop(len);
      obuf.PoolReady();
      ibuf.Undisturbed();
    }

    method WriteOut(n: nat) returns (written: nat)
      requires Buffers() && obuf.Aligned() && obuf.buf != null
      modifies obuf.buf, obuf.buf.data
      ensures Buffers() && obuf.Aligned() && InputKept()
      ensures written == if n <= |old(obuf.Contents())| then n else |old(obuf.Contents())|
      ensures obuf.Contents() == old(obuf.Contents())[written..]
    {
      hide Pool.Ready, ConnBuf.Valid, ConnBuf.Contents, ConnBuf.Footprint, ConnBuf.Aligned, BufRepr;
      obuf.Apart(ibuf);
      ibuf.PoolReady();
      obuf.PoolReady();
      written := obuf.WriteToFd(n);
      obuf.PoolReady();
      ibuf.Undisturbed();
    }

    /** The message runs into the memory limit. */
    ghost predicate SendWouldExit(body: nat)
      requires Buffers()
      reads this, ibuf, obuf, ibuf.pool, obuf.pool, BufRepr()
    {
      SendSpends(obuf.pool.books.Dry(), obuf.pool.totalMem, obuf.Held(), |obuf.Contents()|, body)
    }

    /** Header, then body, then the roll-back if the body finds no buffer. */
    method Enqueue(m: Message) returns (r: Room)
      requires Buffers() && obuf.Aligned()
      modifies obuf.Footprint()
      ensures r.ProcessExit? <==> old(SendWouldExit(|m.body|))
      ensures !r.ProcessExit? ==>
                var s := Send(old(obuf.Contents()), m);
                && Buffers() && InputKept() && Holding()
                && (r.Ready? <==> s.ok)
                && obuf.Contents() == s.obuf && obuf.Aligned() == s.aligned
    {
      hide Pool.Ready, ConnBuf.Valid, ConnBuf.Contents, ConnBuf.Footprint, ConnBuf.Aligned, BufRepr;
      hide Send, Frame, Header, ConnBuf.Held, Fit, Books.Dry;
      obuf.Bounded();
      SendParts(obuf.Contents(), m);
      obuf.FullMeans(HEAD_LEN);
      r := SendOut(Header(m.msgid, |m.body|));
      if !r.Ready? { return; }
      obuf.HeldIfAny();
      FitAgrees(old(obuf.pool.books.Dry()), obuf.pool.books.Dry(), obuf.pool.totalMem, obuf.Held(), |obuf.Contents()|, |m.body|);
      r := SendOut(m.body);
      if r.NoBuffer? {
        obuf.PoolReady();
        PopOut(HEAD_LEN);
      }
    }

    /** `send_message`: what it does to the output buffer is `Send`, and the write event
        is armed exactly while there is something to write. */
    method SendMessage(m: Message) returns (o: SendOutcome)
      requires Valid() && open
      modifies this, loop, BufRepr()
      ensures o.SendAsserts? <==> !old(obuf.Aligned())
      ensures o.SendExits? <==> old(obuf.Aligned()) && old(SendWouldExit(|m.body|))
      ensures o.Accepted? || o.Refused? ==>
                var s := Send(old(obuf.Contents()), m);
                && (o.Accepted? <==> s.ok)
                && Valid() && open && InputKept() && Holding() && OthersWatched()
                && obuf.Contents() == s.obuf && obuf.Aligned() == s.aligned
                && accepted == if s.ok then old(accepted) + [m] else old(accepted)
      ensures dispatched == old(dispatched) && wire == old(wire)
    {
      hide Pool.Ready, ConnBuf.Valid, ConnBuf.Contents, ConnBuf.Footprint, ConnBuf.Length, Stream, Send, SendSpends;
      hide Valid, Loop.Synced, Watched;
      SendBegins();
      if obuf.buf != null && obuf.buf.head != 0 { return SendAsserts; }
      Separate();
      var n := obuf.Length();
      SendMeans(accepted, wire, obuf.Contents(), m);
      var r := Enqueue(m);
      if r.ProcessExit? { return SendExits; }
      if r.NoBuffer? {
        SendKeepsValid();
        return Refused;
      }
      Accept(m, n == 0);
      SendKeepsValid();
      return Accepted;
    }

    /** The message counts as accepted, and the write event is armed if it was not. */
    method Accept(m: Message, first: bool)
      requires Buffers() && loop.Synced() && Watched()
      modifies this`accepted, loop
      ensures Buffers() && OutputKept() && InputKept() && accepted == old(accepted) + [m]
      ensures loop.Synced() && Watched() && OthersWatched()
      ensures Out in loop.ioEvs[fd].mask <==> first || Out in old(loop.ioEvs[fd].mask)
    {
      hide Pool.Ready, ConnBuf.Valid, ConnBuf.Contents, ConnBuf.Footprint, ConnBuf.Aligned, BufRepr;
      if first {
        loop.AddIoEvent(fd, WRITE_CALLBACK, {Out}, true);
      }
      accepted := accepted + [m];
      BuffersKept();
    }

    /** The connection stays valid when its output grew with what is armed and accepted. */
    twostate lemma SendKeepsValid()
      requires old(Valid()) && Buffers() && InputKept() && open && loop.Synced() && Watched()
      requires Out in loop.ioEvs[fd].mask <==> obuf.Contents() != []
      requires obuf.Aligned() ==> Stream(accepted) == wire + obuf.Contents()
      ensures Valid()
    {
      hide Pool.Ready, ConnBuf.Valid, ConnBuf.Contents, ConnBuf.Footprint, ConnBuf.Aligned, Stream, Loop.Synced, BufRepr, Watched;
    }

    /** The write loop: `script` is what the successive writes report; a socket that
        takes nothing ends the loop. */
    method Flush(script: seq<WriteCall>) returns (k: nat, failed: bool)
      requires Buffers() && obuf.Aligned()
      modifies obuf.buf, if obuf.buf == null then {} else {obuf.buf.data}
      ensures Buffers() && obuf.Aligned() && InputKept()
      ensures k == Written(|old(obuf.Contents())|, script) && obuf.Contents() == old(obuf.Contents())[k..]
      ensures failed <==> WriteFails(|old(obuf.Contents())|, script)
    {
      hide Pool.Ready, ConnBuf.Valid, ConnBuf.Contents, ConnBuf.Footprint, ConnBuf.Aligned, ConnBuf.Length, BufRepr;
      hide Takes, Stop, Written, WriteFails, Midway, Remains;
      ghost var was := obuf.Contents();
      ghost var len := |was|;
      WriteStarts(was, script);
      k := 0;
      var i := 0;
      while obuf.Length() > 0
        invariant Buffers() && obuf.Aligned() && InputKept() && unchanged(obuf)
        invariant 0 <= i <= |script| && k + |obuf.Contents()| == len
        invariant Remains(was, obuf.Contents(), k) && Midway(len, script, k, i)
        decreases obuf.Length()
      {
        var call := if i < |script| then script[i] else WriteTakes(0);
        if call.WriteError? || call.n == 0 {
          WriteStops(len, script, k, i);
          RemainsMeans(was, obuf.Contents(), k);
          return k, call.WriteError?;
        }
        WriteMoves(len, script, k, i);
        ghost var rest := obuf.Contents();
        var written := WriteOut(call.n);
        DropTwice(was, rest, k, written);
        k, i := k + written, i + 1;
      }
      WriteDone(len, script, i);
      RemainsMeans(was, obuf.Contents(), k);
      return k, false;
    }

    /** The write loop, with what it writes recorded. */
    method FlushToWire(script: seq<WriteCall>) returns (failed: bool)
      requires Buffers() && obuf.Aligned()
      modifies this`wire, obuf.buf, if obuf.buf == null then {} else {obuf.buf.data}
      ensures Buffers() && obuf.Aligned() && InputKept()
      ensures var was, k := old(obuf.Contents()), Written(|old(obuf.Contents())|, script);
              wire == old(wire) + was[..k] && obuf.Contents() == was[k..]
      ensures failed <==> WriteFails(|old(obuf.Contents())|, script)
    {
      hide Pool.Ready, ConnBuf.Valid, ConnBuf.Contents, ConnBuf.Footprint, ConnBuf.Aligned, BufRepr;
      var k;
      k, failed := Flush(script);
      label flushed:
      wire := wire + old(obuf.Contents())[..k];
      BuffersKept@flushed();
    }

    /** A writable event: some prefix of the buffer moves to the wire, and the write
        event is dropped once nothing is left. */
    method DoWrite(script: seq<WriteCall>) returns (o: Outcome)
      requires Valid() && open
      modifies this, loop, BufRepr()
      ensures o.AssertFails? <==> old(obuf.Contents()) != [] && !old(obuf.Aligned())
      ensures o.Continues? || o.Ended? || o.AssertFails?
      ensures o.Continues? ==>
                && Valid() && open && InputKept() && obuf.Aligned() == old(obuf.Aligned())
                && obuf.Contents() == old(obuf.Contents())[Written(|old(obuf.Contents())|, script)..]
      ensures o.Continues? || o.Ended? ==> Holding() && OthersWatched()
      ensures o.Ended? <==> old(obuf.Aligned()) && WriteFails(|old(obuf.Contents())|, script)
      ensures o.Ended? ==> Valid() && !open
      ensures !o.AssertFails? ==> wire == old(wire) + old(obuf.Contents())[..Written(|old(obuf.Contents())|, script)]
      ensures dispatched == old(dispatched) && accepted == old(accepted)
    {
      hide Pool.Ready, ConnBuf.Valid, ConnBuf.Contents, ConnBuf.Footprint, ConnBuf.Length, Stream, Loop.Synced;
      if obuf.Length() > 0 {
        if obuf.buf.head != 0 { return AssertFails; }
        Separate();
        obuf.PoolReady();
        ibuf.PoolReady();
        var failed := FlushToWire(script);
        if failed {
          CleanConn();
          return Ended;
        }
      }
      Disarm();
      return Continues;
    }

    /** Drops the write event when there is nothing left to write. */
    method Disarm()
      requires Buffers() && loop.Synced() && Watched()
      modifies loop
      ensures Buffers() && OutputKept() && InputKept() && OthersWatched()
      ensures loop.Synced() && Watched()
      ensures Out in loop.ioEvs[fd].mask <==> Out in old(loop.ioEvs)[fd].mask && obuf.Contents() != []
    {
      hide Pool.Ready, ConnBuf.Valid, ConnBuf.Contents, ConnBuf.Footprint, ConnBuf.Aligned, ConnBuf.Length, Loop.Synced;
      if obuf.Length() == 0 {
        loop.DelIoEventMask(fd, {Out});
      }
      BuffersKept();
    }
  }

  /** What one turn of the framing loop finds at the front of the input. */
  datatype Turn = Partial | BadHead | Took(m: Message, ok: bool)

  /** One turn of the loop; `ok` is false when the pop of the body fails its assertion. */
  method TakeFrame(b: ConnBuf) returns (t: Turn)
    requires b.Valid() && |b.Contents()| >= HEAD_LEN
    modifies b, b.pool, b.buf
    ensures b.Valid() && (b.buf == null || b.buf == old(b.buf))
    ensures b.pool.books.out == old(b.pool.books.out) - (if b.buf == null then {old(b.buf)} else {})
    ensures b.Footprint() <= old(b.Footprint())
    ensures var cur := old(b.Contents());
            && (t.BadHead? <==> BadHeader(cur))
            && (t.Partial? <==> Incomplete(cur))
            && (!t.Took? ==> b.Contents() == cur)
            && (t.Took? ==>
                  && t.m == Message(MsgId(cur), cur[HEAD_LEN..][..MsgLen(cur)])
                  && b.Contents() == cur[HEAD_LEN..][MsgLen(cur)..]
                  && (t.ok <==> |cur| > HEAD_LEN))
  {
    hide Pool.Ready, DecodeInt, ConnBuf.Footprint, ConnBuf.Valid, ConnBuf.Contents, ConnBuf.Length;
    var n := b.Length();
    var msgid, msglen := ReadHeader(b);
    if msglen > LENGTH_LIMIT || msglen < 0 { return BadHead; }
    if n < HEAD_LEN + msglen { return Partial; }
    var body, ok := TakeBody(b, msglen);
    return Took(Message(msgid, body), ok);
  }

  /** The two fields of the header at the front. */
  method ReadHeader(b: ConnBuf) returns (msgid: Int32, msglen: Int32)
    requires b.Valid() && |b.Contents()| >= HEAD_LEN
    ensures b.Valid() && unchanged(b) && b.Contents() == old(b.Contents()) && b.Footprint() == old(b.Footprint())
    ensures msgid == MsgId(b.Contents()) && msglen == MsgLen(b.Contents())
  {
    hide Pool.Ready, DecodeInt;
    var head := b.Peek(HEAD_LEN);
    HeaderOfPrefix(b.Contents());
    return MsgId(head), MsgLen(head);
  }

  /** The header goes, then the body, which is copied before. The second pop fails its
      assertion when the first one emptied the buffer. */
  method TakeBody(b: ConnBuf, len: nat) returns (body: Bytes, ok: bool)
    requires b.Valid() && HEAD_LEN + len <= |b.Contents()|
    modifies b, b.pool, b.buf
    ensures b.Valid() && (b.buf == null || b.buf == old(b.buf))
    ensures b.pool.books.out == old(b.pool.books.out) - (if b.buf == null then {old(b.buf)} else {})
    ensures b.Footprint() <= old(b.Footprint())
    ensures body == old(b.Contents())[HEAD_LEN..][..len] && b.Contents() == old(b.Contents())[HEAD_LEN..][len..]
    ensures ok <==> old(|b.Contents()|) > HEAD_LEN
  {
    hide Pool.Ready, ConnBuf.Footprint;
    ok := b.Pop(HEAD_LEN);
    body := b.Peek(len);
    ok := b.Pop(len);
  }

  /** The framing loop: dispatches what `Drain` says of the buffered bytes. */
  method DispatchAll(b: ConnBuf) returns (msgs: seq<Message>, end: End)
    requires b.Valid()
    modifies b, b.pool, b.buf
    ensures b.Valid() && (b.buf == null || b.buf == old(b.buf))
    ensures b.pool.books.out == old(b.pool.books.out) - (if b.buf == null then {old(b.buf)} else {})
    ensures b.Footprint() <= old(b.Footprint())
    ensures var d := Drain(old(b.Contents()));
            msgs == d.msgs && end == d.end && (end == Waiting ==> b.Contents() == d.rest)
  {
    hide *;
    ghost var start := b.Contents();
    msgs := [];
    var n := b.Length();
    while n >= HEAD_LEN
      invariant b.Valid() && n == |b.Contents()|
      invariant b.buf == null || b.buf == old(b.buf)
      invariant b.pool.books.out == old(b.pool.books.out) - (if b.buf == null then {old(b.buf)} else {})
      invariant b.Footprint() <= old(b.Footprint())
      invariant var d := Drain(b.Contents());
                Drain(start) == Drained(msgs + d.msgs, d.rest, d.end)
      decreases n
    {
      ghost var cur := b.Contents();
      var t := TakeFrame(b);
      match t
      case BadHead =>
        DrainStops(cur);
        return msgs, Closed;
      case Partial =>
        DrainStops(cur);
        return msgs, Waiting;
      case Took(m, ok) =>
        DrainStep(cur);
        msgs := msgs + [m];
        if !ok { return msgs, Aborted; }
        n := b.Length();
    }
    DrainStops(b.Contents());
    return msgs, Waiting;
  }

  /** After i writes of the script k bytes are written, and all were needed. */
  ghost predicate Midway(len: nat, script: seq<WriteCall>, k: nat, i: nat) {
    && i <= |script| && k <= len
    && (k < len ==> Takes(script) == k + Takes(script[i..]) && Stop(script) == Stop(script[i..]))
    && (k == len ==> Takes(script) >= k)
  }

  lemma WriteStarts(was: Bytes, script: seq<WriteCall>)
    ensures Midway(|was|, script, 0, 0) && Remains(was, was, 0)
  {
    assert script[0..] == script;
  }

  lemma WriteMoves(len: nat, script: seq<WriteCall>, k: nat, i: nat)
    requires Midway(len, script, k, i) && k < len && i < |script| && script[i].WriteTakes? && script[i].n > 0
    ensures Midway(len, script, k + (if script[i].n <= len - k then script[i].n else len - k), i + 1)
  {
    TakesNext(script, i);
  }

  lemma WriteStops(len: nat, script: seq<WriteCall>, k: nat, i: nat)
    requires Midway(len, script, k, i) && k < len
    requires i < |script| ==> script[i].WriteError? || script[i].n == 0
    ensures k == Written(len, script)
    ensures WriteFails(len, script) <==> i < |script| && script[i].WriteError?
  {
    TakesNext(script, i);
  }

  lemma WriteDone(len: nat, script: seq<WriteCall>, i: nat)
    requires Midway(len, script, len, i)
    ensures Written(len, script) == len && !WriteFails(len, script)
  {}

  /** One more write of the script. */
  lemma TakesNext(script: seq<WriteCall>, i: nat)
    requires i <= |script|
    ensures i == |script| ==> Takes(script[i..]) == 0 && Stop(script[i..]) == WriteTakes(0)
    ensures i < |script| && script[i].WriteTakes? && script[i].n > 0 ==>
              Takes(script[i..]) == script[i].n + Takes(script[i + 1..]) && Stop(script[i..]) == Stop(script[i + 1..])
    ensures i < |script| && (script[i].WriteError? || script[i].n == 0) ==>
              Takes(script[i..]) == 0 && Stop(script[i..]) == script[i]
  {
    if i < |script| { assert script[i..][1..] == script[i + 1..]; }
  }

  /** What is left of some bytes when k are gone. */
  ghost predicate Remains(was: Bytes, rest: Bytes, k: nat) { k <= |was| && rest == was[k..] }

  lemma RemainsMeans(was: Bytes, rest: Bytes, k: nat)
    requires Remains(was, rest, k)
    ensures k <= |was| && rest == was[k..]
  {}

  lemma DropTwice(was: Bytes, rest: Bytes, k: nat, n: nat)
    requires Remains(was, rest, k) && n <= |rest|
    ensures Remains(was, rest[n..], k + n)
  {}

  /** What a send keeps of the account between accepted messages, wire and buffer. */
  lemma SendMeans(accepted: seq<Message>, wire: Bytes, obuf: Bytes, m: Message)
    requires Stream(accepted) == wire + obuf
    ensures var s := Send(obuf, m);
            && (s.ok ==> s.obuf != [] && s.aligned && Stream(accepted + [m]) == wire + s.obuf)
            && (!s.ok ==> (s.obuf == [] <==> obuf == []) && (s.aligned ==> s.obuf == obuf))
  {
    hide Stream, Header;
    StreamSnoc(accepted, m);
    assert wire + obuf + Frame(m) == wire + (obuf + Frame(m));
  }

  /** A send in its parts: header, body, and the roll-back. */
  lemma SendParts(obuf: Bytes, m: Message)
    ensures var head, s := Header(m.msgid, |m.body|), Send(obuf, m);
            && |head| == HEAD_LEN
            && (|obuf| + |head| > M8M ==> s == Sent(obuf, false, true))
            && (|obuf| + |head| <= M8M < |obuf| + |head| + |m.body| ==>
                  s == Sent((obuf + head)[HEAD_LEN..], false, obuf == []))
            && (|obuf| + |head| + |m.body| <= M8M ==> s == Sent(obuf + head + m.body, true, true))
  {
    assert obuf + Frame(m) == obuf + Header(m.msgid, |m.body|) + m.body;
  }

  lemma HeaderOfPrefix(bs: Bytes)
    requires |bs| >= HEAD_LEN
    ensures MsgId(bs[..HEAD_LEN]) == MsgId(bs) && MsgLen(bs[..HEAD_LEN]) == MsgLen(bs)
  {}

  lemma DrainStops(bs: Bytes)
    ensures BadHeader(bs) ==> Drain(bs) == Drained([], [], Closed)
    ensures Incomplete(bs) || |bs| < HEAD_LEN ==> Drain(bs) == Drained([], bs, Waiting)
  {}

  lemma DrainStep(bs: Bytes)
    requires |bs| >= HEAD_LEN && !BadHeader(bs) && !Incomplete(bs)
    ensures HEAD_LEN + MsgLen(bs) <= |bs| && 0 <= MsgLen(bs) <= LENGTH_LIMIT
    ensures var m: Message := Message(MsgId(bs), bs[HEAD_LEN..][..MsgLen(bs)]);
            var d := Drain(bs[HEAD_LEN..][MsgLen(bs)..]);
            Drain(bs) == if |bs| == HEAD_LEN then Drained([m], [], Aborted)
                         else Drained([m] + d.msgs, d.rest, d.end)
    ensures |bs[HEAD_LEN..][MsgLen(bs)..]| < |bs|
  {
    hide DecodeInt;
    var n := HEAD_LEN + MsgLen(bs);
    assert bs[HEAD_LEN..][..MsgLen(bs)] == bs[HEAD_LEN..n];
    assert bs[HEAD_LEN..][MsgLen(bs)..] == bs[n..];
  }
}
