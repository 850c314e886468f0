/** The buffer of one direction of a connection: at most one pool buffer at a time. */
module ReactorBuf {
  import opened Words
  import opened Framing
  import opened IoBuf
  import opened BufPool

  /** How making room for more bytes can end. */
  datatype Room = Ready | NoBuffer | ProcessExit

  /** What `read` reports: an error, or some bytes (none at end of stream). */
  datatype ReadCall = ReadError | ReadBytes(bytes: Bytes)

  /** How `read_data` ends: `Short` is the failed assertion when fewer bytes came than the
      socket had reported, `Overrun` the write past the buffer. */
  datatype ReadResult = Filled(n: nat) | Failed | Exited | Short | Overrun

  /** A read returns at most what it asked for: what the socket reported, or 4096 bytes. */
  predicate Possible(need: nat, call: ReadCall) {
    call.ReadBytes? ==> |call.bytes| <= (if need == 0 then M4K else need)
  }

  predicate ShortBy(need: nat, call: ReadCall) {
    call.ReadBytes? && 0 < |call.bytes| < need
  }

  /** The read that runs past its buffer: the socket reported nothing, so 4096 bytes are
      asked for whatever room is left behind the bytes already held. */
  predicate OverrunBy(need: nat, call: ReadCall, held: nat, length: nat) {
    need == 0 && call.ReadBytes? && held > 0 && held < length + |call.bytes|
  }

  class ConnBuf {
    const pool: Pool
    var buf: Buffer?

    ghost predicate Valid()
      reads this, pool, pool.books.nodes, buf
    {
      pool.Ready() && (buf != null ==> buf in pool.books.out && buf.Valid())
    }

    /** The window starts at the front of the array: the state between two events. */
    ghost predicate Aligned()
      reads this, buf
    {
      buf != null ==> buf.head == 0
    }

    ghost function Contents(): (bs: Bytes)
      requires Valid()
      reads this, pool, pool.books.nodes, buf, if buf == null then {} else {buf.data}
    {
      if buf == null then [] else buf.View()
    }

    /** The capacity of the pool buffer, 0 if there is none. */
    ghost function Held(): (cap: nat)
      reads this
    {
      if buf == null then 0 else buf.capacity
    }

    /** How making room for `need` more bytes must end. */
    ghost function RoomFor(need: nat): (s: Stage)
      requires Valid()
      reads this, pool, pool.books.nodes, buf, if buf == null then {} else {buf.data}
    {
      Fit(pool.books.Dry(), pool.totalMem, Held(), |Contents()|, need)
    }

    /** What an operation on this buffer may touch: itself, its pool buffer, and the
        free part of the pool. */
    ghost function Footprint(): (fp: set<object>)
      reads this, pool
    {
      {this, pool} + pool.books.nodes + (set b | b in pool.books.nodes :: b.data)
      + if buf == null then {} else {buf, buf.data}
    }

    constructor (pool: Pool)
      requires pool.Ready()
      ensures this.pool == pool && pool.Ready() && Valid() && buf == null && Contents() == []
    {
      hide Pool.Ready;
      this.pool := pool;
      buf := null;
      new;
      pool.Unaffected();
    }

    /** Another holder and its pool buffer lie outside the footprint. */
    lemma Apart(other: ConnBuf)
      requires Valid() && other != this && other.pool == pool && other.Valid()
      requires other.buf == null || other.buf != buf
      ensures other !in Footprint()
      ensures other.buf != null ==> other.buf !in Footprint() && other.buf.data !in Footprint()
    {
      hide Pool.Ready, Footprint;
      Inside(other);
      if other.buf != null { BufferApart(other.buf); }
    }

    /** No other connection buffer lies in the footprint. */
    lemma Inside(other: ConnBuf)
      requires other != this
      ensures other !in Footprint()
    {}

    lemma BufferApart(b: Buffer)
      requires Valid() && b in pool.books.out && b != buf
      ensures b !in Footprint() && b.data !in Footprint()
    {
      hide Pool.Ready, Books.Balanced;
      pool.IsBalanced();
      pool.books.HeldApart(b);
    }

    /** A holder whose own objects did not change is as it was. */
    twostate lemma Undisturbed()
      requires old(Valid()) && pool.Ready() && unchanged(this)
      requires buf != null ==> buf in pool.books.out && unchanged(buf) && unchanged(buf.data)
      ensures Valid() && Contents() == old(Contents()) && Aligned() == old(Aligned())
    {
      hide Pool.Ready;
    }

    lemma PoolReady()
      requires Valid()
      ensures pool.Ready() && (buf != null ==> buf in pool.books.out)
      ensures pool in Footprint() && this in Footprint()
      ensures buf != null ==> buf in Footprint() && buf.data in Footprint()
    {}

    /** When no buffer is large enough. */
    lemma FullMeans(need: nat)
      requires Valid()
      ensures RoomFor(need).Full? <==> |Contents()| + need > M8M
    {
      hide Pool.Ready, Books.Balanced;
      pool.IsBalanced();
    }

    lemma HeldIfAny()
      requires Valid() && buf != null
      ensures Held() > 0
    {
      hide Pool.Ready, Books.Balanced;
      pool.IsBalanced();
    }

    twostate lemma HeldKept()
      ensures buf == old(buf) ==> Held() == old(Held())
    {}

    /** The pool's largest class bounds the contents. */
    lemma Bounded()
      requires Valid()
      ensures |Contents()| <= M8M
    {}

    function Length(): (n: nat)
      requires Valid()
      reads this, pool, pool.books.nodes, buf, if buf == null then {} else {buf.data}
      ensures n == |Contents()| && (n > 0 ==> buf != null)
    {
      if buf == null then 0 else buf.length
    }

    /** The first `n` bytes at `data()`; no bytes may be read when there is no buffer. */
    method Peek(n: nat) returns (bs: Bytes)
      requires Valid() && n <= |Contents()|
      ensures bs == Contents()[..n]
    {
      bs := if buf == null then [] else buf.data[buf.head..buf.head + n];
    }

    /** `pop`: `ok` is the source's assertion; the process aborts when it is false. */
    method Pop(len: nat) returns (ok: bool)
      requires Valid()
      modifies this, pool, buf
      ensures Valid()
      ensures ok <==> old(buf) != null && len <= old(|Contents()|)
      ensures !ok ==> unchanged(this) && unchanged(pool) && Contents() == old(Contents())
      ensures ok ==> Contents() == old(Contents())[len..] && (Contents() == [] ==> buf == null)
      ensures pool.books.out == old(pool.books.out) - (if buf == null && old(buf) != null then {old(buf)} else {})
      ensures buf == null || (buf == old(buf) && (ok ==> buf.head == old(buf.head) + len))
      ensures Footprint() <= old(Footprint())
    {
      hide Pool.Ready, Footprint;
      if buf == null || len > buf.length { return false; }
      Advance(len);
      if buf.length == 0 {
        Clear();
      }
      return true;
    }

    method Advance(len: nat)
      requires Valid() && buf != null && len <= buf.length
      modifies buf
      ensures Valid() && Contents() == old(Contents())[len..] && buf.head == old(buf.head) + len
      ensures buf.length == |Contents()|
    {
      hide Pool.Ready, Books.Balanced;
      pool.IsBalanced();
      buf.Pop(len);
      pool.Unaffected();
    }

    /** `clear`: the pool buffer goes back. */
    method Clear()
      requires Valid()
      modifies this, pool, buf
      ensures Valid() && buf == null && Contents() == []
      ensures pool.books.out == old(pool.books.out) - {old(buf)}
      ensures Footprint() <= old(Footprint())
    {
      hide Pool.Ready, Books.Revert;
      if buf != null {
        pool.Revert(buf);
        buf := null;
      }
    }

    /** Makes room for `need` more bytes, moving the contents to a larger buffer if
        the present one is too small; nothing is lost either way. */
    method EnsureRoom(need: nat) returns (r: Room)
      requires Valid() && Aligned()
      modifies Footprint()
      ensures Valid() && Aligned() && Contents() == old(Contents())
      ensures r.NoBuffer? <==> |Contents()| + need > M8M
      ensures r.NoBuffer? <==> old(RoomFor(need)).Full?
      ensures r.ProcessExit? <==> old(RoomFor(need)).Spent?
      ensures r.Ready? ==> Fitted(Held(), pool.totalMem) == old(RoomFor(need))
      ensures r.Ready? ==> forall c | c > Held() :: c in pool.books.Dry() <==> c in old(pool.books.Dry())
      ensures r.Ready? ==> buf != null && |Contents()| + need <= buf.capacity
      ensures r.Ready? ==> buf == old(buf) || buf !in old(pool.books.out)
      ensures !r.Ready? ==> buf == old(buf)
      ensures need == 0 && old(buf) != null ==> r.Ready? && buf == old(buf)
      ensures fresh(Footprint() - old(Footprint()))
      ensures pool.books.out == old(pool.books.out) - {old(buf)} + (if buf == null then {} else {buf})
    {
      hide Pool.Ready, Books.Balanced, Books.Grow, Books.Take, Classes, Books.Dry;
      pool.IsBalanced();
      if buf == null {
        var a := pool.Alloc(need);
        match a
        case TooBig => return NoBuffer;
        case Exit => return ProcessExit;
        case Got(b) => buf := b;
      } else if buf.capacity - buf.length < need {
        r := Enlarge(need);
        return;
      }
      return Ready;
    }

    method Enlarge(need: nat) returns (r: Room)
      requires Valid() && Aligned() && buf != null && buf.capacity - buf.length < need
      modifies Footprint()
      ensures Valid() && Aligned() && buf != null && Contents() == old(Contents())
      ensures r.NoBuffer? <==> |Contents()| + need > M8M
      ensures r.ProcessExit? <==> old(RoomFor(need)).Spent?
      ensures r.Ready? ==> Fitted(Held(), pool.totalMem) == old(RoomFor(need))
      ensures r.Ready? ==> forall c | c > Held() :: c in pool.books.Dry() <==> c in old(pool.books.Dry())
      ensures r.Ready? ==> |Contents()| + need <= buf.capacity && buf !in old(pool.books.out)
      ensures !r.Ready? ==> buf == old(buf)
      ensures fresh(Footprint() - old(Footprint()))
      ensures pool.books.out == old(pool.books.out) - {old(buf)} + {buf}
    {
      hide Pool.Ready, Books.Revert, Classes, Books.Dry, SizeClass, Footprint;
      PoolReady();
      var a := AllocCopy(need + buf.length);
      match a
      case TooBig =>
        FootprintKept();
        return NoBuffer;
      case Exit =>
        FootprintKept();
        return ProcessExit;
      case Got(b) =>
        pool.Revert(buf);
        buf := b;
        FootprintMoved();
        return Ready;
    }

    twostate lemma FootprintKept()
      requires buf == old(buf) && pool.books.nodes == old(pool.books.nodes)
      ensures Footprint() == old(Footprint())
    {}

    /** The old buffer went back and the new one was free or is new. */
    twostate lemma FootprintMoved()
      requires buf != null && old(buf) != null && pool.books.nodes == old(pool.books.nodes) - {buf} + {old(buf)}
      requires buf in old(pool.books.nodes) || (fresh(buf) && fresh(buf.data))
      ensures fresh(Footprint() - old(Footprint()))
    {}

    /** Allocates a larger buffer and copies the contents into it. */
    method AllocCopy(n: nat) returns (a: Allocation)
      requires Valid() && buf != null && buf.length <= n
      modifies Footprint()
      ensures Valid() && unchanged(this) && Contents() == old(Contents()) && buf.head == old(buf.head)
      ensures a.TooBig? <==> n > M8M
      ensures !a.Got? ==> pool.books == old(pool.books)
      ensures a.Exit? <==> n <= M8M && SizeClass(n) in old(pool.books.Dry()) && old(pool.totalMem) + SizeClass(n) / 1024 >= MEM_LIMIT
      ensures a.Got? ==> pool.totalMem == old(pool.totalMem) + (if SizeClass(n) in old(pool.books.Dry()) then SizeClass(n) / 1024 else 0)
      ensures a.Got? ==> a.buf.capacity == SizeClass(n)
      ensures a.Got? ==> forall c | c != SizeClass(n) :: c in pool.books.Dry() <==> c in old(pool.books.Dry())
      ensures a.Got? ==>
                var b := a.buf;
                && b.Valid() && b.View() == Contents() && b.head == 0 && n <= b.capacity
                && b !in old(pool.books.out) && pool.books.out == old(pool.books.out) + {b}
                && pool.books.nodes == old(pool.books.nodes) - {b}
                && (b in old(pool.books.nodes) || (fresh(b) && fresh(b.data)))
    {
      hide Pool.Ready, Books.Balanced, Books.Grow, Books.Take, Classes, Books.Dry;
      pool.IsBalanced();
      a := pool.Alloc(n);
      if a.Got? {
        pool.IsBalanced();
        pool.books.DistinctArrays(a.buf, buf);
        a.buf.Copy(buf);
      }
    }

    /** `read_data`: `need` is what the socket reported as readable, `call` what the read
        returned. The bytes are appended, and each way to fail arises exactly when the
        source has it. */
    method ReadData(need: nat, call: ReadCall) returns (r: ReadResult)
      requires Valid() && Aligned() && Possible(need, call)
      modifies Footprint()
      ensures Valid() && Aligned()
      ensures r.Filled? ==> call.ReadBytes? && r.n == |call.bytes| && Contents() == old(Contents()) + call.bytes
      ensures r.Filled? ==> buf != null && old(RoomFor(need)) == Fitted(Held(), pool.totalMem)
      ensures !r.Filled? ==> Contents() == old(Contents())
      ensures r.Exited? <==> old(RoomFor(need)).Spent?
      ensures r.Failed? <==> old(RoomFor(need)).Full? || (old(RoomFor(need)).Fitted? && call.ReadError?)
      ensures r.Short? <==> old(RoomFor(need)).Fitted? && ShortBy(need, call)
      ensures r.Overrun? <==> OverrunBy(need, call, old(Held()), |old(Contents())|)
      ensures fresh(Footprint() - old(Footprint()))
      ensures buf == old(buf) || buf !in old(pool.books.out)
      ensures pool.books.out == old(pool.books.out) - {old(buf)} + (if buf == null then {} else {buf})
    {
      hide Pool.Ready, Books.Balanced, Classes, Fit, Books.Dry;
      var room := EnsureRoom(need);
      if room.NoBuffer? { return Failed; }
      if room.ProcessExit? { return Exited; }
      if call.ReadError? { return Failed; }
      if 0 < |call.bytes| < need { return Short; }
      pool.IsBalanced();
      if buf.length + |call.bytes| > buf.capacity { return Overrun; }
      buf.Append(call.bytes);
      return Filled(|call.bytes|);
    }

    /** `send_data`: appends to the contents; no buffer and the exit of the process arise
        exactly when the source has them. */
    method SendData(bytes: Bytes) returns (r: Room)
      requires Valid() && Aligned()
      modifies Footprint()
      ensures Valid() && Aligned()
      ensures r.Ready? ==> Contents() == old(Contents()) + bytes && buf != null
      ensures !r.Ready? ==> Contents() == old(Contents()) && buf == old(buf)
      ensures r.NoBuffer? <==> |old(Contents())| + |bytes| > M8M
      ensures r.ProcessExit? <==> old(RoomFor(|bytes|)).Spent?
      ensures r.Ready? ==> Fitted(Held(), pool.totalMem) == old(RoomFor(|bytes|))
      ensures r.Ready? ==> forall c | c > Held() :: c in pool.books.Dry() <==> c in old(pool.books.Dry())
      ensures fresh(Footprint() - old(Footprint()))
      ensures buf == old(buf) || buf !in old(pool.books.out)
      ensures pool.books.out == old(pool.books.out) - {old(buf)} + (if buf == null then {} else {buf})
    {
      hide Pool.Ready, Books.Balanced, Classes;
      r := EnsureRoom(|bytes|);
      if r.Ready? {
        pool.IsBalanced();
        buf.Append(bytes);
      }
    }

    /** `adjust` of the input buffer. */
    method Adjust()
      requires Valid()
      modifies buf, if buf == null then {} else {buf.data}
      ensures Valid() && Aligned() && Contents() == old(Contents())
    {
      hide Pool.Ready, Books.Balanced, Classes;
      if buf != null {
        pool.IsBalanced();
        buf.Adjust();
      }
    }

    /** `write2fd`: the socket takes the first `n` bytes, or all of them if there are
        fewer. The buffer is kept even when it becomes empty. */
    method WriteToFd(n: nat) returns (written: nat)
      requires Valid() && Aligned() && buf != null
      modifies buf, buf.data
      ensures Valid() && Aligned()
      ensures written == if n <= |old(Contents())| then n else |old(Contents())|
      ensures Contents() == old(Contents())[written..]
    {
      hide Pool.Ready, Books.Balanced, Classes;
      pool.IsBalanced();
      written := if n <= buf.length then n else buf.length;
      if written > 0 {
        buf.Pop(written);
        buf.Adjust();
      }
    }
  }
}
