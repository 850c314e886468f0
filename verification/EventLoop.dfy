/** The registrations of one event loop and what the kernel watches for it. */
module EventLoop {

  datatype Bit = In | Out
  type Mask = set<Bit>

  /** A callback and its argument, by name. */
  type Handler = nat
  datatype Registered = Unset | Handled(h: Handler)

  datatype IoEvent = IoEvent(mask: Mask, onRead: Registered, onWrite: Registered)

  /** Each armed bit has its callback. */
  predicate Served(e: IoEvent) {
    && (In in e.mask ==> e.onRead.Handled?)
    && (Out in e.mask ==> e.onWrite.Handled?)
  }

  /** What a turn of the loop does with a descriptor. */
  datatype Turn = Runs(h: Handler) | CallsUnset | Drops

  function Call(r: Registered): (t: Turn) {
    if r.Handled? then Runs(r.h) else CallsUnset
  }

  /** `event_process` for one fired descriptor: reading comes before writing, and on an error
      alone whatever callback there is. */
  function Fires(e: IoEvent, readable: bool, writable: bool): (t: Turn) {
    if readable then Call(e.onRead)
    else if writable then Call(e.onWrite)
    else if e.onRead.Handled? then Call(e.onRead)
    else if e.onWrite.Handled? then Call(e.onWrite)
    else Drops
  }

  /** In step with their callbacks, a fired event that was asked for always runs one, the
      one of its kind; and only an error without callbacks drops the descriptor. */
  lemma FiresServed(e: IoEvent, readable: bool, writable: bool)
    requires Served(e) && (readable ==> In in e.mask) && (writable ==> Out in e.mask)
    ensures var t := Fires(e, readable, writable);
            && t != CallsUnset
            && (readable ==> t.Runs? && e.onRead == Handled(t.h))
            && (!readable && writable ==> t.Runs? && e.onWrite == Handled(t.h))
            && (t.Drops? <==> !readable && !writable && e.onRead.Unset? && e.onWrite.Unset?)
  {}

  class Loop {
    var ioEvs: map<int, IoEvent>
    var listenFds: set<int>
    /** What epoll was told. */
    var kernel: map<int, Mask>

    /** The three tables agree, and every armed bit has a callback. */
    ghost predicate Synced()
      reads this
    {
      && ioEvs.Keys == listenFds == kernel.Keys
      && (forall fd | fd in ioEvs :: ioEvs[fd].mask == kernel[fd] != {} && Served(ioEvs[fd]))
    }

    constructor ()
      ensures Synced() && ioEvs == map[]
    {
      ioEvs, listenFds, kernel := map[], {}, map[];
    }

    /** The event of a descriptor after `add_io_event`; only one of the two callbacks is
        stored, the read one when both bits are given. */
    static function Merged(e: IoEvent, h: Handler, mask: Mask): (merged: IoEvent) {
      var m := e.mask + mask;
      if In in mask then IoEvent(m, Handled(h), e.onWrite)
      else if Out in mask then IoEvent(m, e.onRead, Handled(h))
      else IoEvent(m, e.onRead, e.onWrite)
    }

    function Current(fd: int): (e: IoEvent)
      reads this
    {
      if fd in ioEvs then ioEvs[fd] else IoEvent({}, Unset, Unset)
    }

    /** `add_io_event`. The kernel refuses a new descriptor that is not open, and then
        the tables part: they stay in step if and only if the descriptor was known or
        is open, some bit is given, and a write bit comes alone or has its callback. The
        new callback serves reading if a read bit is given, otherwise writing; the other
        callback and the other descriptors are as before. */
    method AddIoEvent(fd: int, h: Handler, mask: Mask, isOpen: bool)
      modifies this
      ensures fd in ioEvs && ioEvs == old(ioEvs)[fd := ioEvs[fd]]
      ensures ioEvs[fd].mask == old(Current(fd)).mask + mask
      ensures ioEvs[fd].onRead == if In in mask then Handled(h) else old(Current(fd)).onRead
      ensures ioEvs[fd].onWrite == if In !in mask && Out in mask then Handled(h) else old(Current(fd)).onWrite
      ensures old(Synced()) ==>
                (Synced() <==>
                  && (fd in old(ioEvs) || (isOpen && mask != {}))
                  && (In in mask && Out in mask ==> old(Current(fd)).onWrite.Handled?))
    {
      var known := fd in ioEvs;
      var merged := Merged(Current(fd), h, mask);
      ioEvs := ioEvs[fd := merged];
      if (known && fd in kernel) || (!known && isOpen && fd !in kernel) {
        kernel := kernel[fd := merged.mask];
        listenFds := listenFds + {fd};
      }
      if old(Synced()) && Served(merged) && merged.mask != {} && (known || isOpen) {
        assert Synced();
      }
      if old(Synced()) && !known && !isOpen {
        assert fd in ioEvs && fd !in kernel;
      }
    }

    /** `del_io_event(fd)`. */
    method DelIoEvent(fd: int)
      modifies this
      ensures ioEvs == old(ioEvs) - {fd}
      ensures old(Synced()) ==> Synced()
    {
      ioEvs := ioEvs - {fd};
      listenFds := listenFds - {fd};
      kernel := kernel - {fd};
    }

    /** `del_io_event(fd, mask)`: a descriptor without bits left is dropped. */
    method DelIoEventMask(fd: int, mask: Mask)
      modifies this
      ensures ioEvs == if fd !in old(ioEvs) then old(ioEvs)
                       else if old(ioEvs)[fd].mask <= mask then old(ioEvs) - {fd}
                       else old(ioEvs)[fd := old(ioEvs)[fd].(mask := old(ioEvs)[fd].mask - mask)]
      ensures old(Synced()) ==> Synced()
    {
      if fd !in ioEvs { return; }
      var left := ioEvs[fd].mask - mask;
      assert left == {} <==> ioEvs[fd].mask <= mask by {
        if left == {} {
          forall b | b in ioEvs[fd].mask ensures b in mask { assert b !in left; }
        }
      }
      if left == {} {
        DelIoEvent(fd);
      } else {
        ioEvs := ioEvs[fd := ioEvs[fd].(mask := left)];
        if fd in kernel {
          kernel := kernel[fd := left];
        }
      }
    }
  }
}
